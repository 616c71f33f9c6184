/** The protocol around RemoteControl: connection threads construct, use and destroy observers, the main
    thread reports the door, and one worker runs what they push. Constructors and destructors wait until
    the worker has run the item they pushed. */
module RemoteControl {
  import opened Bytes
  import opened Text
  import opened LightControl
  import opened Worker = ActiveObject

  /** What a payload pushes, if anything. */
  function CommandFor(o: Observer, payload: string): Option<Command> {
    if payload == "get_status" then Some(NotifyOne(o))
    else
      var split := Split(payload, '|');
      if |split| != 2 then None
      else if split[0] == "light_override" then Some(Command.LightOverride(split[1] == "1"))
      else if split[0] == "coverage_always_on" then Some(Command.CoverageAlwaysOn(split[1] == "1"))
      else None
  }

  /** A name, one bar, and a value that is on only when it is "1". */
  ghost predicate Sets(payload: string, name: string, v: bool) {
    exists x: string :: '|' !in x && payload == name + "|" + x && v == (x == "1")
  }

  lemma SetsIffTwoParts(payload: string, name: string, v: bool)
    requires '|' !in name
    ensures Sets(payload, name, v) <==>
      var split := Split(payload, '|'); |split| == 2 && split[0] == name && v == (split[1] == "1")
  {
    var split := Split(payload, '|');
    if Sets(payload, name, v) {
      var x: string :| '|' !in x && payload == name + "|" + x && v == (x == "1");
      assert Join([name, x], '|') == name + ['|'] + x;
      SplitJoin([name, x], '|');
    }
    if |split| == 2 && split[0] == name {
      JoinSplit(payload, '|');
      FieldsAreFree(payload, '|');
      assert '|' !in split[1] && payload == name + "|" + split[1];
    }
  }

  lemma NoBar()
    ensures Split("get_status", '|') == ["get_status"]
  {
    SplitPrefix("get_status", [], '|');
  }

  /** What each payload does, by its text alone: every other payload is ignored. */
  lemma PayloadsUnderstood(o: Observer, payload: string, v: bool)
    ensures CommandFor(o, payload) == Some(Command.LightOverride(v)) <==> Sets(payload, "light_override", v)
    ensures CommandFor(o, payload) == Some(Command.CoverageAlwaysOn(v)) <==> Sets(payload, "coverage_always_on", v)
    ensures CommandFor(o, payload) == Some(NotifyOne(o)) <==> payload == "get_status"
    ensures CommandFor(o, payload) == None || CommandFor(o, payload).value in
      {NotifyOne(o), Command.LightOverride(true), Command.LightOverride(false),
       Command.CoverageAlwaysOn(true), Command.CoverageAlwaysOn(false)}
  {
    SetsIffTwoParts(payload, "light_override", v);
    SetsIffTwoParts(payload, "coverage_always_on", v);
    if payload == "get_status" {
      NoBar();
    }
  }

  /** An observer and its active object. Between its two halves a constructor or destructor waits. */
  class RemoteControl {
    const mCameraAndLightControl: ActiveObject<Command>
    const self: Observer

    constructor (iCameraAndLightControl: ActiveObject<Command>, self: Observer)
      modifies iCameraAndLightControl
      ensures mCameraAndLightControl == iCameraAndLightControl && this.self == self
      ensures iCameraAndLightControl.Snapshot() == Pushed(old(iCameraAndLightControl.Snapshot()), Work(Attach(self)))
    {
      mCameraAndLightControl, this.self := iCameraAndLightControl, self;
      new;
      iCameraAndLightControl.DoPush(Work(Attach(self)));
    }

    method BeginDestruction()
      modifies mCameraAndLightControl
      ensures mCameraAndLightControl.Snapshot() ==
        Pushed(old(mCameraAndLightControl.Snapshot()), Work(Detach(self)))
    {
      mCameraAndLightControl.DoPush(Work(Detach(self)));
    }

    /** operator(): the call for each message received. */
    method Receive(iPayload: string)
      modifies mCameraAndLightControl
      ensures var command, before := CommandFor(self, iPayload), old(mCameraAndLightControl.Snapshot());
        mCameraAndLightControl.Snapshot() == if command.Some? then Pushed(before, Work(command.value)) else before
    {
      if iPayload == "get_status" {
        mCameraAndLightControl.DoPush(Work(NotifyOne(self)));
        return;
      }
      var wSplit := Split(iPayload, '|');
      if |wSplit| == 2 {
        var wValue := wSplit[1] == "1";
        if wSplit[0] == "light_override" {
          mCameraAndLightControl.DoPush(Work(Command.LightOverride(wValue)));
        } else if wSplit[0] == "coverage_always_on" {
          mCameraAndLightControl.DoPush(Work(Command.CoverageAlwaysOn(wValue)));
        }
      }
    }
  }

  /** Where an object is in its life. Attaching and Detaching are the waits of the constructor and of the
      destructor, Attached and Detached the same with the flag set and the waiter not yet awake. An object
      that is in no phase does not exist; its address can be used again. */
  datatype Phase = Attaching | Attached | Live | Detaching | Detached

  /** listening: the objects that belong to an accepted connection and have it as their sender. The server's
      own object and the one of the connection still to be accepted have none.
      stuck: the worker waits for the mutex it holds itself. control is then what it was before the item
      under way. */
  datatype System = System(
    active: Queue<Command>, control: Control, phases: map<Observer, Phase>, listening: set<Observer>, stuck: bool)

  const START := System(Empty(), INITIAL, map[], {}, false)

  datatype Step =
    | Construct(o: Observer)
    | ConstructorReturns(o: Observer)
    | Listen(o: Observer)
    | Payload(o: Observer, text: string)
    | Destruct(o: Observer)
    | DestructorReturns(o: Observer)
    | Door(value: bool)
    | StopWorker
    | Turn
    | TurnLocksUp(o: Observer)

  predicate InPhase(s: System, o: Observer, p: Phase) {
    o in s.phases && s.phases[o] == p
  }

  /** A status for o goes out: its weak pointer to the sender is set and, the destructor not having begun,
      not expired. While it sends, the worker holds a reference to the connection. */
  predicate CanSend(s: System, o: Observer) {
    InPhase(s, o, Live) && o in s.listening
  }

  /** The item in front updates o. */
  predicate Updates(s: System, o: Observer)
    requires CanWork(s.active)
  {
    var front := s.active.queue[0];
    front.Work? &&
    if front.item.NotifyOne? then front.item.observer == o
    else !front.item.Attach? && !front.item.Detach? && o in s.control.observers
  }

  /** Whatever takes the mutex waits for good once the worker is stuck. */
  predicate Enabled(s: System, step: Step) {
    match step
    case Construct(o) => !s.stuck && o !in s.phases
    case ConstructorReturns(o) => InPhase(s, o, Attached)
    case Listen(o) => InPhase(s, o, Live) && o !in s.listening
    case Payload(o, text) => CanSend(s, o) && (s.stuck ==> CommandFor(o, text).None?)
    case Destruct(o) => !s.stuck && InPhase(s, o, Live)
    case DestructorReturns(o) => InPhase(s, o, Detached)
    case Door(_) => !s.stuck
    case StopWorker => !s.stuck
    case Turn => !s.stuck && CanWork(s.active)
    case TurnLocksUp(o) => !s.stuck && CanWork(s.active) && CanSend(s, o) && Updates(s, o)
  }

  function Push(s: System, command: Command): System {
    s.(active := Pushed(s.active, Work(command)))
  }

  /** The closure of a constructor or destructor sets its flag after the control's method. */
  function Signalled(phases: map<Observer, Phase>, command: Command): map<Observer, Phase> {
    match command
    case Attach(o) => phases[o := Attached]
    case Detach(o) => phases[o := Detached]
    case _ => phases
  }

  function Next(s: System, step: Step): System
    requires Enabled(s, step)
  {
    match step
    case Construct(o) => Push(s, Attach(o)).(phases := s.phases[o := Attaching])
    case ConstructorReturns(o) => s.(phases := s.phases[o := Live])
    case Listen(o) => s.(listening := s.listening + {o})
    case Payload(o, text) => if CommandFor(o, text).Some? then Push(s, CommandFor(o, text).value) else s
    case Destruct(o) => Push(s, Detach(o)).(phases := s.phases[o := Detaching])
    case DestructorReturns(o) => s.(phases := s.phases - {o}, listening := s.listening - {o})
    case Door(v) => Push(s, Command.DoorSwitch(v))
    case StopWorker => s.(active := Pushed(s.active, Stop))
    case Turn =>
      var front := s.active.queue[0];
      if front.Stop? then
        s.(active := Worked(s.active))
      else
        s.(active := Worked(s.active), control := Apply(s.control, front.item),
           phases := Signalled(s.phases, front.item))
    // The connection of o lets go of itself while the worker sends to it, so that the worker's reference is the
    // last one: the destructor of o runs on the worker and pushes under its mutex.
    case TurnLocksUp(o) => s.(stuck := true)
  }

  /** One turn of the worker, on the objects and the flags of those that wait. */
  method TakeTurn(active: ActiveObject<Command>, control: CameraAndLightControl, phases: map<Observer, Phase>,
                  ghost s: System) returns (signalled: map<Observer, Phase>)
    requires s.active == active.Snapshot() && s.control == control.Snapshot() && s.phases == phases
    requires Enabled(s, Turn) && control.Valid()
    modifies active, control
    ensures control.Valid()
    ensures Next(s, Turn) == s.(active := active.Snapshot(), control := control.Snapshot(), phases := signalled)
  {
    signalled := phases;
    var wWorkItem := active.mWorkQueue[0];
    if wWorkItem.Work? {
      Dispatch(control, wWorkItem.item);
      signalled := Signalled(phases, wWorkItem.item);
    }
    active.WorkIteration();
  }

  ghost predicate IsRun(states: seq<System>, steps: seq<Step>) {
    && |states| == |steps| + 1
    && states[0] == START
    && forall i :: 0 <= i < |steps| ==> Enabled(states[i], steps[i]) && states[i + 1] == Next(states[i], steps[i])
  }

  // ----- What a turn touches

  /** An attached object: constructed enough to be updated and not yet out of its destructor. */
  predicate CanBeUpdated(s: System, o: Observer) {
    InPhase(s, o, Attached) || InPhase(s, o, Live) || InPhase(s, o, Detaching)
  }

  /** The next turn of the worker updates no object that does not exist, and the flag it sets belongs to a
      constructor or destructor that is still waiting for it. */
  ghost predicate SafeTurn(s: System) {
    Enabled(s, Turn) && s.active.queue[0].Work? ==>
      var command := s.active.queue[0].item;
      var before, after := s.control.updates, Next(s, Turn).control.updates;
      && (forall i :: |before| <= i < |after| ==> CanBeUpdated(s, after[i].observer) && Updates(s, after[i].observer))
      && (command.Attach? ==> InPhase(s, command.observer, Attaching))
      && (command.Detach? ==> InPhase(s, command.observer, Detaching))
  }

  // ----- The invariant

  /** A queued item is about this object: it captures its address. */
  predicate About(e: Entry<Command>, o: Observer) {
    e.Work? && (e.item == Attach(o) || e.item == Detach(o) || e.item == NotifyOne(o))
  }

  /** The phase an object is in while an item about it is queued. */
  predicate PhaseFits(s: System, e: Entry<Command>, o: Observer) {
    && (e == Work(Attach(o)) ==> InPhase(s, o, Attaching))
    && (e == Work(NotifyOne(o)) ==> InPhase(s, o, Live) || InPhase(s, o, Detaching))
    && (e == Work(Detach(o)) ==> InPhase(s, o, Detaching))
  }

  ghost predicate QueueFits(s: System) {
    forall i, o :: 0 <= i < |s.active.queue| && About(s.active.queue[i], o) ==> PhaseFits(s, s.active.queue[i], o)
  }

  /** Of two queued items about one object the first is a status request and the second no attach: nothing
      about an object follows its detach or comes before its attach. */
  ghost predicate QueueOrdered(s: System) {
    forall i, j, o :: 0 <= i < j < |s.active.queue| && About(s.active.queue[i], o) && About(s.active.queue[j], o) ==>
      s.active.queue[i] == Work(NotifyOne(o)) && s.active.queue[j] != Work(Attach(o))
  }

  ghost predicate Distinct(observers: seq<Observer>) {
    forall i, j :: 0 <= i < j < |observers| ==> observers[i] != observers[j]
  }

  /** The attached objects are exactly those in mObservers, each once. */
  ghost predicate ObserversLive(s: System) {
    && (forall o :: o in s.control.observers <==> CanBeUpdated(s, o))
    && Distinct(s.control.observers)
  }

  /** A waiting constructor or destructor has its item queued. */
  ghost predicate WaitersQueued(s: System) {
    && (forall o :: InPhase(s, o, Attaching) ==> Work(Attach(o)) in s.active.queue)
    && (forall o :: InPhase(s, o, Detaching) ==> Work(Detach(o)) in s.active.queue)
  }

  /** Only objects that exist have a sender, and a status is asked for only by those that do. */
  ghost predicate Listeners(s: System) {
    && (forall o :: o in s.listening ==> InPhase(s, o, Live) || InPhase(s, o, Detaching) || InPhase(s, o, Detached))
    && (forall i, o :: 0 <= i < |s.active.queue| && s.active.queue[i] == Work(NotifyOne(o)) ==> o in s.listening)
  }

  ghost predicate Inv(s: System) {
    && Conserves(s.active)
    && s.control == ApplyAll(s.active.executed)
    && QueueFits(s) && QueueOrdered(s) && ObserversLive(s) && WaitersQueued(s) && Listeners(s)
  }

  lemma FrontFits(s: System)
    requires QueueFits(s) && s.active.queue != [] && s.active.queue[0].Work?
    ensures var command := s.active.queue[0].item;
      && (command.Attach? ==> InPhase(s, command.observer, Attaching))
      && (command.Detach? ==> InPhase(s, command.observer, Detaching))
      && (command.NotifyOne? ==> CanBeUpdated(s, command.observer))
  {
    var front := s.active.queue[0];
    if front.item.Attach? || front.item.Detach? || front.item.NotifyOne? {
      assert About(front, front.item.observer);
    }
  }

  lemma InvIsSafe(s: System)
    requires Inv(s)
    ensures SafeTurn(s)
  {
    if Enabled(s, Turn) && s.active.queue[0].Work? {
      var front := s.active.queue[0];
      FrontFits(s);
      NewUpdates(s.control, front.item);
    }
  }

  // ----- Steps that push

  /** A pushed item about no object, or about one for which it comes at the right time. */
  ghost predicate FitsAtEnd(s: System, t: System, e: Entry<Command>) {
    forall o :: About(e, o) ==>
      && PhaseFits(t, e, o)
      && forall i :: 0 <= i < |s.active.queue| && About(s.active.queue[i], o) ==>
        s.active.queue[i] == Work(NotifyOne(o)) && e != Work(Attach(o))
  }

  lemma PushKeepsOrder(s: System, t: System, e: Entry<Command>)
    requires QueueOrdered(s) && t.active == Pushed(s.active, e) && FitsAtEnd(s, t, e)
    ensures QueueOrdered(t)
  {
  }

  /** The phases after a push: unchanged but for an object that no item fits any more. */
  lemma PushKeepsFit(s: System, t: System, e: Entry<Command>)
    requires QueueFits(s) && t.active == Pushed(s.active, e) && FitsAtEnd(s, t, e)
    requires forall i, o :: 0 <= i < |s.active.queue| && About(s.active.queue[i], o) ==>
      PhaseFits(s, s.active.queue[i], o) ==> PhaseFits(t, s.active.queue[i], o)
    ensures QueueFits(t)
  {
  }

  lemma PushKeepsInv(s: System, e: Entry<Command>)
    requires Inv(s) && FitsAtEnd(s, s.(active := Pushed(s.active, e)), e)
    requires forall o :: e == Work(NotifyOne(o)) ==> o in s.listening
    ensures Inv(s.(active := Pushed(s.active, e)))
  {
    var t := s.(active := Pushed(s.active, e));
    NextConserves(s.active, Worker.Step.Push(e));
    PushKeepsOrder(s, t, e);
    PushKeepsFit(s, t, e);
  }

  lemma ConstructKeepsInv(s: System, o: Observer)
    requires Inv(s) && Enabled(s, Construct(o))
    ensures Inv(Next(s, Construct(o)))
  {
    var t, e := Next(s, Construct(o)), Work(Attach(o));
    NextConserves(s.active, Worker.Step.Push(e));
    PushKeepsOrder(s, t, e);
    PushKeepsFit(s, t, e);
  }

  lemma DestructKeepsInv(s: System, o: Observer)
    requires Inv(s) && Enabled(s, Destruct(o))
    ensures Inv(Next(s, Destruct(o)))
  {
    var t, e := Next(s, Destruct(o)), Work(Detach(o));
    NextConserves(s.active, Worker.Step.Push(e));
    PushKeepsOrder(s, t, e);
    PushKeepsFit(s, t, e);
  }

  lemma PayloadKeepsInv(s: System, o: Observer, text: string)
    requires Inv(s) && Enabled(s, Payload(o, text))
    ensures Inv(Next(s, Payload(o, text)))
  {
    if CommandFor(o, text).Some? {
      PushKeepsInv(s, Work(CommandFor(o, text).value));
    }
  }

  // ----- Steps of waiters

  lemma ReturnKeepsListeners(s: System, step: Step)
    requires Inv(s) && Enabled(s, step) && (step.ConstructorReturns? || step.DestructorReturns?)
    ensures Listeners(Next(s, step))
  {
    forall i, o | 0 <= i < |s.active.queue| && s.active.queue[i] == Work(NotifyOne(o))
      ensures o in Next(s, step).listening
    {
      assert About(s.active.queue[i], o);
    }
  }

  lemma ReturnKeepsInv(s: System, step: Step)
    requires Inv(s) && Enabled(s, step) && (step.ConstructorReturns? || step.DestructorReturns?)
    ensures Inv(Next(s, step))
  {
    ReturnKeepsListeners(s, step);
  }

  lemma ListenKeepsInv(s: System, o: Observer)
    requires Inv(s) && Enabled(s, Listen(o))
    ensures Inv(Next(s, Listen(o)))
  {
  }

  // ----- The worker's turn

  lemma {:induction false} WithoutDistinct(observers: seq<Observer>, o: Observer)
    requires Distinct(observers)
    ensures Distinct(Without(observers, o))
  {
    if observers != [] {
      var init, last := observers[..|observers| - 1], observers[|observers| - 1];
      WithoutDistinct(init, o);
      assert last !in init;
    }
  }

  lemma AttachedDistinct(observers: seq<Observer>, o: Observer)
    requires Distinct(observers) && o !in observers
    ensures Distinct(observers + [o]) && forall p :: p in observers + [o] <==> p in observers || p == o
  {
  }

  lemma AttachKeepsObservers(s: System, o: Observer)
    requires ObserversLive(s) && Enabled(s, Turn) && s.active.queue[0] == Work(Attach(o)) && InPhase(s, o, Attaching)
    ensures ObserversLive(Next(s, Turn))
  {
    AttachedDistinct(s.control.observers, o);
  }

  lemma DetachKeepsObservers(s: System, o: Observer)
    requires ObserversLive(s) && Enabled(s, Turn) && s.active.queue[0] == Work(Detach(o)) && InPhase(s, o, Detaching)
    ensures ObserversLive(Next(s, Turn))
  {
    WithoutDistinct(s.control.observers, o);
  }

  lemma TurnKeepsObservers(s: System)
    requires Inv(s) && Enabled(s, Turn)
    ensures ObserversLive(Next(s, Turn))
  {
    InvIsSafe(s);
    var front := s.active.queue[0];
    if front.Work? {
      match front.item {
        case Attach(o) => AttachKeepsObservers(s, o);
        case Detach(o) => DetachKeepsObservers(s, o);
        case _ =>
      }
    }
  }

  lemma TurnKeepsFit(s: System)
    requires Inv(s) && Enabled(s, Turn)
    ensures QueueFits(Next(s, Turn))
  {
    var t := Next(s, Turn);
    forall i, o | 0 <= i < |t.active.queue| && About(t.active.queue[i], o)
      ensures PhaseFits(t, t.active.queue[i], o)
    {
      if s.active.queue[0].Work? {
        assert t.active.queue[i] == s.active.queue[i + 1];
      }
      assert PhaseFits(s, t.active.queue[i], o);
    }
  }

  lemma TurnKeepsWaiters(s: System)
    requires Inv(s) && Enabled(s, Turn)
    ensures WaitersQueued(Next(s, Turn))
  {
  }

  lemma TurnKeepsListeners(s: System)
    requires Inv(s) && Enabled(s, Turn)
    ensures Listeners(Next(s, Turn))
  {
    InvIsSafe(s);
  }

  lemma TurnKeepsControl(s: System)
    requires Enabled(s, Turn) && s.control == ApplyAll(s.active.executed)
    ensures Next(s, Turn).control == ApplyAll(Next(s, Turn).active.executed)
  {
    var front := s.active.queue[0];
    if front.Work? {
      assert (s.active.executed + [front.item])[..|s.active.executed|] == s.active.executed;
    }
  }

  lemma TurnKeepsOrder(s: System)
    requires QueueOrdered(s) && Enabled(s, Turn)
    ensures QueueOrdered(Next(s, Turn))
  {
  }

  lemma TurnKeepsInv(s: System)
    requires Inv(s) && Enabled(s, Turn)
    ensures Inv(Next(s, Turn))
  {
    NextConserves(s.active, WorkerTurn);
    TurnKeepsControl(s);
    TurnKeepsOrder(s);
    TurnKeepsObservers(s);
    TurnKeepsFit(s);
    TurnKeepsWaiters(s);
    TurnKeepsListeners(s);
  }

  // ----- Every run

  lemma NextKeepsInv(s: System, step: Step)
    requires Inv(s) && Enabled(s, step)
    ensures Inv(Next(s, step))
  {
    match step
    case Construct(o) => ConstructKeepsInv(s, o);
    case Destruct(o) => DestructKeepsInv(s, o);
    case Listen(o) => ListenKeepsInv(s, o);
    case Payload(o, text) => PayloadKeepsInv(s, o, text);
    case Door(v) => PushKeepsInv(s, Work(Command.DoorSwitch(v)));
    case StopWorker => PushKeepsInv(s, Stop);
    case Turn => TurnKeepsInv(s);
    case ConstructorReturns(_) => ReturnKeepsInv(s, step);
    case DestructorReturns(_) => ReturnKeepsInv(s, step);
    case TurnLocksUp(_) =>
  }

  lemma StartKeepsInv()
    ensures Inv(START)
  {
    assert Works(START.active.executed) == [];
  }

  lemma TakenStep(states: seq<System>, steps: seq<Step>, i: nat)
    requires IsRun(states, steps) && i < |steps|
    ensures Enabled(states[i], steps[i]) && states[i + 1] == Next(states[i], steps[i])
  {
  }

  lemma {:induction false} RunKeepsInv(states: seq<System>, steps: seq<Step>, i: nat)
    requires IsRun(states, steps) && i < |states|
    ensures Inv(states[i])
  {
    if i == 0 {
      StartKeepsInv();
    } else {
      RunKeepsInv(states, steps, i - 1);
      TakenStep(states, steps, i - 1);
      NextKeepsInv(states[i - 1], steps[i - 1]);
    }
  }

  /** In every interleaving, whatever the worker is about to run updates only objects that exist and
      signals only a waiter that is still there. */
  lemma RunIsSafe(states: seq<System>, steps: seq<Step>, i: nat)
    requires IsRun(states, steps) && i < |states|
    ensures SafeTurn(states[i])
  {
    RunKeepsInv(states, steps, i);
    InvIsSafe(states[i]);
  }

  /** No step of another thread ends the life of an object that an item under way may update, so treating a
      turn as one step hides nothing. */
  lemma OthersKeepUpdatable(s: System, step: Step, o: Observer)
    requires Enabled(s, step) && step != Turn && CanBeUpdated(s, o)
    ensures CanBeUpdated(Next(s, step), o)
  {
  }

  /** Nothing refers to an object that does not exist: no queued item and no place in mObservers. */
  lemma GoneIsForgotten(states: seq<System>, steps: seq<Step>, i: nat, o: Observer)
    requires IsRun(states, steps) && i < |states| && o !in states[i].phases
    ensures o !in states[i].control.observers
    ensures forall k :: 0 <= k < |states[i].active.queue| ==> !About(states[i].active.queue[k], o)
  {
    RunKeepsInv(states, steps, i);
  }

  /** The next item sets a switch. */
  predicate ChangesSwitch(q: Queue<Command>) {
    && CanWork(q) && q.queue[0].Work?
    && (q.queue[0].item.DoorSwitch? || q.queue[0].item.LightOverride? || q.queue[0].item.CoverageAlwaysOn?)
  }

  /** Exactly one of the updates from number n on is for o. */
  ghost predicate ToldOnce(updates: seq<Update>, n: nat, o: Observer) {
    exists k :: n <= k < |updates| && updates[k].observer == o &&
      forall j :: n <= j < |updates| && updates[j].observer == o ==> j == k
  }

  lemma TellingOnce(c: Control, updates: seq<Update>, o: Observer)
    requires Distinct(c.observers) && o in c.observers && |updates| == |c.updates| + |c.observers|
    requires forall i :: |c.updates| <= i < |updates| ==> updates[i].observer == c.observers[i - |c.updates|]
    ensures ToldOnce(updates, |c.updates|, o)
  {
    var i :| 0 <= i < |c.observers| && c.observers[i] == o;
    var n, k := |c.updates|, |c.updates| + i;
    assert updates[k].observer == o;
    forall j | n <= j < |updates| && updates[j].observer == o ensures j == k {
      assert c.observers[j - n] == o;
    }
  }

  /** A change of a switch is reported to every attached object exactly once, with the status it led to. */
  lemma ChangesReachEveryone(states: seq<System>, steps: seq<Step>, i: nat)
    requires IsRun(states, steps) && i < |steps| && steps[i] == Turn && ChangesSwitch(states[i].active)
    ensures var before, after := states[i].control.updates, states[i + 1].control;
      && before <= after.updates
      && (forall k :: |before| <= k < |after.updates| ==>
            after.updates[k].status == after.status && CanBeUpdated(states[i], after.updates[k].observer))
      && forall o :: CanBeUpdated(states[i], o) ==> ToldOnce(after.updates, |before|, o)
  {
    RunKeepsInv(states, steps, i);
    var c, command := states[i].control, states[i].active.queue[0].item;
    NewUpdates(c, command);
    forall o | CanBeUpdated(states[i], o) ensures ToldOnce(states[i + 1].control.updates, |c.updates|, o) {
      TellingOnce(c, states[i + 1].control.updates, o);
    }
  }

  /** What a step pushes, by what it is and what the text says. */
  ghost predicate PushesEntry(step: Step, entries: seq<Entry<Command>>) {
    match step
    case Construct(o) => entries == [Work(Attach(o))]
    case Destruct(o) => entries == [Work(Detach(o))]
    case Door(v) => entries == [Work(Command.DoorSwitch(v))]
    case StopWorker => entries == [Stop]
    case Payload(o, text) =>
      && (text == "get_status" ==> entries == [Work(NotifyOne(o))])
      && (forall v :: Sets(text, "light_override", v) ==> entries == [Work(Command.LightOverride(v))])
      && (forall v :: Sets(text, "coverage_always_on", v) ==> entries == [Work(Command.CoverageAlwaysOn(v))])
      && (text != "get_status" && (forall v :: !Sets(text, "light_override", v) && !Sets(text, "coverage_always_on", v))
          ==> entries == [])
    case _ => entries == []
  }

  lemma PayloadPushes(o: Observer, text: string)
    ensures var command := CommandFor(o, text);
      PushesEntry(Payload(o, text), if command.Some? then [Work(command.value)] else [])
  {
    PayloadsUnderstood(o, text, true);
    PayloadsUnderstood(o, text, false);
  }

  /** Every step pushes what it stands for, and nothing else. */
  lemma StepPushes(states: seq<System>, steps: seq<Step>, i: nat) returns (entries: seq<Entry<Command>>)
    requires IsRun(states, steps) && i < |steps|
    ensures PushesEntry(steps[i], entries) && states[i + 1].active.pushed == states[i].active.pushed + entries
  {
    TakenStep(states, steps, i);
    var s := states[i];
    match steps[i] {
      case Construct(o) => entries := [Work(Attach(o))];
      case Destruct(o) => entries := [Work(Detach(o))];
      case Door(v) => entries := [Work(Command.DoorSwitch(v))];
      case StopWorker => entries := [Stop];
      case Payload(o, text) =>
        PayloadPushes(o, text);
        entries := if CommandFor(o, text).Some? then [Work(CommandFor(o, text).value)] else [];
      case _ => entries := [];
    }
    if entries == [] {
      assert s.active.pushed + [] == s.active.pushed;
    }
  }

  /** All threads together have the effect of one: the control is what the executed commands make of it one
      after the other, they are the commands pushed before the first stop, in order, as far as the worker has
      got, and the light agrees with the switches. */
  lemma RunIsSequential(states: seq<System>, steps: seq<Step>, i: nat)
    requires IsRun(states, steps) && i < |states|
    ensures states[i].control == ApplyAll(states[i].active.executed)
    ensures states[i].active.executed <= BeforeStop(states[i].active.pushed)
    ensures Consistent(states[i].control.status)
  {
    RunKeepsInv(states, steps, i);
    BeforeStopOf(states[i].active.executed, states[i].active.queue);
    LightFollowsSwitches(states[i].active.executed);
  }

  // ----- When constructors and destructors return

  /** A constructor or destructor waits for the worker. */
  predicate Waiting(s: System, o: Observer) {
    InPhase(s, o, Attaching) || InPhase(s, o, Detaching)
  }

  predicate Released(s: System, o: Observer) {
    InPhase(s, o, Attached) || InPhase(s, o, Detached)
  }

  /** The item it waits for. */
  function Awaited(s: System, o: Observer): Entry<Command> {
    if InPhase(s, o, Attaching) then Work(Attach(o)) else Work(Detach(o))
  }

  /** How many entries stand before e. */
  function Ahead(queue: seq<Entry<Command>>, e: Entry<Command>): nat {
    if queue == [] || queue[0] == e then 0 else 1 + Ahead(queue[1..], e)
  }

  /** One of the entries before e is a stop marker. */
  predicate StopAhead(queue: seq<Entry<Command>>, e: Entry<Command>) {
    queue != [] && queue[0] != e && (queue[0].Stop? || StopAhead(queue[1..], e))
  }

  /** What keeps the item awaited from ever being run. */
  predicate Blocked(s: System, o: Observer) {
    s.stuck || StopAhead(s.active.queue, Awaited(s, o))
  }

  lemma {:induction false} AheadStays(queue: seq<Entry<Command>>, e: Entry<Command>, last: Entry<Command>)
    requires e in queue
    ensures Ahead(queue + [last], e) == Ahead(queue, e)
    ensures StopAhead(queue + [last], e) <==> StopAhead(queue, e)
  {
    if queue[0] != e {
      assert (queue + [last])[1..] == queue[1..] + [last];
      AheadStays(queue[1..], e, last);
    }
  }

  lemma AwaitedQueued(s: System, o: Observer)
    requires Inv(s) && Waiting(s, o)
    ensures Awaited(s, o) in s.active.queue
  {
  }

  /** A waiter that a step leaves waiting: for the same item, behind fewer entries if the worker took one. */
  ghost predicate StillWaits(s: System, t: System, o: Observer, turns: nat)
    requires Waiting(s, o)
  {
    && Waiting(t, o) && t.phases[o] == s.phases[o]
    && Ahead(t.active.queue, Awaited(t, o)) + turns == Ahead(s.active.queue, Awaited(s, o))
    && (StopAhead(t.active.queue, Awaited(t, o)) <==> StopAhead(s.active.queue, Awaited(s, o)))
  }

  lemma StillWaitsOn(s: System, t: System, u: System, o: Observer, m: nat, n: nat)
    requires Waiting(s, o) && StillWaits(s, t, o, m) && StillWaits(t, u, o, n)
    ensures StillWaits(s, u, o, m + n)
  {
  }

  /** Steps of other threads neither release a waiter nor change what stands before its item. */
  lemma OthersLeaveWaiter(s: System, step: Step, o: Observer)
    requires Inv(s) && Enabled(s, step) && step != Turn && Waiting(s, o)
    ensures StillWaits(s, Next(s, step), o, 0)
  {
    AwaitedQueued(s, o);
    match step
    case Construct(p) => AheadStays(s.active.queue, Awaited(s, o), Work(Attach(p)));
    case Destruct(p) => AheadStays(s.active.queue, Awaited(s, o), Work(Detach(p)));
    case Door(v) => AheadStays(s.active.queue, Awaited(s, o), Work(Command.DoorSwitch(v)));
    case StopWorker => AheadStays(s.active.queue, Awaited(s, o), Stop);
    case Payload(p, text) =>
      if CommandFor(p, text).Some? {
        AheadStays(s.active.queue, Awaited(s, o), Work(CommandFor(p, text).value));
      }
    case _ =>
  }

  /** The item in front is the one awaited, or it changes nothing for this waiter. */
  lemma FrontOrNot(s: System, o: Observer)
    requires Inv(s) && Enabled(s, Turn) && Waiting(s, o) && s.active.queue[0].Work?
    ensures s.active.queue[0] == Awaited(s, o) ==> Released(Next(s, Turn), o)
    ensures s.active.queue[0] != Awaited(s, o) ==> InPhase(Next(s, Turn), o, s.phases[o])
  {
    FrontFits(s);
  }

  lemma TurnAndWaiter(s: System, o: Observer)
    requires Inv(s) && Enabled(s, Turn) && Waiting(s, o) && s.active.queue[0].Work?
    ensures Ahead(s.active.queue, Awaited(s, o)) == 0 ==> Released(Next(s, Turn), o)
    ensures Ahead(s.active.queue, Awaited(s, o)) > 0 ==> StillWaits(s, Next(s, Turn), o, 1)
  {
    FrontOrNot(s, o);
  }

  lemma BlockedStep(s: System, step: Step, o: Observer)
    requires Inv(s) && Enabled(s, step) && Waiting(s, o) && Blocked(s, o)
    ensures InPhase(Next(s, step), o, s.phases[o]) && Blocked(Next(s, step), o)
  {
    if step != Turn {
      OthersLeaveWaiter(s, step, o);
    } else if s.active.queue[0].Work? {
      TurnAndWaiter(s, o);
    }
  }

  lemma BlockedInRun(states: seq<System>, steps: seq<Step>, i: nat, o: Observer)
    requires IsRun(states, steps) && i < |steps| && Waiting(states[i], o) && Blocked(states[i], o)
    ensures InPhase(states[i + 1], o, states[i].phases[o]) && Blocked(states[i + 1], o)
  {
    RunKeepsInv(states, steps, i);
    TakenStep(states, steps, i);
    BlockedStep(states[i], steps[i], o);
  }

  /** A constructor or destructor waits for good once a stop marker stands before its item or the worker is
      stuck: in no continuation of the run does it ever return. */
  lemma {:induction false} WaitsForever(states: seq<System>, steps: seq<Step>, i: nat, j: nat, o: Observer)
    requires IsRun(states, steps) && i <= j < |states| && Waiting(states[i], o) && Blocked(states[i], o)
    ensures InPhase(states[j], o, states[i].phases[o]) && Blocked(states[j], o)
  {
    if i < j {
      WaitsForever(states, steps, i, j - 1, o);
      BlockedInRun(states, steps, j - 1, o);
    }
  }

  function TurnsBetween(steps: seq<Step>, i: nat, j: nat): nat
    requires i <= j <= |steps|
  {
    if i == j then 0 else TurnsBetween(steps, i, j - 1) + if steps[j - 1] == Turn then 1 else 0
  }

  /** A waiter that is not blocked can always be served: the worker can take a turn. */
  lemma WorkerCanServe(s: System, o: Observer)
    requires Inv(s) && Waiting(s, o) && !Blocked(s, o)
    ensures Enabled(s, Turn) && s.active.queue[0].Work?
  {
    AwaitedQueued(s, o);
  }

  /** One step of a waiter that has seen n turns since s. */
  lemma WaiterStep(s: System, now: System, step: Step, o: Observer, n: nat)
    requires Waiting(s, o) && StillWaits(s, now, o, n)
    requires Inv(now) && Enabled(now, step) && !Blocked(now, o) && !Next(now, step).stuck
    ensures var t, ahead := Next(now, step), Ahead(s.active.queue, Awaited(s, o));
      if step == Turn && n == ahead then Released(t, o)
      else !Blocked(t, o) && StillWaits(s, t, o, n + if step == Turn then 1 else 0)
  {
    if step == Turn {
      WorkerCanServe(now, o);
      TurnAndWaiter(now, o);
    } else {
      OthersLeaveWaiter(now, step, o);
      StillWaitsOn(s, now, Next(now, step), o, n, 0);
    }
  }

  ghost predicate ReleasedBetween(states: seq<System>, i: nat, j: nat, o: Observer)
    requires i <= j < |states|
  {
    exists m :: i <= m <= j && Released(states[m], o)
  }

  /** From i to j a waiter has been released, if there were enough turns for that, or it has moved up. */
  ghost predicate OnTime(states: seq<System>, steps: seq<Step>, i: nat, j: nat, o: Observer)
    requires i <= j < |states| == |steps| + 1 && Waiting(states[i], o)
  {
    if TurnsBetween(steps, i, j) > Ahead(states[i].active.queue, Awaited(states[i], o)) then
      ReleasedBetween(states, i, j, o)
    else
      !Blocked(states[j], o) && StillWaits(states[i], states[j], o, TurnsBetween(steps, i, j))
  }

  lemma OnTimeAtFirst(states: seq<System>, steps: seq<Step>, i: nat, o: Observer)
    requires i < |states| == |steps| + 1 && Waiting(states[i], o) && !Blocked(states[i], o)
    ensures OnTime(states, steps, i, i, o)
  {
  }

  lemma OnTimeNext(states: seq<System>, steps: seq<Step>, i: nat, j: nat, o: Observer)
    requires IsRun(states, steps) && i <= j < |steps| && Waiting(states[i], o)
    requires OnTime(states, steps, i, j, o) && !states[j + 1].stuck
    ensures OnTime(states, steps, i, j + 1, o)
  {
    TakenStep(states, steps, j);
    if TurnsBetween(steps, i, j) <= Ahead(states[i].active.queue, Awaited(states[i], o)) {
      RunKeepsInv(states, steps, j);
      WaiterStep(states[i], states[j], steps[j], o, TurnsBetween(steps, i, j));
    } else {
      var m :| i <= m <= j && Released(states[m], o);
    }
  }

  lemma NotStuckBefore(states: seq<System>, steps: seq<Step>, j: nat)
    requires IsRun(states, steps) && j < |steps| && !states[j + 1].stuck
    ensures !states[j].stuck
  {
    TakenStep(states, steps, j);
  }

  /** In every run a waiter that is not blocked is released by the turn after those of the items before its
      own, unless the worker gets stuck first. */
  lemma {:induction false} ReleasedInTime(states: seq<System>, steps: seq<Step>, i: nat, j: nat, o: Observer)
    requires IsRun(states, steps) && i <= j < |states| && Waiting(states[i], o) && !Blocked(states[i], o)
    requires !states[j].stuck
    ensures OnTime(states, steps, i, j, o)
  {
    if i < j {
      NotStuckBefore(states, steps, j - 1);
      ReleasedInTime(states, steps, i, j - 1, o);
      OnTimeNext(states, steps, i, j - 1, o);
    } else {
      OnTimeAtFirst(states, steps, i, o);
    }
  }

  /** Released by n turns of the worker at most, each of them possible. */
  ghost predicate ReleasedWithin(s: System, o: Observer, n: nat)
    decreases n
  {
    Released(s, o) || (n > 0 && Enabled(s, Turn) && ReleasedWithin(Next(s, Turn), o, n - 1))
  }

  lemma TurnServes(s: System, o: Observer)
    requires Inv(s) && Waiting(s, o) && !Blocked(s, o)
    ensures Enabled(s, Turn) && Inv(Next(s, Turn))
    ensures var t, n := Next(s, Turn), Ahead(s.active.queue, Awaited(s, o));
      if n == 0 then Released(t, o)
      else Waiting(t, o) && !Blocked(t, o) && Ahead(t.active.queue, Awaited(t, o)) == n - 1
  {
    WorkerCanServe(s, o);
    TurnAndWaiter(s, o);
    TurnKeepsInv(s);
  }

  lemma {:induction false} ServedByTurns(s: System, o: Observer, n: nat)
    requires Inv(s) && Waiting(s, o) && !Blocked(s, o) && n == Ahead(s.active.queue, Awaited(s, o))
    ensures ReleasedWithin(s, o, n + 1)
    decreases n
  {
    TurnServes(s, o);
    if n > 0 {
      ServedByTurns(Next(s, Turn), o, n - 1);
    } else {
      assert ReleasedWithin(Next(s, Turn), o, 0);
    }
  }

  lemma {:induction false} NotServed(s: System, o: Observer, n: nat)
    requires Inv(s) && Waiting(s, o) && Blocked(s, o)
    ensures !ReleasedWithin(s, o, n)
    decreases n
  {
    if n > 0 && Enabled(s, Turn) {
      BlockedStep(s, Turn, o);
      TurnKeepsInv(s);
      NotServed(Next(s, Turn), o, n - 1);
    }
  }

  /** In every state of every run: a waiting constructor or destructor can still return if and only if no stop
      marker stands before its item and the worker is not stuck. */
  lemma ReturnsIff(states: seq<System>, steps: seq<Step>, i: nat, o: Observer)
    requires IsRun(states, steps) && i < |states| && Waiting(states[i], o)
    ensures Blocked(states[i], o) ==> forall n: nat :: !ReleasedWithin(states[i], o, n)
    ensures !Blocked(states[i], o) ==>
      ReleasedWithin(states[i], o, Ahead(states[i].active.queue, Awaited(states[i], o)) + 1)
  {
    RunKeepsInv(states, steps, i);
    if Blocked(states[i], o) {
      forall n: nat ensures !ReleasedWithin(states[i], o, n) {
        NotServed(states[i], o, n);
      }
    } else {
      ServedByTurns(states[i], o, Ahead(states[i].active.queue, Awaited(states[i], o)));
    }
  }

  /** The shortest wait that never ends: the worker has not ended, but a stop marker was pushed first. */
  lemma StopThenConstruct()
    ensures var s := Next(Next(START, StopWorker), Construct(0));
      Waiting(s, 0) && Blocked(s, 0) && !s.active.ended && !s.stuck
  {
  }

  // ----- When the worker locks up

  /** What the code shows of the danger: the item in front sends a status to a connection that is there. */
  ghost predicate CanLockUp(s: System) {
    && !s.stuck && CanWork(s.active) && s.active.queue[0].Work?
    && match s.active.queue[0].item
       case NotifyOne(o) => InPhase(s, o, Live)
       case Attach(_) => false
       case Detach(_) => false
       case _ => exists o :: o in s.listening && InPhase(s, o, Live)
  }

  /** In every state of every run the worker can lock up in its next turn if and only if the item in front is
      the status request of a connection that is there, or sets a switch while there is one. */
  lemma LocksUpIff(states: seq<System>, steps: seq<Step>, i: nat)
    requires IsRun(states, steps) && i < |states|
    ensures (exists o :: Enabled(states[i], TurnLocksUp(o))) <==> CanLockUp(states[i])
  {
    RunKeepsInv(states, steps, i);
    var s := states[i];
    if CanLockUp(s) {
      FrontFits(s);
      var o :| InPhase(s, o, Live) && o in s.listening && Updates(s, o);
      assert Enabled(s, TurnLocksUp(o));
    }
  }

  /** Between taking the sender and letting go of it the worker holds the mutex. What the other threads can do
      meanwhile neither prevents the lock-up nor touches the queue or the control, so that it is one step. */
  lemma OthersKeepLockUp(s: System, step: Step, o: Observer)
    requires Enabled(s, TurnLocksUp(o)) && Enabled(s, step)
    requires step.ConstructorReturns? || step.DestructorReturns? || step.Listen?
    ensures Enabled(Next(s, step), TurnLocksUp(o))
    ensures Next(s, step).active == s.active && Next(s, step).control == s.control
  {
  }

  /** Nothing is pushed or run by a worker that is stuck. */
  lemma {:induction false} StuckForGood(states: seq<System>, steps: seq<Step>, i: nat, j: nat)
    requires IsRun(states, steps) && i <= j < |states| && states[i].stuck
    ensures states[j].stuck && states[j].active == states[i].active && states[j].control == states[i].control
  {
    if i < j {
      StuckForGood(states, steps, i, j - 1);
      TakenStep(states, steps, j - 1);
    }
  }

  /** The first step that locks the worker up, which is where it has stopped. */
  lemma {:induction false} StuckSince(states: seq<System>, steps: seq<Step>, i: nat) returns (k: nat)
    requires IsRun(states, steps) && i < |states| && states[i].stuck
    ensures k < i && steps[k].TurnLocksUp? && CanLockUp(states[k])
    ensures states[i].active == states[k].active && states[i].control == states[k].control
  {
    TakenStep(states, steps, i - 1);
    if states[i - 1].stuck {
      k := StuckSince(states, steps, i - 1);
      StuckForGood(states, steps, i - 1, i);
    } else {
      k := i - 1;
      LocksUpIff(states, steps, k);
    }
  }

  /** A run is stuck if and only if the worker has destroyed an object in one of its turns. */
  lemma StuckIff(states: seq<System>, steps: seq<Step>, i: nat)
    requires IsRun(states, steps) && i < |states|
    ensures states[i].stuck <==> exists k :: 0 <= k < i && steps[k].TurnLocksUp?
  {
    if states[i].stuck {
      var k := StuckSince(states, steps, i);
    } else {
      forall k | 0 <= k < i ensures !steps[k].TurnLocksUp? {
        TakenStep(states, steps, k);
        if steps[k].TurnLocksUp? {
          StuckForGood(states, steps, k + 1, i);
        }
      }
    }
  }

  /** One more step of a run. */
  lemma RunOn(states: seq<System>, steps: seq<Step>, step: Step) returns (more: seq<System>)
    requires IsRun(states, steps) && Enabled(states[|steps|], step)
    ensures more == states + [Next(states[|steps|], step)] && IsRun(more, steps + [step])
  {
    more := states + [Next(states[|steps|], step)];
  }

  /** One object, constructed and attached. */
  const READY := System(
    Queue([], [Work(Attach(0))], [Attach(0)], false), INITIAL.(observers := [0]), map[0 := Live], {}, false)

  lemma ReadyRun() returns (states: seq<System>)
    ensures IsRun(states, [Construct(0), Turn, ConstructorReturns(0)]) && states[3] == READY
  {
    assert IsRun([START], []);
    states := RunOn([START], [], Construct(0));
    states := RunOn(states, [Construct(0)], Turn);
    states := RunOn(states, [Construct(0), Turn], ConstructorReturns(0));
    assert [Construct(0), Turn] + [ConstructorReturns(0)] == [Construct(0), Turn, ConstructorReturns(0)];
    assert states[3].active == READY.active && states[3].control == READY.control && states[3].phases == READY.phases;
  }

  /** A status request served while its connection goes away: the shortest run that locks the worker up. */
  lemma StatusRequestLocksUp() returns (states: seq<System>, steps: seq<Step>)
    ensures IsRun(states, steps) && |steps| == 6 && states[6].stuck
    ensures steps == [Construct(0), Turn, ConstructorReturns(0), Listen(0), Payload(0, "get_status"), TurnLocksUp(0)]
  {
    states := ReadyRun();
    steps := [Construct(0), Turn, ConstructorReturns(0)];
    states := RunOn(states, steps, Listen(0));
    steps := steps + [Listen(0)];
    states := RunOn(states, steps, Payload(0, "get_status"));
    steps := steps + [Payload(0, "get_status")];
    assert states[5].active.queue == [Work(NotifyOne(0))];
    states := RunOn(states, steps, TurnLocksUp(0));
    steps := steps + [TurnLocksUp(0)];
  }

  /** The door opens while nobody is connected: the server's own object is updated, and nothing locks up. */
  lemma DoorAloneIsSafe() returns (states: seq<System>, steps: seq<Step>)
    ensures IsRun(states, steps) && |steps| == 4 && CanWork(states[4].active)
    ensures steps == [Construct(0), Turn, ConstructorReturns(0), Door(true)]
    ensures Updates(states[4], 0) && forall o :: !Enabled(states[4], TurnLocksUp(o))
  {
    states := ReadyRun();
    steps := [Construct(0), Turn, ConstructorReturns(0)];
    states := RunOn(states, steps, Door(true));
    steps := steps + [Door(true)];
    assert states[4].active.queue == [Work(Command.DoorSwitch(true))];
  }
}
