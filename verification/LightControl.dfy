/** Subject and CameraAndLightControl: observers, door and override switches, the light and its GPIO. */
module LightControl {

  type Observer = nat   // the address of an observer

  datatype Status = Status(door: bool, light: bool, lightOverride: bool, coverageAlwaysOn: bool)

  datatype Update = Update(observer: Observer, status: Status)

  /** What the worker does to the control. */
  datatype Command =
    | Attach(observer: Observer)
    | Detach(observer: Observer)
    | NotifyOne(observer: Observer)
    | DoorSwitch(value: bool)
    | LightOverride(value: bool)
    | CoverageAlwaysOn(value: bool)

  /** gpio is everything written to the light switch; updates lists the calls of update on observers, and
      performed counts the calls of the notifier's perform. */
  datatype Control = Control(
    status: Status, gpio: string, observers: seq<Observer>, updates: seq<Update>, performed: nat)

  const INITIAL := Control(Status(false, false, false, false), "", [], [], 0)

  function Without(observers: seq<Observer>, o: Observer): (r: seq<Observer>)
    ensures forall p :: p in r <==> p in observers && p != o
  {
    if observers == [] then []
    else
      var init, last := observers[..|observers| - 1], observers[|observers| - 1];
      Without(init, o) + if last == o then [] else [last]
  }

  /** One update for each observer, in the order of attachment. */
  function UpdatesFor(observers: seq<Observer>, status: Status): (r: seq<Update>)
    ensures |r| == |observers|
  {
    seq(|observers|, i requires 0 <= i < |observers| => Update(observers[i], status))
  }

  function Notified(c: Control): Control {
    c.(updates := c.updates + UpdatesFor(c.observers, c.status))
  }

  /** The light set to level, the GPIO written only when that is a change. */
  function Lit(c: Control, level: bool): Control {
    if c.status.light == level then c
    else c.(status := c.status.(light := level), gpio := c.gpio + if level then "1" else "0")
  }

  /** The switches decide the light: on while the door is open or the override is set. */
  function Apply(c: Control, command: Command): Control {
    match command
    case Attach(o) => c.(observers := c.observers + [o])
    case Detach(o) => c.(observers := Without(c.observers, o))
    case NotifyOne(o) => c.(updates := c.updates + [Update(o, c.status)])
    case DoorSwitch(v) =>
      var moved := c.(status := c.status.(door := v), performed := c.performed + if v then 1 else 0);
      Notified(Lit(moved, v || c.status.lightOverride))
    case LightOverride(v) => Notified(Lit(c.(status := c.status.(lightOverride := v)), v || c.status.door))
    case CoverageAlwaysOn(v) => Notified(c.(status := c.status.(coverageAlwaysOn := v)))
  }

  function ApplyAll(commands: seq<Command>): Control {
    if commands == [] then INITIAL
    else Apply(ApplyAll(commands[..|commands| - 1]), commands[|commands| - 1])
  }

  // ----- The objects

  class CameraAndLightControl {
    var mObservers: seq<Observer>
    var mGpioLightSwitch: string
    var mDoorSwitch: bool
    var mLight: bool
    var mLightOverride: bool
    var mCoverageAlwaysOn: bool     // the stored parameter of the notifier
    var mUpdates: seq<Update>       // the calls of update
    var mPerformed: nat             // the calls of perform

    ghost function Snapshot(): Control
      reads this
    {
      Control(Status(mDoorSwitch, mLight, mLightOverride, mCoverageAlwaysOn), mGpioLightSwitch, mObservers, mUpdates,
              mPerformed)
    }

    /** The light agrees with the switches; every method relies on it and restores it. */
    ghost predicate Valid()
      reads this
    {
      mLight == (mDoorSwitch || mLightOverride)
    }

    constructor ()
      ensures Valid() && Snapshot() == INITIAL
    {
      mObservers, mGpioLightSwitch, mUpdates, mPerformed := [], "", [], 0;
      mDoorSwitch, mLight, mLightOverride, mCoverageAlwaysOn := false, false, false, false;
    }

    method Attach(o: Observer)
      requires Valid()
      modifies this
      ensures Valid() && Snapshot() == Apply(old(Snapshot()), Command.Attach(o))
    {
      mObservers := mObservers + [o];
    }

    method Detach(o: Observer)
      requires Valid()
      modifies this
      ensures Valid() && Snapshot() == Apply(old(Snapshot()), Command.Detach(o))
    {
      var kept := [];
      for i := 0 to |mObservers|
        invariant kept == Without(mObservers[..i], o)
      {
        assert mObservers[..i + 1][..i] == mObservers[..i];
        if mObservers[i] != o {
          kept := kept + [mObservers[i]];
        }
      }
      assert mObservers[..|mObservers|] == mObservers;
      mObservers := kept;
    }

    method Notify()
      modifies this`mUpdates
      ensures Snapshot() == Notified(old(Snapshot()))
    {
      ghost var status := Snapshot().status;
      for i := 0 to |mObservers|
        invariant mUpdates == old(mUpdates) + UpdatesFor(mObservers[..i], status)
      {
        mUpdates := mUpdates + [Update(mObservers[i], Status(mDoorSwitch, mLight, mLightOverride, mCoverageAlwaysOn))];
      }
      assert mObservers[..|mObservers|] == mObservers;
    }

    method NotifyOne(o: Observer)
      requires Valid()
      modifies this
      ensures Valid() && Snapshot() == Apply(old(Snapshot()), Command.NotifyOne(o))
    {
      mUpdates := mUpdates + [Update(o, Status(mDoorSwitch, mLight, mLightOverride, mCoverageAlwaysOn))];
    }

    method LightOn()
      modifies this`mLight, this`mGpioLightSwitch
      ensures Snapshot() == Lit(old(Snapshot()), true)
    {
      if !mLight {
        mLight := true;
        mGpioLightSwitch := mGpioLightSwitch + "1";
      }
    }

    method LightOff()
      modifies this`mLight, this`mGpioLightSwitch
      ensures Snapshot() == Lit(old(Snapshot()), false)
    {
      if mLight {
        mLight := false;
        mGpioLightSwitch := mGpioLightSwitch + "0";
      }
    }

    method DoorSwitch(iValue: bool)
      requires Valid()
      modifies this
      ensures Valid() && Snapshot() == Apply(old(Snapshot()), Command.DoorSwitch(iValue))
    {
      mDoorSwitch := iValue;
      if mDoorSwitch {
        LightOn();
        mPerformed := mPerformed + 1;
      } else {
        if !mLightOverride {
          LightOff();
        }
      }
      Notify();
    }

    method LightOverride(iOverride: bool)
      requires Valid()
      modifies this
      ensures Valid() && Snapshot() == Apply(old(Snapshot()), Command.LightOverride(iOverride))
    {
      mLightOverride := iOverride;
      if mLightOverride {
        LightOn();
      } else if !mDoorSwitch {
        LightOff();
      }
      Notify();
    }

    method CoverageAlwaysOn(iValue: bool)
      requires Valid()
      modifies this
      ensures Valid() && Snapshot() == Apply(old(Snapshot()), Command.CoverageAlwaysOn(iValue))
    {
      mCoverageAlwaysOn := iValue;
      Notify();
    }

    /** The destructor's last act. */
    method Destroy()
      modifies this
      ensures Snapshot() == Lit(old(Snapshot()), false)
    {
      LightOff();
    }
  }

  // ----- Every run

  /** The door is shown as the last report of it said, and closed before the first. */
  lemma {:induction false} DoorIsLast(commands: seq<Command>, k: nat)
    requires forall i :: k < i < |commands| ==> !commands[i].DoorSwitch?
    ensures k < |commands| && commands[k].DoorSwitch? ==> ApplyAll(commands).status.door == commands[k].value
    ensures k == 0 && (commands != [] ==> !commands[0].DoorSwitch?) ==> !ApplyAll(commands).status.door
  {
    if commands != [] && (k < |commands| - 1 || !commands[|commands| - 1].DoorSwitch?) {
      DoorIsLast(commands[..|commands| - 1], k);
    }
  }

  /** The override is shown as last set, and off before the first time. */
  lemma {:induction false} OverrideIsLast(commands: seq<Command>, k: nat)
    requires forall i :: k < i < |commands| ==> !commands[i].LightOverride?
    ensures k < |commands| && commands[k].LightOverride? ==>
      ApplyAll(commands).status.lightOverride == commands[k].value
    ensures k == 0 && (commands != [] ==> !commands[0].LightOverride?) ==> !ApplyAll(commands).status.lightOverride
  {
    if commands != [] && (k < |commands| - 1 || !commands[|commands| - 1].LightOverride?) {
      OverrideIsLast(commands[..|commands| - 1], k);
    }
  }

  /** The same for the parameter that keeps the coverage always on. */
  lemma {:induction false} AlwaysOnIsLast(commands: seq<Command>, k: nat)
    requires forall i :: k < i < |commands| ==> !commands[i].CoverageAlwaysOn?
    ensures k < |commands| && commands[k].CoverageAlwaysOn? ==>
      ApplyAll(commands).status.coverageAlwaysOn == commands[k].value
    ensures k == 0 && (commands != [] ==> !commands[0].CoverageAlwaysOn?) ==>
      !ApplyAll(commands).status.coverageAlwaysOn
  {
    if commands != [] && (k < |commands| - 1 || !commands[|commands| - 1].CoverageAlwaysOn?) {
      AlwaysOnIsLast(commands[..|commands| - 1], k);
    }
  }

  /** Observers stand in the order in which they were attached. */
  lemma {:induction false} AttachedInOrder(commands: seq<Command>, observers: seq<Observer>)
    requires |commands| == |observers| && forall i :: 0 <= i < |commands| ==> commands[i] == Attach(observers[i])
    ensures ApplyAll(commands).observers == observers
  {
    if commands != [] {
      AttachedInOrder(commands[..|commands| - 1], observers[..|observers| - 1]);
    }
  }

  /** The light shown agrees with the switches shown. */
  ghost predicate Consistent(status: Status) {
    status.light == (status.door || status.lightOverride)
  }

  /** The light follows the switches after every command. */
  lemma {:induction false} LightFollowsSwitches(commands: seq<Command>)
    ensures Consistent(ApplyAll(commands).status)
  {
    if commands != [] {
      LightFollowsSwitches(commands[..|commands| - 1]);
    }
  }

  ghost predicate Alternates(gpio: string) {
    forall i :: 0 <= i < |gpio| ==> gpio[i] == if i % 2 == 0 then '1' else '0'
  }

  lemma LitAlternates(c: Control, level: bool)
    requires Alternates(c.gpio) && (c.status.light <==> |c.gpio| % 2 == 1)
    ensures Alternates(Lit(c, level).gpio) && (Lit(c, level).status.light <==> |Lit(c, level).gpio| % 2 == 1)
    ensures Lit(c, level).status.light == level
  {
  }

  /** A command writes to the GPIO exactly when it changes the light, and then one symbol: its new level. */
  lemma GpioStep(c: Control, command: Command)
    ensures var after := Apply(c, command);
      after.gpio ==
      c.gpio + if after.status.light == c.status.light then "" else if after.status.light then "1" else "0"
  {
  }

  /** The GPIO strictly alternates, "1" first, and its length tells whether the light is on. */
  lemma {:induction false} GpioAlternates(commands: seq<Command>)
    ensures var c := ApplyAll(commands); Alternates(c.gpio) && (c.status.light <==> |c.gpio| % 2 == 1)
  {
    if commands != [] {
      var c, command := ApplyAll(commands[..|commands| - 1]), commands[|commands| - 1];
      GpioAlternates(commands[..|commands| - 1]);
      match command {
        case DoorSwitch(v) =>
          var moved := c.(status := c.status.(door := v), performed := c.performed + if v then 1 else 0);
          LitAlternates(moved, v || c.status.lightOverride);
        case LightOverride(v) => LitAlternates(c.(status := c.status.(lightOverride := v)), v || c.status.door);
        case _ =>
      }
    }
  }

  /** After destruction the light is off and the last thing written, if anything was, is "0". */
  lemma DestroyedDark(commands: seq<Command>)
    ensures var c := Lit(ApplyAll(commands), false);
      !c.status.light && Alternates(c.gpio) && (c.gpio != [] ==> c.gpio[|c.gpio| - 1] == '0')
  {
    GpioAlternates(commands);
    LitAlternates(ApplyAll(commands), false);
  }

  /** Who is told by a command: everyone attached, in order, by one that sets a switch. */
  function ToTell(c: Control, command: Command): seq<Observer> {
    match command
    case Attach(_) => []
    case Detach(_) => []
    case NotifyOne(o) => [o]
    case _ => c.observers
  }

  /** The updates of a command are one for each of those, in that order, with the status it led to. */
  lemma NewUpdates(c: Control, command: Command)
    ensures var after, n := Apply(c, command), |c.updates|;
      && |after.updates| == n + |ToTell(c, command)|
      && after.updates[..n] == c.updates
      && (forall i :: n <= i < |after.updates| ==>
            after.updates[i].status == after.status && after.updates[i].observer == ToTell(c, command)[i - n])
  {
  }

  /** Detaching keeps the others, as often as they were there and in their order: what is left is the list cut
      at each occurrence of the observer. */
  lemma {:induction false} WithoutConcat(a: seq<Observer>, b: seq<Observer>, o: Observer)
    ensures Without(a + b, o) == Without(a, o) + Without(b, o)
  {
    if b == [] {
      assert a + b == a;
    } else {
      assert (a + b)[..|a + b| - 1] == a + b[..|b| - 1];
      WithoutConcat(a, b[..|b| - 1], o);
    }
  }

  lemma WithoutLast(a: seq<Observer>, o: Observer)
    ensures Without(a + [o], o) == Without(a, o)
  {
    assert (a + [o])[..|a|] == a;
  }

  lemma {:induction false} WithoutOther(observers: seq<Observer>, o: Observer)
    requires o !in observers
    ensures Without(observers, o) == observers
  {
    if observers != [] {
      WithoutOther(observers[..|observers| - 1], o);
    }
  }

  /** Detaching takes out one observer from where it stands. */
  lemma DetachKeepsOrder(a: seq<Observer>, b: seq<Observer>, o: Observer)
    requires o !in a && o !in b
    ensures Without(a + [o] + b, o) == a + b
  {
    WithoutConcat(a + [o], b, o);
    WithoutLast(a, o);
    WithoutOther(a, o);
    WithoutOther(b, o);
  }

  /** Every status ever sent to an observer shows a light that agrees with the switches. */
  lemma {:induction false} UpdatesConsistent(commands: seq<Command>)
    ensures forall i :: 0 <= i < |ApplyAll(commands).updates| ==> Consistent(ApplyAll(commands).updates[i].status)
  {
    if commands != [] {
      LightFollowsSwitches(commands);
      UpdatesConsistent(commands[..|commands| - 1]);
      NewUpdates(ApplyAll(commands[..|commands| - 1]), commands[|commands| - 1]);
    }
  }

  /** How often a command opens the door. */
  function Openings(commands: seq<Command>): nat {
    if commands == [] then 0
    else Openings(commands[..|commands| - 1]) + if commands[|commands| - 1] == DoorSwitch(true) then 1 else 0
  }

  /** The notifier performs exactly once for each opening of the door, and for nothing else. */
  lemma {:induction false} PerformsOnOpenings(commands: seq<Command>)
    ensures ApplyAll(commands).performed == Openings(commands)
  {
    if commands != [] {
      PerformsOnOpenings(commands[..|commands| - 1]);
    }
  }

  method Dispatch(control: CameraAndLightControl, command: Command)
    requires control.Valid()
    modifies control
    ensures control.Valid() && control.Snapshot() == Apply(old(control.Snapshot()), command)
  {
    match command {
      case Attach(o) => control.Attach(o);
      case Detach(o) => control.Detach(o);
      case NotifyOne(o) => control.NotifyOne(o);
      case DoorSwitch(v) => control.DoorSwitch(v);
      case LightOverride(v) => control.LightOverride(v);
      case CoverageAlwaysOn(v) => control.CoverageAlwaysOn(v);
    }
  }

  /** A control that is made, given these commands and destroyed: what its light switch has been sent. */
  method Lifetime(commands: seq<Command>) returns (gpio: string)
    ensures gpio == Lit(ApplyAll(commands), false).gpio
    ensures Alternates(gpio) && (gpio != [] ==> gpio[|gpio| - 1] == '0')
  {
    var control := new CameraAndLightControl();
    for i := 0 to |commands|
      invariant fresh(control) && control.Valid() && control.Snapshot() == ApplyAll(commands[..i])
    {
      assert commands[..i + 1][..i] == commands[..i];
      Dispatch(control, commands[i]);
    }
    assert commands[..|commands|] == commands;
    control.Destroy();
    DestroyedDark(commands);
    gpio := control.mGpioLightSwitch;
  }
}
