/** The active object: a mutex-protected queue filled by any number of threads and drained by one worker.
    Every step below runs under the mutex, so a run is an interleaving of whole steps. */
module ActiveObject {

  datatype Entry<T> = Stop | Work(item: T)

  /** pushed and executed are histories; ended says that the worker has left its loop. */
  datatype Queue<T> = Queue(queue: seq<Entry<T>>, pushed: seq<Entry<T>>, executed: seq<T>, ended: bool)

  function Empty<T>(): Queue<T> {
    Queue([], [], [], false)
  }

  function Pushed<T>(q: Queue<T>, e: Entry<T>): Queue<T> {
    q.(queue := q.queue + [e], pushed := q.pushed + [e])
  }

  predicate CanWork<T>(q: Queue<T>) {
    !q.ended && q.queue != []
  }

  /** One turn of the worker: a stop marker ends it and stays queued, an item runs and then leaves. */
  function Worked<T>(q: Queue<T>): Queue<T>
    requires CanWork(q)
  {
    match q.queue[0]
    case Stop => q.(ended := true)
    case Work(item) => q.(queue := q.queue[1..], executed := q.executed + [item])
  }

  class ActiveObject<T> {
    var mWorkQueue: seq<Entry<T>>
    var mEnded: bool
    var mExecuted: seq<T>               // the calls of work items
    ghost var pushed: seq<Entry<T>>

    ghost function Snapshot(): Queue<T>
      reads this
    {
      Queue(mWorkQueue, pushed, mExecuted, mEnded)
    }

    constructor ()
      ensures Snapshot() == Empty()
    {
      mWorkQueue, mEnded, mExecuted, pushed := [], false, [], [];
    }

    method DoPush(e: Entry<T>)
      modifies this
      ensures Snapshot() == Pushed(old(Snapshot()), e)
    {
      mWorkQueue := mWorkQueue + [e];
      pushed := pushed + [e];
    }

    /** One iteration of workHandler, once its wait for a non-empty queue is over. */
    method WorkIteration()
      requires CanWork(Snapshot())
      modifies this
      ensures Snapshot() == Worked(old(Snapshot()))
    {
      var wWorkItem := mWorkQueue[0];
      if wWorkItem.Stop? {
        mEnded := true;
      } else {
        mExecuted := mExecuted + [wWorkItem.item];
        mWorkQueue := mWorkQueue[1..];
      }
    }
  }

  // ----- Every interleaving

  datatype Step<T> = Push(entry: Entry<T>) | WorkerTurn

  predicate Enabled<T>(q: Queue<T>, step: Step<T>) {
    step.WorkerTurn? ==> CanWork(q)
  }

  function Next<T>(q: Queue<T>, step: Step<T>): Queue<T>
    requires Enabled(q, step)
  {
    match step
    case Push(e) => Pushed(q, e)
    case WorkerTurn => Worked(q)
  }

  /** The states of a run from an empty queue, each step enabled where it is taken. */
  ghost predicate IsRun<T>(states: seq<Queue<T>>, steps: seq<Step<T>>) {
    && |states| == |steps| + 1
    && states[0] == Empty()
    && forall i :: 0 <= i < |steps| ==> Enabled(states[i], steps[i]) && states[i + 1] == Next(states[i], steps[i])
  }

  function Works<T>(items: seq<T>): (r: seq<Entry<T>>)
    ensures |r| == |items| && forall i :: 0 <= i < |items| ==> r[i] == Work(items[i])
  {
    seq(|items|, i requires 0 <= i < |items| => Work(items[i]))
  }

  /** Everything pushed has run or is still queued, in order; an ended worker left a stop marker in front. */
  ghost predicate Conserves<T>(q: Queue<T>) {
    && q.pushed == Works(q.executed) + q.queue
    && (q.ended ==> q.queue != [] && q.queue[0] == Stop)
  }

  lemma NextConserves<T>(q: Queue<T>, step: Step<T>)
    requires Conserves(q) && Enabled(q, step)
    ensures Conserves(Next(q, step))
  {
    if step.WorkerTurn? && q.queue[0].Work? {
      var item := q.queue[0].item;
      assert Works(q.executed + [item]) == Works(q.executed) + [Work(item)];
      assert q.queue == [q.queue[0]] + q.queue[1..];
    }
  }

  lemma {:induction false} RunConserves<T>(states: seq<Queue<T>>, steps: seq<Step<T>>, i: nat)
    requires IsRun(states, steps) && i < |states|
    ensures Conserves(states[i])
  {
    if i == 0 {
      assert Works(states[0].executed) == [];
    } else {
      RunConserves(states, steps, i - 1);
      NextConserves(states[i - 1], steps[i - 1]);
    }
  }

  /** The items of a history before its first stop marker. */
  function BeforeStop<T>(pushed: seq<Entry<T>>): seq<T> {
    if pushed == [] || pushed[0].Stop? then [] else [pushed[0].item] + BeforeStop(pushed[1..])
  }

  lemma WorksCons<T>(items: seq<T>, rest: seq<Entry<T>>)
    requires items != []
    ensures var all := Works(items) + rest; all[0] == Work(items[0]) && all[1..] == Works(items[1..]) + rest
  {
    assert Works(items)[1..] == Works(items[1..]);
  }

  lemma {:induction false} BeforeStopOf<T>(items: seq<T>, rest: seq<Entry<T>>)
    ensures BeforeStop(Works(items) + rest) == items + BeforeStop(rest)
  {
    if items == [] {
      assert Works(items) == [] && [] + rest == rest;
    } else {
      BeforeStopOf(items[1..], rest);
      WorksCons(items, rest);
      assert items == [items[0]] + items[1..];
    }
  }

  /** At every moment of every interleaving the worker has executed a prefix, in push order and each once,
      of the items pushed before the first stop marker: nothing after it ever runs. */
  lemma ExecutedInOrder<T>(states: seq<Queue<T>>, steps: seq<Step<T>>, i: nat)
    requires IsRun(states, steps) && i < |states|
    ensures states[i].executed <= BeforeStop(states[i].pushed)
  {
    RunConserves(states, steps, i);
    BeforeStopOf(states[i].executed, states[i].queue);
  }

  /** Once the worker has ended, every item pushed before the first stop marker has run, and only those. */
  lemma EndedRanAll<T>(states: seq<Queue<T>>, steps: seq<Step<T>>, i: nat)
    requires IsRun(states, steps) && i < |states| && states[i].ended
    ensures states[i].executed == BeforeStop(states[i].pushed)
  {
    RunConserves(states, steps, i);
    BeforeStopOf(states[i].executed, states[i].queue);
  }

  /** What has run stays run, and nothing more runs after the end. */
  lemma {:induction false} HistoriesGrow<T>(states: seq<Queue<T>>, steps: seq<Step<T>>, i: nat, j: nat)
    requires IsRun(states, steps) && i <= j < |states|
    ensures states[i].pushed <= states[j].pushed && states[i].executed <= states[j].executed
    ensures states[i].ended ==> states[j].ended && states[j].executed == states[i].executed
  {
    if i < j {
      HistoriesGrow(states, steps, i, j - 1);
      assert Enabled(states[j - 1], steps[j - 1]);
    }
  }

  function Turns<T>(steps: seq<Step<T>>): nat {
    if steps == [] then 0
    else Turns(steps[..|steps| - 1]) + if steps[|steps| - 1].WorkerTurn? then 1 else 0
  }

  /** Every turn of the worker runs one item, but for the one that ends it. */
  lemma {:induction false} TurnsRun<T>(states: seq<Queue<T>>, steps: seq<Step<T>>, i: nat)
    requires IsRun(states, steps) && i < |states|
    ensures Turns(steps[..i]) == |states[i].executed| + if states[i].ended then 1 else 0
  {
    if i > 0 {
      TurnsRun(states, steps, i - 1);
      assert Enabled(states[i - 1], steps[i - 1]);
      assert steps[..i][..i - 1] == steps[..i - 1];
    }
  }

  lemma {:induction false} BeforeStopGrows<T>(pushed: seq<Entry<T>>, later: seq<Entry<T>>)
    requires pushed <= later
    ensures BeforeStop(pushed) <= BeforeStop(later)
  {
    if pushed != [] && pushed[0].Work? {
      BeforeStopGrows(pushed[1..], later[1..]);
    }
  }

  /** An item pushed before any stop marker is the p-th to run, and the worker needs exactly p turns before
      its own: until then it is never stuck, whatever is pushed meanwhile. */
  lemma RunsAtItsTurn<T>(states: seq<Queue<T>>, steps: seq<Step<T>>, i: nat, j: nat, p: nat)
    requires IsRun(states, steps) && i <= j < |states| && p < |BeforeStop(states[i].pushed)|
    ensures Turns(steps[..j]) <= p ==> |states[j].executed| <= p && CanWork(states[j])
    ensures Turns(steps[..j]) > p ==>
      p < |states[j].executed| && states[j].executed[p] == BeforeStop(states[i].pushed)[p]
  {
    TurnsRun(states, steps, j);
    HistoriesGrow(states, steps, i, j);
    BeforeStopGrows(states[i].pushed, states[j].pushed);
    ExecutedInOrder(states, steps, j);
    RunConserves(states, steps, j);
    if states[j].ended {
      EndedRanAll(states, steps, j);
    } else if states[j].queue == [] {
      BeforeStopOf(states[j].executed, []);
      assert states[j].pushed == Works(states[j].executed) + [];
    }
  }

  /** The entries of the pushes among these steps, in order. */
  function Entries<T>(steps: seq<Step<T>>): seq<Entry<T>> {
    if steps == [] then []
    else
      var last := steps[|steps| - 1];
      Entries(steps[..|steps| - 1]) + if last.Push? then [last.entry] else []
  }

  /** The history of what was pushed is what the steps pushed. */
  lemma {:induction false} PushedInOrder<T>(states: seq<Queue<T>>, steps: seq<Step<T>>, i: nat)
    requires IsRun(states, steps) && i < |states|
    ensures states[i].pushed == Entries(steps[..i])
  {
    if i > 0 {
      PushedInOrder(states, steps, i - 1);
      assert Enabled(states[i - 1], steps[i - 1]);
      assert steps[..i][..i - 1] == steps[..i - 1];
    }
  }
}
