/**
 * The SMP scheduler as a step machine: each section under the threads lock is one step. A
 * pointer to a thread is the key under which the thread map owns it; the id field of a thread is
 * kept apart from that key, because sched_add never writes it.
 */
module Scheduling {
  import opened Options

  /** runningOn is -1 for a thread on no CPU. */
  datatype Thread = Thread(id: nat, runningOn: int)

  datatype Cpu = Cpu(current: nat, running: bool)

  datatype State = State(threads: map<nat, Thread>, schedule: seq<nat>, cpus: seq<Cpu>)

  // ----- what has to hold -----

  /** Running CPUs and threads with a CPU are in one-to-one correspondence. */
  ghost predicate Exclusive(s: State) {
    && (forall c :: 0 <= c < |s.cpus| && s.cpus[c].running ==> Runs(s, c, s.cpus[c].current))
    && (forall k :: k in s.threads && s.threads[k].runningOn != -1 ==> OnCpu(s, k, s.threads[k].runningOn))
  }

  ghost predicate Runs(s: State, c: int, k: nat) {
    k in s.threads && s.threads[k].runningOn == c
  }

  ghost predicate OnCpu(s: State, k: nat, c: int) {
    0 <= c < |s.cpus| && s.cpus[c] == Cpu(k, true)
  }

  ghost predicate Listed(s: State) {
    && (forall i :: 0 <= i < |s.schedule| ==> s.schedule[i] in s.threads)
    && (forall i, j :: 0 <= i < j < |s.schedule| ==> s.schedule[i] != s.schedule[j])
  }

  /** What sched_add should have established: a thread's id is its key. */
  ghost predicate IdIsKey(s: State) {
    forall k :: k in s.threads ==> s.threads[k].id == k
  }

  /** Every thread on a CPU is on the list. */
  ghost predicate RunningListed(s: State) {
    forall k :: k in s.threads && s.threads[k].runningOn != -1 ==> k in s.schedule
  }

  lemma {:induction false} NeverOnTwoCpus(s: State, c: nat, d: nat)
    requires Exclusive(s) && c < |s.cpus| && d < |s.cpus|
    requires s.cpus[c].running && s.cpus[d].running && s.cpus[c].current == s.cpus[d].current
    ensures c == d
  {
    assert Runs(s, c, s.cpus[c].current) && Runs(s, d, s.cpus[d].current);
  }

  // ----- the circular search -----

  /** Position i holds a thread on no CPU. */
  predicate Waits(s: State, i: int) {
    0 <= i < |s.schedule| && s.schedule[i] in s.threads && s.threads[s.schedule[i]].runningOn == -1
  }

  /** The first position from the given one that waits, or the length of the list. */
  function Search(s: State, from: nat): (i: nat)
    ensures i < |s.schedule| ==> from <= i && Waits(s, i)
    ensures forall j :: from <= j < i ==> !Waits(s, j)
    ensures i <= |s.schedule| || i == from
    decreases |s.schedule| - from
  {
    if from >= |s.schedule| || Waits(s, from) then from else Search(s, from + 1)
  }

  /** Two passes: from idx to the end, then from the start. */
  function Choice(s: State, idx: nat): (i: nat) {
    if Search(s, idx) < |s.schedule| then Search(s, idx) else Search(s, 0)
  }

  /** For any saved index the search finds a thread exactly when some listed thread waits, and never passes one by. */
  lemma {:induction false} ChoiceFinds(s: State, idx: nat)
    ensures Choice(s, idx) < |s.schedule| <==> exists i :: Waits(s, i)
    ensures Choice(s, idx) < |s.schedule| ==> Waits(s, Choice(s, idx))
    ensures var i := Choice(s, idx);
            i < |s.schedule| ==> forall j :: Waits(s, j) ==> if i >= idx then j < idx || i <= j else i <= j < idx
  {
    if i :| Waits(s, i) { assert Search(s, 0) <= i; }
  }

  // ----- one reschedule on values -----

  ghost predicate Sound(s: State) {
    Exclusive(s) && Listed(s)
  }

  /** The thread the CPU runs, if any, gives it up. */
  function Release(s: State, cpu: nat): (r: State)
    requires cpu < |s.cpus| && (s.cpus[cpu].running ==> s.cpus[cpu].current in s.threads)
  {
    if s.cpus[cpu].running then SetOn(s, s.cpus[cpu].current, -1) else s
  }

  function SetOn(s: State, k: nat, on: int): State
    requires k in s.threads
  {
    s.(threads := s.threads[k := s.threads[k].(runningOn := on)])
  }

  function Enter(s: State, cpu: nat, id: nat): State
    requires cpu < |s.cpus| && id in s.threads
  {
    SetOn(s, id, cpu).(cpus := s.cpus[cpu := Cpu(id, true)])
  }

  function Idle(s: State, cpu: nat): State
    requires cpu < |s.cpus|
  {
    s.(cpus := s.cpus[cpu := s.cpus[cpu].(running := false)])
  }

  /** The id that the search returns. */
  function Picked(s: State, idx: nat): (r: Option<nat>) {
    var i := Choice(s, idx);
    if i < |s.schedule| && s.schedule[i] in s.threads then Some(s.threads[s.schedule[i]].id) else None
  }

  /** sched_resched from a timer; None when an id that no thread has is looked up. */
  function Rescheduled(s: State, idx: nat, cpu: nat): (r: Option<State>)
    requires cpu < |s.cpus| && (s.cpus[cpu].running ==> s.cpus[cpu].current in s.threads)
  {
    var s1 := Release(s, cpu);
    match Picked(s1, idx)
    case None => Some(Idle(s1, cpu))
    case Some(id) => if id in s1.threads then Some(Enter(s1, cpu, id)) else None
  }

  function NextIdx(s: State, idx: nat): nat {
    var i := Choice(s, idx);
    if i < |s.schedule| then i else 0
  }

  /** After the release only this CPU's record is out of step. */
  lemma {:induction false} ReleaseLeaves(s: State, cpu: nat)
    requires Exclusive(s) && cpu < |s.cpus|
    ensures s.cpus[cpu].running ==> s.cpus[cpu].current in s.threads
    ensures var r := Release(s, cpu);
            && r.cpus == s.cpus && r.schedule == s.schedule && r.threads.Keys == s.threads.Keys
            && (forall k ::
               k in s.threads ==>
               r.threads[k].id == s.threads[k].id
               && (r.threads[k].runningOn == s.threads[k].runningOn || s.threads[k].runningOn == cpu))
            && (forall k :: k in r.threads ==> r.threads[k].runningOn != cpu)
            && (forall k ::
               k in r.threads && r.threads[k].runningOn != -1 ==>
               OnCpu(s, k, r.threads[k].runningOn) && r.threads[k].runningOn == s.threads[k].runningOn)
            && (forall c :: 0 <= c < |s.cpus| && c != cpu && s.cpus[c].running ==> Runs(r, c, s.cpus[c].current))
  {
    forall k | k in s.threads && s.threads[k].runningOn == cpu ensures s.cpus[cpu] == Cpu(k, true) {
      assert OnCpu(s, k, cpu);
    }
    forall c | 0 <= c < |s.cpus| && c != cpu && s.cpus[c].running ensures Runs(Release(s, cpu), c, s.cpus[c].current) {
      assert Runs(s, c, s.cpus[c].current);
    }
  }

  /**
   * Entering the thread that an id names keeps the correspondence exactly when that thread is on
   * no CPU at that moment.
   */
  lemma {:induction false} EnterExclusive(s: State, cpu: nat, id: nat)
    requires Exclusive(s) && cpu < |s.cpus| && id in s.threads
    requires s.cpus[cpu].running ==> s.cpus[cpu].current in s.threads
    ensures Exclusive(Enter(Release(s, cpu), cpu, id)) <==> Release(s, cpu).threads[id].runningOn == -1
  {
    ReleaseLeaves(s, cpu);
    var r := Release(s, cpu);
    var e := Enter(r, cpu, id);
    var on := r.threads[id].runningOn;
    if on != -1 {
      assert OnCpu(s, id, on) && e.cpus[on] == Cpu(id, true);
      assert !Runs(e, on, id);
    } else {
      forall c | 0 <= c < |e.cpus| && e.cpus[c].running ensures Runs(e, c, e.cpus[c].current) {
        assert c != cpu ==> Runs(r, c, s.cpus[c].current);
      }
      forall k | k in e.threads && e.threads[k].runningOn != -1 ensures OnCpu(e, k, e.threads[k].runningOn) {
        assert k != id ==> OnCpu(s, k, r.threads[k].runningOn);
      }
    }
  }

  lemma {:induction false} IdleExclusive(s: State, cpu: nat)
    requires Exclusive(s) && cpu < |s.cpus|
    requires s.cpus[cpu].running ==> s.cpus[cpu].current in s.threads
    ensures Exclusive(Idle(Release(s, cpu), cpu))
  {
    ReleaseLeaves(s, cpu);
    var e := Idle(Release(s, cpu), cpu);
    forall k | k in e.threads && e.threads[k].runningOn != -1 ensures OnCpu(e, k, e.threads[k].runningOn) {
      assert OnCpu(s, k, e.threads[k].runningOn);
    }
  }

  /**
   * A reschedule keeps exclusivity if and only if no thread waits or the id of the chosen thread
   * names a thread that waits.
   */
  lemma {:induction false} RescheduleExclusive(s: State, idx: nat, cpu: nat)
    requires Sound(s) && cpu < |s.cpus|
    ensures s.cpus[cpu].running ==> s.cpus[cpu].current in s.threads
    ensures var r, s1 := Rescheduled(s, idx, cpu), Release(s, cpu);
            (r.Some? && Exclusive(r.value))
            <==> match Picked(s1, idx)
                 case None => true
                 case Some(id) => id in s1.threads && s1.threads[id].runningOn == -1
  {
    ReleaseLeaves(s, cpu);
    match Picked(Release(s, cpu), idx) {
      case None => IdleExclusive(s, cpu);
      case Some(id) => if id in s.threads { EnterExclusive(s, cpu, id); }
    }
  }

  /** With ids that are keys the id names the chosen thread itself, and every timer step is safe. */
  lemma {:induction false} RescheduleKeeps(s: State, idx: nat, cpu: nat)
    requires Sound(s) && IdIsKey(s) && RunningListed(s) && cpu < |s.cpus|
    ensures s.cpus[cpu].running ==> s.cpus[cpu].current in s.threads
    ensures var r := Rescheduled(s, idx, cpu);
            && r.Some? && Sound(r.value) && IdIsKey(r.value) && RunningListed(r.value)
            && r.value.schedule == s.schedule && r.value.threads.Keys == s.threads.Keys && |r.value.cpus| == |s.cpus|
  {
    ReleaseLeaves(s, cpu);
    RescheduleExclusive(s, idx, cpu);
    var s1 := Release(s, cpu);
    ChoiceFinds(s1, idx);
  }

  /**
   * Work conservation, whatever the saved index is: the CPU is left without a thread exactly when
   * every listed thread runs on some CPU, and it is left with the first waiting one in circular
   * order otherwise. No other CPU's record changes.
   */
  lemma {:induction false} WorkConserved(s: State, idx: nat, cpu: nat)
    requires Sound(s) && IdIsKey(s) && RunningListed(s) && cpu < |s.cpus|
    ensures s.cpus[cpu].running ==> s.cpus[cpu].current in s.threads
    ensures var r, s1 := Rescheduled(s, idx, cpu), Release(s, cpu);
            && r.Some?
            && (!r.value.cpus[cpu].running <==>
               forall i :: 0 <= i < |s.schedule| ==> !Waits(r.value, i) && !Runs(r.value, cpu, s.schedule[i]))
            && (r.value.cpus[cpu].running ==>
               Waits(s1, Choice(s1, idx)) && r.value.cpus[cpu].current == s.schedule[Choice(s1, idx)])
            && (forall c :: 0 <= c < |s.cpus| && c != cpu ==> r.value.cpus[c] == s.cpus[c])
  {
    ReleaseLeaves(s, cpu);
    RescheduleKeeps(s, idx, cpu);
    var s1, r := Release(s, cpu), Rescheduled(s, idx, cpu);
    var i := Choice(s1, idx);
    ChoiceFinds(s1, idx);
    if i < |s.schedule| {
      assert Runs(r.value, cpu, s.schedule[i]);
    } else {
      forall j | 0 <= j < |s.schedule| ensures !Waits(r.value, j) && !Runs(r.value, cpu, s.schedule[j]) {
        assert !Waits(s1, j);
      }
    }
  }

  // ----- ids as the source leaves them -----

  /** Two threads with the id of the constructor, both started: two CPUs run the first one. */
  lemma {:induction false} UnwrittenIdsRunTwice()
    ensures var s := State(map[0 := Thread(0, -1), 1 := Thread(0, -1)], [0, 1], [Cpu(0, false), Cpu(0, false)]);
            && Sound(s)
            && var r := Rescheduled(s, 0, 0);
               && r.Some? && Sound(r.value) && r.value.cpus[1] == Cpu(0, false)
               && var t := Rescheduled(r.value, NextIdx(s, 0), 1);
                  t.Some? && t.value.cpus == [Cpu(0, true), Cpu(0, true)] && !Exclusive(t.value)
  {
    var s := State(map[0 := Thread(0, -1), 1 := Thread(0, -1)], [0, 1], [Cpu(0, false), Cpu(0, false)]);
    RescheduleExclusive(s, 0, 0);
    assert Waits(s, 0) && Choice(s, 0) == 0;
    var r := Rescheduled(s, 0, 0).value;
    assert r == State(map[0 := Thread(0, 0), 1 := Thread(0, -1)], [0, 1], [Cpu(0, true), Cpu(0, false)]);
    assert !Waits(r, 0) && Waits(r, 1) && Search(r, 1) == 1 && Choice(r, 0) == 1;
    var t := Rescheduled(r, 0, 1).value;
    assert Release(r, 1) == r && Picked(r, 0) == Some(0) && t == Enter(r, 1, 0);
    assert t.cpus == [Cpu(0, true), Cpu(0, true)] && t.threads[0] == Thread(0, 1);
    assert !Runs(t, 0, t.cpus[0].current);
    assert Sound(s) && Sound(r) && NextIdx(s, 0) == 0;
  }

  /**
   * If no id was ever written, a reschedule is safe exactly when nothing waits, or thread 0
   * exists and is on no other CPU.
   */
  lemma {:induction false} UnwrittenIds(s: State, idx: nat, cpu: nat)
    requires Sound(s) && cpu < |s.cpus| && forall k :: k in s.threads ==> s.threads[k].id == 0
    ensures s.cpus[cpu].running ==> s.cpus[cpu].current in s.threads
    ensures var r, s1 := Rescheduled(s, idx, cpu), Release(s, cpu);
            (r.Some? && Exclusive(r.value)) <==>
              || (forall i :: !Waits(s1, i))
              || (0 in s.threads && (s.threads[0].runningOn == -1 || s.threads[0].runningOn == cpu))
  {
    ReleaseLeaves(s, cpu);
    RescheduleExclusive(s, idx, cpu);
    var s1 := Release(s, cpu);
    ChoiceFinds(s1, idx);
    assert forall k :: k in s1.threads ==> s1.threads[k].id == 0;
    if 0 in s.threads && s.threads[0].runningOn == cpu { assert OnCpu(s, 0, cpu); }
  }

  // ----- no rotation -----

  /**
   * The saved index is the position of the chosen thread, not the one after it. A CPU that runs
   * the thread at the saved index gets the same thread back, and nothing changes.
   */
  lemma {:induction false} TimerChangesNothing(s: State, idx: nat, cpu: nat)
    requires Sound(s) && IdIsKey(s) && cpu < |s.cpus| && s.cpus[cpu].running
    requires idx < |s.schedule| && s.schedule[idx] == s.cpus[cpu].current
    ensures s.cpus[cpu].current in s.threads && Rescheduled(s, idx, cpu) == Some(s)
            && NextIdx(Release(s, cpu), idx) == idx
  {
    ReleaseLeaves(s, cpu);
    assert Runs(s, cpu, s.cpus[cpu].current);
    var s1 := Release(s, cpu);
    assert Waits(s1, idx);
    var e := Enter(s1, cpu, s.schedule[idx]);
    assert e.threads == s.threads;
    assert e.cpus == s.cpus;
  }

  /**
   * When a timer step preempts: for a running CPU whose thread is at list position p, exactly
   * when some thread waits between the saved index and p in circular order.
   */
  lemma {:induction false} PreemptsExactly(s: State, idx: nat, cpu: nat, p: nat)
    requires Sound(s) && IdIsKey(s) && RunningListed(s) && cpu < |s.cpus| && s.cpus[cpu].running
    requires p < |s.schedule| && s.schedule[p] == s.cpus[cpu].current
    ensures s.cpus[cpu].current in s.threads && Rescheduled(s, idx, cpu).Some?
            && |Rescheduled(s, idx, cpu).value.cpus| == |s.cpus|
    ensures Rescheduled(s, idx, cpu).value.cpus[cpu].running
    ensures Rescheduled(s, idx, cpu).value.cpus[cpu].current != s.cpus[cpu].current
       <==> exists j :: Waits(s, j) && if idx <= p then idx <= j < p else idx <= j || j < p
  {
    hide Rescheduled, Choice, Release;
    ReleaseLeaves(s, cpu);
    RescheduleKeeps(s, idx, cpu);
    WorkConserved(s, idx, cpu);
    ReleasedWaits(s, cpu, p);
    var s1 := Release(s, cpu);
    ChoiceFinds(s1, idx);
    assert Waits(s1, p);
    var i := Choice(s1, idx);
    assert i != p ==> s.schedule[i] != s.schedule[p];
    if i != p { assert Waits(s, i); }
    if j :| Waits(s, j) && if idx <= p then idx <= j < p else idx <= j || j < p { assert Waits(s1, j); }
  }

  /** After the release the CPU's own thread waits too, and no other changes. */
  lemma {:induction false} ReleasedWaits(s: State, cpu: nat, p: nat)
    requires Sound(s) && cpu < |s.cpus| && s.cpus[cpu].running && p < |s.schedule|
             && s.schedule[p] == s.cpus[cpu].current
    ensures s.cpus[cpu].current in s.threads
    ensures forall j :: Waits(Release(s, cpu), j) <==> Waits(s, j) || j == p
  {
    ReleaseLeaves(s, cpu);
    assert Runs(s, cpu, s.cpus[cpu].current);
    forall j | 0 <= j < |s.schedule| && j != p ensures s.schedule[j] != s.schedule[p] {}
  }

  /** A state in which a waiting thread is passed over, however often the timer comes. */
  lemma {:induction false} WaitingIsPassedOver(n: nat)
    ensures var s := State(map[0 := Thread(0, 0), 1 := Thread(1, -1)], [0, 1], [Cpu(0, true)]);
            && Sound(s) && IdIsKey(s) && RunningListed(s) && Waits(s, 1) && Timers(s, 0, 0, n) == Some(s)
  {
    var s := State(map[0 := Thread(0, 0), 1 := Thread(1, -1)], [0, 1], [Cpu(0, true)]);
    assert Runs(s, 0, s.cpus[0].current) && OnCpu(s, 0, 0);
    SameAgain(s, 0, 0, n);
  }

  /** n timer interrupts in a row on one CPU. */
  function Timers(s: State, idx: nat, cpu: nat, n: nat): (r: Option<State>)
    requires cpu < |s.cpus| && (s.cpus[cpu].running ==> s.cpus[cpu].current in s.threads)
    decreases n
  {
    if n == 0 then Some(s)
    else
      var r := Rescheduled(s, idx, cpu);
      if r.None? then None else Timers(r.value, NextIdx(Release(s, cpu), idx), cpu, n - 1)
  }

  /** So with one CPU taking interrupts the chosen thread is never preempted, however many others wait. */
  lemma {:induction false} OneCpuNeverRotates(s: State, idx: nat, cpu: nat, n: nat)
    requires Sound(s) && IdIsKey(s) && RunningListed(s) && cpu < |s.cpus| && n > 0
    ensures s.cpus[cpu].running ==> s.cpus[cpu].current in s.threads
    ensures Timers(s, idx, cpu, n) == Rescheduled(s, idx, cpu)
  {
    ReleaseLeaves(s, cpu);
    RescheduleKeeps(s, idx, cpu);
    var s1 := Release(s, cpu);
    var r, idx1 := Rescheduled(s, idx, cpu).value, NextIdx(s1, idx);
    ChoiceFinds(s1, idx);
    if r.cpus[cpu].running {
      SameAgain(r, idx1, cpu, n - 1);
    } else {
      forall i ensures !Waits(r, i) { assert !Waits(s1, i); }
      IdleAgain(r, idx1, cpu, n - 1);
    }
  }

  lemma {:induction false} SameAgain(s: State, idx: nat, cpu: nat, n: nat)
    requires Sound(s) && IdIsKey(s) && cpu < |s.cpus| && s.cpus[cpu].running
    requires idx < |s.schedule| && s.schedule[idx] == s.cpus[cpu].current
    ensures s.cpus[cpu].current in s.threads && Timers(s, idx, cpu, n) == Some(s)
  {
    TimerChangesNothing(s, idx, cpu);
    if n > 0 { SameAgain(s, idx, cpu, n - 1); }
  }

  lemma {:induction false} IdleAgain(s: State, idx: nat, cpu: nat, n: nat)
    requires cpu < |s.cpus| && !s.cpus[cpu].running && forall i :: !Waits(s, i)
    ensures Timers(s, idx, cpu, n) == Some(s)
  {
    ChoiceFinds(s, idx);
    assert Idle(s, cpu) == s;
    if n > 0 { IdleAgain(s, NextIdx(s, idx), cpu, n - 1); }
  }

  // ----- the scheduler itself -----

  /** The first position whose thread has the id, or the length of the list. */
  function PositionOf(s: State, id: nat, from: nat): (i: nat)
    requires Listed(s) && from <= |s.schedule|
    ensures from <= i <= |s.schedule|
    ensures i < |s.schedule| ==> s.threads[s.schedule[i]].id == id
    ensures forall j :: from <= j < i ==> s.threads[s.schedule[j]].id != id
    decreases |s.schedule| - from
  {
    if from == |s.schedule| || s.threads[s.schedule[from]].id == id then from else PositionOf(s, id, from + 1)
  }

  function Removed(s: State, id: nat): State
    requires Listed(s)
  {
    var i := PositionOf(s, id, 0);
    State(s.threads - {id}, if i < |s.schedule| then s.schedule[..i] + s.schedule[i + 1..] else s.schedule, s.cpus)
  }

  lemma {:induction false} RemoveKeeps(s: State, id: nat)
    requires Sound(s) && IdIsKey(s) && RunningListed(s) && (id in s.threads ==> s.threads[id].runningOn == -1)
    ensures var r := Removed(s, id); Sound(r) && IdIsKey(r) && RunningListed(r) && id !in r.schedule && id !in r.threads
  {
    var r, i := Removed(s, id), PositionOf(s, id, 0);
    assert forall j :: 0 <= j < |s.schedule| ==> s.threads[s.schedule[j]].id == s.schedule[j];
    forall c | 0 <= c < |r.cpus| && r.cpus[c].running ensures Runs(r, c, r.cpus[c].current) {
      assert Runs(s, c, s.cpus[c].current);
    }
    forall k | k in r.threads && r.threads[k].runningOn != -1 ensures OnCpu(r, k, r.threads[k].runningOn) {
      assert OnCpu(s, k, s.threads[k].runningOn);
    }
    forall k | k in r.threads && r.threads[k].runningOn != -1 ensures k in r.schedule {
      StillListed(s, id, k);
    }
  }

  /** Every other entry stays on the list. */
  lemma {:induction false} StillListed(s: State, id: nat, k: nat)
    requires Listed(s) && IdIsKey(s) && k in s.schedule && k != id
    ensures k in Removed(s, id).schedule
  {
    var r, i := Removed(s, id), PositionOf(s, id, 0);
    var j :| 0 <= j < |s.schedule| && s.schedule[j] == k;
    assert i < |s.schedule| ==> s.threads[s.schedule[i]].id == s.schedule[i];
    assert j < i || i == |s.schedule| ==> r.schedule[j] == k;
    assert j > i ==> r.schedule[j - 1] == k;
  }

  /** All that a scheduler holds: threads, list and CPUs, the saved index of the search, the next key. */
  datatype Sched = Sched(s: State, idx: nat, nextId: nat)

  ghost predicate Invariant(a: Sched) {
    Sound(a.s) && RunningListed(a.s) && IdIsKey(a.s) && forall k :: k in a.s.threads ==> k < a.nextId
  }

  class Scheduler {
    var threads: map<nat, Thread>
    var schedule: seq<nat>
    var cpus: seq<Cpu>
    var idx: nat      // the static of the search
    var nextId: nat

    function Now(): State
      reads this
    {
      State(threads, schedule, cpus)
    }

    function All(): Sched
      reads this
    {
      Sched(Now(), idx, nextId)
    }

    ghost predicate Valid()
      reads this
    {
      Invariant(All())
    }

    /** sched_init; the source panics when there is no CPU. */
    constructor (n: nat)
      requires n > 0
      ensures Valid() && |cpus| == n && threads == map[] && schedule == [] && idx == 0 && nextId == 0
      ensures forall c :: 0 <= c < n ==> cpus[c] == Cpu(0, false)
    {
      threads, schedule, idx, nextId := map[], [], 0, 0;
      cpus := [];
      new;
      var i := 0;
      while i < n
        invariant i <= n && |cpus| == i && threads == map[] && schedule == [] && idx == 0 && nextId == 0
        invariant forall c :: 0 <= c < i ==> cpus[c] == Cpu(0, false)
      {
        cpus := cpus + [Cpu(0, false)];
        i := i + 1;
      }
    }

    /** get_next_thread_to_run. */
    method GetNextThreadToRun() returns (next: Option<nat>)
      requires Listed(Now())
      modifies this`idx
      ensures next == Picked(Now(), old(idx)) && idx == NextIdx(Now(), old(idx))
    {
      var traversed := 0;
      while traversed < 2
        invariant 0 <= traversed <= 2 && idx == (if traversed == 0 then old(idx) else 0)
        invariant traversed >= 1 ==> Search(Now(), old(idx)) >= |schedule|
        invariant traversed == 2 ==> Search(Now(), 0) == |schedule|
      {
        var i := 0;
        while i < |schedule|
          invariant i <= |schedule|
          invariant idx == (if traversed == 0 then old(idx) else 0)
          invariant i <= idx || Search(Now(), idx) == Search(Now(), i)
        {
          if i < idx {
            i := i + 1;
            continue;
          }
          if threads[schedule[i]].runningOn == -1 {
            assert Waits(Now(), i) && Search(Now(), i) == i && Search(Now(), idx) == i;
            idx := i;
            return Some(threads[schedule[i]].id);
          }
          i := i + 1;
        }
        idx := 0;
        traversed := traversed + 1;
      }
      return None;
    }

    /** The state a reschedule is made on is one where the chosen id names a thread. */
    method Resched(cpu: nat)
      requires Valid() && cpu < |cpus|
      modifies this`threads, this`cpus, this`idx
      ensures Valid()
      ensures cpu < |old(cpus)| && (old(cpus)[cpu].running ==> old(cpus)[cpu].current in old(threads))
      ensures Some(Now()) == Rescheduled(old(Now()), old(idx), cpu)
      ensures idx == NextIdx(Release(old(Now()), cpu), old(idx))
    {
      ghost var s := Now();
      ReleaseLeaves(s, cpu);
      RescheduleKeeps(s, idx, cpu);
      if cpus[cpu].running {
        threads := threads[cpus[cpu].current := threads[cpus[cpu].current].(runningOn := -1)];
      }
      assert Now() == Release(s, cpu);
      var next := GetNextThreadToRun();
      if next.Some? && cpus[cpu].running && next.value == cpus[cpu].current {
        cpus := cpus[cpu := cpus[cpu].(running := true)];
        threads := threads[next.value := threads[next.value].(runningOn := cpu)];
        return;
      }
      if next.Some? {
        cpus := cpus[cpu := Cpu(next.value, true)];
        threads := threads[next.value := threads[next.value].(runningOn := cpu)];
      } else {
        cpus := cpus[cpu := cpus[cpu].(running := false)];
      }
    }

    /**
     * sched_add of a new thread; the invariant is kept exactly when the thread has the id it is
     * about to get, which the code never writes.
     */
    method Add(thread: Thread) returns (id: nat)
      requires Valid() && thread.runningOn == -1
      modifies this`threads, this`nextId
      ensures id == old(nextId) && nextId == id + 1
      ensures id !in old(threads) && threads == old(threads)[id := thread]
      ensures Valid() <==> thread.id == id
    {
      id := nextId;
      nextId := nextId + 1;
      AddKeeps(Now(), id, thread);
      threads := threads[id := thread];
      assert thread.id != id ==> !IdIsKey(Now()) by { assert id in threads; }
    }

    /** sched_remove. The invariant is kept exactly when the thread is on no CPU or there is none. */
    method Remove(id: nat)
      requires Valid()
      modifies this`threads, this`schedule
      ensures Listed(old(Now())) && Now() == Removed(old(Now()), id)
      ensures id !in threads && id !in schedule
      ensures Valid() <==> (id in old(threads) ==> old(threads)[id].runningOn == -1)
    {
      ghost var s := Now();
      var i := 0;
      while i < |schedule| && threads[schedule[i]].id != id
        invariant i <= |schedule| && PositionOf(s, id, 0) == PositionOf(s, id, i)
      {
        i := i + 1;
      }
      if i < |schedule| {
        schedule := schedule[..i] + schedule[i + 1..];
      }
      threads := threads - {id};
      RemoveDrops(s, id);
      if id in s.threads && s.threads[id].runningOn != -1 { RemoveBreaks(s, id); } else { RemoveKeeps(s, id); }
    }

    /**
     * sched_run; ok is false when no thread has the id or it is on the list already, which the list
     * does not survive.
     */
    method Start(id: nat) returns (ok: bool)
      requires Valid()
      modifies this`schedule
      ensures ok <==> id in threads && id !in old(schedule)
      ensures ok ==> Valid() && schedule == old(schedule) + [id]
      ensures !ok ==> schedule == old(schedule)
    {
      ok := id in threads && id !in schedule;
      if ok {
        StartKeeps(Now(), id);
        schedule := schedule + [id];
      }
    }
  }

  lemma {:induction false} AddKeeps(s: State, id: nat, thread: Thread)
    requires Sound(s) && RunningListed(s) && IdIsKey(s) && id !in s.threads && thread.runningOn == -1
    ensures var r := s.(threads := s.threads[id := thread]);
            Sound(r) && RunningListed(r) && (thread.id == id ==> IdIsKey(r))
  {
    var r := s.(threads := s.threads[id := thread]);
    forall k | k in r.threads && r.threads[k].runningOn != -1 ensures OnCpu(r, k, r.threads[k].runningOn) {
      assert OnCpu(s, k, s.threads[k].runningOn);
    }
    forall c | 0 <= c < |r.cpus| && r.cpus[c].running ensures Runs(r, c, r.cpus[c].current) {
      assert Runs(s, c, s.cpus[c].current);
    }
  }

  lemma {:induction false} StartKeeps(s: State, id: nat)
    requires Sound(s) && RunningListed(s) && IdIsKey(s) && id in s.threads && id !in s.schedule
    ensures var r := s.(schedule := s.schedule + [id]); Sound(r) && RunningListed(r) && IdIsKey(r)
  {
    var r := s.(schedule := s.schedule + [id]);
    forall k | k in r.threads && r.threads[k].runningOn != -1
      ensures OnCpu(r, k, r.threads[k].runningOn) && k in r.schedule
    {
      assert OnCpu(s, k, s.threads[k].runningOn) && k in s.schedule;
    }
    forall c | 0 <= c < |r.cpus| && r.cpus[c].running ensures Runs(r, c, r.cpus[c].current) {
      assert Runs(s, c, s.cpus[c].current);
    }
  }

  /** A thread that is removed while it runs leaves its CPU with a thread that is no more. */
  lemma {:induction false} RemoveBreaks(s: State, id: nat)
    requires Sound(s) && id in s.threads && s.threads[id].runningOn != -1
    ensures !Exclusive(Removed(s, id))
  {
    var c := s.threads[id].runningOn;
    assert OnCpu(s, id, c);
    assert !Runs(Removed(s, id), c, id);
  }

  lemma {:induction false} RemoveDrops(s: State, id: nat)
    requires Sound(s) && IdIsKey(s)
    ensures id !in Removed(s, id).threads && id !in Removed(s, id).schedule
  {
    var i := PositionOf(s, id, 0);
    assert forall j :: 0 <= j < |s.schedule| ==> s.threads[s.schedule[j]].id == s.schedule[j];
  }

  datatype Event = Add | Start(id: nat) | Remove(id: nat) | Timer(cpu: nat)

  /** What the source demands of the caller. */
  predicate Legal(e: Event, a: Sched) {
    match e
    case Add => true
    case Start(id) => id in a.s.threads && id !in a.s.schedule
    case Remove(id) => id in a.s.threads ==> a.s.threads[id].runningOn == -1
    case Timer(cpu) => cpu < |a.s.cpus|
  }

  /** One event; one that breaks an obligation of its caller is left out. */
  ghost function Next(e: Event, a: Sched): (b: Sched)
    requires Invariant(a)
    ensures Invariant(b) && |b.s.cpus| == |a.s.cpus|
  {
    if !Legal(e, a) then a
    else
      match e
      case Add =>
        AddKeeps(a.s, a.nextId, Thread(a.nextId, -1));
        Sched(a.s.(threads := a.s.threads[a.nextId := Thread(a.nextId, -1)]), a.idx, a.nextId + 1)
      case Start(id) =>
        StartKeeps(a.s, id);
        a.(s := a.s.(schedule := a.s.schedule + [id]))
      case Remove(id) =>
        RemoveKeeps(a.s, id);
        a.(s := Removed(a.s, id))
      case Timer(cpu) =>
        RescheduleKeeps(a.s, a.idx, cpu);
        Sched(Rescheduled(a.s, a.idx, cpu).value, NextIdx(Release(a.s, cpu), a.idx), a.nextId)
  }

  ghost function Boot(n: nat): (a: Sched)
    ensures Invariant(a) && |a.s.cpus| == n
  {
    Sched(State(map[], [], seq(n, i => Cpu(0, false))), 0, 0)
  }

  /** The state after the events, from boot on n CPUs. */
  ghost function After(n: nat, events: seq<Event>): (a: Sched)
    ensures Invariant(a) && |a.s.cpus| == n
  {
    if events == [] then Boot(n) else Next(events[|events| - 1], After(n, events[..|events| - 1]))
  }

  /**
   * Every state of every run of add, run, remove and timer events on any number of CPUs, from
   * boot: running CPUs and threads with a CPU correspond one to one, so no thread is current on
   * two CPUs.
   */
  lemma {:induction false} NeverTwiceInARun(n: nat, events: seq<Event>, i: nat, c: nat, d: nat)
    requires i <= |events| && c < n && d < n && c != d
    ensures var s := After(n, events[..i]).s;
            && Exclusive(s) && |s.cpus| == n
            && (s.cpus[c].running && s.cpus[d].running ==> s.cpus[c].current != s.cpus[d].current)
  {
    hide After;
    var s := After(n, events[..i]).s;
    if s.cpus[c].running && s.cpus[d].running && s.cpus[c].current == s.cpus[d].current { NeverOnTwoCpus(s, c, d); }
  }

  lemma {:induction false} AfterMore(n: nat, events: seq<Event>, i: nat)
    requires i < |events|
    ensures After(n, events[..i + 1]) == Next(events[i], After(n, events[..i]))
  {
    assert events[..i + 1][..i] == events[..i];
  }

  /** A run makes the calls of its events, and ends in the state that they lead to. */
  method Run(n: nat, events: seq<Event>) returns (s: Scheduler)
    requires n > 0
    ensures fresh(s) && s.Valid() && s.All() == After(n, events)
  {
    hide After, Invariant, Rescheduled, Removed, NextIdx, Release;
    s := new Scheduler(n);
    BootIs(s, n);
    var i := 0;
    while i < |events|
      invariant i <= |events| && fresh(s) && s.Valid() && s.All() == After(n, events[..i])
    {
      AfterMore(n, events, i);
      if Legal(events[i], s.All()) {
        match events[i] {
          case Add => var id := s.Add(Thread(s.nextId, -1));
          case Start(id) => var ok := s.Start(id);
          case Remove(id) => s.Remove(id);
          case Timer(cpu) => s.Resched(cpu);
        }
      }
      i := i + 1;
    }
    assert events[..i] == events;
  }

  lemma {:induction false} BootIs(s: Scheduler, n: nat)
    requires s.threads == map[] && s.schedule == [] && s.idx == 0 && s.nextId == 0
    requires |s.cpus| == n && forall c :: 0 <= c < n ==> s.cpus[c] == Cpu(0, false)
    ensures s.All() == After(n, [])
  {}
}
