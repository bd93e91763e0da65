/** The i386 frame allocator: a stack of free frames and a reference count for every frame. */
module FrameStacks {
  const FRAMES: nat := 0x10_0000        // frames of a 32-bit address space, and slots of the stack
  const LOW_FRAMES: nat := 0x800        // pmm_free ignores addresses up to 0x800000

  /** Pool frames that nobody holds. */
  ghost function Unheld(refs: seq<nat>, pool: set<nat>): set<nat> {
    set f | f in pool && f < |refs| && refs[f] == 0
  }

  ghost function HeldFrames(refs: seq<nat>, pool: set<nat>): set<nat> {
    set f | f in pool && f < |refs| && refs[f] > 0
  }

  /**
   * The stack, by frame number, holds each pool frame with count 0 once, and nothing else; no other
   * frame has a count.
   */
  ghost predicate StackOk(on: seq<nat>, refs: seq<nat>, pool: set<nat>) {
    && |refs| == FRAMES && (forall f :: f in pool ==> LOW_FRAMES < f < FRAMES)
    && Distinct(on)
    && (forall f :: f in on <==> f in pool && refs[f] == 0)
    && (forall f :: 0 <= f < |refs| && f !in pool ==> refs[f] == 0)
  }

  ghost predicate Distinct(on: seq<nat>) {
    forall i, j :: 0 <= i < j < |on| ==> on[i] != on[j]
  }

  function SetRef(refs: seq<nat>, f: nat, n: nat): (r: seq<nat>)
    requires f < |refs|
    ensures |r| == |refs| && r[f] == n && forall g :: 0 <= g < |refs| && g != f ==> r[g] == refs[g]
  {
    refs[f := n]
  }

  // ----- what each operation does to the invariant -----

  lemma {:induction false} PopKeeps(on: seq<nat>, refs: seq<nat>, pool: set<nat>)
    requires StackOk(on, refs, pool) && on != []
    ensures var f := on[|on| - 1];
            f in pool && f < |refs| && refs[f] == 0 && StackOk(on[..|on| - 1], SetRef(refs, f, 1), pool)
  {
    hide SetRef;
    var n := |on| - 1;
    var f, rest := on[n], on[..n];
    assert f in on;
    assert on == rest + [f];
    assert f !in rest;
    assert forall g :: g in on <==> g in rest || g == f;
  }

  lemma {:induction false} PushKeeps(on: seq<nat>, refs: seq<nat>, pool: set<nat>, f: nat)
    requires StackOk(on, refs, pool) && f < |refs| && refs[f] == 1
    ensures StackOk(on + [f], SetRef(refs, f, 0), pool)
  {
    hide SetRef;
    assert f in pool && f !in on;
  }

  lemma {:induction false} RecountKeeps(on: seq<nat>, refs: seq<nat>, pool: set<nat>, f: nat, n: nat)
    requires StackOk(on, refs, pool) && f < |refs| && refs[f] > 0 && n > 0
    ensures StackOk(on, SetRef(refs, f, n), pool)
  {
    hide SetRef;
  }

  /** A frame that joins the pool. */
  lemma {:induction false} JoinKeeps(on: seq<nat>, refs: seq<nat>, pool: set<nat>, f: nat)
    requires StackOk(on, refs, pool) && f !in pool && LOW_FRAMES < f < FRAMES
    ensures StackOk(on + [f], refs, pool + {f})
  {
    assert f !in on;
  }

  // ----- counting -----

  ghost function Members(on: seq<nat>): set<nat> {
    set f | f in on
  }

  lemma {:induction false} DistinctCount(on: seq<nat>)
    requires Distinct(on)
    ensures |Members(on)| == |on|
  {
    if on != [] {
      var n := |on| - 1;
      DistinctCount(on[..n]);
      assert on == on[..n] + [on[n]];
      assert Members(on) == Members(on[..n]) + {on[n]};
    }
  }

  lemma {:induction false} BelowCount(s: set<nat>, n: nat)
    requires forall x :: x in s ==> x < n
    ensures |s| <= n
  {
    if n == 0 {
      assert s == {};
    } else {
      BelowCount(s - {n - 1}, n - 1);
      if n - 1 !in s { assert s - {n - 1} == s; }
    }
  }

  /**
   * The stack has as many entries as there are pool frames with count 0; together with the held
   * ones they make up the pool, and while a frame is held there is a slot for it.
   */
  lemma {:induction false} Counts(on: seq<nat>, refs: seq<nat>, pool: set<nat>)
    requires StackOk(on, refs, pool)
    ensures |on| == |Unheld(refs, pool)| && |on| + |HeldFrames(refs, pool)| == |pool| <= FRAMES
    ensures HeldFrames(refs, pool) != {} ==> |on| < FRAMES
  {
    DistinctCount(on);
    assert Members(on) == Unheld(refs, pool);
    assert Unheld(refs, pool) + HeldFrames(refs, pool) == pool && Unheld(refs, pool) !! HeldFrames(refs, pool);
    BelowCount(pool, FRAMES);
  }

  // ----- the allocator -----

  class FrameStack {
    const stack: array<nat>
    const refs: array<nat>
    var pointer: nat
    var size: nat
    var maxSize: nat
    ghost var pool: set<nat>
    ghost var on: seq<nat>     // the frames on the stack, bottom first

    ghost predicate Valid()
      reads this, stack, refs
    {
      && stack.Length == FRAMES && refs.Length == FRAMES && stack != refs
      && pointer == size == |on| <= FRAMES && maxSize == |pool|
      && (forall i :: 0 <= i < size ==> stack[i] == on[i] * 0x1000)
      && StackOk(on, refs[..], pool)
    }

    /** The state after pmm_init has pushed the available frames, given here in order. */
    constructor (available: seq<nat>)
      requires Distinct(available) && Above(available)
      ensures Valid() && fresh(stack) && fresh(refs) && maxSize == size == |available|
      ensures on == available && pool == Members(available)
      ensures HeldFrames(refs[..], pool) == {}
    {
      hide StackOk, Distinct, Members;
      stack := new nat[FRAMES](_ => 0);
      refs := new nat[FRAMES](_ => 0);
      pointer, size, maxSize, pool, on := 0, 0, 0, {}, [];
      new;
      EmptyStack(refs[..]);
      assert available[..0] == [];
      var i := 0;
      while i < |available|
        invariant i <= |available| && Valid() && maxSize == size == i && fresh(stack) && fresh(refs)
        invariant on == available[..i] && pool == Members(on)
        invariant forall f :: 0 <= f < FRAMES ==> refs[f] == 0
      {
        NewFrame(available, i);
        AddFrame(available[i]);
        assert available[..i + 1] == available[..i] + [available[i]];
        i := i + 1;
      }
      assert available[..i] == available;
    }

    /** One turn of the loop of pmm_init for an available frame. */
    method AddFrame(f: nat)
      requires Valid() && f !in pool && LOW_FRAMES < f < FRAMES
      modifies this, stack
      ensures Valid() && on == old(on) + [f] && pool == old(pool) + {f} && maxSize == old(maxSize) + 1
              && size == old(size) + 1
    {
      hide StackOk;
      JoinKeeps(on, refs[..], pool, f);
      Counts(on + [f], refs[..], pool + {f});
      Push(f * 0x1000);
      maxSize, pool, on := maxSize + 1, pool + {f}, on + [f];
    }

    /** pmm_push onto a stack with a free slot. The guard of the source lets one entry too many through. */
    method Push(val: nat)
      requires stack.Length == FRAMES && pointer == size < FRAMES
      modifies this`pointer, this`size, stack
      ensures pointer == size == old(size) + 1 && stack[old(size)] == val
      ensures forall i :: 0 <= i < old(size) ==> stack[i] == old(stack[i])
    {
      if size > 0x10_0000 { return; }
      stack[pointer] := val;
      pointer := pointer + 1;
      size := size + 1;
    }

    /** pmm_alloc; ok is false when the kernel stops because there is no frame. */
    method Alloc() returns (ok: bool, addr: nat)
      requires Valid()
      modifies this`pointer, this`size, this`on, refs
      ensures Valid()
      ensures ok <==> Unheld(old(refs[..]), pool) != {}
      ensures !ok ==> refs[..] == old(refs[..]) && on == old(on)
      ensures ok ==>
                && addr % 0x1000 == 0 && addr / 0x1000 in pool && addr / 0x1000 < FRAMES == |old(refs[..])|
                && old(refs[..])[addr / 0x1000] == 0 && refs[..] == SetRef(old(refs[..]), addr / 0x1000, 1)
                && old(on) == on + [addr / 0x1000]
    {
      hide StackOk, Unheld, HeldFrames;
      Counts(on, refs[..], pool);
      addr := 0;
      ok := size != 0;
      if ok {
        PopKeeps(on, refs[..], pool);
        ghost var f := on[size - 1];
        pointer := pointer - 1;
        size := size - 1;
        addr := stack[pointer];
        assert addr / 0x1000 == f;
        refs[addr / 0x1000] := 1;
        on := on[..size];
        assert refs[..] == SetRef(old(refs[..]), f, 1);
      }
    }

    /**
     * pmm_free of any address: the last reference to a pool frame puts it back on the stack, one
     * of several is dropped, and an address that nobody holds or that lies low changes nothing.
     */
    method Free(ptr: nat)
      requires Valid() && ptr < 0x1_0000_0000
      modifies this`pointer, this`size, this`on, stack, refs
      ensures Valid()
      ensures var f, was := ptr / 0x1000, old(refs[..]);
              && f < FRAMES == |was|
              && refs[..] == (if was[f] > 0 then SetRef(was, f, was[f] - 1) else was)
              && on == old(on) + (if was[f] == 1 then [f] else [])
    {
      hide StackOk, Unheld;
      var page := ptr / 0x1000 * 0x1000;
      var f := page / 0x1000;
      HeldInPool(on, refs[..], pool, f);
      if page <= 0x80_0000 { return; }
      if refs[f] == 1 {
        Counts(on, refs[..], pool);
        PushKeeps(on, refs[..], pool, f);
        refs[f] := 0;
        assert refs[..] == SetRef(old(refs[..]), f, 0);
        Push(page);
        on := on + [f];
      } else if refs[f] > 1 {
        RecountKeeps(on, refs[..], pool, f, refs[f] - 1);
        refs[f] := refs[f] - 1;
        assert refs[..] == SetRef(old(refs[..]), f, old(refs[f]) - 1);
      }
    }

    /** A further holder, through get_page_metadata. */
    method Retain(ptr: nat)
      requires Valid() && ptr < 0x1_0000_0000 && 0 < refs[ptr / 0x1000] < 0xFFFF_FFFF
      modifies refs
      ensures Valid() && ptr / 0x1000 < FRAMES == |old(refs[..])|
      ensures refs[..] == SetRef(old(refs[..]), ptr / 0x1000, old(refs[..])[ptr / 0x1000] + 1)
    {
      hide StackOk;
      var f := ptr / 0x1000;
      RecountKeeps(on, refs[..], pool, f, refs[f] + 1);
      refs[f] := refs[f] + 1;
      assert refs[..] == SetRef(old(refs[..]), f, old(refs[f]) + 1);
    }

    /** used_pages: exactly the pool frames somebody holds. */
    method UsedPages() returns (n: nat)
      requires Valid()
      ensures n == |HeldFrames(refs[..], pool)| && n + size == maxSize
    {
      hide StackOk, HeldFrames;
      Counts(on, refs[..], pool);
      n := maxSize - size;
    }
  }

  lemma {:induction false} HeldInPool(on: seq<nat>, refs: seq<nat>, pool: set<nat>, f: nat)
    requires StackOk(on, refs, pool) && f < FRAMES
    ensures f < |refs| && (refs[f] > 0 ==> f > LOW_FRAMES && f in HeldFrames(refs, pool))
  {
    hide Distinct;
  }

  lemma {:induction false} NewFrame(available: seq<nat>, i: nat)
    requires Distinct(available) && i < |available|
    ensures available[i] !in Members(available[..i])
            && Members(available[..i] + [available[i]]) == Members(available[..i]) + {available[i]}
  {}

  lemma {:induction false} EmptyStack(refs: seq<nat>)
    requires |refs| == FRAMES && forall f :: 0 <= f < FRAMES ==> refs[f] == 0
    ensures StackOk([], refs, {}) && Members([]) == {}
  {}

  // ----- whole runs -----

  datatype FrameCall = Alloc | Free(ptr: nat) | Retain(ptr: nat)

  /** The stack by frame number, and the counts. */
  datatype State = State(on: seq<nat>, refs: seq<nat>)

  /** The frame that an allocation would take. */
  ghost function Top(a: State): nat
    requires a.on != []
  {
    a.on[|a.on| - 1]
  }

  /** One call; addresses above 4 GiB and counts that would overflow or start from 0 are the caller's fault. */
  ghost function Next(c: FrameCall, a: State, pool: set<nat>): (b: State)
    requires StackOk(a.on, a.refs, pool)
    ensures StackOk(b.on, b.refs, pool)
  {
    match c
    case Alloc =>
      if a.on == [] then a
      else
        PopKeeps(a.on, a.refs, pool);
        State(a.on[..|a.on| - 1], SetRef(a.refs, Top(a), 1))
    case Free(ptr) =>
      if ptr >= 0x1_0000_0000 || a.refs[ptr / 0x1000] == 0 then a
      else if a.refs[ptr / 0x1000] == 1 then
        PushKeeps(a.on, a.refs, pool, ptr / 0x1000);
        State(a.on + [ptr / 0x1000], SetRef(a.refs, ptr / 0x1000, 0))
      else
        RecountKeeps(a.on, a.refs, pool, ptr / 0x1000, a.refs[ptr / 0x1000] - 1);
        State(a.on, SetRef(a.refs, ptr / 0x1000, a.refs[ptr / 0x1000] - 1))
    case Retain(ptr) =>
      if ptr >= 0x1_0000_0000 || !(0 < a.refs[ptr / 0x1000] < 0xFFFF_FFFF) then a
      else
        RecountKeeps(a.on, a.refs, pool, ptr / 0x1000, a.refs[ptr / 0x1000] + 1);
        State(a.on, SetRef(a.refs, ptr / 0x1000, a.refs[ptr / 0x1000] + 1))
  }

  predicate Above(available: seq<nat>) {
    forall i :: 0 <= i < |available| ==> LOW_FRAMES < available[i] < FRAMES
  }

  lemma {:induction false} BootOk(available: seq<nat>)
    requires Distinct(available) && Above(available)
    ensures StackOk(available, seq(FRAMES, i => 0), Members(available)) && |Members(available)| == |available|
  {
    DistinctCount(available);
    assert forall f :: f in available ==> exists i :: 0 <= i < |available| && available[i] == f;
  }

  /** The state after the calls, from a stack of the available frames. */
  ghost function After(available: seq<nat>, calls: seq<FrameCall>): (a: State)
    requires Distinct(available) && Above(available)
    ensures StackOk(a.on, a.refs, Members(available))
  {
    BootOk(available);
    if calls == [] then State(available, seq(FRAMES, i => 0))
    else Next(calls[|calls| - 1], After(available, calls[..|calls| - 1]), Members(available))
  }

  lemma {:induction false} AfterMore(available: seq<nat>, calls: seq<FrameCall>, i: nat)
    requires Distinct(available) && Above(available) && i < |calls|
    ensures After(available, calls[..i + 1]) == Next(calls[i], After(available, calls[..i]), Members(available))
  {
    hide Next, Distinct, Above;
    assert calls[..i + 1][..i] == calls[..i];
  }

  /** In every state of every run free and held frames add up to the pool, and there is a slot for every held frame. */
  lemma {:induction false} CountsInARun(available: seq<nat>, calls: seq<FrameCall>, i: nat)
    requires Distinct(available) && Above(available) && i <= |calls|
    ensures var a := After(available, calls[..i]);
            && |a.on| + |HeldFrames(a.refs, Members(available))| == |available| <= FRAMES
            && (a.on != [] ==> Top(a) in Members(available) && Top(a) < |a.refs| && a.refs[Top(a)] == 0)
  {
    hide After, HeldFrames, Distinct, Above;
    var a := After(available, calls[..i]);
    BootOk(available);
    Counts(a.on, a.refs, Members(available));
    if a.on != [] { PopKeeps(a.on, a.refs, Members(available)); }
  }

  /** Call i takes frame f off the stack. */
  ghost predicate Gives(available: seq<nat>, calls: seq<FrameCall>, i: nat, f: nat)
    requires Distinct(available) && Above(available) && i < |calls|
  {
    calls[i].Alloc? && After(available, calls[..i]).on != [] && Top(After(available, calls[..i])) == f
  }

  ghost predicate Frees(c: FrameCall, f: nat) {
    c.Free? && c.ptr / 0x1000 == f
  }

  /** Between two allocations of the same frame somebody has freed it. */
  lemma {:induction false} NeverGivenTwice(available: seq<nat>, calls: seq<FrameCall>, i: nat, j: nat, f: nat)
    requires Distinct(available) && Above(available) && i < j < |calls|
    requires Gives(available, calls, i, f) && Gives(available, calls, j, f)
    ensures exists k :: i < k < j && Frees(calls[k], f)
  {
    hide After, HeldFrames, Distinct, Above, Next, StackOk;
    if forall k :: i < k < j ==> !Frees(calls[k], f) {
      HeldUntilFreed(available, calls, i, j, f);
      CountsInARun(available, calls, j);
      assert false;
    }
  }

  lemma {:induction false} HeldUntilFreed(available: seq<nat>, calls: seq<FrameCall>, i: nat, j: nat, f: nat)
    requires Distinct(available) && Above(available) && i < j <= |calls| && Gives(available, calls, i, f)
    requires forall k :: i < k < j ==> !Frees(calls[k], f)
    ensures f < |After(available, calls[..j]).refs| && After(available, calls[..j]).refs[f] > 0
    decreases j
  {
    hide After, Distinct, Above, HeldFrames, StackOk;
    CountsInARun(available, calls, i);
    AfterMore(available, calls, j - 1);
    if j - 1 > i {
      HeldUntilFreed(available, calls, i, j - 1, f);
      CountsInARun(available, calls, j - 1);
      StillHeld(calls[j - 1], After(available, calls[..j - 1]), Members(available), f);
    }
  }

  lemma {:induction false} StillHeld(c: FrameCall, a: State, pool: set<nat>, f: nat)
    requires StackOk(a.on, a.refs, pool) && f < |a.refs| && a.refs[f] > 0 && !Frees(c, f)
    ensures Next(c, a, pool).refs[f] > 0
  {
    if a.on != [] { PopKeeps(a.on, a.refs, pool); }
  }

  /**
   * A run makes its calls, up to an allocation from an empty stack, at which the kernel stops.
   * It ends in the state the calls lead to, and gives out the frames on top.
   */
  method Run(available: seq<nat>, calls: seq<FrameCall>)
    returns (ok: bool, s: FrameStack, given: seq<nat>, ghost done: nat)
    requires Distinct(available) && Above(available)
    ensures s.Valid() && s.maxSize == |available| && s.size <= s.maxSize <= FRAMES && s.pool == Members(available)
    ensures done <= |calls| && State(s.on, s.refs[..]) == After(available, calls[..done])
    ensures if ok then done == |calls| else done < |calls| && calls[done].Alloc? && s.on == []
    ensures forall i :: 0 <= i < done && calls[i].Alloc? ==> After(available, calls[..i]).on != []
    ensures given == Given(available, calls[..done])
  {
    hide StackOk, HeldFrames, Unheld, Distinct, Members, After, Above, SetRef, Given;
    s := new FrameStack(available);
    BootIs(s, available);
    NoneGiven(available, calls);
    ok, given, done := true, [], 0;
    var i := 0;
    while i < |calls|
      invariant i <= |calls| && fresh(s) && fresh(s.stack) && fresh(s.refs) && s.Valid() && s.maxSize == |available|
      invariant s.pool == Members(available) && done == i && ok
                && State(s.on, s.refs[..]) == After(available, calls[..i])
      invariant forall j :: 0 <= j < i && calls[j].Alloc? ==> After(available, calls[..j]).on != []
      invariant given == Given(available, calls[..i])
    {
      AfterMore(available, calls, i);
      GivenMore(available, calls, i);
      Counts(s.on, s.refs[..], s.pool);
      match calls[i] {
        case Alloc =>
          var addr;
          ok, addr := s.Alloc();
          if !ok { break; }
          given := given + [addr];
        case Free(ptr) =>
          if ptr < 0x1_0000_0000 { s.Free(ptr); }
        case Retain(ptr) =>
          if ptr < 0x1_0000_0000 && 0 < s.refs[ptr / 0x1000] < 0xFFFF_FFFF { s.Retain(ptr); }
      }
      i := i + 1;
      done := i;
    }
    Counts(s.on, s.refs[..], s.pool);
  }

  /** The addresses the allocations of a run return. */
  ghost function Given(available: seq<nat>, calls: seq<FrameCall>): seq<nat>
    requires Distinct(available) && Above(available)
  {
    if calls == [] then []
    else
      var n := |calls| - 1;
      var a := After(available, calls[..n]);
      Given(available, calls[..n]) + if calls[n].Alloc? && a.on != [] then [Top(a) * 0x1000] else []
  }

  lemma {:induction false} GivenMore(available: seq<nat>, calls: seq<FrameCall>, i: nat)
    requires Distinct(available) && Above(available) && i < |calls|
    ensures var a := After(available, calls[..i]);
            Given(available, calls[..i + 1])
            == Given(available, calls[..i]) + if calls[i].Alloc? && a.on != [] then [Top(a) * 0x1000] else []
  {
    hide After, Distinct, Above;
    assert calls[..i + 1][..i] == calls[..i];
  }

  lemma {:induction false} NoneGiven(available: seq<nat>, calls: seq<FrameCall>)
    requires Distinct(available) && Above(available)
    ensures Given(available, calls[..0]) == []
  {}

  lemma {:induction false} BootIs(s: FrameStack, available: seq<nat>)
    requires s.Valid() && Distinct(available) && Above(available) && s.on == available && s.pool == Members(available)
    requires HeldFrames(s.refs[..], s.pool) == {}
    ensures State(s.on, s.refs[..]) == After(available, [])
  {
    hide Distinct, Members, StackOk, HeldFrames;
    forall f | 0 <= f < FRAMES ensures s.refs[f] == 0 {
      HeldInPool(s.on, s.refs[..], s.pool, f);
    }
  }
}
