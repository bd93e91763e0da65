/** Whole runs: the calls of a sequence made on an address space, and the images it loads. */
module Runs {
  import opened Bits
  import opened Machines
  import opened Spans
  import opened Binding
  import opened Layouts
  import opened Mappings
  import opened Regions
  import opened Copying
  import opened AddressSpaces
  import opened Calls
  import opened Elf

  function LayoutOf(space: AddressSpace): Layout
    reads space`holes, space`regions
  {
    Layout(space.holes, SpanList(space.regions))
  }

  /** Legal, as the kernel's own structures show it. */
  predicate Obliged(c: Call, space: AddressSpace)
    reads space`holes, space`regions, space.regions, space.m, space.m.alloc, space.m.alloc.words
  {
    && Allowed(c, LayoutOf(space))
    && (c.Load? ==> space.Copyable(c.address, |c.data|) && c.address + |c.data| + 0xFFF < TWO64)
    && (c.Store? ==> space.Copyable(c.address, c.n) && c.address + c.n + 0xFFF < TWO64)
  }

  lemma {:induction false} ObligedIsLegal(c: Call, space: AddressSpace)
    requires space.Valid()
    ensures Obliged(c, space) <==> Legal(c, space.Look())
  {
    hide AddressSpace.Valid, AddressSpace.Copyable, CopyOk, Allowed, Snaps, SpanList;
    SnapSpans(space.regions);
    if c.Load? { CopyableIsOk(space, c.address, |c.data|); }
    if c.Store? { CopyableIsOk(space, c.address, c.n); }
  }

  lemma {:induction false} CopyableIsOk(space: AddressSpace, address: nat, n: nat)
    requires space.Valid()
    ensures space.Copyable(address, n) <==> CopyOk(space.Look(), address, n)
  {
    hide Machine.Valid, SpaceOk, AllMapped, AllDifferent, Machine.InUse, Machine.Spare, FoundAt, Reaches, Snaps,
         SpanList;
    SnapSpans(space.regions);
    forall k | 0 <= k < |space.regions| && space.regions[k].base <= address
      ensures space.CopyInUse(space.regions[k], address - space.regions[k].base, n)
         <==> Targets(Value(space.regions[k]), address - space.regions[k].base, n, |space.m.ram|, space.m.Spare())
    {
      InUseIsTargets(space, space.regions[k], address - space.regions[k].base, n);
    }
  }

  lemma {:induction false} InUseIsTargets(space: AddressSpace, region: MemoryMapping, offset: nat, n: nat)
    requires space.m.Valid()
    ensures space.CopyInUse(region, offset, n) <==> Targets(Value(region), offset, n, |space.m.ram|, space.m.Spare())
  {
    hide Machine.Valid, Machine.InUse, Machine.Spare, Reaches;
    var r := Value(region);
    forall i: nat | Direct(r, i)
      ensures space.m.InUse(FrameAt(r, i)) <==> FrameAt(r, i) < |space.m.ram| && FrameAt(r, i) !in space.m.Spare()
    {
      space.m.UsedIsInUse(FrameAt(r, i));
    }
  }

  /** The frames a call may need where no region has more than cap pages. */
  function Cost(c: Call, cap: nat): nat {
    match c
    case Map(_, size, _, _) => 3 * size
    case MapAt(_, _, size, _, _) => 3 * size
    case FaultHit(_) => 4
    case Touch(_) => 4
    case TouchAll(_) => 4 * cap
    case Load(_, _) => 7 * cap
    case Store(_, _) => 7 * cap
    case _ => 0
  }

  /** The pages of the region a call adds. */
  function SizeOf(c: Call): nat {
    match c
    case Allocate(size, _, _) => size
    case Map(_, size, _, _) => size
    case AllocateAt(_, size, _, _) => size
    case MapAt(_, _, size, _, _) => size
    case _ => 0
  }

  ghost predicate SizesWithin(rs: seq<MemoryMapping>, cap: nat) {
    forall t :: 0 <= t < |rs| ==> rs[t].size <= cap
  }

  /** Backed pages keep their frames. */
  ghost predicate PagesKept(a: seq<BackingPage>, b: seq<BackingPage>) {
    |b| == |a| && forall i :: 0 <= i < |a| && a[i].backed ==> b[i] == a[i]
  }

  const NO_OUT := Out(0, false, [], 0)

  /** A call that adds a region, or fails to. */
  method StepBind(space: AddressSpace, c: Call, ghost cap: nat) returns (ok: bool, ghost o: Out)
    requires space.Valid() && Obliged(c, space) && Binds(c)
    modifies space`holes, space`regions, space`own, space.m, space.m.alloc, space.m.alloc.words
    ensures |old(space.m.alloc.Free)| >= Cost(c, cap) ==> ok
    ensures ok ==> space.Valid() && |space.m.alloc.Free| + Cost(c, cap) >= |old(space.m.alloc.Free)|
    ensures ok ==> CallStep(space.root, c, old(space.Look()), space.Look(), o)
    ensures ok ==> forall t :: 0 <= t < |space.regions| ==>
                     space.regions[t] in old(space.regions)
                     || (fresh(space.regions[t]) && space.regions[t].size == SizeOf(c))
  {
    hide AddressSpace.Valid, Isolated, AllSameBytes, Snaps, Carve, Replace, AllFree, Granted, Sorted, Merge, IsSucc,
         Clean, CallStep, SpanList, ReservedPages, DirectPages, Machine.Spare, NewRegion;
    ok, o := true, NO_OUT;
    var base;
    ghost var k, j;
    ghost var rs, a := space.regions, space.Look();
    NewRegions(c);
    match c {
      case Allocate(size, perms, cache) =>
        base, k, j := space.Allocate(size, perms, cache);
      case Map(address, size, perms, cache) =>
        ok, base, k, j := space.Map(address, size, perms, cache);
      case AllocateAt(want, size, perms, cache) =>
        base, k, j := space.AllocateAt(want, size, perms, cache);
      case MapAt(want, address, size, perms, cache) =>
        ok, base, k, j := space.MapAt(want, address, size, perms, cache);
    }
    o := Out(base, false, [], 0);
    assert Snaps(rs) == a.regions;
    if ok {
      BindDone(space, rs, a, base, j, NewRegion(c, base));
      if c.Allocate? || c.Map? { TopDone(space, rs, a, c, base, k, j); }
         else { ExactDone(space, rs, a, c, base, k, j); }
      if base != 0 { Inserted(rs, space.regions, j); }
    }
  }

  lemma {:induction false} NewRegions(c: Call)
    requires Binds(c)
    ensures c.Allocate? ==>
            forall base: nat ::
            NewRegion(c, base) == Region(Span(base, c.size), ReservedPages(c.size), c.perms, c.cache)
    ensures c.Map? ==>
            forall base: nat ::
            NewRegion(c, base) == Region(Span(base, c.size), DirectPages(c.address, c.size), c.perms, c.cache)
    ensures c.AllocateAt? ==>
            forall base: nat ::
            NewRegion(c, base) == Region(Span(base, c.size), ReservedPages(c.size), c.perms, c.cache)
    ensures c.MapAt? ==>
            forall base: nat ::
            NewRegion(c, base) == Region(Span(base, c.size), DirectPages(c.address, c.size), c.perms, c.cache)
    ensures forall base: nat :: NewRegion(c, base).span == Span(base, SizeOf(c))
  {}

  lemma {:induction false} BindDone(space: AddressSpace, rs: seq<MemoryMapping>, a: View, base: nat, j: nat, r: Region)
    requires Snaps(rs) == a.regions && Isolated(space.root, a.shot, space.Now(), {}) && space.own == a.shot.own
    requires AllSameBytes(a.regions, a.shot.ram, a.regions, space.m.ram, a.shot.spare)
    requires base == 0 ==> space.regions == rs
    requires base != 0 ==>
               && j <= |rs| && |space.regions| == |rs| + 1 && space.regions == rs[..j] + [space.regions[j]] + rs[j..]
               && Value(space.regions[j]) == r
    ensures Entered(space.root, a, space.Look(), base, r)
  {
    hide Isolated, AllSameBytes, Snaps, InsertRegion;
    if base != 0 {
      SnapsInsert(rs, j, space.regions[j]);
      assert InsertedAt(a.regions, Snaps(space.regions), j, r);
    }
  }

  lemma {:induction false} TopDone(space: AddressSpace, rs: seq<MemoryMapping>, a: View, c: Call, base: nat, k: nat,
                                   j: nat)
    requires Snaps(rs) == a.regions && (c.Allocate? || c.Map?)
             && Entered(space.root, a, space.Look(), base, NewRegion(c, base))
    requires base == 0 ==>
             space.holes == a.holes && space.regions == rs
             && forall i :: 0 <= i < |a.holes| ==> a.holes[i].size < c.size
    requires base != 0 ==>
               && k < |a.holes| && a.holes[k].size >= c.size
               && (forall i :: 0 <= i < |a.holes| && a.holes[i].size >= c.size ==> a.holes[i].base <= a.holes[k].base)
               && Span(base, c.size) == TopPart(a.holes[k], c.size)
               && space.holes == Replace(a.holes, k, TopRest(a.holes[k], c.size))
               && IsSucc(SpanList(rs), Span(base, c.size), j)
               && PutAt(rs, space.regions, j, base, c.size)
    ensures CallStep(space.root, c, a, space.Look(), Out(base, false, [], 0))
  {
    hide AddressSpace.Look, Replace, IsSucc, Entered, Snaps, NewRegion, SpanList, CallStep;
    SnapSpans(rs);
    LookLayout(space);
    if base != 0 { SpanListInsert(rs, j, space.regions[j]); }
    TopIs(space.root, c, a, space.Look(), base, k, j);
  }

  lemma {:induction false} LookLayout(space: AddressSpace)
    ensures LayoutIn(space.Look()) == LayoutOf(space)
  {
    hide Snaps, Machine.Spare, SpanList;
    SnapSpans(space.regions);
  }

  lemma {:induction false} TopIs(root: nat, c: Call, a: View, b: View, base: nat, k: nat, j: nat)
    requires (c.Allocate? || c.Map?) && Entered(root, a, b, base, NewRegion(c, base))
    requires base == 0 ==> LayoutIn(b) == LayoutIn(a) && forall i :: 0 <= i < |a.holes| ==> a.holes[i].size < c.size
    requires base != 0 ==> TopTurn(LayoutIn(a), LayoutIn(b), c.size, base, k, j)
    ensures CallStep(root, c, a, b, Out(base, false, [], 0))
  {
    hide Entered, NewRegion, TopTurn;
  }

  lemma {:induction false} ExactIs(root: nat, c: Call, a: View, b: View, base: nat, k: nat, j: nat)
    requires (c.AllocateAt? || c.MapAt?) && Entered(root, a, b, base, NewRegion(c, base)) && c.base > 0
    requires base == if Granted(Merge(a.holes), c.base, c.size) then c.base else 0
    requires base == 0 ==> LayoutIn(b) == LayoutIn(a).(holes := Merge(a.holes))
    requires base != 0 ==> ExactTurn(LayoutIn(a), LayoutIn(b), base, c.size, k, j)
    ensures CallStep(root, c, a, b, Out(base, false, [], 0))
  {
    hide Entered, NewRegion, ExactTurn, Granted, Merge;
  }

  /** A region of this range has been put at place j. */
  ghost predicate PutAt(rs: seq<MemoryMapping>, rs': seq<MemoryMapping>, j: nat, base: nat, size: nat) {
    && j <= |rs| && |rs'| == |rs| + 1 && rs' == rs[..j] + [rs'[j]] + rs[j..]
    && rs'[j].base == base && rs'[j].size == size
  }

  lemma {:induction false} ExactDone(space: AddressSpace, rs: seq<MemoryMapping>, a: View, c: Call, base: nat, k: nat,
                                     j: nat)
    requires Snaps(rs) == a.regions && (c.AllocateAt? || c.MapAt?)
             && Entered(space.root, a, space.Look(), base, NewRegion(c, base)) && c.base > 0
    requires base == if Granted(Merge(a.holes), c.base, c.size) then c.base else 0
    requires base == 0 ==> space.holes == Merge(a.holes) && space.regions == rs
    requires base != 0 ==>
               && k < |Merge(a.holes)| && Contains(Merge(a.holes)[k], c.base, c.size)
               && space.holes == Replace(Merge(a.holes), k, Carve(Merge(a.holes)[k], c.base, c.size))
               && IsSucc(SpanList(rs), Span(c.base, c.size), j) && PutAt(rs, space.regions, j, c.base, c.size)
    ensures CallStep(space.root, c, a, space.Look(), Out(base, false, [], 0))
  {
    hide AddressSpace.Look, Replace, IsSucc, Merge, Carve, Granted, Entered, Snaps, NewRegion, SpanList, CallStep;
    SnapSpans(rs);
    LookLayout(space);
    if base != 0 { SpanListInsert(rs, j, space.regions[j]); }
    ExactIs(space.root, c, a, space.Look(), base, k, j);
  }

  lemma {:induction false} Inserted(rs: seq<MemoryMapping>, rs': seq<MemoryMapping>, j: nat)
    requires j <= |rs| && |rs'| == |rs| + 1 && rs' == rs[..j] + [rs'[j]] + rs[j..]
    ensures forall t :: 0 <= t < |rs'| ==> rs'[t] in rs || rs'[t] == rs'[j]
  {}

  /** A fault or a touch. */
  method StepTouch(space: AddressSpace, c: Call, ghost cap: nat) returns (ok: bool, ghost o: Out)
    requires space.Valid() && WindowsClear(space.m) && Obliged(c, space) && (c.FaultHit? || c.Touch? || c.TouchAll?)
    modifies space`own, space.regions, space.m, space.m.alloc, space.m.alloc.words
    ensures !Survivable(c, SpanList(space.regions)) ==> !ok
    ensures (SizesWithin(space.regions, cap) && Survivable(c, SpanList(space.regions))
             && |old(space.m.alloc.Free)| >= Cost(c, cap)) ==> ok
    ensures ok ==> space.Valid() && UseStep(space.root, c, old(space.Look()), space.Look(), o)
    ensures ok && SizesWithin(space.regions, cap) ==> |space.m.alloc.Free| + Cost(c, cap) >= |old(space.m.alloc.Free)|
  {
    hide AddressSpace.Valid, Snaps, EndsAt, HasOwner, FoundAt, AddressSpace.Copyable, WindowsClear, SpanList, Allowed,
         SizesWithin, FaultStep, TouchStep, TouchAllStep, Machine.Spare;
    ghost var k;
    ghost var a := space.Look();
    o := NO_OUT;
    match c {
      case FaultHit(address) =>
        var accepted;
        ok, accepted, k := space.FaultHit(address);
        o := Out(0, accepted, [], k);
      case Touch(address) =>
        ok, k := space.Touch(address);
        o := Out(0, false, [], k);
      case TouchAll(address) =>
        ok, k := space.TouchAll(address);
        o := Out(0, false, [], k);
        FoundRange(SpanList(space.regions), address, k);
        if k < |space.regions| { SizeAt(space.regions, cap, k); }
        if ok && k == |space.regions| { AllNothing(space.root, a, space.Look(), address, k); }
    }
  }

  /** A copy into a region. */
  method StepLoad(space: AddressSpace, address: nat, data: seq<bv8>, ghost cap: nat) returns (ok: bool, ghost o: Out)
    requires space.Valid() && WindowsClear(space.m) && Obliged(Load(address, data), space)
    modifies space`own, space.regions, space.m, space.m.alloc, space.m.alloc.words
    ensures !FitsAt(SpanList(space.regions), address, |data|) ==> !ok
    ensures (SizesWithin(space.regions, cap) && FitsAt(SpanList(space.regions), address, |data|)
             && |old(space.m.alloc.Free)| >= 7 * cap) ==> ok
    ensures ok ==> space.Valid() && UseStep(space.root, Load(address, data), old(space.Look()), space.Look(), o)
    ensures ok && SizesWithin(space.regions, cap) ==> |space.m.alloc.Free| + 7 * cap >= |old(space.m.alloc.Free)|
  {
    hide AddressSpace.Valid, AddressSpace.Look, Snaps, EndsAt, HasOwner, FoundAt, AddressSpace.Copyable, WindowsClear;
    hide SpanList, Allowed, SizesWithin, LoadStep, StoreStep, Fitting, FitsAt;
    ghost var k;
    ghost var a := space.Look();
    LookParts(space);
    ok, k := space.Load(address, data);
    o := Out(0, false, [], k);
    FoundOnce(SpanList(space.regions), address, k, |data|);
    LookParts(space);
    if ok { LoadFrames(space.root, a, space.Look(), address, data, k); }
    if k < |space.regions| { SizeAt(space.regions, cap, k); }
  }

  /** A copy out of a region. */
  method StepStore(space: AddressSpace, address: nat, n: nat, ghost cap: nat) returns (ok: bool, ghost o: Out)
    requires space.Valid() && WindowsClear(space.m) && Obliged(Store(address, n), space)
    modifies space`own, space.regions, space.m, space.m.alloc, space.m.alloc.words
    ensures !FitsAt(SpanList(space.regions), address, n) ==> !ok
    ensures (SizesWithin(space.regions, cap) && FitsAt(SpanList(space.regions), address, n)
             && |old(space.m.alloc.Free)| >= 7 * cap) ==> ok
    ensures ok ==> space.Valid() && UseStep(space.root, Store(address, n), old(space.Look()), space.Look(), o)
    ensures ok && SizesWithin(space.regions, cap) ==> |space.m.alloc.Free| + 7 * cap >= |old(space.m.alloc.Free)|
  {
    hide AddressSpace.Valid, AddressSpace.Look, Snaps, EndsAt, HasOwner, FoundAt, AddressSpace.Copyable, WindowsClear;
    hide SpanList, Allowed, SizesWithin, LoadStep, StoreStep, Fitting, FitsAt;
    ghost var k;
    ghost var a := space.Look();
    LookParts(space);
    var data;
    ok, data, k := space.Store(address, n);
    o := Out(0, false, data, k);
    FoundOnce(SpanList(space.regions), address, k, n);
    LookParts(space);
    if ok { StoreFrames(space.root, a, space.Look(), address, n, data, k); }
    if k < |space.regions| { SizeAt(space.regions, cap, k); }
  }

  lemma {:induction false} LookIs(space: AddressSpace)
    ensures space.Look() == View(space.holes, Snaps(space.regions), space.Now())
            && space.Now().free == space.m.alloc.Free
  {
    hide Snaps, Machine.Spare;
  }

  lemma {:induction false} LookParts(space: AddressSpace)
    ensures space.Look().shot.free == space.m.alloc.Free && space.Look().regions == Snaps(space.regions)
    ensures forall i ::
            0 <= i < |space.regions| ==>
            space.Look().regions[i].span == Span(space.regions[i].base, space.regions[i].size)
  {
    hide Snaps, Machine.Spare;
  }

  lemma {:induction false} SizeAt(rs: seq<MemoryMapping>, cap: nat, k: nat)
    requires k < |rs|
    ensures SizesWithin(rs, cap) ==> rs[k].size <= cap
  {}

  /** A call that reaches an existing region and changes no layout. */
  method StepUse(space: AddressSpace, c: Call, ghost cap: nat) returns (ok: bool, ghost o: Out)
    requires space.Valid() && WindowsClear(space.m) && Obliged(c, space) && Uses(c)
    modifies space`own, space.regions, space.m, space.m.alloc, space.m.alloc.words
    ensures !Survivable(c, SpanList(space.regions)) ==> !ok
    ensures (SizesWithin(space.regions, cap) && Survivable(c, SpanList(space.regions))
             && |old(space.m.alloc.Free)| >= Cost(c, cap)) ==> ok
    ensures ok ==> space.Valid() && CallStep(space.root, c, old(space.Look()), space.Look(), o)
    ensures ok && SizesWithin(space.regions, cap) ==> |space.m.alloc.Free| + Cost(c, cap) >= |old(space.m.alloc.Free)|
  {
    hide AddressSpace.Valid, Snaps, EndsAt, HasOwner, FoundAt, AddressSpace.Copyable, WindowsClear, SpanList, Allowed,
         SizesWithin, UseStep, CallStep, Obliged, FitsAt, AddressSpace.Look;
    ghost var a := space.Look();
    LookLayout(space);
    if c.Load? {
      ok, o := StepLoad(space, c.address, c.data, cap);
    } else if c.Store? {
      ok, o := StepStore(space, c.address, c.n, cap);
    } else {
      ok, o := StepTouch(space, c, cap);
    }
    LookLayout(space);
    if ok { UseIs(space.root, c, a, space.Look(), o); }
  }

  lemma {:induction false} UseIs(root: nat, c: Call, a: View, b: View, o: Out)
    requires Uses(c) && UseStep(root, c, a, b, o) && LayoutIn(b) == LayoutIn(a)
    ensures CallStep(root, c, a, b, o)
  {
    hide UseStep;
  }

  lemma {:induction false} AllNothing(root: nat, a: View, b: View, address: nat, k: nat)
    requires TouchAllStep(root, a, b, address, k) && k == |a.regions|
    ensures b == a
  {
    hide FoundAt, GrowStep;
  }

  lemma {:induction false} LoadFrames(root: nat, a: View, b: View, address: nat, data: seq<bv8>, k: nat)
    requires LoadStep(root, a, b, address, data, k)
    ensures k <= |a.regions| && (k == |a.regions| ==> b == a)
    ensures k < |a.regions| ==>
              && |b.shot.free| + 7 * a.regions[k].span.size >= |a.shot.free|
              && a.regions[k].span.base <= address
              && Fitting(address - a.regions[k].span.base, |data|, a.regions[k].span.size)
  {
    hide Loaded, Isolated, Harmless, Grown, Fitting;
  }

  lemma {:induction false} StoreFrames(root: nat, a: View, b: View, address: nat, n: nat, data: seq<bv8>, k: nat)
    requires StoreStep(root, a, b, address, n, data, k)
    ensures k <= |a.regions| && (k == |a.regions| ==> b == a)
    ensures k < |a.regions| ==>
              && |b.shot.free| + 7 * a.regions[k].span.size >= |a.shot.free|
              && a.regions[k].span.base <= address
              && Fitting(address - a.regions[k].span.base, n, a.regions[k].span.size)
  {
    hide Isolated, Stored, AllSameBytes, Grown, Fitting;
  }

  /** There is one place the lookup stops at. */
  lemma {:induction false} FoundOnce(l: seq<Span>, address: nat, k: nat, n: nat)
    requires FoundAt(l, address, k)
    ensures k <= |l| && (k == |l| ==> FitsAt(l, address, n))
    ensures k < |l| ==> l[k].base <= address && (FitsAt(l, address, n) <==> Fitting(address - l[k].base, n, l[k].size))
  {
    hide Fitting;
    forall j | 0 <= j < |l| && FoundAt(l, address, j) ensures j == k {}
  }

  lemma {:induction false} FoundSome(l: seq<Span>, a: nat, k: nat)
    requires FoundAt(l, a, k) && (HasOwner(l, a) || EndsAt(l, a))
    ensures k < |l|
  {
    if HasOwner(l, a) {
      var i :| 0 <= i < |l| && Covers(l[i], a);
      assert Within(l[i], a);
    } else {
      var i :| 0 <= i < |l| && End(l[i]) == a;
      assert Within(l[i], a);
    }
  }

  lemma {:induction false} SpanListRemove(rs: seq<MemoryMapping>, k: nat)
    requires k < |rs|
    ensures SpanList(rs[..k] + rs[k + 1..]) == Remove(SpanList(rs), k)
  {}

  lemma {:induction false} MoreFree(root: nat, a: Shot, b: Shot, r: Region)
    requires Dropped(root, a, b, r)
    ensures |b.free| >= |a.free|
  {
    hide Isolated, UnmapPart;
    assert b.free == a.free + (OwnedFrames(r) - a.free);
  }

  /** The end of a region. */
  method StepDestroy(space: AddressSpace, address: nat) returns (ghost o: Out)
    requires space.Valid() && Obliged(Destroy(address), space)
    modifies space`holes, space`regions, space`own, space.regions`mapped, space.m`tables, space.m`xlat, space.m`lent,
             space.m.alloc, space.m.alloc.words
    ensures space.Valid() && |space.m.alloc.Free| >= |old(space.m.alloc.Free)|
    ensures CallStep(space.root, Destroy(address), old(space.Look()), space.Look(), o)
    ensures forall t :: 0 <= t < |space.regions| ==> space.regions[t] in old(space.regions)
  {
    hide AddressSpace.Valid, AddressSpace.Look, AddressSpace.Now, Snaps, EndsAt, HasOwner, Merge, PutHole, IsSucc,
         FoundAt, DropStep, SpanList;
    hide CallStep, Dropped, Value, LayoutIn;
    ghost var h, l, a, rs := 0, LayoutOf(space), space.Look(), space.regions;
    SnapSpans(space.regions);
    LookIs(space);
    LookLayout(space);
    var t := space.RegionForAddress(address);
    FoundSome(l.spans, address, t);
    h := space.Destroy(space.regions[t], t);
    LookIs(space);
    MoreFree(space.root, a.shot, space.Now(), a.regions[t]);
    Remaining(rs, t);
    DropDone(space, rs, l, address, t, h);
    LookLayout(space);
    o := Out(0, false, [], t);
    DestroyIs(space.root, a, space.Look(), address, t);
  }

  lemma {:induction false} Remaining(rs: seq<MemoryMapping>, k: nat)
    requires k < |rs|
    ensures var rest := rs[..k] + rs[k + 1..]; forall t :: 0 <= t < |rest| ==> rest[t] in rs
  {}

  lemma {:induction false} DestroyIs(root: nat, a: View, b: View, address: nat, k: nat)
    requires DropStep(LayoutIn(a), LayoutIn(b), address) && FoundAt(SpansOf(a.regions), address, k) && k < |a.regions|
    requires b.regions == a.regions[..k] + a.regions[k + 1..] && Dropped(root, a.shot, b.shot, a.regions[k])
    ensures CallStep(root, Destroy(address), a, b, Out(0, false, [], k))
  {
    hide DropStep, Dropped, FoundAt, LayoutIn;
  }

  lemma {:induction false} DropDone(space: AddressSpace, rs: seq<MemoryMapping>, l: Layout, address: nat, k: nat,
                                    h: nat)
    requires l.spans == SpanList(rs) && k < |rs| && FoundAt(l.spans, address, k) && h <= |l.holes|
             && IsSucc(l.holes, l.spans[k], h)
    requires space.regions == rs[..k] + rs[k + 1..] && space.holes == Merge(PutHole(l.holes, l.spans[k], h))
    ensures DropStep(l, LayoutOf(space), address)
  {
    hide Merge, PutHole, IsSucc, FoundAt;
    SpanListRemove(rs, k);
    assert DropTurn(l, LayoutOf(space), address, k, h);
  }

  /**
   * One call; ok is false when the kernel does not survive it. That happens for calls that hit
   * the end of a region or copy past one, and otherwise only for want of frames. A call that is
   * survived does what CallStep says, and no backed page of a region loses its frame.
   */
  method Step(space: AddressSpace, c: Call, ghost cap: nat) returns (ok: bool, ghost o: Out)
    requires space.Valid() && WindowsClear(space.m) && Obliged(c, space)
    modifies space, space.regions, space.m, space.m.alloc, space.m.alloc.words
    ensures !Survivable(c, old(SpanList(space.regions))) ==> !ok
    ensures (SizesWithin(old(space.regions), cap) && Survivable(c, old(SpanList(space.regions)))
             && |old(space.m.alloc.Free)| >= Cost(c, cap)) ==> ok
    ensures ok ==> space.Valid() && WindowsClear(space.m) && CallStep(space.root, c, old(space.Look()), space.Look(), o)
    ensures ok && SizesWithin(old(space.regions), cap) ==>
            |space.m.alloc.Free| + Cost(c, cap) >= |old(space.m.alloc.Free)|
    ensures ok && SizesWithin(old(space.regions), cap) && SizeOf(c) <= cap ==> SizesWithin(space.regions, cap)
    ensures ok ==>
            forall t :: 0 <= t < |space.regions| ==> space.regions[t] in old(space.regions) || fresh(space.regions[t])
    ensures ok ==> forall r :: r in space.regions && r in old(space.regions) ==> PagesKept(old(r.pages), r.pages)
  {
    hide AddressSpace.Valid, Obliged, Snaps, CallStep, WindowsClear, SpanList, EndsAt, FitsAt;
    ghost var a, rs := space.Look(), space.regions;
    ValidRoots(space);
    ClearMeans(space.m);
    if Binds(c) {
      ok, o := StepBind(space, c, cap);
    } else if Uses(c) {
      ok, o := StepUse(space, c, cap);
      if ok { UseKeeps(space.root, c, a, space.Look(), o); }
    } else {
      o := StepDestroy(space, c.address);
      ok := true;
    }
    if ok { ClearAfter(space, c, a, o); }
  }

  ghost predicate AllKept(s: seq<Region>, s': seq<Region>) {
    |s'| == |s| && forall t :: 0 <= t < |s| ==> PagesKept(s[t].pages, s'[t].pages)
  }

  lemma {:induction false} UseKeeps(root: nat, c: Call, a: View, b: View, o: Out)
    requires Uses(c) && CallStep(root, c, a, b, o)
    ensures AllKept(a.regions, b.regions)
  {
    hide Isolated, AllSameBytes, FoundAt, Loaded, Harmless, Stored, Fitting, TouchFits, CopyBacked, Unbacked, Outside,
         LayoutStep, Grown, Entered;
    if !c.FaultHit? && !c.Touch? && o.k < |a.regions| {
      KeptGrown(a.regions[o.k].pages, b.regions[o.k].pages, a.shot.lent, b.shot.lent);
    }
  }

  lemma {:induction false} KeptGrown(a: seq<BackingPage>, b: seq<BackingPage>, lent: set<nat>, lent': set<nat>)
    requires Grown(a, b, lent, lent')
    ensures PagesKept(a, b)
  {
    forall i | 0 <= i < |a| && a[i].backed ensures b[i] == a[i] { assert !Gained(a, b, i); }
  }

  /** The windows stay empty, since no call touches the kernel's context. */
  lemma {:induction false} ClearAfter(space: AddressSpace, c: Call, a: View, o: Out)
    requires CallStep(space.root, c, a, space.Look(), o) && space.root != space.m.kernelRoot
    requires space.m.kernelRoot in a.shot.xlat
             && forall p :: p in a.shot.xlat[space.m.kernelRoot] ==> p < DST_WINDOW / 0x1000
    ensures WindowsClear(space.m)
  {
    hide CallStep, Isolated, SpillBy;
    CallIsolated(space.root, c, a, space.Look(), o);
    StillClear(space.root, a.shot, space.Now(), SpillBy(c, space.Look(), o), space.m.kernelRoot);
  }

  lemma {:induction false} ClearMeans(m: Machine)
    requires WindowsClear(m)
    ensures m.kernelRoot in m.xlat && forall p :: p in m.xlat[m.kernelRoot] ==> p < DST_WINDOW / 0x1000
  {}

  lemma {:induction false} ValidRoots(space: AddressSpace)
    requires space.Valid()
    ensures space.root != space.m.kernelRoot
  {
    hide Machine.Valid, SpaceOk, AllMapped, AllDifferent;
  }

  function Budget(calls: seq<Call>, cap: nat): nat {
    if calls == [] then 0 else Budget(calls[..|calls| - 1], cap) + Cost(calls[|calls| - 1], cap)
  }

  lemma {:induction false} BudgetGrows(calls: seq<Call>, cap: nat, i: nat, n: nat)
    requires i <= n <= |calls|
    ensures Budget(calls[..i], cap) <= Budget(calls[..n], cap) && Budget(calls[..0], cap) == 0
    ensures i < |calls| ==> Budget(calls[..i + 1], cap) == Budget(calls[..i], cap) + Cost(calls[i], cap)
    decreases n - i
  {
    hide Cost;
    if i < |calls| { assert calls[..i + 1][..i] == calls[..i]; }
    if i < n { BudgetGrows(calls, cap, i + 1, n); }
  }

  /** The view of a valid address space satisfies its invariant. */
  lemma {:induction false} ValidIn(space: AddressSpace)
    requires space.Valid()
    ensures SpaceIn(space.root, space.Look())
  {
    hide Machine.Valid, SpaceOk, AllMapped, AllDifferent, Snaps;
  }

  /** The call, made when its caller's obligations are met and the kernel can survive it, and left out otherwise. */
  method TakeTurn(space: AddressSpace, c: Call, ghost cap: nat) returns (ok: bool, ghost o: Out)
    requires space.Valid() && WindowsClear(space.m)
    modifies space, space.regions, space.m, space.m.alloc, space.m.alloc.words
    ensures SizesWithin(old(space.regions), cap) && |old(space.m.alloc.Free)| >= Cost(c, cap) ==> ok
    ensures ok ==> space.Valid() && WindowsClear(space.m) && CallTurn(space.root, c, old(space.Look()), space.Look(), o)
    ensures ok && SizesWithin(old(space.regions), cap) ==>
            |space.m.alloc.Free| + Cost(c, cap) >= |old(space.m.alloc.Free)|
    ensures ok && SizesWithin(old(space.regions), cap) && SizeOf(c) <= cap ==> SizesWithin(space.regions, cap)
    ensures ok ==>
            forall t :: 0 <= t < |space.regions| ==> space.regions[t] in old(space.regions) || fresh(space.regions[t])
    ensures ok ==> forall r :: r in space.regions && r in old(space.regions) ==> PagesKept(old(r.pages), r.pages)
  {
    hide AddressSpace.Valid, Obliged, Legal, CallStep, WindowsClear, Survivable, Cost, SizeOf, SizesWithin, SpanList,
         Snaps;
    ghost var v := space.Look();
    ok, o := true, NO_OUT;
    ObligedIsLegal(c, space);
    SnapSpans(space.regions);
    if Obliged(c, space) && Survivable(c, SpanList(space.regions)) {
      ok, o := Step(space, c, cap);
      if !ok { return; }
    }
    TurnIs(space.root, c, v, space.Look(), o);
  }

  /**
   * Any sequence of calls, each made when its caller's obligations are met and the kernel can
   * survive it, and left out otherwise. If there are frames for all of them the run comes to its
   * end. It is a run of the machine of CallStep, of which RunIsolated, RunLayout, SortedRun and
   * OtherSpaceKept speak. In every state on the way holes and regions tile the user range, the
   * context maps exactly the backed pages of the regions, and every owned frame is used and
   * belongs to one page. A page once backed keeps its frame while its region lives, so no fault
   * is accepted for it again.
   */
  method Run(space: AddressSpace, calls: seq<Call>, ghost cap: nat)
    returns (ok: bool, ghost vs: seq<View>, ghost outs: seq<Out>)
    requires space.Valid() && WindowsClear(space.m)
    modifies space, space.regions, space.m, space.m.alloc, space.m.alloc.words
    ensures (SizesWithin(old(space.regions), cap) && CallsWithin(calls, cap)
             && |old(space.m.alloc.Free)| >= Budget(calls, cap)) ==> ok
    ensures ok ==> space.Valid() && WindowsClear(space.m)
    ensures ok ==> CallRun(space.root, calls, vs, outs) && vs[0] == old(space.Look()) && vs[|calls|] == space.Look()
    ensures ok ==> forall i :: 0 <= i < |vs| ==> SpaceIn(space.root, vs[i])
    ensures ok ==> forall r :: r in space.regions && r in old(space.regions) ==> PagesKept(old(r.pages), r.pages)
  {
    hide AddressSpace.Valid, AddressSpace.Look, WindowsClear, Budget, Cost, SizeOf, SizesWithin, CallsWithin, CallRun,
         CallTurn, SpaceIn;
    ghost var n := |space.m.alloc.Free|;
    RunStart(space.root, calls, space.Look());
    BudgetGrows(calls, cap, 0, |calls|);
    ValidIn(space);
    vs, outs := [space.Look()], [];
    ok := true;
    var i := 0;
    while i < |calls|
      invariant i <= |calls| && space.Valid() && WindowsClear(space.m)
      invariant |vs| == i + 1 && |outs| == i && CallRun(space.root, calls[..i], vs, outs)
      invariant vs[0] == old(space.Look()) && vs[i] == space.Look()
                && forall j :: 0 <= j < |vs| ==> SpaceIn(space.root, vs[j])
      invariant SizesWithin(old(space.regions), cap) && CallsWithin(calls, cap) ==>
                  SizesWithin(space.regions, cap) && |space.m.alloc.Free| + Budget(calls[..i], cap) >= n
      invariant forall t ::
                0 <= t < |space.regions| ==> space.regions[t] in old(space.regions) || fresh(space.regions[t])
      invariant forall r :: r in space.regions && r in old(space.regions) ==> PagesKept(old(r.pages), r.pages)
    {
      RunTurn(calls, i, cap);
      ghost var o;
      label L:
      ok, o := TakeTurn(space, calls[i], cap);
      if !ok { return; }
      forall r | r in space.regions && r in old(space.regions) ensures PagesKept(old(r.pages), r.pages) {
        assert r in old@L(space.regions);
        KeptTwice(old(r.pages), old@L(r.pages), r.pages);
      }
      ValidIn(space);
      CallRunMore(space.root, calls, i, vs, outs, space.Look(), o);
      vs, outs := vs + [space.Look()], outs + [o];
      i := i + 1;
    }
    ok := true;
    assert calls[..i] == calls;
  }

  lemma {:induction false} TurnIs(root: nat, c: Call, a: View, b: View, o: Out)
    requires if Legal(c, a) && Survivable(c, SpansOf(a.regions)) then CallStep(root, c, a, b, o) else b == a
    ensures CallTurn(root, c, a, b, o)
  {
    hide Legal, Survivable, CallStep;
  }

  lemma {:induction false} KeptTwice(a: seq<BackingPage>, b: seq<BackingPage>, c: seq<BackingPage>)
    requires PagesKept(a, b) && PagesKept(b, c)
    ensures PagesKept(a, c)
  {}

  lemma {:induction false} RunStart(root: nat, calls: seq<Call>, v: View)
    ensures CallRun(root, calls[..0], [v], [])
  {}

  lemma {:induction false} RunTurn(calls: seq<Call>, i: nat, cap: nat)
    requires i < |calls|
    ensures Budget(calls[..i + 1], cap) == Budget(calls[..i], cap) + Cost(calls[i], cap)
            && Budget(calls[..i + 1], cap) <= Budget(calls, cap)
    ensures CallsWithin(calls, cap) ==> SizeOf(calls[i]) <= cap
  {
    hide Budget, Cost, SizeOf;
    BudgetGrows(calls, cap, i, |calls|);
    BudgetGrows(calls, cap, i + 1, |calls|);
    assert calls[..|calls|] == calls;
  }

  ghost predicate CallsWithin(calls: seq<Call>, cap: nat) {
    forall i :: 0 <= i < |calls| ==> SizeOf(calls[i]) <= cap
  }

  // ----- load and store

  /** Every page of the copy has a frame, or will get one: the touch covers it and frames are free. */
  ghost predicate Reachable(r: Region, address: nat, n: nat, frames: nat) {
    && r.span.base <= address
    && var offset := address - r.span.base;
       CopyBacked(r, offset, n) || (frames >= r.span.size && TouchFits(offset, n))
  }

  ghost predicate FitsIn(r: Region, address: nat, n: nat) {
    r.span.base <= address && Fitting(address - r.span.base, n, r.span.size)
  }

  /**
   * load and then store at the same address and size, in regions of either kind. What comes back
   * is what went in if the copied pages had frames, or if frames are free for them and the touch
   * covers them. The region then reads as the data in the range and as before elsewhere. Both
   * calls are survived if the copy fits and there are fourteen free frames a page.
   */
  method RoundTrip(space: AddressSpace, address: nat, data: seq<bv8>)
    returns (ok: bool, back: seq<bv8>, ghost k: nat, ghost mid: View)
    requires space.Valid() && WindowsClear(space.m) && HasOwner(SpanList(space.regions), address)
             && !EndsAt(SpanList(space.regions), address)
    requires space.Copyable(address, |data|) && address + |data| + 0xFFF < TWO64
    modifies space`own, space.regions, space.m, space.m.alloc, space.m.alloc.words
    ensures k < |space.regions| == |old(Snaps(space.regions))|
            && Covers(Span(space.regions[k].base, space.regions[k].size), address)
    ensures (|old(space.m.alloc.Free)| >= 14 * space.regions[k].size
             && FitsIn(old(Snaps(space.regions))[k], address, |data|)) ==> ok
    ensures ok ==> space.Valid() && WindowsClear(space.m)
    ensures ok ==>
            LoadStep(space.root, old(space.Look()), mid, address, data, k)
            && StoreStep(space.root, mid, space.Look(), address, |data|, back, k)
    ensures ok && Reachable(old(Snaps(space.regions))[k], address, |data|, |old(space.m.alloc.Free)|) ==>
              back == data && ReadsAs(old(space.Look()), space.Look(), k, address, data)
  {
    hide AddressSpace.Valid, AddressSpace.Look, Snaps, EndsAt, HasOwner, WindowsClear, FoundAt, SpanList, LoadStep,
         StoreStep, Reachable;
    hide FitsIn, ReadsAs, AddressSpace.Copyable, CopyOk, Fitting;
    ghost var a := space.Look();
    back, mid := [], a;
    LookParts(space);
    SnapSpans(space.regions);
    PageCounts(space);
    CopyableIsOk(space, address, |data|);
    ok, k := space.Load(address, data);
    FitsMeans(a.regions[k], address, |data|);
    if !ok { return; }
    mid := space.Look();
    LookParts(space);
    StillOk(space.root, a, mid, address, data, k);
    SnapSpans(space.regions);
    CopyableIsOk(space, address, |data|);
    ghost var k2;
    ok, back, k2 := space.Store(address, |data|);
    FoundTwice(SpanList(space.regions), address, k, k2);
    if ok && Reachable(a.regions[k], address, |data|, |a.shot.free|) {
      BackAgain(space.root, a, mid, space.Look(), address, data, back, k);
    }
  }

  lemma {:induction false} PageCounts(space: AddressSpace)
    requires space.Valid()
    ensures forall k ::
            0 <= k < |space.regions| ==> |Snaps(space.regions)[k].pages| == Snaps(space.regions)[k].span.size
  {
    hide Machine.Valid, SpaceOk, AllMapped, AllDifferent, Snaps;
    forall k | 0 <= k < |space.regions| ensures |Snaps(space.regions)[k].pages| == Snaps(space.regions)[k].span.size {
      RegionPages(space.holes, Snaps(space.regions), space.m.xlat[space.root], space.own, k);
    }
  }

  lemma {:induction false} FitsMeans(r: Region, address: nat, n: nat)
    ensures FitsIn(r, address, n) <==> r.span.base <= address && Fitting(address - r.span.base, n, r.span.size)
  {}

  lemma {:induction false} FoundTwice(l: seq<Span>, a: nat, j: nat, k: nat)
    requires FoundAt(l, a, j) && FoundAt(l, a, k)
    ensures j == k
  {}

  /** After a load the same region is found, and what it is pointed at is still in use. */
  lemma {:induction false} StillOk(root: nat, a: View, b: View, address: nat, data: seq<bv8>, k: nat)
    requires LoadStep(root, a, b, address, data, k) && CopyOk(a, address, |data|) && k < |a.regions|
    ensures CopyOk(b, address, |data|) && |b.regions| == |a.regions| && b.regions[k].span == a.regions[k].span
    ensures |b.shot.free| + 7 * a.regions[k].span.size >= |a.shot.free| && SpansOf(b.regions) == SpansOf(a.regions)
  {
    hide Loaded, Harmless, Isolated, Grown, Fitting, TouchFits, CopyBacked, Outside, Reaches;
    var r, r' := a.regions[k], b.regions[k];
    GrownDirect(r, r'.pages, a.shot.lent, b.shot.lent);
    LoadedLength(a.regions, a.shot.ram, b.regions, b.shot.ram, k, address - r.span.base, data, a.shot.spare);
    assert SpansOf(b.regions) == SpansOf(a.regions);
    forall t | 0 <= t < |b.regions| && FoundAt(SpansOf(b.regions), address, t)
      ensures t == k
    {
      FoundTwice(SpansOf(b.regions), address, t, k);
    }
  }

  /**
   * Region k reads as the data at the address and as before elsewhere, and the others as before,
   * but for pages pointed at frames that are written.
   */
  ghost predicate ReadsAs(a: View, b: View, k: nat, address: nat, data: seq<bv8>) {
    && k < |a.regions| == |b.regions| && a.regions[k].span.base <= address
    && var r, offset := b.regions[k], address - a.regions[k].span.base;
       && (forall off: nat :: !Loose(r, off / 0x1000, a.shot.spare) ==>
             ByteAt(r, b.shot.ram, off) == if offset <= off < offset + |data| then data[off - offset]
               else ByteAt(a.regions[k], a.shot.ram, off))
       && (forall i :: 0 <= i < |a.regions| && i != k && Clear(a.regions[i], Pointed(r, offset, |data|)) ==>
             Same(a.regions[i], a.shot.ram, b.regions[i], b.shot.ram, a.shot.spare + ReachedFrames(r, offset, |data|)))
  }

  lemma {:induction false} BackAgain(root: nat, a: View, mid: View, b: View, address: nat, data: seq<bv8>,
                                     back: seq<bv8>, k: nat)
    requires k < |a.regions| && LoadStep(root, a, mid, address, data, k)
             && StoreStep(root, mid, b, address, |data|, back, k)
    requires Reachable(a.regions[k], address, |data|, |a.shot.free|) && CopyOk(a, address, |data|)
    requires |a.regions[k].pages| == a.regions[k].span.size
    ensures back == data && ReadsAs(a, b, k, address, data)
  {
    hide Loaded, Stored, Harmless, Isolated, Grown, Fitting, TouchFits, CopyBacked, Outside, AllSameBytes, ReadsAs,
         Targets;
    var offset := address - a.regions[k].span.base;
    StillOk(root, a, mid, address, data, k);
    BackedKept(a.regions[k], mid.regions[k].pages, a.shot.lent, mid.shot.lent, offset, |data|);
    BackedKept(mid.regions[k], b.regions[k].pages, mid.shot.lent, b.shot.lent, offset, |data|);
    assert FoundAt(SpansOf(a.regions), address, k);
    GrownDirect(a.regions[k], mid.regions[k].pages, a.shot.lent, mid.shot.lent);
    LoadReads(a, mid, k, offset, data);
    ReadBack(a, mid, b, k, offset, data, back);
    ThenSame(root, a, mid, b, k, address, data);
  }

  lemma {:induction false} BackedKept(r: Region, pages: seq<BackingPage>, lent: set<nat>, lent': set<nat>, offset: nat,
                                      n: nat)
    requires Grown(r.pages, pages, lent, lent')
    ensures forall r': Region :: r'.pages == pages && CopyBacked(r, offset, n) ==> CopyBacked(r', offset, n)
  {
    forall i: nat | i < |pages| && r.pages[i].backed ensures pages[i].backed {
      assert !Gained(r.pages, pages, i);
    }
  }

  /** After a load whose pages all have frames the region reads as the data in the range. */
  lemma {:induction false} LoadReads(a: View, b: View, k: nat, offset: nat, data: seq<bv8>)
    requires Loaded(a.regions, a.shot.ram, b.regions, b.shot.ram, k, offset, data, a.shot.spare)
    requires CopyBacked(b.regions[k], offset, |data|) && Fitting(offset, |data|, |b.regions[k].pages|)
    ensures forall off: nat :: !Loose(b.regions[k], off / 0x1000, a.shot.spare) ==>
              ByteAt(b.regions[k], b.shot.ram, off) == if offset <= off < offset + |data| then data[off - offset]
                else ByteAt(a.regions[k], a.shot.ram, off)
  {
    hide ByteAt, Same, ReachedFrames, Spilled, Pointed, Clear, Loose;
    var r := b.regions[k];
    forall off: nat | !Loose(r, off / 0x1000, a.shot.spare)
      ensures ByteAt(r, b.shot.ram, off) == if offset <= off < offset + |data| then data[off - offset]
              else ByteAt(a.regions[k], a.shot.ram, off)
    {
      if offset <= off < offset + |data| { ReachesByte(offset, |data|, off - offset); }
    }
  }

  /** What a store gives right after the load is what was loaded. */
  lemma {:induction false} ReadBack(a: View, mid: View, b: View, k: nat, offset: nat, data: seq<bv8>, back: seq<bv8>)
    requires k < |a.regions| == |mid.regions| == |b.regions| && |back| == |data|
             && SameDirect(a.regions[k], mid.regions[k])
    requires Targets(a.regions[k], offset, |data|, |a.shot.ram|, a.shot.spare)
    requires Stored(mid.regions[k], b.regions[k], mid.shot.ram, offset, back)
             && CopyBacked(b.regions[k], offset, |data|)
    requires forall off: nat :: !Loose(mid.regions[k], off / 0x1000, a.shot.spare) ==>
               ByteAt(mid.regions[k], mid.shot.ram, off)
               == if offset <= off < offset + |data| then data[off - offset] else ByteAt(a.regions[k], a.shot.ram, off)
    ensures back == data
  {
    hide ByteAt, CopyBacked, Misses;
    forall i | 0 <= i < |data| ensures back[i] == data[i] {
      ReachesByte(offset, |data|, i);
      assert !Loose(mid.regions[k], (offset + i) / 0x1000, a.shot.spare);
      var j: nat := i;
      assert back[j] == ByteAt(mid.regions[k], mid.shot.ram, offset + j);
    }
  }

  /** The store changes nothing of what the load has left. */
  lemma {:induction false} ThenSame(root: nat, a: View, mid: View, b: View, k: nat, address: nat, data: seq<bv8>)
    requires k < |a.regions| && a.regions[k].span.base <= address
    requires LoadDone(root, a, mid, k, address - a.regions[k].span.base, data)
    requires AllSameBytes(mid.regions, mid.shot.ram, b.regions, b.shot.ram, mid.shot.spare)
             && mid.shot.spare <= a.shot.spare
    requires b.regions == mid.regions[k := WithPages(mid.regions[k], b.regions[k].pages)]
    requires Grown(mid.regions[k].pages, b.regions[k].pages, mid.shot.lent, b.shot.lent)
    requires CopyBacked(mid.regions[k], address - a.regions[k].span.base, |data|)
    requires forall off: nat :: !Loose(mid.regions[k], off / 0x1000, a.shot.spare) ==>
               ByteAt(mid.regions[k], mid.shot.ram, off)
               == if address - a.regions[k].span.base <= off < address - a.regions[k].span.base + |data|
                  then data[off - (address - a.regions[k].span.base)] else ByteAt(a.regions[k], a.shot.ram, off)
    ensures ReadsAs(a, b, k, address, data)
  {
    hide ByteAt, Same, ReachedFrames, Spilled, Pointed, Clear, Harmless, Isolated, Grown, CopyBacked, Fitting,
         TouchFits, Outside, Loose, LoadedAt, SameOutside;
    var offset, frames := address - a.regions[k].span.base,
        ReachedFrames(b.regions[k], address - a.regions[k].span.base, |data|);
    ReachedStays(mid.regions[k], b.regions[k].pages, mid.shot.lent, b.shot.lent, offset, |data|);
    forall i | 0 <= i < |a.regions| && i != k && Clear(a.regions[i], Pointed(b.regions[k], offset, |data|))
      ensures Same(a.regions[i], a.shot.ram, b.regions[i], b.shot.ram, a.shot.spare + frames)
    {
      BothSame(a.regions[i], a.shot.ram, mid.regions[i], mid.shot.ram, b.regions[i], b.shot.ram, a.shot.spare + frames,
        mid.shot.spare);
    }
    SameMore(mid.regions[k], mid.shot.ram, b.regions[k], b.shot.ram, mid.shot.spare, a.shot.spare);
    SameAt(mid.regions[k], mid.shot.ram, b.regions[k], b.shot.ram, a.shot.spare);
  }

  lemma {:induction false} SameAt(r: Region, ram: seq<Page>, r': Region, ram': seq<Page>, frames: set<nat>)
    requires Same(r, ram, r', ram', frames)
    ensures forall off: nat ::
            !Loose(r', off / 0x1000, frames) ==>
            !Loose(r, off / 0x1000, frames) && ByteAt(r', ram', off) == ByteAt(r, ram, off)
  {
    hide ByteAt;
  }

  lemma {:induction false} ReachedStays(r: Region, pages: seq<BackingPage>, lent: set<nat>, lent': set<nat>,
                                        offset: nat, n: nat)
    requires Grown(r.pages, pages, lent, lent') && CopyBacked(r, offset, n)
    ensures ReachedFrames(WithPages(r, pages), offset, n) == ReachedFrames(r, offset, n)
    ensures Pointed(WithPages(r, pages), offset, n) == Pointed(r, offset, n)
  {
    hide Reaches;
    var r' := WithPages(r, pages);
    forall i: nat | i < |pages| && Reaches(offset, n, i)
      ensures pages[i] == r.pages[i]
    {
      assert !Gained(r.pages, pages, i);
    }
    assert forall i: nat ::
           i < |pages| && Reaches(offset, n, i) ==>
           FrameAt(r', i) == FrameAt(r, i) && (Direct(r', i) <==> Direct(r, i));
  }

  // ----- an image under demand paging

  lemma {:induction false} ImageKept(s: seq<Region>, ram: seq<Page>, s': seq<Region>, ram': seq<Page>, free: set<nat>,
                                     file: seq<bv8>, segs: seq<Phdr>)
    requires AllHeld(s, ram, file, segs) && AllSameBytes(s, ram, s', ram', free)
    requires |s'| == |s|
             && forall i ::
             0 <= i < |s| ==>
             s'[i].span == s[i].span && s'[i].perms == s[i].perms && (AllReserved(s[i]) ==> AllReserved(s'[i]))
    ensures AllHeld(s', ram', file, segs)
  {
    hide AllSameBytes, Holds, AllReserved;
    forall i | 0 <= i < |segs| ensures segs[i].offset + segs[i].filesz <= |file| && Holds(s', ram', file, segs[i]) {
      HoldsKept(s, ram, s', ram', free, file, segs[i]);
    }
  }

  /** A fault keeps a loaded image. */
  lemma {:induction false} FaultKeeps(root: nat, a: View, b: View, address: nat, accepted: bool, k: nat, file: seq<bv8>,
                                      segs: seq<Phdr>)
    requires FaultStep(root, a, b, address, accepted, k) && AllHeld(a.regions, a.shot.ram, file, segs)
             && root in a.shot.xlat
    ensures AllHeld(b.regions, b.shot.ram, file, segs) && SpansOf(b.regions) == SpansOf(a.regions)
    ensures root in b.shot.xlat && a.shot.xlat[root].Keys <= b.shot.xlat[root].Keys
    ensures k < |a.regions| && a.shot.free != {} ==> address / 0x1000 in b.shot.xlat[root]
  {
    hide Isolated, AllSameBytes, AllHeld, Unbacked, FoundAt;
    if k != |a.regions| {
      var i := (address - a.regions[k].span.base) / 0x1000;
      PageKeys(root, a, b, k, i);
      assert forall t ::
             0 <= t < |a.regions| ==>
             b.regions[t].span == a.regions[t].span && b.regions[t].perms == a.regions[t].perms;
      ImageKept(a.regions, a.shot.ram, b.regions, b.shot.ram, a.shot.spare, file, segs);
    }
  }

  /** An address at which a fault can be resolved: a region owns it and none ends there. */
  predicate Resolvable(l: seq<Span>, address: nat) {
    HasOwner(l, address) && !EndsAt(l, address)
  }

  /**
   * Page faults at the given addresses, but for those at which a region ends. With four frames a
   * fault all are survived, and every resolvable address is translated in the end.
   */
  method Faults(space: AddressSpace, addresses: seq<nat>, ghost file: seq<bv8>, ghost segs: seq<Phdr>)
    returns (ok: bool)
    requires space.Valid() && AllHeld(Snaps(space.regions), space.m.ram, file, segs)
    modifies space`own, space.regions, space.m, space.m.alloc, space.m.alloc.words
    ensures |old(space.m.alloc.Free)| >= 4 * |addresses| ==> ok
    ensures ok ==> space.Valid() && AllHeld(Snaps(space.regions), space.m.ram, file, segs) && space.root in space.m.xlat
    ensures ok && |old(space.m.alloc.Free)| >= 4 * |addresses| ==>
            Translated(space.m.xlat[space.root], SpanList(space.regions), addresses)
  {
    hide AddressSpace.Valid, AllHeld, Snaps, Translated, SpanList, Resolvable;
    ghost var n, l := |space.m.alloc.Free|, SpanList(space.regions);
    RootMapped(space);
    NoneTranslated(space.m.xlat[space.root], l);
    assert addresses[..0] == [];
    var i := 0;
    while i < |addresses|
      invariant i <= |addresses| && space.Valid() && AllHeld(Snaps(space.regions), space.m.ram, file, segs)
                && space.root in space.m.xlat
      invariant |space.m.alloc.Free| + 4 * i >= n && SpanList(space.regions) == l
      invariant n >= 4 * |addresses| ==> Translated(space.m.xlat[space.root], l, addresses[..i])
    {
      ghost var x := space.m.xlat[space.root];
      ok := FaultOne(space, addresses[i], file, segs);
      if !ok { return; }
      if n >= 4 * |addresses| { TranslatedMore(x, space.m.xlat[space.root], l, addresses, i); }
      i := i + 1;
    }
    ok := true;
    assert addresses[..i] == addresses;
  }

  /** Every resolvable address of the list is mapped. */
  ghost predicate Translated(x: map<nat, nat>, l: seq<Span>, addresses: seq<nat>) {
    forall i :: 0 <= i < |addresses| && Resolvable(l, addresses[i]) ==> addresses[i] / 0x1000 in x
  }

  lemma {:induction false} NoneTranslated(x: map<nat, nat>, l: seq<Span>)
    ensures Translated(x, l, [])
  {}

  lemma {:induction false} TranslatedMore(x: map<nat, nat>, x': map<nat, nat>, l: seq<Span>, addresses: seq<nat>,
                                          i: nat)
    requires i < |addresses| && Translated(x, l, addresses[..i]) && x.Keys <= x'.Keys
    requires Resolvable(l, addresses[i]) ==> addresses[i] / 0x1000 in x'
    ensures Translated(x', l, addresses[..i + 1])
  {
    hide Resolvable;
    var d := addresses[..i + 1];
    forall j | 0 <= j < |d| && Resolvable(l, d[j]) ensures d[j] / 0x1000 in x' {
      if j < i { assert addresses[..i][j] == d[j]; }
    }
  }

  /** One page fault, left out at the end of a region. */
  method FaultOne(space: AddressSpace, address: nat, ghost file: seq<bv8>, ghost segs: seq<Phdr>) returns (ok: bool)
    requires space.Valid() && AllHeld(Snaps(space.regions), space.m.ram, file, segs) && space.root in space.m.xlat
    modifies space`own, space.regions, space.m, space.m.alloc, space.m.alloc.words
    ensures |old(space.m.alloc.Free)| >= 4 ==> ok
    ensures ok ==>
              && space.Valid() && AllHeld(Snaps(space.regions), space.m.ram, file, segs)
              && |space.m.alloc.Free| + 4 >= |old(space.m.alloc.Free)|
              && space.root in space.m.xlat && old(space.m.xlat)[space.root].Keys <= space.m.xlat[space.root].Keys
    ensures ok && |old(space.m.alloc.Free)| >= 4 && Resolvable(SpanList(space.regions), address) ==>
            address / 0x1000 in space.m.xlat[space.root]
  {
    hide AddressSpace.Valid, AllHeld, Snaps, EndsAt, HasOwner, FaultStep, SpanList;
    if EndsAt(SpanList(space.regions), address) { return true; }
    ghost var a := space.Look();
    var accepted;
    ghost var k;
    ok, accepted, k := space.FaultHit(address);
    if ok { FaultKeeps(space.root, a, space.Look(), address, accepted, k, file, segs); }
  }

  lemma {:induction false} RootMapped(space: AddressSpace)
    requires space.Valid()
    ensures space.root in space.m.xlat
  {
    hide Machine.Valid, SpaceOk, AllMapped, AllDifferent;
  }

  /**
   * An image loaded into a fresh address space and then run under any page faults: every segment
   * reads as the file's bytes below p_filesz and as zero above. With a frame for the context,
   * those for the image and four for each fault the kernel survives it all exactly if no segment
   * that has bytes starts where an earlier one ends, and every resolvable address that faulted is
   * then translated.
   */
  method LoadAndFault(m: Machine, file: seq<bv8>, addresses: seq<nat>) returns (ok: bool, space: AddressSpace, ip: nat)
    requires m.Valid() && WindowsClear(m) && HeadersIn(file) && Check(file) && Disjoint(Segments(file, PhNum(file)))
    requires forall i :: 0 <= i < |Segments(file, PhNum(file))| ==> SegmentOk(Segments(file, PhNum(file))[i], |file|)
    requires |m.alloc.Free| > NeedFor(file)
    modifies m, m.alloc, m.alloc.words
    ensures Adjacent(Segments(file, PhNum(file)), |Segments(file, PhNum(file))|) ==> !ok
    ensures |old(m.alloc.Free)| > NeedFor(file) + 4 * |addresses| ==>
            ok || Adjacent(Segments(file, PhNum(file)), |Segments(file, PhNum(file))|)
    ensures ok ==>
              && space.m == m && space.Valid() && ip == Entry(file) && space.root in m.xlat
              && AllHeld(Snaps(space.regions), m.ram, file, Segments(file, PhNum(file)))
    ensures ok && |old(m.alloc.Free)| > NeedFor(file) + 4 * |addresses| ==>
            Translated(m.xlat[space.root], SpanList(space.regions), addresses)
  {
    hide AddressSpace.Valid, Machine.Valid, Check, AllHeld, Segments, NeedFor, Loadable, Snaps, Extends, SegmentOk,
         Disjoint, Isolated, Translated, Adjacent;
    KernelThere(m);
    space := new AddressSpace(m);
    FreshLoadable(file);
    var loaded;
    ok, loaded, ip := Elf.Load(space, file);
    if !ok { return; }
    ok := Faults(space, addresses, file, Segments(file, PhNum(file)));
  }
}
