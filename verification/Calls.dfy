/**
 * The calls on an address space as steps between values: what each call does to the holes, the
 * regions, their pages, their bytes and the machine, and what whole runs of calls keep.
 */
module Calls {
  import opened Bits
  import opened Machines
  import opened Spans
  import opened Binding
  import opened Layouts
  import opened Mappings
  import opened Copying
  import opened Regions
  import opened AddressSpaces

  /** What a call returns: a base, whether a fault was accepted, bytes; and the region that the lookup found. */
  datatype Out = Out(base: nat, accepted: bool, data: seq<bv8>, k: nat)

  ghost function LayoutIn(v: View): Layout {
    Layout(v.holes, SpansOf(v.regions))
  }

  // ----- when a call is made

  /** The region that the lookup finds fits the copy window, and what it is pointed at there holds bytes in use. */
  ghost predicate CopyOk(v: View, address: nat, n: nat) {
    forall k :: 0 <= k < |v.regions| && FoundAt(SpansOf(v.regions), address, k) && v.regions[k].span.base <= address ==>
      && v.regions[k].span.size <= WINDOW_PAGES
      && Targets(v.regions[k], address - v.regions[k].span.base, n, |v.shot.ram|, v.shot.spare)
  }

  /** What the source demands of the caller. */
  ghost predicate Legal(c: Call, v: View) {
    && Allowed(c, LayoutIn(v))
    && (c.Load? ==> CopyOk(v, c.address, |c.data|) && c.address + |c.data| + 0xFFF < TWO64)
    && (c.Store? ==> CopyOk(v, c.address, c.n) && c.address + c.n + 0xFFF < TWO64)
  }

  /** The copy fits the region that the lookup finds. */
  predicate FitsAt(l: seq<Span>, address: nat, n: nat) {
    forall k ::
      0 <= k < |l| && FoundAt(l, address, k) && l[k].base <= address ==> Fitting(address - l[k].base, n, l[k].size)
  }

  /** The call neither hits the end of a region nor copies past one; the kernel does not survive those. */
  predicate Survivable(c: Call, l: seq<Span>) {
    match c
    case FaultHit(address) => !EndsAt(l, address)
    case Touch(address) => !EndsAt(l, address)
    case Load(address, data) => FitsAt(l, address, |data|)
    case Store(address, n) => FitsAt(l, address, n)
    case _ => true
  }

  // ----- what a call does

  /** A region that owns nothing has entered the list, or nothing has changed; no other reads differently. */
  ghost predicate Entered(root: nat, a: View, b: View, base: nat, r: Region) {
    && Isolated(root, a.shot, b.shot, {}) && b.shot.own == a.shot.own
    && AllSameBytes(a.regions, a.shot.ram, a.regions, b.shot.ram, a.shot.spare)
    && if base == 0 then b.regions == a.regions else exists j: nat :: InsertedAt(a.regions, b.regions, j, r)
  }

  ghost predicate InsertedAt(s: seq<Region>, s': seq<Region>, j: nat, r: Region) {
    j <= |s| && s' == InsertRegion(s, j, r)
  }

  /** The region found has left list and context, and its frames are free; no byte changes. */
  ghost predicate DestroyStep(root: nat, a: View, b: View, address: nat, k: nat) {
    && FoundAt(SpansOf(a.regions), address, k) && k < |a.regions|
    && b.regions == a.regions[..k] + a.regions[k + 1..] && Dropped(root, a.shot, b.shot, a.regions[k])
  }

  /** The region that a binding call adds. */
  function NewRegion(c: Call, base: nat): Region
    requires Binds(c)
  {
    match c
    case Allocate(size, perms, cache) => Region(Span(base, size), ReservedPages(size), perms, cache)
    case Map(address, size, perms, cache) => Region(Span(base, size), DirectPages(address, size), perms, cache)
    case AllocateAt(_, size, perms, cache) => Region(Span(base, size), ReservedPages(size), perms, cache)
    case MapAt(_, address, size, perms, cache) => Region(Span(base, size), DirectPages(address, size), perms, cache)
  }

  predicate Uses(c: Call) {
    c.FaultHit? || c.Touch? || c.TouchAll? || c.Load? || c.Store?
  }

  /** What a call does that reaches an existing region and changes no layout. */
  ghost predicate UseStep(root: nat, c: Call, a: View, b: View, o: Out)
    requires Uses(c)
  {
    match c
    case FaultHit(address) => FaultStep(root, a, b, address, o.accepted, o.k)
    case Touch(address) => TouchStep(root, a, b, address, o.k)
    case TouchAll(address) => TouchAllStep(root, a, b, address, o.k)
    case Load(address, data) => LoadStep(root, a, b, address, data, o.k)
    case Store(address, n) => StoreStep(root, a, b, address, n, o.data, o.k)
  }

  /** What a call that is made and survived does. */
  ghost predicate CallStep(root: nat, c: Call, a: View, b: View, o: Out) {
    && LayoutStep(c, LayoutIn(a), LayoutIn(b), o.base)
    && if Binds(c) then Entered(root, a, b, o.base, NewRegion(c, o.base))
       else if Uses(c) then UseStep(root, c, a, b, o)
       else DestroyStep(root, a, b, c.address, o.k)
  }

  /** A call whose caller breaks an obligation, or which the kernel would not survive, is left out. */
  ghost predicate CallTurn(root: nat, c: Call, a: View, b: View, o: Out) {
    if Legal(c, a) && Survivable(c, SpansOf(a.regions)) then CallStep(root, c, a, b, o) else b == a
  }

  ghost predicate CallRun(root: nat, calls: seq<Call>, vs: seq<View>, outs: seq<Out>) {
    && |vs| == |calls| + 1 && |outs| == |calls|
    && forall i :: 0 <= i < |calls| ==> CallTurn(root, calls[i], vs[i], vs[i + 1], outs[i])
  }

  lemma {:induction false} CallRunMore(root: nat, calls: seq<Call>, i: nat, vs: seq<View>, outs: seq<Out>, v: View,
                                       o: Out)
    requires i < |calls| && CallRun(root, calls[..i], vs, outs) && CallTurn(root, calls[i], vs[i], v, o)
    ensures CallRun(root, calls[..i + 1], vs + [v], outs + [o])
  {
    hide CallTurn;
    var c, ws, os := calls[..i + 1], vs + [v], outs + [o];
    forall k | 0 <= k < |c| ensures CallTurn(root, c[k], ws[k], ws[k + 1], os[k]) {
      if k < i { assert CallTurn(root, calls[..i][k], vs[k], vs[k + 1], outs[k]); }
    }
  }

  // ----- what a run keeps

  /** The invariant of an address space: tiled, mapped exactly where it has frames, each frame its own. */
  ghost predicate SpaceIn(root: nat, v: View) {
    root in v.shot.xlat && v.shot.own <= v.shot.lent && SpaceOk(v.holes, v.regions, v.shot.xlat[root], v.shot.own)
  }

  /** The frames not its own that a call may write to: those a load is pointed at, and frame 0 where a page has none. */
  ghost function SpillBy(c: Call, b: View, o: Out): set<nat> {
    if c.Load? && o.k < |b.regions| && b.regions[o.k].span.base <= c.address
    then Outside(b.regions[o.k], c.address - b.regions[o.k].span.base, |c.data|) else {}
  }

  lemma {:induction false} CallIsolated(root: nat, c: Call, a: View, b: View, o: Out)
    requires CallStep(root, c, a, b, o)
    ensures Isolated(root, a.shot, b.shot, SpillBy(c, b, o))
  {
    hide Isolated, LayoutStep, Outside, Loaded, Harmless, Grown, AllSameBytes, Stored, FoundAt, NewRegion;
    NothingIsolated(root, a.shot, {});
  }

  /** The frames that the first n calls may have written to besides their own. */
  ghost function SpillOf(calls: seq<Call>, vs: seq<View>, outs: seq<Out>, n: nat): set<nat>
    requires n <= |calls| && |vs| == |calls| + 1 && |outs| == |calls|
  {
    if n == 0 then {} else SpillOf(calls, vs, outs, n - 1) + SpillBy(calls[n - 1], vs[n], outs[n - 1])
  }

  /** All that others own is, after any number of calls, as at the start. */
  lemma {:induction false} RunIsolated(root: nat, calls: seq<Call>, vs: seq<View>, outs: seq<Out>, n: nat)
    requires CallRun(root, calls, vs, outs) && n <= |calls|
    ensures Isolated(root, vs[0].shot, vs[n].shot, SpillOf(calls, vs, outs, n))
  {
    hide Isolated, CallStep, Legal, Survivable, SpillBy;
    if n == 0 {
      NothingIsolated(root, vs[0].shot, {});
    } else {
      RunIsolated(root, calls, vs, outs, n - 1);
      var a, b, before, now := vs[n - 1], vs[n], SpillOf(calls, vs, outs, n - 1), SpillOf(calls, vs, outs, n);
      assert CallTurn(root, calls[n - 1], a, b, outs[n - 1]);
      IsolatedMore(root, vs[0].shot, a.shot, before, now);
      if Legal(calls[n - 1], a) && Survivable(calls[n - 1], SpansOf(a.regions)) {
        CallIsolated(root, calls[n - 1], a, b, outs[n - 1]);
        IsolatedMore(root, a.shot, b.shot, SpillBy(calls[n - 1], b, outs[n - 1]), now);
        IsolatedTwice(root, vs[0].shot, a.shot, b.shot, now);
      }
    }
  }

  ghost function LayoutsOf(vs: seq<View>): (ls: seq<Layout>)
    ensures |ls| == |vs| && forall i :: 0 <= i < |vs| ==> ls[i] == LayoutIn(vs[i])
  {
    if vs == [] then [] else LayoutsOf(vs[..|vs| - 1]) + [LayoutIn(vs[|vs| - 1])]
  }

  ghost function Bases(outs: seq<Out>): (bs: seq<nat>)
    ensures |bs| == |outs| && forall i :: 0 <= i < |outs| ==> bs[i] == outs[i].base
  {
    if outs == [] then [] else Bases(outs[..|outs| - 1]) + [outs[|outs| - 1].base]
  }

  /** A call that is left out is one the layout machine leaves out too, or one that changes no layout. */
  lemma {:induction false} TurnLayout(root: nat, c: Call, a: View, b: View, o: Out)
    requires CallTurn(root, c, a, b, o)
    ensures LayoutTurn(c, LayoutIn(a), LayoutIn(b), o.base)
  {
    hide EndsAt, HasOwner, FitsAt, CopyOk, Clean, Entered, UseStep, DestroyStep, NewRegion;
  }

  /** The layouts of a run of calls are a run of the layout machine, so what is proved of those holds. */
  lemma {:induction false} RunLayout(root: nat, calls: seq<Call>, vs: seq<View>, outs: seq<Out>)
    requires CallRun(root, calls, vs, outs)
    ensures LayoutRun(calls, LayoutsOf(vs), Bases(outs))
  {
    hide CallTurn, LayoutTurn, LayoutIn;
    forall i | 0 <= i < |calls| ensures LayoutTurn(calls[i], LayoutsOf(vs)[i], LayoutsOf(vs)[i + 1], Bases(outs)[i]) {
      TurnLayout(root, calls[i], vs[i], vs[i + 1], outs[i]);
    }
  }

  /**
   * Two address spaces on one machine: whatever the first one's calls do, the second keeps its
   * invariant and its frames and, when none of these is among the spilled, every byte its regions
   * read as, except on pages that are pointed at a spare frame, one of the first space's, or one
   * of the spilled.
   */
  lemma {:induction false} OtherSpaceKept(root: nat, a: Shot, b: Shot, spill: set<nat>, holes: seq<Span>,
                                          s: seq<Region>, other: nat, otherOwn: set<nat>)
    requires Isolated(root, a, b, spill) && a.lent !! a.spare
    requires other in a.xlat && other != root && otherOwn <= a.lent - a.own
             && SpaceOk(holes, s, a.xlat[other], otherOwn)
    ensures other in b.xlat && otherOwn <= b.lent - b.own && SpaceOk(holes, s, b.xlat[other], otherOwn)
    ensures otherOwn !! spill ==> AllSameBytes(s, a.ram, s, b.ram, a.spare + a.own + spill)
  {
    hide SameOutside, SpaceOk, AllSameBytes;
    if otherOwn !! spill { SpaceKeptBytes(holes, s, a.xlat[other], otherOwn, a.ram, b.ram, a.spare + a.own + spill); }
  }
}
