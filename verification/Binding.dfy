/** Taking pages out of the hole list: bind_hole and bind_exact. */
module Binding {
  import opened Bits
  import opened Spans

  // ----- cutting a hole

  /** The holes with entry k replaced by what is left of it. */
  function Replace(l: seq<Span>, k: nat, pieces: seq<Span>): seq<Span>
    requires k < |l|
  {
    l[..k] + pieces + l[k + 1..]
  }

  /** The pieces and the new range together are the old hole, address by address. */
  ghost predicate Splits(h: Span, pieces: seq<Span>, s: Span) {
    forall a: nat :: Cover1(h, a) == Cover(pieces, a) + Cover1(s, a)
  }

  lemma {:induction false} CoverReplace(l: seq<Span>, k: nat, pieces: seq<Span>, a: nat)
    requires k < |l|
    ensures Cover(Replace(l, k, pieces), a) + Cover1(l[k], a) == Cover(l, a) + Cover(pieces, a)
  {
    CoverMid(l[..k], pieces, l[k + 1..], a);
    CoverAt(l, k, a);
  }

  /** Moving a range from a hole to the regions keeps the tiling exactly when it splits the hole. */
  lemma {:induction false} BindTiled(holes: seq<Span>, regions: seq<Span>, k: nat, pieces: seq<Span>, s: Span, j: nat)
    requires Tiled(holes, regions) && k < |holes| && j <= |regions|
    ensures Tiled(Replace(holes, k, pieces), Insert(regions, j, s)) <==> Splits(holes[k], pieces, s)
  {
    forall a: nat
      ensures Cover(Replace(holes, k, pieces), a) + Cover(Insert(regions, j, s), a) + Cover1(holes[k], a)
           == Cover(holes, a) + Cover(regions, a) + Cover(pieces, a) + Cover1(s, a)
    {
      CoverReplace(holes, k, pieces, a);
      CoverInsert(regions, j, s, a);
    }
    var holes', regions' := Replace(holes, k, pieces), Insert(regions, j, s);
    if Tiled(holes', regions') {
      forall a: nat ensures Cover1(holes[k], a) == Cover(pieces, a) + Cover1(s, a) {
        assert Cover(holes, a) + Cover(regions, a) == Cover(holes', a) + Cover(regions', a);
      }
    }
  }

  // ----- bind_hole

  /** What bind_hole leaves of the hole: nothing, or its lower part. */
  function TopRest(h: Span, size: nat): seq<Span>
    requires size <= h.size
  {
    if h.size == size then [] else [Span(h.base, h.size - size)]
  }

  /** The range bind_hole takes: the upper end of the hole. */
  function TopPart(h: Span, size: nat): Span
    requires size <= h.size
  {
    Span(h.base + (h.size - size) * 0x1000, size)
  }

  lemma {:induction false} TopSplits(h: Span, size: nat)
    requires size <= h.size
    ensures Splits(h, TopRest(h, size), TopPart(h, size))
  {
    forall a: nat ensures Cover1(h, a) == Cover(TopRest(h, size), a) + Cover1(TopPart(h, size), a) {
      if h.size != size { CoverOne(Span(h.base, h.size - size), a); }
    }
  }

  /** find_free_hole: the fitting hole with the highest base; k == |l| when none fits. */
  method FindFreeHole(l: seq<Span>, size: nat) returns (k: nat)
    ensures k <= |l|
    ensures k == |l| <==> forall i :: 0 <= i < |l| ==> l[i].size < size
    ensures k < |l| ==> l[k].size >= size
    ensures k < |l| ==> forall i :: 0 <= i < |l| && l[i].size >= size ==> l[i].base <= l[k].base
  {
    k := |l|;
    var best := 0;
    for i := 0 to |l|
      invariant k < i || k == |l|
      invariant k == |l| ==> best == 0 && forall j :: 0 <= j < i ==> l[j].size < size
      invariant k < |l| ==> l[k].size >= size && best == l[k].base
      invariant k < |l| ==> forall j :: 0 <= j < i && l[j].size >= size ==> l[j].base <= l[k].base
    {
      if l[i].size >= size && l[i].base >= best {
        best := l[i].base;
        k := i;
      }
    }
  }

  // ----- bind_exact

  /** The end of the requested range, as 64-bit arithmetic gives it. */
  function ReqEnd(base: nat, size: nat): nat {
    Wrap64(base + size * 0x1000)
  }

  function Sub64(a: int, b: int): nat {
    (a - b) % TWO64
  }

  /** The test of bind_exact's search. */
  predicate Contains(h: Span, base: nat, size: nat) {
    h.base <= base && ReqEnd(base, size) <= End(h)
  }

  method FindExact(l: seq<Span>, base: nat, size: nat) returns (k: nat)
    ensures k <= |l|
    ensures k < |l| ==> Contains(l[k], base, size)
    ensures forall j :: 0 <= j < k ==> !Contains(l[j], base, size)
  {
    k := 0;
    while k < |l|
      invariant k <= |l| && forall j :: 0 <= j < k ==> !Contains(l[j], base, size)
    {
      if Contains(l[k], base, size) { return; }
      k := k + 1;
    }
  }

  /** What bind_exact leaves of the hole: the exact, leading, trailing and middle cases. */
  function Carve(h: Span, base: nat, size: nat): seq<Span>
    requires h.base <= base
  {
    if base == h.base && size == h.size then []
    else if base == h.base then [Span(ReqEnd(base, size), Sub64(h.size, size))]
    else if ReqEnd(base, size) == End(h) then [Span(h.base, Sub64(h.size, size))]
    else
      var before := (base - h.base) / 0x1000;
      [Span(h.base, before), Span(ReqEnd(base, size), Sub64(h.size, size + before))]
  }

  /** A request the code handles as meant: page-aligned, and its end does not wrap. */
  predicate Clean(base: nat, size: nat) {
    base % 0x1000 == 0 && base + size * 0x1000 < TWO64
  }

  lemma {:induction false} CoverPair(s: Span, t: Span, a: nat)
    ensures Cover([s, t], a) == Cover1(s, a) + Cover1(t, a)
  {
    assert [s, t] == [s] + [t];
    CoverConcat([s], [t], a);
    CoverOne(s, a);
    CoverOne(t, a);
  }

  /** For a clean request the four cases, without the 64-bit arithmetic. */
  lemma {:induction false} CarveClean(h: Span, base: nat, size: nat)
    requires Proper(h) && End(h) <= USER_END && size > 0
    requires Contains(h, base, size) && Clean(base, size)
    ensures var before := (base - h.base) / 0x1000;
            && base == h.base + before * 0x1000 && before + size <= h.size
            && Carve(h, base, size) ==
                 if before == 0 && size == h.size then []
                 else if before == 0 then [Span(base + size * 0x1000, h.size - size)]
                 else if before + size == h.size then [Span(h.base, h.size - size)]
                 else [Span(h.base, before), Span(base + size * 0x1000, h.size - size - before)]
  {}

  lemma {:induction false} CarveSplits(h: Span, base: nat, size: nat)
    requires Proper(h) && End(h) <= USER_END && size > 0
    requires Contains(h, base, size) && Clean(base, size)
    ensures Splits(h, Carve(h, base, size), Span(base, size))
    ensures AllProper(Carve(h, base, size)) && Proper(Span(base, size))
  {
    hide Carve, Cover;
    CarveClean(h, base, size);
    var s := Span(base, size);
    var before := (base - h.base) / 0x1000;
    forall a: nat ensures Cover1(h, a) == Cover(Carve(h, base, size), a) + Cover1(s, a) {
      CoverNone(a);
      CoverOne(Span(End(s), h.size - size), a);
      CoverOne(Span(h.base, h.size - size), a);
      CoverPair(Span(h.base, before), Span(End(s), h.size - size - before), a);
    }
  }

  lemma {:induction false} CoverNone(a: nat)
    ensures Cover([], a) == 0
  {}

  /** An address that the pieces or the new range cover outside the hole. */
  lemma {:induction false} CarveSpills(h: Span, base: nat, size: nat) returns (a: nat)
    requires Proper(h) && End(h) <= USER_END && size > 0
    requires Contains(h, base, size) && !Clean(base, size)
    ensures Cover1(h, a) != Cover(Carve(h, base, size), a) + Cover1(Span(base, size), a)
  {
    var s := Span(base, size);
    if base + size * 0x1000 >= TWO64 {
      a := if base < End(h) then End(h) else base;
      assert Cover1(s, a) == 1 && Cover1(h, a) == 0;
    } else {
      var before := (base - h.base) / 0x1000;
      var rest := h.size - size - before;
      a := End(h);
      assert base + size * 0x1000 < End(h);
      assert rest > 0;
      CoverPair(Span(h.base, before), Span(End(s), rest), a);
      assert Cover1(Span(End(s), rest), a) == 1;
    }
  }

  /**
   * bind_exact keeps the tiling exactly on page-aligned requests whose end does not wrap: any
   * other request that finds a hole makes two ranges overlap or leaves the user range.
   */
  lemma {:induction false} BindExactTiled(holes: seq<Span>, regions: seq<Span>, k: nat, base: nat, size: nat, j: nat)
    requires Tiled(holes, regions) && AllProper(holes) && AllProper(regions) && size > 0
    requires k < |holes| && Contains(holes[k], base, size) && j <= |regions|
    ensures Tiled(Replace(holes, k, Carve(holes[k], base, size)), Insert(regions, j, Span(base, size)))
       <==> Clean(base, size)
  {
    TiledApart(holes, regions);
    BindTiled(holes, regions, k, Carve(holes[k], base, size), Span(base, size), j);
    if Clean(base, size) {
      CarveSplits(holes[k], base, size);
    } else {
      var a := CarveSpills(holes[k], base, size);
    }
  }

  /** A hole of four pages where an unaligned request is accepted and breaks the tiling. */
  lemma {:induction false} UnalignedBreaksTiling()
    ensures var h := Span(USER_BASE, 4);
            Contains(h, 0x1800, 1) && !Splits(h, Carve(h, 0x1800, 1), Span(0x1800, 1))
  {
    var a := CarveSpills(Span(USER_BASE, 4), 0x1800, 1);
  }

  // ----- when an exact request is granted

  ghost predicate AllFree(l: seq<Span>, base: nat, size: nat) {
    forall a: nat :: base <= a < base + size * 0x1000 ==> Cover(l, a) > 0
  }

  ghost predicate Granted(l: seq<Span>, base: nat, size: nat) {
    exists k :: 0 <= k < |l| && Contains(l[k], base, size)
  }

  lemma {:induction false} GrantedIsFree(l: seq<Span>, base: nat, size: nat)
    requires Clean(base, size) && Granted(l, base, size)
    ensures AllFree(l, base, size)
  {
    var k :| 0 <= k < |l| && Contains(l[k], base, size);
    forall a: nat | base <= a < base + size * 0x1000 ensures Cover(l, a) > 0 {
      CoverAt(l, k, a);
    }
  }

  lemma {:induction false} FreeIsGranted(l: seq<Span>, base: nat, size: nat)
    requires AllApart(l) && AllProper(l) && NoneTouch(l)
    requires Clean(base, size) && size > 0 && AllFree(l, base, size)
    ensures Granted(l, base, size)
  {
    var k := CoveredBySome(l, base);
    if End(l[k]) < base + size * 0x1000 {
      var i := CoveredBySome(l, End(l[k]));
      assert false;
    }
    assert Contains(l[k], base, size);
  }

  lemma {:induction false} TouchIsRefused(l: seq<Span>, i: nat, j: nat)
    requires AllApart(l) && AllProper(l) && i < |l| && j < |l| && End(l[i]) == l[j].base
    requires End(l[j]) < TWO64
    ensures Clean(End(l[i]) - 0x1000, 2) && AllFree(l, End(l[i]) - 0x1000, 2)
    ensures !Granted(l, End(l[i]) - 0x1000, 2)
  {
    var base := End(l[i]) - 0x1000;
    forall a: nat | base <= a < base + 2 * 0x1000 ensures Cover(l, a) > 0 {
      CoverAt(l, i, a);
      CoverAt(l, j, a);
    }
    assert forall k :: 0 <= k < |l| && k != i ==> Apart(l[k], l[i]) || Apart(l[i], l[k]);
  }

  /** Every range of free pages can be bound. */
  ghost predicate GrantsFreeRanges(l: seq<Span>) {
    forall base: nat, size: nat :: Clean(base, size) && size > 0 ==>
      (Granted(l, base, size) <==> AllFree(l, base, size))
  }

  /** Exact binding is complete exactly when no two holes of the list touch. */
  lemma {:induction false} ExactComplete(l: seq<Span>)
    requires AllProper(l) && (forall a: nat :: Cover(l, a) <= 1)
    requires forall i :: 0 <= i < |l| ==> End(l[i]) < TWO64
    ensures GrantsFreeRanges(l) <==> NoneTouch(l)
  {
    ApartFromCount(l);
    if NoneTouch(l) {
      forall base: nat, size: nat | Clean(base, size) && size > 0
        ensures Granted(l, base, size) <==> AllFree(l, base, size)
      {
        if Granted(l, base, size) { GrantedIsFree(l, base, size); }
        if AllFree(l, base, size) { FreeIsGranted(l, base, size); }
      }
    } else {
      var i, j :| 0 <= i < |l| && 0 <= j < |l| && End(l[i]) == l[j].base;
      TouchIsRefused(l, i, j);
    }
  }

  /** bind_exact merges first, so on a sorted hole list it grants exactly the free ranges. */
  lemma {:induction false} SortedGrants(l: seq<Span>, base: nat, size: nat)
    requires Sorted(l) && AllProper(l) && (forall a: nat :: Cover(l, a) <= 1)
    requires Clean(base, size) && size > 0
    ensures Granted(Merge(l), base, size) <==> AllFree(l, base, size)
  {
    MergeCoalesces(l);
    MergeProper(l, 0);
    forall a: nat ensures Cover(Merge(l), a) == Cover(l, a) { MergeCovers(l, 0, a); }
    ApartFromCount(Merge(l));
    if Granted(Merge(l), base, size) { GrantedIsFree(Merge(l), base, size); }
    if AllFree(l, base, size) { FreeIsGranted(Merge(l), base, size); }
  }

  /**
   * From the fresh address space, allocating any part of it and destroying it again puts the top
   * hole in front of the rest: the two touch, merging does not see it, and the two pages at the
   * seam can no longer be bound together although both are free.
   */
  lemma {:induction false} AllocDestroyFragments(size: nat)
    requires 0 < size < (USER_END - USER_BASE) / 0x1000
    ensures var h := Span(USER_BASE, (USER_END - USER_BASE) / 0x1000);
            var low, top := TopRest(h, size)[0], TopPart(h, size);
            var l := PutHole([low], top, 1);
            && IsSucc([low], top, 1)
            && Merge(l) == [top, low] && End(low) == top.base
            && AllFree(l, top.base - 0x1000, 2) && !Granted(Merge(l), top.base - 0x1000, 2)
  {
    var h := Span(USER_BASE, (USER_END - USER_BASE) / 0x1000);
    var low, top := TopRest(h, size)[0], TopPart(h, size);
    var l := PutHole([low], top, 1);
    assert l == [top, low];
    assert !Touches(l, 0);
    assert MergeFrom(l, 2) == l;
    assert MergeFrom(l, 1) == l;
    TouchIsRefused(l, 1, 0);
  }

  // ----- the layout of an address space

  /** Holes and regions tile the user range in whole pages, and the regions are in address order. */
  ghost predicate LayoutOk(holes: seq<Span>, regions: seq<Span>) {
    AllProper(holes) && AllProper(regions) && Tiled(holes, regions) && Sorted(regions)
  }

  /** A range taken out of a hole lies apart from every region. */
  lemma {:induction false} NewSpanApart(holes: seq<Span>, l: seq<Span>, k: nat, pieces: seq<Span>, s: Span)
    requires LayoutOk(holes, l) && k < |holes| && Splits(holes[k], pieces, s) && Proper(s)
    ensures forall i :: 0 <= i < |l| ==> Apart(l[i], s) && l[i].base != s.base
    ensures USER_BASE <= s.base && End(s) <= USER_END
  {
    hide Cover, Tiled, Sorted;
    TiledApart(holes, l);
    assert Cover1(holes[k], s.base) >= Cover1(s, s.base) == 1;
    assert Cover1(holes[k], End(s) - 1) >= Cover1(s, End(s) - 1) == 1;
  }

  lemma {:induction false} LayoutInsert(holes: seq<Span>, l: seq<Span>, k: nat, pieces: seq<Span>, j: nat, s: Span)
    requires LayoutOk(holes, l) && k < |holes| && AllProper(pieces) && Proper(s)
    requires Splits(holes[k], pieces, s) && IsSucc(l, s, j)
    ensures LayoutOk(Replace(holes, k, pieces), Insert(l, j, s))
  {
    hide Cover, Splits, Tiled, Sorted, AllApart;
    TiledApart(holes, l);
    NewSpanApart(holes, l, k, pieces, s);
    BindTiled(holes, l, k, pieces, s, j);
    InsertKeepsSorted(l, s, j);
  }

  lemma {:induction false} LayoutRemove(holes: seq<Span>, l: seq<Span>, k: nat, h: nat)
    requires LayoutOk(holes, l) && k < |l| && h <= |holes|
    ensures LayoutOk(Merge(PutHole(holes, l[k], h)), Remove(l, k))
  {
    hide Cover, MergeFrom;
    var put := PutHole(holes, l[k], h);
    MergeProper(put, 0);
    forall a: nat ensures Cover(Merge(put), a) + Cover(Remove(l, k), a) == Cover(holes, a) + Cover(l, a) {
      MergeCovers(put, 0, a);
      CoverPutHole(holes, l[k], h, a);
      CoverRemove(l, k, a);
    }
  }

  lemma {:induction false} LayoutMerge(holes: seq<Span>, l: seq<Span>)
    requires LayoutOk(holes, l)
    ensures LayoutOk(Merge(holes), l)
  {
    hide Cover, MergeFrom;
    MergeProper(holes, 0);
    forall a: nat ensures Cover(Merge(holes), a) == Cover(holes, a) { MergeCovers(holes, 0, a); }
  }

  // ----- finding a region by address

  /** The test of region_for_address; the end of the range counts as inside. */
  predicate Within(s: Span, a: nat) {
    s.base <= a <= End(s)
  }

  /** What region_for_address finds: the first range that passes its test, |l| for none. */
  predicate FoundAt(l: seq<Span>, a: nat, k: nat) {
    k <= |l| && (k < |l| ==> Within(l[k], a)) && forall i :: 0 <= i < k ==> !Within(l[i], a)
  }

  predicate HasOwner(l: seq<Span>, a: nat) {
    exists i :: 0 <= i < |l| && Covers(l[i], a)
  }

  /** Some range ends exactly at a. */
  predicate EndsAt(l: seq<Span>, a: nat) {
    exists i :: 0 <= i < |l| && End(l[i]) == a
  }

  /**
   * The lookup gives the range that owns the address exactly when there is one and no range ends
   * at the address; a range that ends there is found instead of the owner, or of nothing.
   */
  lemma {:induction false} LookupExact(l: seq<Span>, a: nat, k: nat)
    requires Sorted(l) && AllApart(l) && AllProper(l) && FoundAt(l, a, k)
    ensures k < |l| && Covers(l[k], a) <==> HasOwner(l, a) && !EndsAt(l, a)
    ensures k == |l| <==> !HasOwner(l, a) && !EndsAt(l, a)
    ensures EndsAt(l, a) <==> k < |l| && End(l[k]) == a
  {
    if EndsAt(l, a) {
      var e :| 0 <= e < |l| && End(l[e]) == a;
      assert Within(l[e], a);
    }
  }

  /** Two neighbouring one-page regions: the lookup of the second one's base finds the first. */
  lemma {:induction false} LookupMissesNeighbour()
    ensures var l := [Span(0x1000, 1), Span(0x2000, 1)];
            FoundAt(l, 0x2000, 0) && !Covers(l[0], 0x2000) && Covers(l[1], 0x2000)
  {}

  // ----- the order of the hole list

  lemma {:induction false} TopKeepsSorted(l: seq<Span>, k: nat, size: nat)
    requires Sorted(l) && k < |l| && size <= l[k].size
    ensures Sorted(Replace(l, k, TopRest(l[k], size)))
  {
    var r := Replace(l, k, TopRest(l[k], size));
    if size == l[k].size {
      assert forall i :: 0 <= i < |r| ==> r[i] == l[if i < k then i else i + 1];
    } else {
      assert forall i :: 0 <= i < |r| ==> r[i].base == l[i].base;
    }
  }

  lemma {:induction false} CarveKeepsSorted(l: seq<Span>, k: nat, base: nat, size: nat)
    requires Sorted(l) && AllApart(l) && k < |l| && Proper(l[k]) && End(l[k]) <= USER_END
    requires size > 0 && Contains(l[k], base, size) && Clean(base, size)
    ensures Sorted(Replace(l, k, Carve(l[k], base, size)))
  {
    hide Carve;
    CarveClean(l[k], base, size);
    var pieces := Carve(l[k], base, size);
    var r := Replace(l, k, pieces);
    assert forall j :: 0 <= j < |pieces| ==> l[k].base <= pieces[j].base < End(l[k]);
    forall i, j | 0 <= i < j < |r| ensures r[i].base < r[j].base {
      var i' := if i < k then i else if i < k + |pieces| then k else i - |pieces| + 1;
      var j' := if j < k then j else if j < k + |pieces| then k else j - |pieces| + 1;
      assert i' != j' ==> i' < j' && Apart(l[i'], l[j']) && l[i'].base < l[j'].base;
      assert i < k || i >= k + |pieces| ==> r[i] == l[i'];
      assert j < k || j >= k + |pieces| ==> r[j] == l[j'];
    }
  }

  /** Putting a hole back that is not above all others leaves a sorted, fully merged list. */
  lemma {:induction false} DestroyCoalesces(holes: seq<Span>, l: seq<Span>, k: nat, h: nat)
    requires LayoutOk(holes, l) && k < |l| && IsSucc(holes, l[k], h) && Sorted(holes)
    requires holes == [] || exists i :: 0 <= i < |holes| && holes[i].base > l[k].base
    ensures Sorted(Merge(PutHole(holes, l[k], h))) && NoneTouch(Merge(PutHole(holes, l[k], h)))
  {
    hide Cover;
    TiledApart(holes, l);
    var put := PutHole(holes, l[k], h);
    PutHoleSorted(holes, l[k], h);
    forall a: nat ensures Cover(put, a) <= 1 {
      CoverPutHole(holes, l[k], h, a);
      CoverRemove(l, k, a);
    }
    MergeCoalesces(put);
  }

  /** Other free ranges stay free when one is bound. */
  lemma {:induction false} StillFree(holes: seq<Span>, k: nat, pieces: seq<Span>, s: Span, other: Span)
    requires k < |holes| && Splits(holes[k], pieces, s) && Apart(s, other)
    requires AllFree(holes, other.base, other.size)
    ensures AllFree(Replace(holes, k, pieces), other.base, other.size)
  {
    hide Cover;
    forall a: nat | other.base <= a < other.base + other.size * 0x1000 ensures Cover(Replace(holes, k, pieces), a) > 0 {
      CoverReplace(holes, k, pieces, a);
      assert Cover1(holes[k], a) == Cover(pieces, a) + Cover1(s, a);
    }
  }

  /**
   * Taking the top of a hole as a region keeps the strict order of the regions if and only if
   * some page is asked for or no region starts where the hole ends.
   */
  lemma {:induction false} ZeroSizeOrder(holes: seq<Span>, l: seq<Span>, k: nat, size: nat, j: nat)
    requires LayoutOk(holes, l) && k < |holes| && size <= holes[k].size && IsSucc(l, TopPart(holes[k], size), j)
    ensures Sorted(Insert(l, j, TopPart(holes[k], size))) <==>
            size > 0 || forall i :: 0 <= i < |l| ==> l[i].base != End(holes[k])
  {
    hide Tiled, Splits, IsSucc, Proper;
    var s := TopPart(holes[k], size);
    TiledApart(holes, l);
    assert size == 0 ==> s.base == End(holes[k]);
    if size > 0 {
      assert Proper(holes[k]);
      TopSplits(holes[k], size);
      TopProper(holes[k], size);
      NewSpanApart(holes, l, k, TopRest(holes[k], size), s);
    }
    if i :| 0 <= i < |l| && l[i].base == s.base {
      SameBaseUnsorted(l, j, s, i);
    } else {
      InsertKeepsSorted(l, s, j);
    }
  }

  lemma {:induction false} TopProper(h: Span, size: nat)
    requires Proper(h) && 0 < size <= h.size
    ensures AllProper(TopRest(h, size)) && Proper(TopPart(h, size)) && h.base <= TopPart(h, size).base
  {}

  lemma {:induction false} SameBaseUnsorted(l: seq<Span>, j: nat, s: Span, i: nat)
    requires i < |l| && l[i].base == s.base && IsSucc(l, s, j)
    ensures !Sorted(Insert(l, j, s))
  {
    var r := Insert(l, j, s);
    if i < j { assert r[i] == l[i] && r[j] == s; } else { assert r[i + 1] == l[i] && r[j] == s; }
  }

  /** Reserving no pages at all twice gives two regions at the same base. */
  lemma {:induction false} ZeroSizeBreaksOrder(h: Span)
    requires h.size > 0
    ensures TopPart(h, 0) == TopPart(TopRest(h, 0)[0], 0)
    ensures !Sorted([TopPart(h, 0), TopPart(TopRest(h, 0)[0], 0)])
  {
    var l := [TopPart(h, 0), TopPart(TopRest(h, 0)[0], 0)];
    assert l[0].base == l[1].base;
  }
}
