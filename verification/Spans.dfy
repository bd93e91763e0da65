/** Lists of address ranges: the holes and the mapped regions of an address space. */
module Spans {

  const USER_BASE: nat := 0x1000
  const USER_END: nat := 0x8000_0000_0000

  /** A range of size pages, as memory_hole and memory_mapping record it. */
  datatype Span = Span(base: nat, size: nat)

  function End(s: Span): nat {
    s.base + s.size * 0x1000
  }

  predicate Covers(s: Span, a: nat) {
    s.base <= a < End(s)
  }

  /** 1 when s covers a, else 0. */
  function Cover1(s: Span, a: nat): nat {
    if Covers(s, a) then 1 else 0
  }

  /** How many ranges of a list cover address a. */
  function Cover(l: seq<Span>, a: nat): nat {
    if l == [] then 0 else Cover(l[..|l| - 1], a) + Cover1(l[|l| - 1], a)
  }

  predicate Proper(s: Span) {
    s.size > 0 && s.base % 0x1000 == 0
  }

  predicate AllProper(l: seq<Span>) {
    forall i :: 0 <= i < |l| ==> Proper(l[i])
  }

  /** Every user address is in exactly one hole or region, and no other address is in any. */
  ghost predicate Tiled(holes: seq<Span>, regions: seq<Span>) {
    forall a: nat :: Cover(holes, a) + Cover(regions, a) == if USER_BASE <= a < USER_END then 1 else 0
  }

  predicate Apart(s: Span, t: Span) {
    End(s) <= t.base || End(t) <= s.base
  }

  ghost predicate AllApart(l: seq<Span>) {
    forall i, j :: 0 <= i < j < |l| ==> Apart(l[i], l[j])
  }

  ghost predicate Sorted(l: seq<Span>) {
    forall i, j :: 0 <= i < j < |l| ==> l[i].base < l[j].base
  }

  /** No range ends where another begins. */
  ghost predicate NoneTouch(l: seq<Span>) {
    forall i, j :: 0 <= i < |l| && 0 <= j < |l| ==> End(l[i]) != l[j].base
  }

  // ----- counting

  lemma {:induction false} CoverConcat(l: seq<Span>, r: seq<Span>, a: nat)
    ensures Cover(l + r, a) == Cover(l, a) + Cover(r, a)
  {
    if r == [] {
      assert l + r == l;
    } else {
      CoverConcat(l, r[..|r| - 1], a);
      assert (l + r)[..|l + r| - 1] == l + r[..|r| - 1];
    }
  }

  lemma {:induction false} CoverOne(s: Span, a: nat)
    ensures Cover([s], a) == Cover1(s, a)
  {
    assert [s][..0] == [];
  }

  lemma {:induction false} CoverMid(p: seq<Span>, m: seq<Span>, q: seq<Span>, a: nat)
    ensures Cover(p + m + q, a) == Cover(p, a) + Cover(m, a) + Cover(q, a)
  {
    CoverConcat(p + m, q, a);
    CoverConcat(p, m, a);
  }

  lemma {:induction false} CoverAt(l: seq<Span>, i: nat, a: nat)
    requires i < |l|
    ensures Cover(l, a) == Cover(l[..i], a) + Cover1(l[i], a) + Cover(l[i + 1..], a)
  {
    assert l == l[..i] + [l[i]] + l[i + 1..];
    CoverMid(l[..i], [l[i]], l[i + 1..], a);
    CoverOne(l[i], a);
  }

  lemma {:induction false} CoverTwo(l: seq<Span>, i: nat, j: nat, a: nat)
    requires i < j < |l|
    ensures Cover(l, a) >= Cover1(l[i], a) + Cover1(l[j], a)
  {
    CoverAt(l, j, a);
    CoverAt(l[..j], i, a);
  }

  lemma {:induction false} CoveredBySome(l: seq<Span>, a: nat) returns (i: nat)
    requires Cover(l, a) > 0
    ensures i < |l| && Covers(l[i], a)
  {
    if Covers(l[|l| - 1], a) {
      i := |l| - 1;
    } else {
      i := CoveredBySome(l[..|l| - 1], a);
    }
  }

  /** A count of at most one everywhere keeps the ranges of a list apart. */
  lemma {:induction false} ApartFromCount(l: seq<Span>)
    requires AllProper(l) && forall a: nat :: Cover(l, a) <= 1
    ensures AllApart(l)
  {
    forall i, j | 0 <= i < j < |l| ensures Apart(l[i], l[j]) {
      var a := if l[i].base <= l[j].base then l[j].base else l[i].base;
      CoverTwo(l, i, j, a);
    }
  }

  /** In a tiling, holes are apart, regions are apart, and all lie in the user range. */
  lemma {:induction false} TiledApart(holes: seq<Span>, regions: seq<Span>)
    requires Tiled(holes, regions) && AllProper(holes) && AllProper(regions)
    ensures AllApart(holes) && AllApart(regions)
    ensures forall i :: 0 <= i < |holes| ==> USER_BASE <= holes[i].base && End(holes[i]) <= USER_END
    ensures forall i :: 0 <= i < |regions| ==> USER_BASE <= regions[i].base && End(regions[i]) <= USER_END
    ensures forall i, j :: 0 <= i < |holes| && 0 <= j < |regions| ==> Apart(holes[i], regions[j])
  {
    ApartFromCount(holes);
    ApartFromCount(regions);
    forall i | 0 <= i < |holes| ensures USER_BASE <= holes[i].base && End(holes[i]) <= USER_END {
      CoverAt(holes, i, holes[i].base);
      CoverAt(holes, i, End(holes[i]) - 1);
    }
    forall i | 0 <= i < |regions| ensures USER_BASE <= regions[i].base && End(regions[i]) <= USER_END {
      CoverAt(regions, i, regions[i].base);
      CoverAt(regions, i, End(regions[i]) - 1);
    }
    forall i, j | 0 <= i < |holes| && 0 <= j < |regions| ensures Apart(holes[i], regions[j]) {
      var a := if holes[i].base <= regions[j].base then regions[j].base else holes[i].base;
      CoverAt(holes, i, a);
      CoverAt(regions, j, a);
    }
  }

  // ----- inserting into a list

  function Insert(l: seq<Span>, k: nat, s: Span): seq<Span>
    requires k <= |l|
  {
    l[..k] + [s] + l[k..]
  }

  function Remove(l: seq<Span>, k: nat): seq<Span>
    requires k < |l|
  {
    l[..k] + l[k + 1..]
  }

  lemma {:induction false} CoverInsert(l: seq<Span>, k: nat, s: Span, a: nat)
    requires k <= |l|
    ensures Cover(Insert(l, k, s), a) == Cover(l, a) + Cover1(s, a)
  {
    CoverMid(l[..k], [s], l[k..], a);
    CoverOne(s, a);
    assert l == l[..k] + l[k..];
    CoverConcat(l[..k], l[k..], a);
  }

  lemma {:induction false} CoverRemove(l: seq<Span>, k: nat, a: nat)
    requires k < |l|
    ensures Cover(l, a) == Cover(Remove(l, k), a) + Cover1(l[k], a)
  {
    CoverAt(l, k, a);
    CoverConcat(l[..k], l[k + 1..], a);
  }

  /** What find_succ_hole and find_succ_mapping pick: k == |l| when there is no successor. */
  ghost predicate IsSucc(l: seq<Span>, s: Span, k: nat) {
    && k <= |l|
    && (k == |l| ==> forall j :: 0 <= j < |l| ==> l[j].base < s.base)
    && (k < |l| ==> l[k].base >= s.base && forall j :: 0 <= j < |l| && l[j].base >= s.base ==> End(l[k]) <= End(l[j]))
  }

  method FindSucc(l: seq<Span>, s: Span) returns (k: nat)
    requires forall j :: 0 <= j < |l| ==> End(l[j]) < 0x7FFF_FFFF_FFFF_FFFF
    ensures IsSucc(l, s, k)
  {
    k := |l|;
    var best := 0x7FFF_FFFF_FFFF_FFFF;   // PTRDIFF_MAX
    for i := 0 to |l|
      invariant k < i || k == |l|
      invariant k == |l| ==> best == 0x7FFF_FFFF_FFFF_FFFF && forall j :: 0 <= j < i ==> l[j].base < s.base
      invariant k < |l| ==> l[k].base >= s.base && best == End(l[k]) - s.base
      invariant k < |l| ==> forall j :: 0 <= j < i && l[j].base >= s.base ==> End(l[k]) <= End(l[j])
    {
      if l[i].base < s.base { continue; }
      var d := End(l[i]) - s.base;
      if d < best {
        k := i;
        best := d;
      }
    }
  }

  /** Inserting before the successor, or at the back when there is none, keeps a list sorted. */
  lemma {:induction false} InsertKeepsSorted(l: seq<Span>, s: Span, k: nat)
    requires Sorted(l) && AllApart(l) && AllProper(l) && IsSucc(l, s, k)
    requires forall i :: 0 <= i < |l| ==> l[i].base != s.base
    ensures Sorted(Insert(l, k, s))
  {
    forall i | 0 <= i < k ensures l[i].base < s.base {
      assert k < |l| ==> Apart(l[i], l[k]) && l[i].base < l[k].base;
    }
    forall i | k <= i < |l| ensures s.base < l[i].base {
      assert k < i ==> l[k].base < l[i].base;
    }
  }

  /** put(memory_hole *): before the successor, or at the FRONT when there is none. */
  function PutHole(l: seq<Span>, s: Span, k: nat): seq<Span>
    requires k <= |l|
  {
    if k < |l| then Insert(l, k, s) else [s] + l
  }

  /** A sorted hole list stays sorted exactly when the new hole is not above all the others. */
  lemma {:induction false} PutHoleSorted(l: seq<Span>, s: Span, k: nat)
    requires Sorted(l) && AllApart(l) && AllProper(l) && IsSucc(l, s, k)
    requires forall i :: 0 <= i < |l| ==> l[i].base != s.base
    ensures Sorted(PutHole(l, s, k)) <==> l == [] || exists i :: 0 <= i < |l| && l[i].base > s.base
  {
    if k < |l| {
      InsertKeepsSorted(l, s, k);
      assert l[k].base > s.base;
    } else if l != [] {
      assert PutHole(l, s, k)[0].base > PutHole(l, s, k)[1].base;
    }
  }

  lemma {:induction false} CoverPutHole(l: seq<Span>, s: Span, k: nat, a: nat)
    requires k <= |l|
    ensures Cover(PutHole(l, s, k), a) == Cover(l, a) + Cover1(s, a)
  {
    if k < |l| {
      CoverInsert(l, k, s, a);
    } else {
      CoverConcat([s], l, a);
      CoverOne(s, a);
    }
  }

  // ----- merging holes

  predicate Touches(l: seq<Span>, i: nat)
    requires i + 1 < |l|
  {
    End(l[i]) == l[i + 1].base
  }

  /** Entries i and i + 1 made one. */
  function Join(l: seq<Span>, i: nat): (r: seq<Span>)
    requires i + 1 < |l|
    ensures |r| == |l| - 1
  {
    l[..i] + [Span(l[i].base, l[i].size + l[i + 1].size)] + l[i + 2..]
  }

  /** The list and the cursor after the first test of merge_holes, the one on the previous hole. */
  function AfterPrev(l: seq<Span>, i: nat): (r: (seq<Span>, nat))
    requires i < |l|
    ensures r.1 < |r.0| && |r.0| - r.1 == |l| - i
  {
    if i > 0 && Touches(l, i - 1) then (Join(l, i - 1), i - 1) else (l, i)
  }

  /** The list after the second test, the one on the next hole. */
  function AfterNext(l: seq<Span>, i: nat): (r: seq<Span>)
    requires i < |l|
    ensures i < |r| <= |l|
  {
    if i + 1 < |l| && Touches(l, i) then Join(l, i) else l
  }

  /** The rest of merge_holes from hole i on. */
  function MergeFrom(l: seq<Span>, i: nat): seq<Span>
    requires i <= |l|
    decreases |l| - i
  {
    if i == |l| then l
    else
      var (l', i') := AfterPrev(l, i);
      MergeFrom(AfterNext(l', i'), i' + 1)
  }

  function Merge(l: seq<Span>): seq<Span> {
    MergeFrom(l, 0)
  }

  method MergeHoles(l: seq<Span>) returns (r: seq<Span>)
    ensures r == Merge(l)
  {
    hide Join, End;
    r := l;
    var i := 0;
    while i < |r|
      invariant i <= |r| && MergeFrom(r, i) == Merge(l)
      decreases |r| - i
    {
      if i > 0 && Touches(r, i - 1) {
        r := Join(r, i - 1);
        i := i - 1;
      }
      if i + 1 < |r| && Touches(r, i) {
        r := Join(r, i);
      }
      i := i + 1;
    }
  }

  lemma {:induction false} JoinCovers(l: seq<Span>, i: nat, a: nat)
    requires i + 1 < |l| && Touches(l, i)
    ensures Cover(Join(l, i), a) == Cover(l, a)
  {
    var m := Span(l[i].base, l[i].size + l[i + 1].size);
    assert l == l[..i] + [l[i], l[i + 1]] + l[i + 2..];
    CoverMid(l[..i], [l[i], l[i + 1]], l[i + 2..], a);
    CoverMid(l[..i], [m], l[i + 2..], a);
    CoverOne(m, a);
    assert [l[i], l[i + 1]] == [l[i]] + [l[i + 1]];
    CoverConcat([l[i]], [l[i + 1]], a);
    CoverOne(l[i], a);
    CoverOne(l[i + 1], a);
  }

  /** Merging keeps the free pages, whatever the order of the list. */
  lemma {:induction false} MergeCovers(l: seq<Span>, i: nat, a: nat)
    requires i <= |l|
    ensures Cover(MergeFrom(l, i), a) == Cover(l, a)
    decreases |l| - i
  {
    hide Cover, Join;
    if i < |l| {
      var (l', i') := AfterPrev(l, i);
      if i > 0 && Touches(l, i - 1) { JoinCovers(l, i - 1, a); }
      if i' + 1 < |l'| && Touches(l', i') { JoinCovers(l', i', a); }
      MergeCovers(AfterNext(l', i'), i' + 1, a);
    }
  }

  lemma {:induction false} MergeProper(l: seq<Span>, i: nat)
    requires i <= |l| && AllProper(l)
    ensures AllProper(MergeFrom(l, i))
    decreases |l| - i
  {
    hide AllProper, Join;
    if i < |l| {
      var (l', i') := AfterPrev(l, i);
      if i > 0 && Touches(l, i - 1) { JoinProper(l, i - 1); }
      if i' + 1 < |l'| && Touches(l', i') { JoinProper(l', i'); }
      MergeProper(AfterNext(l', i'), i' + 1);
    }
  }

  lemma {:induction false} JoinProper(l: seq<Span>, i: nat)
    requires i + 1 < |l| && AllProper(l)
    ensures AllProper(Join(l, i))
  {
    var r := Join(l, i);
    forall j | 0 <= j < |r| ensures Proper(r[j]) {
      assert Proper(l[if j <= i then j else j + 1]);
    }
  }

  /** No two neighbours among the first i holes touch. */
  ghost predicate Coalesced(l: seq<Span>, i: nat) {
    forall j: nat :: j + 1 < i && j + 1 < |l| ==> !Touches(l, j)
  }

  lemma {:induction false} JoinSorted(l: seq<Span>, i: nat)
    requires i + 1 < |l| && Sorted(l) && Coalesced(l, i + 1)
    ensures Sorted(Join(l, i)) && Coalesced(Join(l, i), i + 1)
  {
    var r := Join(l, i);
    assert forall j :: 0 <= j < |r| ==> r[j].base == l[if j <= i then j else j + 1].base;
    forall j: nat | j + 1 < i + 1 && j + 1 < |r| ensures !Touches(r, j) {
      assert r[j] == l[j] && !Touches(l, j);
    }
  }

  /** On a sorted list one pass leaves a sorted list in which no hole touches the next. */
  lemma {:induction false} MergeSorted(l: seq<Span>, i: nat)
    requires i <= |l| && Sorted(l) && Coalesced(l, i)
    ensures Sorted(MergeFrom(l, i)) && Coalesced(MergeFrom(l, i), |MergeFrom(l, i)|)
    decreases |l| - i
  {
    hide Join, Touches, Sorted;
    if i < |l| {
      var (l', i') := AfterPrev(l, i);
      if i > 0 && Touches(l, i - 1) { JoinSorted(l, i - 1); }
      assert Sorted(l') && Coalesced(l', i' + 1);
      if i' + 1 < |l'| && Touches(l', i') { JoinSorted(l', i'); }
      MergeSorted(AfterNext(l', i'), i' + 1);
    }
  }

  lemma {:induction false} NoTouchFromNeighbours(l: seq<Span>)
    requires Sorted(l) && AllApart(l) && AllProper(l)
    requires Coalesced(l, |l|)
    ensures NoneTouch(l)
  {
    forall i, j | 0 <= i < |l| && 0 <= j < |l| ensures End(l[i]) != l[j].base {
      if i < j {
        assert Apart(l[i], l[i + 1]);
        assert !Touches(l, i);
        assert l[i].base < l[i + 1].base;
        assert i + 1 < j ==> l[i + 1].base < l[j].base;
      } else if j < i {
        assert l[j].base < l[i].base;
      }
    }
  }

  /** Coalescing is complete on a sorted list. */
  lemma {:induction false} MergeCoalesces(l: seq<Span>)
    requires Sorted(l) && AllProper(l) && forall a: nat :: Cover(l, a) <= 1
    ensures Sorted(Merge(l)) && NoneTouch(Merge(l))
  {
    MergeSorted(l, 0);
    MergeProper(l, 0);
    forall a: nat ensures Cover(Merge(l), a) <= 1 { MergeCovers(l, 0, a); }
    ApartFromCount(Merge(l));
    NoTouchFromNeighbours(Merge(l));
  }
}
