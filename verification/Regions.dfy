/** The state of an address space as values: its regions, what they own and what they map. */
module Regions {
  import opened Bits
  import opened FrameAllocation
  import opened PageTree
  import opened Machines
  import opened Spans
  import opened Binding
  import opened Mappings
  import opened Copying

  // ----- permissions

  /** Conversion of an unsigned 64-bit value to int and back. */
  function Trunc32(x: nat): nat {
    x % 0x1_0000_0000
  }

  /** vmm_arch_to_vmm_flags; the result is an int, so the no-execute bit (bit 63) is cut off. */
  function VmmFlags(perms: nat, cache: nat): nat {
    var a := if And(perms, 2) != 0 then FLAG_WRITE else 0;
    var b := if And(perms, 8) != 0 then Or(a, FLAG_USER) else a;
    var c := if And(perms, 4) == 0 then Trunc32(Or(b, FLAG_NX)) else b;
    var d := if And(cache, 1) != 0 then Or(c, FLAG_PAT0) else c;
    var e := if And(cache, 2) != 0 then Or(d, FLAG_PAT1) else d;
    if And(cache, 4) != 0 then Or(e, FLAG_PAT2) else e
  }

  lemma {:induction false} OrCommutes(a: nat, b: nat)
    ensures Or(a, b) == Or(b, a)
  {
    if a > 0 && b > 0 { OrCommutes(a / 2, b / 2); }
  }

  lemma {:induction false} OrNX(b: nat)
    requires b < 0x1000
    ensures Trunc32(Or(b, FLAG_NX)) == b
  {
    hide Or, Shl, Pow2;
    Powers();
    Pow2Add(12, 51);
    ShlIsMul(1, 63);
    OrDisjoint(1, b, 63);
    OrCommutes(b, FLAG_NX);
  }

  lemma {:induction false} OrSmall(a: nat, b: nat)
    requires a < 0x1000 && b < 0x1000
    ensures Or(a, b) < 0x1000
  {
    hide Or, Pow2;
    Powers();
    OrBelow(a, b, 12);
  }

  /** No permissions ever yield a no-execute entry, whatever the execute permission says. */
  lemma {:induction false} NoExecuteIsLost(perms: nat, cache: nat)
    ensures VmmFlags(perms, cache) < 0x1000
    ensures And(perms, 4) == 0 ==> forall more :: And(more, 2) == And(perms, 2) && And(more, 8) == And(perms, 8) ==>
              VmmFlags(more, cache) == VmmFlags(perms, cache)
  {
    hide Or, And, Trunc32;
    var a := if And(perms, 2) != 0 then FLAG_WRITE else 0;
    var b := if And(perms, 8) != 0 then Or(a, FLAG_USER) else a;
    OrSmall(a, FLAG_USER);
    OrNX(b);
    OrSmall(b, FLAG_PAT0);
    var d := if And(cache, 1) != 0 then Or(b, FLAG_PAT0) else b;
    OrSmall(d, FLAG_PAT1);
    var e := if And(cache, 2) != 0 then Or(d, FLAG_PAT1) else d;
    OrSmall(e, FLAG_PAT2);
  }

  // ----- regions

  datatype Region = Region(span: Span, pages: seq<BackingPage>, perms: nat, cache: nat)

  function First(r: Region): nat {
    r.span.base / 0x1000
  }

  /** Page p of the address space belongs to r and has a frame. */
  predicate Held(r: Region, p: nat) {
    First(r) <= p < First(r) + r.span.size && |r.pages| == r.span.size && r.pages[p - First(r)].backed
  }

  function EntryFor(r: Region, p: nat): nat
    requires Held(r, p)
  {
    MakeEntry(Wrap64(r.pages[p - First(r)].ptr), VmmFlags(r.perms, r.cache))
  }

  /** A page that was reserved or mapped; unbacked pages carry no pointer, owned ones an aligned one. */
  predicate PageOk(p: BackingPage) {
    && (p.backed || p.reserved) && p.ptr < TWO64
    && (!p.backed ==> p.ptr == 0)
    && (p.backed && p.reserved ==> p.ptr % 0x1000 == 0)
  }

  predicate RegionOk(r: Region) {
    |r.pages| == r.span.size && Proper(r.span) && (forall i :: 0 <= i < |r.pages| ==> PageOk(r.pages[i])) && OneKind(r)
  }

  /** The pages of a region are all reserved, or all pointed at frames, one each. */
  predicate OneKind(r: Region) {
    AllReserved(r) || AllDirect(r)
  }

  predicate AllReserved(r: Region) {
    forall i :: 0 <= i < |r.pages| ==> r.pages[i].reserved
  }

  predicate AllDirect(r: Region) {
    && (forall i :: 0 <= i < |r.pages| ==> r.pages[i].backed && !r.pages[i].reserved)
    && (forall i, j :: 0 <= i < j < |r.pages| ==> FrameAt(r, i) != FrameAt(r, j))
  }

  ghost function SpansOf(rs: seq<Region>): (l: seq<Span>)
    ensures |l| == |rs| && forall i :: 0 <= i < |rs| ==> l[i] == rs[i].span
  {
    if rs == [] then [] else SpansOf(rs[..|rs| - 1]) + [rs[|rs| - 1].span]
  }

  /** The page map of a context is exactly what the regions hold. */
  ghost predicate Agree(rs: seq<Region>, x: map<nat, nat>) {
    && (forall r, p :: r in rs && Held(r, p) ==> p in x && x[p] == EntryFor(r, p))
    && (forall p :: p in x ==> exists r :: r in rs && Held(r, p))
  }

  /** Page i of r has a frame that r must give back. */
  predicate Owns(r: Region, i: nat) {
    i < |r.pages| && r.pages[i].backed && r.pages[i].reserved
  }

  function FrameAt(r: Region, i: nat): nat
    requires i < |r.pages|
  {
    Frame(r.pages[i])
  }

  /** own is the set of frames behind the regions' reserved pages, and each is behind one page of one region. */
  ghost predicate Owned(rs: seq<Region>, own: set<nat>) {
    && (forall r, i :: r in rs && Owns(r, i) ==> FrameAt(r, i) in own)
    && (forall r, i, s, j ::
       r in rs && s in rs && Owns(r, i) && Owns(s, j) && FrameAt(r, i) == FrameAt(s, j) ==> r == s && i == j)
    && (forall f :: f in own ==> exists r, i :: r in rs && Owns(r, i) && FrameAt(r, i) == f)
  }

  /** The invariant of an address space. */
  ghost predicate SpaceOk(holes: seq<Span>, rs: seq<Region>, x: map<nat, nat>, own: set<nat>) {
    && LayoutOk(holes, SpansOf(rs)) && (forall r :: r in rs ==> RegionOk(r))
    && Agree(rs, x) && Owned(rs, own)
  }

  /** No page is held by two regions. */
  ghost predicate Separate(rs: seq<Region>) {
    forall r, s, p :: r in rs && s in rs && Held(r, p) && InRange(s, p) ==> r == s
  }

  predicate InRange(r: Region, p: nat) {
    First(r) <= p < First(r) + r.span.size
  }

  lemma {:induction false} SpacesSeparate(holes: seq<Span>, rs: seq<Region>)
    requires LayoutOk(holes, SpansOf(rs)) && forall r :: r in rs ==> RegionOk(r)
    ensures Separate(rs) && AllApart(SpansOf(rs))
    ensures forall r :: r in rs ==> First(r) + r.span.size <= USER_PAGES
  {
    hide Cover;
    TiledApart(holes, SpansOf(rs));
    forall r, s, p | r in rs && s in rs && Held(r, p) && InRange(s, p) ensures r == s {
      var i :| 0 <= i < |rs| && rs[i] == r;
      var j :| 0 <= j < |rs| && rs[j] == s;
      assert SpansOf(rs)[i] == r.span && SpansOf(rs)[j] == s.span;
    }
    forall r | r in rs ensures First(r) + r.span.size <= USER_PAGES {
      var i :| 0 <= i < |rs| && rs[i] == r;
      assert End(SpansOf(rs)[i]) <= USER_END;
    }
  }

  // ----- the pages of one region

  /** What map_region maps. */
  ghost function PagesMap(r: Region): map<nat, nat> {
    PagesPart(r, r.span.size)
  }

  ghost function PagesPart(r: Region, n: nat): map<nat, nat> {
    map p: nat | p in Range(First(r), n) && Held(r, p) :: EntryFor(r, p)
  }

  /** The pages unmap_region unmaps. */
  ghost function PagesSet(r: Region): set<nat> {
    SetPart(r, r.span.size)
  }

  ghost function SetPart(r: Region, n: nat): set<nat> {
    set p: nat | p in Range(First(r), n) && Held(r, p)
  }

  /** The flat maps after the first n pages of a region of a context are mapped, or unmapped. */
  ghost function MapPart(xlat: map<nat, map<nat, nat>>, root: nat, r: Region, n: nat): (x: map<nat, map<nat, nat>>)
    requires root in xlat
    ensures x.Keys == xlat.Keys && x[root] == xlat[root] + PagesPart(r, n)
    ensures forall o :: o in xlat && o != root ==> x[o] == xlat[o]
  {
    xlat[root := xlat[root] + PagesPart(r, n)]
  }

  ghost function UnmapPart(xlat: map<nat, map<nat, nat>>, root: nat, r: Region, n: nat): (x: map<nat, map<nat, nat>>)
    requires root in xlat
    ensures x.Keys == xlat.Keys && x[root] == xlat[root] - SetPart(r, n)
    ensures forall o :: o in xlat && o != root ==> x[o] == xlat[o]
  {
    xlat[root := xlat[root] - SetPart(r, n)]
  }

  lemma {:induction false} MapPartStart(xlat: map<nat, map<nat, nat>>, root: nat, r: Region)
    requires root in xlat
    ensures MapPart(xlat, root, r, 0) == xlat && UnmapPart(xlat, root, r, 0) == xlat
  {
    hide EntryFor;
    assert xlat[root] + PagesPart(r, 0) == xlat[root];
    assert xlat[root] - SetPart(r, 0) == xlat[root];
  }

  lemma {:induction false} PartSnoc(r: Region, i: nat)
    requires |r.pages| == r.span.size && i < r.span.size
    ensures Held(r, First(r) + i) == r.pages[i].backed
    ensures PagesPart(r, i + 1) == if r.pages[i].backed then PagesPart(r, i)
            + map[First(r) + i := EntryFor(r, First(r) + i)] else PagesPart(r, i)
    ensures SetPart(r, i + 1) == if r.pages[i].backed then SetPart(r, i) + {First(r) + i} else SetPart(r, i)
  {
    hide Range, MakeEntry, VmmFlags;
    assert Held(r, First(r) + i) == r.pages[i].backed;
  }

  lemma {:induction false} MapPartGrows(xlat: map<nat, map<nat, nat>>, root: nat, r: Region, i: nat)
    requires root in xlat && |r.pages| == r.span.size && i < r.span.size
    ensures MapPart(xlat, root, r, i + 1)
         == if r.pages[i].backed then Mapped(MapPart(xlat, root, r, i), root, First(r) + i,
           MakeEntry(Wrap64(r.pages[i].ptr), VmmFlags(r.perms, r.cache)))
            else MapPart(xlat, root, r, i)
  {
    hide PagesPart, MakeEntry, VmmFlags, Wrap64, Mapped, MapPart;
    PartSnoc(r, i);
    PartAdds(xlat, root, r, i);
    assert r.pages[i].backed ==>
           EntryFor(r, First(r) + i) == MakeEntry(Wrap64(r.pages[i].ptr), VmmFlags(r.perms, r.cache));
  }

  lemma {:induction false} PartAdds(xlat: map<nat, map<nat, nat>>, root: nat, r: Region, i: nat)
    requires root in xlat
    ensures PagesPart(r, i + 1) == PagesPart(r, i) ==> MapPart(xlat, root, r, i + 1) == MapPart(xlat, root, r, i)
    ensures forall p: nat, e: nat :: PagesPart(r, i + 1) == PagesPart(r, i) + map[p := e] ==>
              MapPart(xlat, root, r, i + 1) == Mapped(MapPart(xlat, root, r, i), root, p, e)
  {
    hide PagesPart, Range;
    forall p: nat, e: nat | PagesPart(r, i + 1) == PagesPart(r, i) + map[p := e]
      ensures MapPart(xlat, root, r, i + 1) == Mapped(MapPart(xlat, root, r, i), root, p, e)
    {
      AddTwice(xlat, root, PagesPart(r, i), map[p := e]);
    }
  }

  lemma {:induction false} UnmapPartGrows(xlat: map<nat, map<nat, nat>>, root: nat, r: Region, i: nat)
    requires root in xlat && |r.pages| == r.span.size && i < r.span.size
    ensures UnmapPart(xlat, root, r, i + 1)
         == if r.pages[i].backed then Unmapped(UnmapPart(xlat, root, r, i), root, First(r) + i)
           else UnmapPart(xlat, root, r, i)
    ensures r.pages[i].backed && First(r) + i in xlat[root] ==> First(r) + i in UnmapPart(xlat, root, r, i)[root]
  {
    hide SetPart;
    PartSnoc(r, i);
    NotInPart(r, i);
    var cut := xlat[root] - SetPart(r, i);
    if r.pages[i].backed { CutTwice(xlat[root], SetPart(r, i), {First(r) + i}); }
    assert UnmapPart(xlat, root, r, i)[root] == cut;
  }

  lemma {:induction false} NotInPart(r: Region, i: nat)
    ensures First(r) + i !in SetPart(r, i)
  {}

  /** How many of the first n pages of r are backed but not yet mapped in x. */
  ghost function NewPages(r: Region, x: map<nat, nat>, n: nat): nat
    requires n <= |r.pages|
  {
    if n == 0 then 0
    else NewPages(r, x, n - 1) + if r.pages[n - 1].backed && First(r) + n - 1 !in x then 1 else 0
  }

  /** How many pages of r are backed but not yet mapped in x. */
  ghost function NewIn(r: Region, x: map<nat, nat>): nat {
    NewPages(r, x, |r.pages|)
  }

  // ----- a new region

  lemma {:induction false} InsertAgree(rs: seq<Region>, x: map<nat, nat>, j: nat, r: Region)
    requires Agree(rs, x) && j <= |rs|
    requires forall s, p :: s in rs && Held(s, p) ==> !InRange(r, p)
    ensures Agree(rs[..j] + [r] + rs[j..], x + PagesMap(r))
  {
    hide EntryFor, Range;
    var rs' := rs[..j] + [r] + rs[j..];
    assert forall s :: s in rs' <==> s == r || s in rs by { assert rs == rs[..j] + rs[j..]; }
    var x' := x + PagesMap(r);
    forall p | p in x' ensures exists s :: s in rs' && Held(s, p) {
      if p in PagesMap(r) {
        assert r in rs' && Held(r, p);
      } else {
        var s :| s in rs && Held(s, p);
        assert s in rs';
      }
    }
  }

  lemma {:induction false} InsertOwned(rs: seq<Region>, own: set<nat>, j: nat, r: Region)
    requires Owned(rs, own) && j <= |rs| && forall i: nat :: !Owns(r, i)
    ensures Owned(rs[..j] + [r] + rs[j..], own)
  {
    var rs' := rs[..j] + [r] + rs[j..];
    assert forall s :: s in rs' <==> s == r || s in rs by { assert rs == rs[..j] + rs[j..]; }
    forall f | f in own ensures exists s, i :: s in rs' && Owns(s, i) && FrameAt(s, i) == f {
      var s, i :| s in rs && Owns(s, i) && FrameAt(s, i) == f;
      assert s in rs';
    }
  }

  // ----- a region destroyed

  /** The frames that go back when a region is deleted. */
  ghost function OwnedFrames(r: Region): (s: set<nat>)
    ensures forall f :: f in s <==> exists i: nat :: Owns(r, i) && FrameAt(r, i) == f
  {
    var s := ReturnedFrames(r.pages, |r.pages|);
    assert forall i: nat ::
           Owns(r, i) ==> i < |r.pages| && Returnable(r.pages[i]) && FrameAt(r, i) == Frame(r.pages[i]);
    assert forall i: nat ::
           i < |r.pages| && Returnable(r.pages[i]) ==> Owns(r, i) && FrameAt(r, i) == Frame(r.pages[i]);
    s
  }

  ghost predicate Without(rs: seq<Region>, k: nat, rs': seq<Region>)
  {
    k < |rs| && rs' == rs[..k] + rs[k + 1..]
  }

  lemma {:induction false} WithoutMembers(rs: seq<Region>, k: nat, rs': seq<Region>)
    requires Without(rs, k, rs') && Separate(rs) && (forall r :: r in rs ==> RegionOk(r)) && AllApart(SpansOf(rs))
    ensures forall s :: s in rs' <==> s in rs && s != rs[k]
  {
    assert rs == rs[..k] + [rs[k]] + rs[k + 1..];
    forall i | 0 <= i < |rs| && i != k ensures rs[i] != rs[k] {
      assert RegionOk(rs[i]);
      if i < k { assert Apart(SpansOf(rs)[i], SpansOf(rs)[k]); } else { assert Apart(SpansOf(rs)[k], SpansOf(rs)[i]); }
    }
  }

  lemma {:induction false} RemoveAgree(rs: seq<Region>, x: map<nat, nat>, r: Region, rs': seq<Region>)
    requires Agree(rs, x) && Separate(rs) && r in rs
    requires forall s :: s in rs' <==> s in rs && s != r
    ensures Agree(rs', x - PagesSet(r))
  {
    hide EntryFor, Range;
    var x' := x - PagesSet(r);
    forall s, p | s in rs' && Held(s, p) ensures p in x' && x'[p] == EntryFor(s, p) {
      assert !InRange(r, p);
    }
    forall p | p in x' ensures exists s :: s in rs' && Held(s, p) {
      var s :| s in rs && Held(s, p);
      assert s != r;
    }
  }

  lemma {:induction false} RemoveOwned(rs: seq<Region>, own: set<nat>, r: Region, rs': seq<Region>)
    requires Owned(rs, own) && r in rs
    requires forall s :: s in rs' <==> s in rs && s != r
    ensures Owned(rs', own - OwnedFrames(r)) && OwnedFrames(r) <= own
  {
    forall f | f in own - OwnedFrames(r) ensures exists s, i :: s in rs' && Owns(s, i) && FrameAt(s, i) == f {
      var s, i :| s in rs && Owns(s, i) && FrameAt(s, i) == f;
      assert s != r;
    }
  }

  // ----- a region whose pages gained frames

  lemma {:induction false} UpdateMembers(rs: seq<Region>, k: nat, r': Region)
    requires k < |rs| && Separate(rs) && (forall r :: r in rs ==> RegionOk(r)) && AllApart(SpansOf(rs))
    ensures forall s :: s in rs[k := r'] <==> s == r' || (s in rs && s != rs[k])
  {
    var rs' := rs[..k] + rs[k + 1..];
    WithoutMembers(rs, k, rs');
    var after := rs[..k] + [r'] + rs[k + 1..];
    assert rs[k := r'] == after;
    assert forall s :: s in after <==> s in rs[..k] || s == r' || s in rs[k + 1..];
    assert forall s :: s in rs' <==> s in rs[..k] || s in rs[k + 1..];
  }

  /** r with other pages. */
  function WithPages(r: Region, pages: seq<BackingPage>): Region {
    r.(pages := pages)
  }

  lemma {:induction false} GrowAgree(rs: seq<Region>, x: map<nat, nat>, k: nat, pages: seq<BackingPage>, lent: set<nat>,
                                     lent': set<nat>)
    requires k < |rs| && Agree(rs, x) && Separate(rs) && RegionOk(rs[k]) && Grown(rs[k].pages, pages, lent, lent')
    requires forall s ::
             s in rs[k := WithPages(rs[k], pages)] <==> s == WithPages(rs[k], pages) || (s in rs && s != rs[k])
    ensures Agree(rs[k := WithPages(rs[k], pages)], x + PagesMap(WithPages(rs[k], pages)))
  {
    hide Range, MakeEntry, VmmFlags;
    var r, r' := rs[k], WithPages(rs[k], pages);
    var rs' := rs[k := r'];
    var m := PagesMap(r');
    var x' := x + m;
    GrowHeld(r, pages, lent, lent');
    forall s, p | s in rs' && Held(s, p) ensures p in x' && x'[p] == EntryFor(s, p) {
      if s != r' {
        assert !InRange(r, p);
        assert p !in m;
      }
    }
    forall p | p in x' ensures exists s :: s in rs' && Held(s, p) {
      if p in m {
        assert r' in rs' && Held(r', p);
      } else {
        var s :| s in rs && Held(s, p);
        assert s in rs';
      }
    }
  }

  lemma {:induction false} GrowHeld(r: Region, pages: seq<BackingPage>, lent: set<nat>, lent': set<nat>)
    requires RegionOk(r) && Grown(r.pages, pages, lent, lent')
    ensures forall p: nat :: Held(r, p) ==> Held(WithPages(r, pages), p) && p in PagesMap(WithPages(r, pages))
  {
    hide MakeEntry, VmmFlags;
    forall p: nat | Held(r, p) ensures Held(WithPages(r, pages), p) {
      assert !Gained(r.pages, pages, p - First(r));
    }
  }

  lemma {:induction false} GrowOwned(rs: seq<Region>, own: set<nat>, k: nat, pages: seq<BackingPage>, lent: set<nat>,
                                     lent': set<nat>)
    requires k < |rs| && Owned(rs, own) && own <= lent && Grown(rs[k].pages, pages, lent, lent')
    requires forall s ::
             s in rs[k := WithPages(rs[k], pages)] <==> s == WithPages(rs[k], pages) || (s in rs && s != rs[k])
    ensures Owned(rs[k := WithPages(rs[k], pages)], own + (lent' - lent))
  {
    var r, r' := rs[k], WithPages(rs[k], pages);
    var rs' := rs[k := r'];
    // a page of r' is an old page of r or a page that gained a frame
    forall i: nat | Owns(r', i)
      ensures if Gained(r.pages, pages, i) then FrameAt(r', i) in lent' - lent
              else Owns(r, i) && FrameAt(r, i) == FrameAt(r', i)
    {}
    forall f | f in own + (lent' - lent) ensures exists s, i :: s in rs' && Owns(s, i) && FrameAt(s, i) == f {
      if f in own {
        var s, i :| s in rs && Owns(s, i) && FrameAt(s, i) == f;
        if s == r {
          assert !Gained(r.pages, pages, i);
          assert r' in rs' && Owns(r', i) && FrameAt(r', i) == f;
        } else {
          assert s in rs';
        }
      } else {
        var i :| 0 <= i < |r.pages| && Gained(r.pages, pages, i) && Frame(pages[i]) == f;
        assert r' in rs' && Owns(r', i) && FrameAt(r', i) == f;
      }
    }
    forall s, i, t, j | s in rs' && t in rs' && Owns(s, i) && Owns(t, j) && FrameAt(s, i) == FrameAt(t, j)
      ensures s == t && i == j
    {
      GrowOnce(rs, own, k, pages, lent, lent', s, i, t, j);
    }
    forall s, i | s in rs' && Owns(s, i) ensures FrameAt(s, i) in own + (lent' - lent) {
      if s != r' { assert s in rs; }
    }
  }

  lemma {:induction false} GrowOnce(rs: seq<Region>, own: set<nat>, k: nat, pages: seq<BackingPage>, lent: set<nat>,
                                    lent': set<nat>,
                 s: Region, i: nat, t: Region, j: nat)
    requires k < |rs| && Owned(rs, own) && own <= lent && Grown(rs[k].pages, pages, lent, lent')
    requires s == WithPages(rs[k], pages) || (s in rs && s != rs[k])
    requires t == WithPages(rs[k], pages) || (t in rs && t != rs[k])
    requires Owns(s, i) && Owns(t, j) && FrameAt(s, i) == FrameAt(t, j)
    ensures s == t && i == j
  {
    var r := rs[k];
    var r' := WithPages(r, pages);
    var s0 := if s == r' then r else s;
    var t0 := if t == r' then r else t;
    var sNew := s == r' && Gained(r.pages, pages, i);
    var tNew := t == r' && Gained(r.pages, pages, j);
    assert !sNew ==> Owns(s0, i) && FrameAt(s0, i) == FrameAt(s, i) && FrameAt(s0, i) in own;
    assert !tNew ==> Owns(t0, j) && FrameAt(t0, j) == FrameAt(t, j) && FrameAt(t0, j) in own;
  }

  // ----- the invariant through each kind of step

  ghost function InsertRegion(rs: seq<Region>, j: nat, r: Region): seq<Region>
    requires j <= |rs|
  {
    rs[..j] + [r] + rs[j..]
  }

  lemma {:induction false} SpansInsert(rs: seq<Region>, j: nat, r: Region)
    requires j <= |rs|
    ensures SpansOf(InsertRegion(rs, j, r)) == Insert(SpansOf(rs), j, r.span)
  {}

  lemma {:induction false} SpansUpdate(rs: seq<Region>, k: nat, r: Region)
    requires k < |rs| && r.span == rs[k].span
    ensures SpansOf(rs[k := r]) == SpansOf(rs)
  {}

  lemma {:induction false} SpansRemove(rs: seq<Region>, k: nat)
    requires k < |rs|
    ensures SpansOf(rs[..k] + rs[k + 1..]) == Remove(SpansOf(rs), k)
  {}

  /** A hole shrinks and a region that owns nothing yet takes its place. */
  lemma {:induction false} SpaceInsert(holes: seq<Span>, rs: seq<Region>, x: map<nat, nat>, own: set<nat>, k: nat,
                                       pieces: seq<Span>, j: nat, r: Region)
    requires SpaceOk(holes, rs, x, own) && k < |holes| && RegionOk(r) && AllProper(pieces)
    requires Splits(holes[k], pieces, r.span) && IsSucc(SpansOf(rs), r.span, j)
    requires forall i: nat :: !Owns(r, i)
    ensures SpaceOk(Replace(holes, k, pieces), InsertRegion(rs, j, r), x + PagesMap(r), own)
  {
    hide LayoutOk, Splits, Agree, Owned, PagesMap, Held;
    NewSpanApart(holes, SpansOf(rs), k, pieces, r.span);
    LayoutInsert(holes, SpansOf(rs), k, pieces, j, r.span);
    SpansInsert(rs, j, r);
    InsertOwned(rs, own, j, r);
    RegionApart(rs, r);
    InsertAgree(rs, x, j, r);
    assert forall s :: s in InsertRegion(rs, j, r) ==> s == r || s in rs;
  }

  lemma {:induction false} RegionApart(rs: seq<Region>, r: Region)
    requires (forall s :: s in rs ==> RegionOk(s)) && RegionOk(r)
    requires forall i :: 0 <= i < |rs| ==> Apart(SpansOf(rs)[i], r.span)
    ensures forall s, p :: s in rs && Held(s, p) ==> !InRange(r, p)
  {
    forall s, p | s in rs && Held(s, p) ensures !InRange(r, p) {
      var i :| 0 <= i < |rs| && rs[i] == s;
      assert Apart(SpansOf(rs)[i], r.span);
      assert s.span.base == First(s) * 0x1000 && r.span.base == First(r) * 0x1000;
    }
  }

  /** A region is unmapped and its pages become a hole again. */
  lemma {:induction false} SpaceRemove(holes: seq<Span>, rs: seq<Region>, x: map<nat, nat>, own: set<nat>, k: nat,
                                       h: nat)
    requires SpaceOk(holes, rs, x, own) && k < |rs| && h <= |holes|
    ensures var rs' := rs[..k] + rs[k + 1..];
            SpaceOk(Merge(PutHole(holes, rs[k].span, h)), rs', x - PagesSet(rs[k]), own - OwnedFrames(rs[k]))
            && OwnedFrames(rs[k]) <= own
  {
    hide LayoutOk, Agree, Owned, PagesSet, OwnedFrames, Held, Separate, Merge, PutHole;
    var rs' := rs[..k] + rs[k + 1..];
    SpacesSeparate(holes, rs);
    SpansRemove(rs, k);
    LayoutRemove(holes, SpansOf(rs), k, h);
    WithoutMembers(rs, k, rs');
    RemoveAgree(rs, x, rs[k], rs');
    RemoveOwned(rs, own, rs[k], rs');
  }

  /** Pages of a region gain frames, and the region is mapped again. */
  lemma {:induction false} SpaceGrow(holes: seq<Span>, rs: seq<Region>, x: map<nat, nat>, own: set<nat>,
                                     k: nat, pages: seq<BackingPage>, lent: set<nat>, lent': set<nat>)
    requires SpaceOk(holes, rs, x, own) && k < |rs| && own <= lent && Grown(rs[k].pages, pages, lent, lent')
    ensures var r' := WithPages(rs[k], pages);
            SpaceOk(holes, rs[k := r'], x + PagesMap(r'), own + (lent' - lent))
  {
    hide LayoutOk, Agree, Owned, PagesMap, Held, Separate;
    var r' := WithPages(rs[k], pages);
    SpacesSeparate(holes, rs);
    SpansUpdate(rs, k, r');
    UpdateMembers(rs, k, r');
    GrowAgree(rs, x, k, pages, lent, lent');
    GrowOwned(rs, own, k, pages, lent, lent');
    GrowOk(rs[k], pages, lent, lent');
  }

  lemma {:induction false} GrowOk(r: Region, pages: seq<BackingPage>, lent: set<nat>, lent': set<nat>)
    requires RegionOk(r) && Grown(r.pages, pages, lent, lent')
    ensures RegionOk(WithPages(r, pages))
  {
    forall i | 0 <= i < |pages| ensures PageOk(pages[i]) {
      assert PageOk(r.pages[i]);
      if !Gained(r.pages, pages, i) { assert pages[i] == r.pages[i]; }
    }
    GrowKind(r, pages, lent, lent');
  }

  lemma {:induction false} GrowKind(r: Region, pages: seq<BackingPage>, lent: set<nat>, lent': set<nat>)
    requires OneKind(r) && Grown(r.pages, pages, lent, lent')
    ensures OneKind(WithPages(r, pages))
  {
    if AllReserved(r) {
      forall i | 0 <= i < |pages| ensures pages[i].reserved { assert r.pages[i].reserved; }
    } else {
      forall i | 0 <= i < |pages|
        ensures pages[i] == r.pages[i]
      {
        assert r.pages[i].backed && !Gained(r.pages, pages, i);
      }
      assert pages == r.pages && WithPages(r, pages) == r;
    }
  }

  // ----- the bytes of a region

  /** Page i of r has a frame that r was only pointed at. */
  predicate Direct(r: Region, i: nat) {
    i < |r.pages| && r.pages[i].backed && !r.pages[i].reserved
  }

  /**
   * The byte a read at this offset gives, now or after the demand fault it causes: the byte in
   * the page's frame, and zero where the page has no frame yet or points behind memory.
   */
  function ByteAt(r: Region, ram: seq<Page>, off: nat): bv8 {
    var i := off / 0x1000;
    if i < |r.pages| && r.pages[i].backed && FrameAt(r, i) < |ram| then ram[FrameAt(r, i)][off % 0x1000] else 0
  }

  /** None of the frames r owns is in the set. */
  ghost predicate Clear(r: Region, free: set<nat>) {
    forall i: nat :: Owns(r, i) ==> FrameAt(r, i) !in free
  }

  /** Page i of r is pointed at one of the frames. */
  predicate Loose(r: Region, i: nat, frames: set<nat>) {
    Direct(r, i) && FrameAt(r, i) in frames
  }

  /** r' is pointed at the same frames as r. */
  ghost predicate SameDirect(r: Region, r': Region) {
    forall i: nat :: (Direct(r', i) <==> Direct(r, i)) && (Direct(r, i) ==> FrameAt(r', i) == FrameAt(r, i))
  }

  /** The region reads as it did, but for pages that are pointed at one of the frames. */
  ghost predicate Same(r: Region, ram: seq<Page>, r': Region, ram': seq<Page>, frames: set<nat>) {
    SameDirect(r, r')
      && forall off: nat :: !Loose(r, off / 0x1000, frames) ==> ByteAt(r, ram, off) == ByteAt(r', ram', off)
  }

  lemma {:induction false} BothSame(r0: Region, ram0: seq<Page>, r1: Region, ram1: seq<Page>, r2: Region,
                                    ram2: seq<Page>, frames: set<nat>, frames': set<nat>)
    requires Same(r0, ram0, r1, ram1, frames) && Same(r1, ram1, r2, ram2, frames') && frames' <= frames
    ensures Same(r0, ram0, r2, ram2, frames)
  {
    hide ByteAt, Direct;
    forall off: nat | !Loose(r0, off / 0x1000, frames) ensures ByteAt(r0, ram0, off) == ByteAt(r2, ram2, off) {
      assert !Loose(r1, off / 0x1000, frames');
    }
  }

  lemma {:induction false} SameMore(r: Region, ram: seq<Page>, r': Region, ram': seq<Page>, frames: set<nat>,
                                    more: set<nat>)
    requires Same(r, ram, r', ram', frames) && frames <= more
    ensures Same(r, ram, r', ram', more)
  {
    hide ByteAt, Direct;
    assert forall i: nat :: Loose(r, i, frames) ==> Loose(r, i, more);
  }

  /** For a region that is pointed at nothing there is no condition. */
  lemma {:induction false} ReservedSame(r: Region, ram: seq<Page>, r': Region, ram': seq<Page>, frames: set<nat>)
    requires Same(r, ram, r', ram', frames) && AllReserved(r)
    ensures forall off: nat :: ByteAt(r, ram, off) == ByteAt(r', ram', off)
  {
    hide ByteAt;
    forall off: nat ensures ByteAt(r, ram, off) == ByteAt(r', ram', off) { assert !Loose(r, off / 0x1000, frames); }
  }

  lemma {:induction false} OwnedClear(rs: seq<Region>, own: set<nat>, r: Region, free: set<nat>)
    requires Owned(rs, own) && r in rs && own !! free
    ensures Clear(r, free)
  {
    forall i: nat | Owns(r, i) ensures FrameAt(r, i) !in free { assert FrameAt(r, i) in own; }
  }

  lemma {:induction false} KeptByteAt(r: Region, ram: seq<Page>, ram': seq<Page>, free: set<nat>, off: nat)
    requires Clear(r, free) && !Loose(r, off / 0x1000, free) && SameOutside(ram, ram', free)
    ensures ByteAt(r, ram, off) == ByteAt(r, ram', off)
  {
    assert Owns(r, off / 0x1000) || Direct(r, off / 0x1000)
           || !(off / 0x1000 < |r.pages| && r.pages[off / 0x1000].backed);
  }

  lemma {:induction false} KeptBytes(r: Region, ram: seq<Page>, ram': seq<Page>, free: set<nat>)
    requires Clear(r, free) && SameOutside(ram, ram', free)
    ensures Same(r, ram, r, ram', free)
  {
    hide Clear, SameOutside, ByteAt, Loose;
    forall off: nat | !Loose(r, off / 0x1000, free)
      ensures ByteAt(r, ram, off) == ByteAt(r, ram', off)
    {
      KeptByteAt(r, ram, ram', free, off);
    }
  }

  lemma {:induction false} GrownDirect(r: Region, pages: seq<BackingPage>, lent: set<nat>, lent': set<nat>)
    requires Grown(r.pages, pages, lent, lent')
    ensures SameDirect(r, WithPages(r, pages))
  {
    var r' := WithPages(r, pages);
    forall i: nat ensures (Direct(r', i) <==> Direct(r, i)) && (Direct(r, i) ==> FrameAt(r', i) == FrameAt(r, i)) {
      if i < |pages| && !Gained(r.pages, pages, i) { assert pages[i] == r.pages[i]; }
    }
  }

  /** Backing a page does not change what is read from it. */
  lemma {:induction false} GrownByteAt(r: Region, pages: seq<BackingPage>, ram: seq<Page>, ram': seq<Page>,
                                       free: set<nat>, free': set<nat>, lent: set<nat>, lent': set<nat>, off: nat)
    requires RegionOk(r) && Grown(r.pages, pages, lent, lent') && Handed(ram, ram', free, free', lent, lent')
             && Clear(r, free)
    requires !Loose(r, off / 0x1000, free)
    ensures ByteAt(r, ram, off) == ByteAt(WithPages(r, pages), ram', off)
  {
    hide RegionOk;
    var i := off / 0x1000;
    if i < |pages| {
      if Gained(r.pages, pages, i) {
        assert Frame(pages[i]) in lent' - lent;
      } else {
        assert pages[i] == r.pages[i];
        assert pages[i].backed ==> Owns(r, i) || Direct(r, i);
      }
    }
  }

  lemma {:induction false} GrownBytes(r: Region, pages: seq<BackingPage>, ram: seq<Page>, ram': seq<Page>,
                                      free: set<nat>, free': set<nat>, lent: set<nat>, lent': set<nat>)
    requires RegionOk(r) && Grown(r.pages, pages, lent, lent') && Handed(ram, ram', free, free', lent, lent')
             && Clear(r, free)
    ensures Same(r, ram, WithPages(r, pages), ram', free)
  {
    hide RegionOk, Grown, Handed, Clear, ByteAt, Loose;
    GrownDirect(r, pages, lent, lent');
    forall off: nat | !Loose(r, off / 0x1000, free)
      ensures ByteAt(r, ram, off) == ByteAt(WithPages(r, pages), ram', off)
    {
      GrownByteAt(r, pages, ram, ram', free, free', lent, lent', off);
    }
  }

  /** The frames of a region that has grown are not spare. */
  lemma {:induction false} GrownClear(r: Region, pages: seq<BackingPage>, ram: seq<Page>, ram': seq<Page>,
                                      free: set<nat>, free': set<nat>, lent: set<nat>, lent': set<nat>)
    requires Grown(r.pages, pages, lent, lent') && Handed(ram, ram', free, free', lent, lent') && Clear(r, free)
    ensures Clear(WithPages(r, pages), free')
  {
    var r' := WithPages(r, pages);
    forall i: nat | Owns(r', i) ensures FrameAt(r', i) !in free' {
      if Gained(r.pages, pages, i) {
        assert Frame(pages[i]) in lent' - lent;
      } else {
        assert pages[i] == r.pages[i] && Owns(r, i);
      }
    }
  }

  // ----- copying into a region

  function PtrsOf(pages: seq<BackingPage>): (p: seq<nat>)
    ensures |p| == |pages| && forall i :: 0 <= i < |pages| ==> p[i] == pages[i].ptr
  {
    if pages == [] then [] else PtrsOf(pages[..|pages| - 1]) + [pages[|pages| - 1].ptr]
  }

  /** Every page a copy reaches has a frame. */
  ghost predicate CopyBacked(r: Region, offset: nat, n: nat) {
    forall i: nat :: i < |r.pages| && Reaches(offset, n, i) ==> r.pages[i].backed
  }

  /** The frames r owns are in memory, not low, and not in free. */
  ghost predicate GoodFrames(r: Region, len: nat, free: set<nat>) {
    forall i: nat :: Owns(r, i) ==> FIRST_FRAME <= FrameAt(r, i) < len && FrameAt(r, i) !in free
  }

  /** Each frame behind r is behind one page, and those a copy reaches are in memory and not in free. */
  ghost predicate CopyFrames(r: Region, offset: nat, n: nat, len: nat, free: set<nat>) {
    && GoodFrames(r, len, free)
    && (forall i: nat, j: nat ::
       i < |r.pages| && j < |r.pages| && r.pages[i].backed && r.pages[j].backed && FrameAt(r, i) == FrameAt(r, j) ==>
       i == j)
    && (forall i: nat :: Direct(r, i) && Reaches(offset, n, i) ==> FrameAt(r, i) < len && FrameAt(r, i) !in free)
  }

  /** The frames a copy into r is sent to that r is only pointed at. */
  ghost function Pointed(r: Region, offset: nat, n: nat): set<nat> {
    set i | 0 <= i < |r.pages| && Direct(r, i) && Reaches(offset, n, i) :: FrameAt(r, i)
  }

  /** The frames a copy into r is sent to; 0 stands for the pages without one. */
  ghost function ReachedFrames(r: Region, offset: nat, n: nat): set<nat> {
    set i | 0 <= i < |r.pages| && Reaches(offset, n, i) :: FrameAt(r, i)
  }

  lemma {:induction false} HitIsReached(r: Region, offset: nat, n: nat, f: nat)
    ensures Hit(Frames(PtrsOf(r.pages)), offset, n, f) <==> f in ReachedFrames(r, offset, n)
  {
    var fs := Frames(PtrsOf(r.pages));
    assert forall i :: 0 <= i < |r.pages| ==> fs[i] == FrameAt(r, i);
    if f in ReachedFrames(r, offset, n) {
      var i :| 0 <= i < |r.pages| && Reaches(offset, n, i) && FrameAt(r, i) == f;
      assert fs[i] == f;
    }
  }

  /** The place of the range is on a page of r without a frame. */
  predicate Misses(r: Region, at: nat) {
    at / 0x1000 < |r.pages| && !r.pages[at / 0x1000].backed
  }

  /**
   * A frame of r is hit by its own page only; frame 0 by the pages without a frame, and by one that
   * is pointed at it.
   */
  lemma {:induction false} LandsOnce(r: Region, offset: nat, n: nat, len: nat, free: set<nat>, at: nat)
    requires RegionOk(r) && CopyFrames(r, offset, n, len, free)
    ensures forall i: nat, o: nat :: i < |r.pages| && r.pages[i].backed ==>
              (Lands(Frames(PtrsOf(r.pages)), at, FrameAt(r, i), o) <==> at / 0x1000 == i && at % 0x1000 == o)
    ensures forall o: nat ::
            Lands(Frames(PtrsOf(r.pages)), at, 0, o) <==> (Misses(r, at) || AtZero(r, at)) && at % 0x1000 == o
  {
    hide Reaches;
    var fs, j := Frames(PtrsOf(r.pages)), at / 0x1000;
    if j < |r.pages| {
      assert fs[j] == FrameAt(r, j) && PageOk(r.pages[j]);
      assert r.pages[j].backed ==> Owns(r, j) || Direct(r, j);
    }
    forall i: nat, o: nat | i < |r.pages| && r.pages[i].backed
      ensures Lands(fs, at, FrameAt(r, i), o) <==> at / 0x1000 == i && at % 0x1000 == o
    {
      assert fs[i] == FrameAt(r, i);
      assert Owns(r, i) || AllDirect(r);
    }
  }

  /** The place of the range is on a page of r that is pointed at frame 0. */
  predicate AtZero(r: Region, at: nat) {
    Direct(r, at / 0x1000) && FrameAt(r, at / 0x1000) == 0
  }

  /** The byte at this place after a copy of data to the offset: data's where the page has a frame, else as before. */
  function LoadedAt(r: Region, b: bv8, offset: nat, data: seq<bv8>, off: nat): bv8 {
    if offset <= off < offset + |data| && off / 0x1000 < |r.pages|
       && r.pages[off / 0x1000].backed then data[off - offset] else b
  }

  /** After a copy the region reads as the data where its pages have frames, and as before elsewhere. */
  lemma {:induction false} LoadedBytes(r: Region, ram: seq<Page>, ram': seq<Page>, free: set<nat>, offset: nat,
                                       data: seq<bv8>)
    requires RegionOk(r) && CopyFrames(r, offset, |data|, |ram|, free)
    requires Written(ram, ram', free, Frames(PtrsOf(r.pages)), offset, data)
    ensures forall off: nat ::
            !Loose(r, off / 0x1000, free) ==>
            ByteAt(r, ram', off) == LoadedAt(r, ByteAt(r, ram, off), offset, data, off)
  {
    hide RegionOk, CopyFrames, Written, Loose, LoadedAt;
    forall off: nat | !Loose(r, off / 0x1000, free)
      ensures ByteAt(r, ram', off) == LoadedAt(r, ByteAt(r, ram, off), offset, data, off)
    {
      LoadedByte(r, ram, ram', free, offset, data, off);
    }
  }

  lemma {:induction false} LoadedByte(r: Region, ram: seq<Page>, ram': seq<Page>, free: set<nat>, offset: nat,
                                      data: seq<bv8>, off: nat)
    requires RegionOk(r) && CopyFrames(r, offset, |data|, |ram|, free) && !Loose(r, off / 0x1000, free)
    requires Written(ram, ram', free, Frames(PtrsOf(r.pages)), offset, data)
    ensures ByteAt(r, ram', off) == LoadedAt(r, ByteAt(r, ram, off), offset, data, off)
  {
    hide RegionOk, Lands, ByteAfter;
    var fs, i, o := Frames(PtrsOf(r.pages)), off / 0x1000, off % 0x1000;
    if i < |r.pages| && r.pages[i].backed {
      assert Owns(r, i) || Direct(r, i);
      var f := FrameAt(r, i);
      forall at: nat ensures Lands(fs, at, f, o) <==> at == off { LandsOnce(r, offset, |data|, |ram|, free, at); }
      if offset <= off < offset + |data| {
        ReachesByte(offset, |data|, off - offset);
        assert ram'[f][o] == ByteAfter(ram[f][o], fs, offset, data, f, o);
        AfterHit(ram[f][o], fs, offset, data, f, o, off - offset);
      } else if f < |ram| {
        assert ram'[f][o] == ByteAfter(ram[f][o], fs, offset, data, f, o);
        AfterMiss(ram[f][o], fs, offset, data, f, o);
      }
    }
  }

  /** Byte o of frame 0 after the copy: the last byte that fell on a page without a frame. */
  function SpillByte(b: bv8, r: Region, offset: nat, data: seq<bv8>, o: nat): bv8 {
    if data == [] then b
    else
      var n := |data| - 1;
      if Misses(r, offset + n) && (offset + n) % 0x1000 == o then data[n] else SpillByte(b, r, offset, data[..n], o)
  }

  /** Frame 0 takes in every byte that falls on a page without a frame. */
  ghost predicate Spilled(page: Page, page': Page, r: Region, offset: nat, data: seq<bv8>) {
    forall o :: 0 <= o < 0x1000 ==> page'[o] == SpillByte(page[o], r, offset, data, o)
  }

  lemma {:induction false} SpillIsAfter(b: bv8, r: Region, len: nat, free: set<nat>, offset: nat, n: nat,
                                        data: seq<bv8>, o: nat)
    requires RegionOk(r) && CopyFrames(r, offset, n, len, free) && 0 !in Pointed(r, offset, n) && |data| <= n
    ensures ByteAfter(b, Frames(PtrsOf(r.pages)), offset, data, 0, o) == SpillByte(b, r, offset, data, o)
  {
    hide Lands, Misses, RegionOk, CopyFrames, Pointed, AtZero;
    if data != [] {
      var at := offset + |data| - 1;
      LandsOnce(r, offset, n, len, free, at);
      NotAtZero(r, offset, n, at);
      SpillIsAfter(b, r, len, free, offset, n, data[..|data| - 1], o);
    }
  }

  lemma {:induction false} NotAtZero(r: Region, offset: nat, n: nat, at: nat)
    requires 0 !in Pointed(r, offset, n) && offset <= at < offset + n
    ensures !AtZero(r, at)
  {
    ReachesByte(offset, n, at - offset);
    assert forall i: nat :: Direct(r, i) && Reaches(offset, n, i) ==> FrameAt(r, i) in Pointed(r, offset, n);
  }

  lemma {:induction false} WrittenSpills(r: Region, ram: seq<Page>, ram': seq<Page>, free: set<nat>, offset: nat,
                                         data: seq<bv8>)
    requires RegionOk(r) && CopyFrames(r, offset, |data|, |ram|, free) && 0 < |ram| && 0 !in free
             && 0 !in Pointed(r, offset, |data|)
    requires Written(ram, ram', free, Frames(PtrsOf(r.pages)), offset, data)
    ensures Spilled(ram[0], ram'[0], r, offset, data)
  {
    hide RegionOk, ByteAfter, SpillByte, CopyFrames, Pointed;
    forall o | 0 <= o < 0x1000 ensures ram'[0][o] == SpillByte(ram[0][o], r, offset, data, o) {
      SpillIsAfter(ram[0][o], r, |ram|, free, offset, |data|, data, o);
    }
  }

  /** The last place of the range that falls on its byte of frame 0. */
  ghost predicate LastMiss(r: Region, offset: nat, n: nat, at: nat) {
    && offset <= at < offset + n && Misses(r, at)
    && forall later: nat :: at < later < offset + n && later % 0x1000 == at % 0x1000 ==> !Misses(r, later)
  }

  /** Frame 0 is left as it was exactly when the bytes that end up in it were there already. */
  lemma {:induction false} SpillHarmless(page: Page, page': Page, r: Region, offset: nat, data: seq<bv8>)
    requires Spilled(page, page', r, offset, data)
    ensures page' == page <==>
            forall at: nat :: LastMiss(r, offset, |data|, at) ==> page[at % 0x1000] == data[at - offset]
    ensures CopyBacked(r, offset, |data|) ==> page' == page
  {
    hide SpillByte, Misses;
    forall at: nat | LastMiss(r, offset, |data|, at) ensures page'[at % 0x1000] == data[at - offset] {
      SpillLast(page[at % 0x1000], r, offset, data, at);
    }
    forall o | 0 <= o < 0x1000
      ensures page'[o] == page[o] || exists at: nat :: LastMiss(r, offset, |data|, at) && at % 0x1000 == o
    {
      SpillOr(page[o], r, offset, data, o);
    }
    if CopyBacked(r, offset, |data|) {
      forall at: nat ensures !LastMiss(r, offset, |data|, at) { BackedNeverMisses(r, offset, |data|, at); }
    }
  }

  lemma {:induction false} BackedNeverMisses(r: Region, offset: nat, n: nat, at: nat)
    requires CopyBacked(r, offset, n)
    ensures !LastMiss(r, offset, n, at)
  {
    if offset <= at < offset + n { ReachesByte(offset, n, at - offset); }
  }

  lemma {:induction false} SpillLast(b: bv8, r: Region, offset: nat, data: seq<bv8>, at: nat)
    requires LastMiss(r, offset, |data|, at)
    ensures SpillByte(b, r, offset, data, at % 0x1000) == data[at - offset]
  {
    hide Misses;
    if at < offset + |data| - 1 { SpillLast(b, r, offset, data[..|data| - 1], at); }
  }

  lemma {:induction false} SpillOr(b: bv8, r: Region, offset: nat, data: seq<bv8>, o: nat)
    ensures SpillByte(b, r, offset, data, o) == b
            || exists at: nat :: LastMiss(r, offset, |data|, at) && at % 0x1000 == o
  {
    hide Misses;
    if data != [] {
      var n := |data| - 1;
      if Misses(r, offset + n) && (offset + n) % 0x1000 == o {
        assert LastMiss(r, offset, |data|, offset + n);
      } else {
        SpillOr(b, r, offset, data[..n], o);
        if at: nat :| LastMiss(r, offset, n, at) && at % 0x1000 == o {
          assert LastMiss(r, offset, |data|, at);
        }
      }
    }
  }

  /**
   * A copy into r leaves every other region alone that owns no frame it reaches, but for pages
   * that are pointed at one, even where it misses its mark. A copy to frames of its own reaches no owned frame.
   */
  lemma {:induction false} OtherBytes(rs: seq<Region>, own: set<nat>, r: Region, s: Region, ram: seq<Page>,
                                      ram': seq<Page>, free: set<nat>, offset: nat, data: seq<bv8>)
    requires Owned(rs, own) && r in rs && s in rs && r != s && RegionOk(r) && Clear(s, Pointed(r, offset, |data|))
    requires GoodFrames(s, |ram|, free) && Written(ram, ram', free, Frames(PtrsOf(r.pages)), offset, data)
    ensures Same(s, ram, s, ram', free + ReachedFrames(r, offset, |data|))
  {
    hide RegionOk, Written, Hit, ReachedFrames, PtrsOf, Pointed, Clear;
    forall off: nat | !Loose(s, off / 0x1000, free + ReachedFrames(r, offset, |data|))
      ensures ByteAt(s, ram, off) == ByteAt(s, ram', off)
    {
      var i := off / 0x1000;
      assert |ram'| == |ram| by { WrittenLength(ram, ram', free, Frames(PtrsOf(r.pages)), offset, data); }
      if i < |s.pages| && s.pages[i].backed && FrameAt(s, i) < |ram| {
        assert Owns(s, i) || Direct(s, i);
        HitIsReached(r, offset, |data|, FrameAt(s, i));
        if Owns(s, i) { NotReached(rs, own, r, s, i, offset, |data|); }
        WrittenElsewhere(ram, ram', free, Frames(PtrsOf(r.pages)), offset, data, FrameAt(s, i));
      }
    }
  }

  lemma {:induction false} WrittenLength(ram: seq<Page>, ram': seq<Page>, free: set<nat>, frames: seq<nat>, offset: nat,
                                         data: seq<bv8>)
    requires Written(ram, ram', free, frames, offset, data)
    ensures |ram'| == |ram|
  {}

  lemma {:induction false} NotReached(rs: seq<Region>, own: set<nat>, r: Region, s: Region, i: nat, offset: nat, n: nat)
    requires Owned(rs, own) && r in rs && s in rs && r != s && RegionOk(r) && Clear(s, Pointed(r, offset, n))
             && Owns(s, i) && FrameAt(s, i) > 0
    ensures FrameAt(s, i) !in ReachedFrames(r, offset, n)
  {
    forall j | 0 <= j < |r.pages| && Reaches(offset, n, j) ensures FrameAt(r, j) != FrameAt(s, i) {
      assert PageOk(r.pages[j]);
      assert r.pages[j].backed ==> Owns(r, j) || Direct(r, j);
      assert Direct(r, j) ==> FrameAt(r, j) in Pointed(r, offset, n);
    }
  }

  /** What a copy out of the region gives at this place: the region's byte, or frame 0's where the page has no frame. */
  function StoreByte(r: Region, ram: seq<Page>, at: nat): bv8
    requires 0 < |ram|
  {
    if Misses(r, at) then ram[0][at % 0x1000] else ByteAt(r, ram, at)
  }

  lemma {:induction false} StoredBytes(r: Region, ram: seq<Page>, offset: nat, data: seq<bv8>)
    requires RegionOk(r) && 0 < |ram| && Reads(ram, Frames(PtrsOf(r.pages)), offset, data)
    ensures forall k: nat :: k < |data| ==> data[k] == StoreByte(r, ram, offset + k)
    ensures CopyBacked(r, offset, |data|) ==> forall k: nat :: k < |data| ==> data[k] == ByteAt(r, ram, offset + k)
  {
    forall k: nat | k < |data|
      ensures data[k] == StoreByte(r, ram, offset + k)
              && (CopyBacked(r, offset, |data|) ==> data[k] == ByteAt(r, ram, offset + k))
    {
      ReachesByte(offset, |data|, k);
      var i := (offset + k) / 0x1000;
      var b := data[k];
      assert PageOk(r.pages[i]);
    }
  }
}
