/** address_space: holes, regions, and the agreement of the page tables with both. */
module AddressSpaces {
  import opened Bits
  import opened FrameAllocation
  import opened PageTree
  import opened Machines
  import opened Spans
  import opened Binding
  import opened Mappings
  import opened Copying
  import opened Regions

  // ----- regions as objects and as values

  function Value(r: MemoryMapping): Region
    reads r`pages, r`perms, r`cache
  {
    Region(Span(r.base, r.size), r.pages, r.perms, r.cache)
  }

  ghost function Snaps(rs: seq<MemoryMapping>): (s: seq<Region>)
    reads rs`pages, rs`perms, rs`cache
    ensures |s| == |rs| && forall i :: 0 <= i < |rs| ==> s[i] == Value(rs[i])
    decreases |rs|
  {
    if rs == [] then [] else Snaps(rs[..|rs| - 1]) + [Value(rs[|rs| - 1])]
  }

  /** The pages of the address space that belong to a region. */
  ghost predicate Fits(r: Region) {
    |r.pages| == r.span.size && r.span.base % 0x1000 == 0 && First(r) + r.span.size <= USER_PAGES
  }

  /**
   * map_region: every backed page is mapped with its pointer and the region's flags, and nothing
   * else changes. ok is false when a page table could not be allocated, which three free frames
   * for each page that is not mapped yet rule out.
   */
  method MapRegion(m: Machine, root: nat, region: MemoryMapping) returns (ok: bool)
    requires m.Valid() && root in m.xlat && Fits(Value(region))
    modifies region`mapped, m, m.alloc, m.alloc.words
    ensures |old(m.alloc.Free)| >= 3 * NewIn(Value(region), old(m.xlat)[root]) ==> ok
    ensures ok ==>
              && region.mapped && m.Valid() && m.lent == old(m.lent) && m.alloc.Free <= old(m.alloc.Free)
              && m.Spare() == old(m.Spare()) && SameOutside(old(m.ram), m.ram, m.Spare())
              && m.xlat == MapPart(old(m.xlat), root, Value(region), region.size)
              && |m.alloc.Free| + 3 * NewIn(Value(region), old(m.xlat)[root]) >= |old(m.alloc.Free)|
  {
    hide Machine.Valid, MakeEntry, VmmFlags, Mapped, WithRun, MapPart, PagesPart, MissingTables, SameOutside,
         Machine.Spare;
    ghost var r := Value(region);
    MapPartStart(m.xlat, root, r);
    RamSame(m.ram, m.Spare());
    var i := 0;
    while i < region.size
      invariant i <= region.size && Value(region) == r
      invariant m.Valid() && m.lent == old(m.lent) && m.alloc.Free <= old(m.alloc.Free)
      invariant m.Spare() == old(m.Spare()) && SameOutside(old(m.ram), m.ram, m.Spare())
      invariant m.xlat == MapPart(old(m.xlat), root, r, i)
      invariant |m.alloc.Free| + 3 * NewPages(r, old(m.xlat)[root], i) >= |old(m.alloc.Free)|
    {
      MapPartGrows(old(m.xlat), root, r, i);
      NewPagesGrows(r, old(m.xlat)[root], i, region.size);
      if region.pages[i].backed {
        if First(r) + i in old(m.xlat)[root] { m.MappedNeedsNoTable(root, First(r) + i); }
        PageOf(r, i);
        ghost var ram1 := m.ram;
        ok := m.MapPages(root, region.base + i * 0x1000, region.pages[i].ptr, 1, VmmFlags(region.perms, region.cache));
        if !ok { return; }
        OutsideTwice(old(m.ram), ram1, m.ram, m.Spare(), m.Spare());
      }
      i := i + 1;
    }
    region.mapped := true;
    ok := true;
  }

  lemma {:induction false} PageOf(r: Region, i: nat)
    requires r.span.base % 0x1000 == 0
    ensures (r.span.base + i * 0x1000) / 0x1000 == First(r) + i
  {}

  lemma {:induction false} NewPagesGrows(r: Region, x: map<nat, nat>, i: nat, n: nat)
    requires i < n <= |r.pages|
    ensures NewPages(r, x, i + 1) == NewPages(r, x, i) + if r.pages[i].backed && First(r) + i !in x then 1 else 0
    ensures NewPages(r, x, i + 1) <= NewPages(r, x, n)
    decreases n - i
  {
    if i + 1 < n { NewPagesGrows(r, x, i + 1, n); }
  }

  /** unmap_region: every backed page goes. */
  method UnmapRegion(m: Machine, root: nat, region: MemoryMapping)
    requires m.Valid() && root in m.xlat && Fits(Value(region)) && region.mapped
    requires forall p: nat :: Held(Value(region), p) ==> p in m.xlat[root]
    modifies region`mapped, m`tables, m`xlat
    ensures m.Valid() && !region.mapped && m.Spare() == old(m.Spare())
    ensures m.xlat == UnmapPart(old(m.xlat), root, Value(region), region.size)
  {
    hide Machine.Valid, Unmapped, UnmapPart, SetPart;
    ghost var r := Value(region);
    MapPartStart(m.xlat, root, r);
    var i := 0;
    while i < region.size
      invariant i <= region.size && Value(region) == r
      invariant m.Valid() && m.Spare() == old(m.Spare()) && m.xlat == UnmapPart(old(m.xlat), root, r, i)
    {
      UnmapPartGrows(old(m.xlat), root, r, i);
      if region.pages[i].backed {
        PageOf(r, i);
        assert Held(r, First(r) + i);
        UnmapOne(m, root, region.base + i * 0x1000);
      }
      i := i + 1;
    }
    region.mapped := false;
  }

  /** The ranges of the regions; they never change. */
  function SpanList(rs: seq<MemoryMapping>): (l: seq<Span>)
    ensures |l| == |rs| && forall i :: 0 <= i < |rs| ==> l[i] == Span(rs[i].base, rs[i].size)
    decreases |rs|
  {
    if rs == [] then [] else SpanList(rs[..|rs| - 1]) + [Span(rs[|rs| - 1].base, rs[|rs| - 1].size)]
  }

  lemma {:induction false} SnapSpans(rs: seq<MemoryMapping>)
    ensures SpansOf(Snaps(rs)) == SpanList(rs)
  {}

  lemma {:induction false} SnapsInsert(rs: seq<MemoryMapping>, j: nat, r: MemoryMapping)
    requires j <= |rs|
    ensures Snaps(rs[..j] + [r] + rs[j..]) == InsertRegion(Snaps(rs), j, Value(r))
  {}

  ghost predicate AllDifferent(rs: seq<MemoryMapping>) {
    forall i, j :: 0 <= i < j < |rs| ==> rs[i] != rs[j]
  }

  ghost predicate AllMapped(rs: seq<MemoryMapping>)
    reads rs`mapped
  {
    forall i :: 0 <= i < |rs| ==> rs[i].mapped
  }

  lemma {:induction false} InsertMapped(rs: seq<MemoryMapping>, j: nat, r: MemoryMapping)
    requires j <= |rs| && AllDifferent(rs) && AllMapped(rs) && r !in rs && r.mapped
    ensures AllDifferent(rs[..j] + [r] + rs[j..]) && AllMapped(rs[..j] + [r] + rs[j..])
  {}

  lemma {:induction false} RemoveMapped(rs: seq<MemoryMapping>, k: nat)
    requires k < |rs| && AllDifferent(rs) && AllMapped(rs)
    ensures AllDifferent(rs[..k] + rs[k + 1..]) && rs[k] !in rs[..k] + rs[k + 1..]
    ensures AllMapped(rs[..k] + rs[k + 1..]) && rs[k].mapped
  {}

  /**
   * The machine as one owner of frames sees it: contexts, frames lent out, own frames, free ones,
   * memory. The spare frames are the free ones and the page tables; their bytes may change under
   * anybody's call.
   */
  datatype Shot = Shot(xlat: map<nat, map<nat, nat>>, lent: set<nat>, own: set<nat>, free: set<nat>, spare: set<nat>,
    ram: seq<Page>)

  /** An address space as a value: its holes, its regions, and the machine. */
  datatype View = View(holes: seq<Span>, regions: seq<Region>, shot: Shot)

  /**
   * Everything of the machine that the owner of context root does not own is as it was: the other
   * contexts, the frames of others, and every frame, managed or not, that was neither free nor a
   * page table nor its own, but for the frames in spill.
   */
  ghost predicate Isolated(root: nat, a: Shot, b: Shot, spill: set<nat>) {
    && b.xlat.Keys == a.xlat.Keys && (forall r :: r in a.xlat && r != root ==> b.xlat[r] == a.xlat[r])
    && b.lent - b.own == a.lent - a.own && b.spare + b.own <= a.spare + a.own
    && SameOutside(a.ram, b.ram, a.spare + a.own + spill)
  }

  lemma {:induction false} NothingIsolated(root: nat, a: Shot, spill: set<nat>)
    ensures Isolated(root, a, a, spill)
  {}

  lemma {:induction false} IsolatedTwice(root: nat, a: Shot, b: Shot, c: Shot, spill: set<nat>)
    requires Isolated(root, a, b, spill) && Isolated(root, b, c, spill)
    ensures Isolated(root, a, c, spill)
  {
    forall f | 0 <= f < |a.ram| && f !in a.spare + a.own + spill
      ensures c.ram[f] == a.ram[f]
    {
      assert f !in b.spare + b.own;
    }
  }

  lemma {:induction false} IsolatedMore(root: nat, a: Shot, b: Shot, spill: set<nat>, more: set<nat>)
    requires Isolated(root, a, b, spill) && spill <= more
    ensures Isolated(root, a, b, more)
  {}

  lemma {:induction false} IsolatedMap(root: nat, a: Shot, b: Shot, r: Region, n: nat)
    requires root in a.xlat && SameOutside(a.ram, b.ram, a.spare) && b.spare == a.spare && b.lent == a.lent
             && b.own == a.own
    requires b.xlat == MapPart(a.xlat, root, r, n)
    ensures Isolated(root, a, b, {})
  {
    hide PagesPart;
  }

  function ReservedPages(n: nat): (p: seq<BackingPage>)
    ensures |p| == n && forall i :: 0 <= i < n ==> p[i] == BackingPage(0, false, true)
  {
    seq(n, i => BackingPage(0, false, true))
  }

  function DirectPages(address: nat, n: nat): (p: seq<BackingPage>)
    ensures |p| == n && forall i :: 0 <= i < n ==> p[i] == BackingPage(Wrap64(address + i * 0x1000), true, false)
  {
    seq(n, i requires 0 <= i < n => BackingPage(Wrap64(address + i * 0x1000), true, false))
  }

  /** Every region reads as it did, but for pages that are pointed at one of the frames. */
  ghost predicate AllSameBytes(s: seq<Region>, ram: seq<Page>, s': seq<Region>, ram': seq<Page>, frames: set<nat>) {
    |s'| == |s| && forall i :: 0 <= i < |s| ==> Same(s[i], ram, s'[i], ram', frames)
  }

  lemma {:induction false} SpaceKeptBytes(holes: seq<Span>, s: seq<Region>, x: map<nat, nat>, own: set<nat>,
                                          ram: seq<Page>, ram': seq<Page>, free: set<nat>)
    requires SpaceOk(holes, s, x, own) && own !! free && SameOutside(ram, ram', free)
    ensures AllSameBytes(s, ram, s, ram', free)
  {
    hide LayoutOk, Agree, Owned, SameOutside, Same, Clear;
    forall i | 0 <= i < |s| ensures Same(s[i], ram, s[i], ram', free) {
      OwnedClear(s, own, s[i], free);
      KeptBytes(s[i], ram, ram', free);
    }
  }

  lemma {:induction false} SpaceGrowBytes(holes: seq<Span>, s: seq<Region>, x: map<nat, nat>, own: set<nat>, k: nat,
                                          pages: seq<BackingPage>,
                                          lent: set<nat>, lent': set<nat>, ram: seq<Page>, ram': seq<Page>,
                                          free: set<nat>, free': set<nat>)
    requires SpaceOk(holes, s, x, own) && k < |s| && own <= lent && lent !! free
    requires Grown(s[k].pages, pages, lent, lent') && Handed(ram, ram', free, free', lent, lent')
    ensures AllSameBytes(s, ram, s[k := WithPages(s[k], pages)], ram', free)
  {
    hide LayoutOk, Agree, Owned, SameOutside, Same, Clear, Grown, RegionOk;
    forall i | 0 <= i < |s| ensures Same(s[i], ram, s[k := WithPages(s[k], pages)][i], ram', free) {
      OwnedClear(s, own, s[i], free);
      if i == k {
        assert RegionOk(s[k]);
        GrownBytes(s[k], pages, ram, ram', free, free', lent, lent');
      } else {
        KeptBytes(s[i], ram, ram', free);
      }
    }
  }

  lemma {:induction false} SameBytesTwice(s0: seq<Region>, ram0: seq<Page>, free0: set<nat>, s1: seq<Region>,
                                          ram1: seq<Page>, free1: set<nat>, s2: seq<Region>, ram2: seq<Page>)
    requires AllSameBytes(s0, ram0, s1, ram1, free0) && AllSameBytes(s1, ram1, s2, ram2, free1) && free1 <= free0
    ensures AllSameBytes(s0, ram0, s2, ram2, free0)
  {
    hide Same;
    forall i | 0 <= i < |s0| ensures Same(s0[i], ram0, s2[i], ram2, free0) {
      BothSame(s0[i], ram0, s1[i], ram1, s2[i], ram2, free0, free1);
    }
  }

  lemma {:induction false} IsolatedGrow(root: nat, a: Shot, b: Shot, spare1: set<nat>, ram1: seq<Page>)
    requires a.own <= a.lent && a.lent !! a.spare && Handed(a.ram, ram1, a.spare, spare1, a.lent, b.lent)
    requires SameOutside(ram1, b.ram, spare1) && b.spare <= spare1 && b.own == a.own + (b.lent - a.lent)
    requires b.xlat.Keys == a.xlat.Keys && forall r :: r in a.xlat && r != root ==> b.xlat[r] == a.xlat[r]
    ensures Isolated(root, a, b, {})
  {
    assert b.lent - b.own == a.lent - a.own;
  }

  const USER_SPAN := Span(USER_BASE, (USER_END - USER_BASE) / 0x1000)

  lemma {:induction false} FreshSpace()
    ensures SpaceOk([USER_SPAN], [], map[], {})
  {
    forall a: nat ensures Cover([USER_SPAN], a) + Cover(SpansOf([]), a) == if USER_BASE <= a < USER_END then 1 else 0 {
      CoverOne(USER_SPAN, a);
    }
  }

  /** A region without owned frames has entered a hole's place. */
  lemma {:induction false} SpaceGains(holes: seq<Span>, rs: seq<Region>, x: map<nat, map<nat, nat>>, root: nat,
                                      own: set<nat>, k: nat, pieces: seq<Span>, j: nat, r: Region)
    requires root in x && SpaceOk(holes, rs, x[root], own) && k < |holes| && RegionOk(r) && AllProper(pieces)
    requires Splits(holes[k], pieces, r.span) && IsSucc(SpansOf(rs), r.span, j)
    requires forall i: nat :: !Owns(r, i)
    ensures SpaceOk(Replace(holes, k, pieces), InsertRegion(rs, j, r), MapPart(x, root, r, r.span.size)[root], own)
    ensures Fits(r)
  {
    hide SpaceOk, LayoutOk, PagesPart, Splits, MapPart;
    SpaceInsert(holes, rs, x[root], own, k, pieces, j, r);
    SpaceFits(holes, rs, x[root], own, k, pieces, r);
  }

  lemma {:induction false} BoundEnd(holes: seq<Span>, rs: seq<Region>, x: map<nat, nat>, own: set<nat>, k: nat,
                                    pieces: seq<Span>, span: Span)
    requires SpaceOk(holes, rs, x, own) && k < |holes| && Splits(holes[k], pieces, span) && Proper(span)
    ensures End(span) <= USER_END
  {
    hide Agree, Owned, LayoutOk, Splits;
    NewSpanApart(holes, SpansOf(rs), k, pieces, span);
  }

  lemma {:induction false} SpaceFits(holes: seq<Span>, rs: seq<Region>, x: map<nat, nat>, own: set<nat>, k: nat,
                                     pieces: seq<Span>, r: Region)
    requires SpaceOk(holes, rs, x, own) && k < |holes| && RegionOk(r) && Splits(holes[k], pieces, r.span)
    ensures Fits(r)
  {
    hide Agree, Owned, LayoutOk, Splits;
    NewSpanApart(holes, SpansOf(rs), k, pieces, r.span);
  }

  // ----- what the calls do, on values

  /**
   * Page i of region k, and no other, has got a frame if it had none and there was one; no region
   * reads differently.
   */
  ghost predicate PageStep(root: nat, a: View, b: View, k: nat, i: nat) {
    && k < |a.regions| == |b.regions| && i < |a.regions[k].pages| == |b.regions[k].pages|
    && b.holes == a.holes && b.shot.spare <= a.shot.spare && Isolated(root, a.shot, b.shot, {})
    && AllSameBytes(a.regions, a.shot.ram, b.regions, b.shot.ram, a.shot.spare)
    && root in a.shot.xlat && root in b.shot.xlat && a.shot.xlat[root].Keys <= b.shot.xlat[root].Keys
    && var was, now := a.regions[k].pages[i], b.regions[k].pages[i];
       && b.regions == a.regions[k := WithPages(a.regions[k], a.regions[k].pages[i := now])]
       && now == if was.backed || a.shot.free == {} then was else BackingPage(now.ptr, true, true)
  }

  lemma {:induction false} PageKeys(root: nat, a: View, b: View, k: nat, i: nat)
    requires PageStep(root, a, b, k, i)
    ensures root in a.shot.xlat && root in b.shot.xlat && a.shot.xlat[root].Keys <= b.shot.xlat[root].Keys
    ensures k < |a.regions| == |b.regions| && i < |a.regions[k].pages| == |b.regions[k].pages|
    ensures b.regions[k].pages[i].backed <==> a.regions[k].pages[i].backed || a.shot.free != {}
    ensures a.regions[k].pages[i].backed || a.shot.free == {} ==> b.regions[k].pages == a.regions[k].pages
  {
    hide Isolated, AllSameBytes;
  }

  /** What fault_hit makes of page i, and what it answers. */
  ghost predicate PageFaulted(r: Region, r': Region, i: nat, result: FaultResult, free: set<nat>, free': set<nat>) {
    && i < |r.pages| == |r'.pages|
    && result == (if r.pages[i].backed then InvalidAccess else if !r.pages[i].reserved then NotMapped
                  else if free == {} then Ignore else RemapValid)
    && r'.pages == (if result == RemapValid then r.pages[i := BackingPage(r'.pages[i].ptr, true, true)] else r.pages)
    && |free'| == |free| - (if result == RemapValid then 1 else 0)
  }

  /**
   * fault_hit at an address of region k: accepted exactly when the page had no frame, and
   * translated if it has one now.
   */
  ghost predicate FaultDone(root: nat, a: View, b: View, k: nat, address: nat, accepted: bool) {
    && k < |a.regions| && a.regions[k].span.base <= address
    && var i := (address - a.regions[k].span.base) / 0x1000;
       && PageStep(root, a, b, k, i)
       && (accepted <==> !a.regions[k].pages[i].backed)
       && (b.regions[k].pages[i].backed ==> address / 0x1000 in b.shot.xlat[root])
       && Unbacked(a.regions[k].pages)
          == Unbacked(b.regions[k].pages) + if a.regions[k].pages[i].backed || a.shot.free == {} then 0 else 1
  }

  ghost predicate FaultStep(root: nat, a: View, b: View, address: nat, accepted: bool, k: nat) {
    && FoundAt(SpansOf(a.regions), address, k)
    && if k == |a.regions| then b == a && !accepted else FaultDone(root, a, b, k, address, accepted)
  }

  ghost predicate TouchStep(root: nat, a: View, b: View, address: nat, k: nat) {
    && FoundAt(SpansOf(a.regions), address, k)
    && if k == |a.regions| then b == a
       else
         k < |a.regions| && a.regions[k].span.base <= address
         && PageStep(root, a, b, k, (address - a.regions[k].span.base) / 0x1000)
  }

  /** Pages of region k have got frames, all of them if there were enough; no region reads differently. */
  ghost predicate GrowStep(root: nat, a: View, b: View, k: nat) {
    && k < |a.regions| == |b.regions| && b.holes == a.holes && b.shot.spare <= a.shot.spare
    && Isolated(root, a.shot, b.shot, {})
    && AllSameBytes(a.regions, a.shot.ram, b.regions, b.shot.ram, a.shot.spare)
    && b.regions == a.regions[k := WithPages(a.regions[k], b.regions[k].pages)]
    && |b.regions[k].pages| == |a.regions[k].pages|
    && Grown(a.regions[k].pages, b.regions[k].pages, a.shot.lent, b.shot.lent)
    && (|a.shot.free| >= |a.regions[k].pages| ==>
       forall i :: 0 <= i < |b.regions[k].pages| ==> b.regions[k].pages[i].backed)
  }

  ghost predicate TouchAllStep(root: nat, a: View, b: View, address: nat, k: nat) {
    && FoundAt(SpansOf(a.regions), address, k)
    && if k == |a.regions| then b == a else GrowStep(root, a, b, k)
  }

  /** The copy stays inside the region's pages. */
  predicate Fitting(offset: nat, n: nat, size: nat) {
    n == 0 || offset + n <= size * 0x1000
  }

  /** ensure_load_store touches every page of the copy; see TouchCoverage. */
  predicate TouchFits(offset: nat, n: nat) {
    offset % 0x1000 + n <= TouchCount(n) * 0x1000
  }

  /**
   * Region k reads as data in the copied range wherever its pages have frames, and as before
   * elsewhere, but for pages that are pointed at spare frames. Frame 0 has taken in the bytes for
   * pages without a frame. Every other region that owns no frame the copy reached reads as before,
   * but for pages that are pointed at one, or at a spare frame.
   */
  ghost predicate Loaded(s: seq<Region>, ram: seq<Page>, s': seq<Region>, ram': seq<Page>, k: nat, offset: nat,
                         data: seq<bv8>, spare: set<nat>)
  {
    && |s'| == |s| && k < |s| && 0 < |ram| == |ram'|
    && (forall i :: 0 <= i < |s| && i != k && Clear(s[i], Pointed(s'[k], offset, |data|)) ==>
          Same(s[i], ram, s'[i], ram', spare + ReachedFrames(s'[k], offset, |data|)))
    && (forall off: nat :: !Loose(s'[k], off / 0x1000, spare) ==>
          ByteAt(s'[k], ram', off) == LoadedAt(s'[k], ByteAt(s[k], ram, off), offset, data, off))
    && (0 !in Pointed(s'[k], offset, |data|) ==> Spilled(ram[0], ram'[0], s'[k], offset, data))
  }

  /** The bytes that go to frame 0 in the end are there already. */
  ghost predicate Harmless(page: Page, r: Region, offset: nat, data: seq<bv8>) {
    forall at: nat :: LastMiss(r, offset, |data|, at) ==> page[at % 0x1000] == data[at - offset]
  }

  /** The frames not its own that a copy into r may write to: those r is pointed at, and frame 0 if a page has none. */
  ghost function Outside(r: Region, offset: nat, n: nat): set<nat> {
    Pointed(r, offset, n) + if CopyBacked(r, offset, n) then {} else {0}
  }

  /**
   * Region k has taken in the data at the offset. Bytes that fall on a page without a frame have
   * gone to frame 0. Every frame that was neither spare nor owned nor pointed at by the pages
   * reached is as it was exactly when those bytes were in frame 0 already.
   */
  ghost predicate LoadDone(root: nat, a: View, b: View, k: nat, offset: nat, data: seq<bv8>) {
    && k < |a.regions| == |b.regions| && 0 < |a.shot.ram| && b.holes == a.holes
    && var r := b.regions[k];
       && Fitting(offset, |data|, r.span.size) && |r.pages| == |a.regions[k].pages|
       && b.regions == a.regions[k := WithPages(a.regions[k], r.pages)]
       && Grown(a.regions[k].pages, r.pages, a.shot.lent, b.shot.lent)
       && Loaded(a.regions, a.shot.ram, b.regions, b.shot.ram, k, offset, data, a.shot.spare)
       && (|a.shot.free| >= r.span.size && TouchFits(offset, |data|) ==> CopyBacked(r, offset, |data|))
       && Isolated(root, a.shot, b.shot, Outside(r, offset, |data|))
       && (SameOutside(a.shot.ram, b.shot.ram, a.shot.spare + a.shot.own + Pointed(r, offset, |data|))
           <==> Harmless(a.shot.ram[0], r, offset, data))
       && b.shot.free <= a.shot.free && b.shot.spare <= a.shot.spare && |b.shot.free| + 7 * r.span.size >= |a.shot.free|
  }

  ghost predicate LoadStep(root: nat, a: View, b: View, address: nat, data: seq<bv8>, k: nat) {
    && FoundAt(SpansOf(a.regions), address, k)
    && if k == |a.regions| then b == a
       else
         && k < |a.regions| && a.regions[k].span.base <= address
         && LoadDone(root, a, b, k, address - a.regions[k].span.base, data)
  }

  /** data is what the region, with the pages it had and has now, gives at the offset. */
  ghost predicate Stored(was: Region, r: Region, ram: seq<Page>, offset: nat, data: seq<bv8>) {
    && 0 < |ram|
    && (forall j: nat ::
       j < |data| ==>
       data[j] == if Misses(r, offset + j) then ram[0][(offset + j) % 0x1000] else ByteAt(was, ram, offset + j))
    && (CopyBacked(r, offset, |data|) ==> forall j: nat :: j < |data| ==> data[j] == ByteAt(was, ram, offset + j))
  }

  /** Region k has been read at the offset. */
  ghost predicate StoreDone(root: nat, a: View, b: View, k: nat, offset: nat, data: seq<bv8>) {
    && k < |a.regions| == |b.regions| && b.holes == a.holes
    && var r := b.regions[k];
       && Fitting(offset, |data|, r.span.size) && |r.pages| == |a.regions[k].pages|
       && b.regions == a.regions[k := WithPages(a.regions[k], r.pages)]
       && Grown(a.regions[k].pages, r.pages, a.shot.lent, b.shot.lent)
       && AllSameBytes(a.regions, a.shot.ram, b.regions, b.shot.ram, a.shot.spare)
       && Stored(a.regions[k], r, a.shot.ram, offset, data)
       && Isolated(root, a.shot, b.shot, {})
       && b.shot.free <= a.shot.free && b.shot.spare <= a.shot.spare && |b.shot.free| + 7 * r.span.size >= |a.shot.free|
  }

  ghost predicate StoreStep(root: nat, a: View, b: View, address: nat, n: nat, data: seq<bv8>, k: nat) {
    && FoundAt(SpansOf(a.regions), address, k)
    && if k == |a.regions| then b == a && data == []
       else
         k < |a.regions| && a.regions[k].span.base <= address && |data| == n
         && StoreDone(root, a, b, k, address - a.regions[k].span.base, data)
  }

  class AddressSpace {
    const m: Machine
    const root: nat                   // _vmm_ctx
    var holes: seq<Span>              // _memory_holes
    var regions: seq<MemoryMapping>   // _mapped_regions
    ghost var own: set<nat>           // the frames behind the reserved pages

    ghost predicate Valid()
      reads this, regions, m, m.alloc, m.alloc.words
    {
      && m.Valid() && root in m.xlat && root != m.kernelRoot
      && AllDifferent(regions) && AllMapped(regions)
      && own <= m.lent
      && SpaceOk(holes, Snaps(regions), m.xlat[root], own)
    }

    ghost function Now(): Shot
      reads this`own, m, m.alloc
    {
      Shot(m.xlat, m.lent, own, m.alloc.Free, m.Spare(), m.ram)
    }

    ghost function Look(): View
      reads this, regions, m, m.alloc
    {
      View(holes, Snaps(regions), Now())
    }

    constructor (machine: Machine)
      requires machine.Valid() && machine.alloc.Free != {}
      modifies machine, machine.alloc, machine.alloc.words
      ensures Valid() && m == machine && holes == [USER_SPAN] && regions == [] && own == {}
      ensures root !in old(machine.xlat) && machine.xlat == old(machine.xlat)[root := map[]]
      ensures machine.lent == old(machine.lent) && |machine.alloc.Free| == |old(machine.alloc.Free)| - 1
    {
      hide Machine.Valid, SpaceOk;
      m := machine;
      KernelThere(machine);
      var ctx := machine.NewContext();
      root := ctx;
      holes := [USER_SPAN];
      regions := [];
      own := {};
      FreshSpace();
    }

    // ----- binding

    /** mem has been put among the regions in place of part of hole k. */
    ghost predicate Bound(mem: MemoryMapping, holes0: seq<Span>, regions0: seq<MemoryMapping>, k: nat,
                          pieces: seq<Span>, j: nat)
      reads this`holes, this`regions
    {
      && k < |holes0| && AllProper(pieces) && Splits(holes0[k], pieces, Span(mem.base, mem.size))
      && IsSucc(SpanList(regions0), Span(mem.base, mem.size), j)
      && holes == Replace(holes0, k, pieces) && regions == regions0[..j] + [mem] + regions0[j..]
    }

    /** put(memory_mapping *) */
    method Put(mem: MemoryMapping) returns (ghost j: nat)
      requires forall i :: 0 <= i < |regions| ==> End(SpanList(regions)[i]) < 0x7FFF_FFFF_FFFF_FFFF
      modifies this`regions
      ensures IsSucc(SpanList(old(regions)), Span(mem.base, mem.size), j)
      ensures regions == old(regions)[..j] + [mem] + old(regions)[j..]
    {
      var k := FindSucc(SpanList(regions), Span(mem.base, mem.size));
      j := k;
      if k < |regions| {
        regions := regions[..k] + [mem] + regions[k..];
      } else {
        regions := regions + [mem];
      }
    }

    method BindHole(k: nat, size: nat) returns (mem: MemoryMapping, ghost j: nat)
      requires k < |holes| && 0 < size <= holes[k].size && Proper(holes[k])
      requires forall i :: 0 <= i < |regions| ==> End(SpanList(regions)[i]) < 0x7FFF_FFFF_FFFF_FFFF
      modifies this`holes, this`regions
      ensures Bound(mem, old(holes), old(regions), k, TopRest(old(holes)[k], size), j)
      ensures Proper(Span(mem.base, mem.size)) && mem.base >= old(holes)[k].base
      ensures fresh(mem) && !mem.mapped && |mem.pages| == mem.size
              && forall i :: 0 <= i < mem.size ==> mem.pages[i] == NO_PAGE
      ensures Span(mem.base, mem.size) == TopPart(old(holes)[k], size)
      ensures holes == Replace(old(holes), k, TopRest(old(holes)[k], size))
      ensures IsSucc(SpanList(old(regions)), Span(mem.base, mem.size), j)
      ensures regions == old(regions)[..j] + [mem] + old(regions)[j..]
    {
      hide Splits;
      var hole := holes[k];
      TopSplits(hole, size);
      TopProper(hole, size);
      if hole.size == size {
        holes := holes[..k] + holes[k + 1..];
        mem := new MemoryMapping(hole.base, size);
      } else {
        holes := holes[k := Span(hole.base, hole.size - size)];
        mem := new MemoryMapping(hole.base + (hole.size - size) * 0x1000, size);
      }
      j := Put(mem);
    }

    /** bind_exact: null when no hole, after merging, contains the request. */
    method BindExact(base: nat, size: nat) returns (mem: MemoryMapping?, ghost k: nat, ghost j: nat)
      requires base > 0 && size > 0
      requires forall i :: 0 <= i < |regions| ==> End(SpanList(regions)[i]) < 0x7FFF_FFFF_FFFF_FFFF
      modifies this`holes, this`regions
      ensures mem == null <==> !Granted(Merge(old(holes)), base, size)
      ensures mem == null ==> holes == Merge(old(holes)) && regions == old(regions)
      ensures mem != null ==>
                && fresh(mem) && !mem.mapped && |mem.pages| == mem.size
                && (forall i :: 0 <= i < mem.size ==> mem.pages[i] == NO_PAGE)
                && mem.base == base && mem.size == size
                && k < |Merge(old(holes))| && Contains(Merge(old(holes))[k], base, size)
                && holes == Replace(Merge(old(holes)), k, Carve(Merge(old(holes))[k], base, size))
                && IsSucc(SpanList(old(regions)), Span(base, size), j)
                && regions == old(regions)[..j] + [mem] + old(regions)[j..]
    {
      hide Merge, MergeFrom, End, ReqEnd, Sub64;
      holes := MergeHoles(holes);
      var t := FindExact(holes, base, size);
      k := t;
      if t == |holes| {
        j := 0;
        return null, k, j;
      }
      var hole := holes[t];
      if base == hole.base && size == hole.size {
        holes := holes[..t] + holes[t + 1..];
      } else if base == hole.base {
        holes := holes[t := Span(ReqEnd(base, size), Sub64(hole.size, size))];
      } else if ReqEnd(base, size) == End(hole) {
        holes := holes[t := Span(hole.base, Sub64(hole.size, size))];
      } else {
        var before := (base - hole.base) / 0x1000;
        var newHole := Span(hole.base, before);
        holes := holes[t := Span(ReqEnd(base, size), Sub64(hole.size, size + before))];
        holes := holes[..t] + [newHole] + holes[t..];
      }
      assert holes == Replace(Merge(old(holes)), k, Carve(hole, base, size));
      var mapping := new MemoryMapping(base, size);
      j := Put(mapping);
      mem := mapping;
    }

    /** map_region for a region that has just been bound in place of part of hole k. */
    method Enter(mem: MemoryMapping, ghost holes0: seq<Span>, ghost regions0: seq<MemoryMapping>, ghost k: nat,
                 ghost pieces: seq<Span>, ghost j: nat) returns (ok: bool)
      requires m.Valid() && root in m.xlat && root != m.kernelRoot && own <= m.lent
      requires AllDifferent(regions0) && AllMapped(regions0) && mem !in regions0
      requires SpaceOk(holes0, Snaps(regions0), m.xlat[root], own)
      requires Bound(mem, holes0, regions0, k, pieces, j)
      requires RegionOk(Value(mem)) && forall i: nat :: !Owns(Value(mem), i)
      modifies mem`mapped, m, m.alloc, m.alloc.words
      ensures |old(m.alloc.Free)| >= 3 * NewIn(Value(mem), old(m.xlat)[root]) ==> ok
      ensures ok ==>
                && |m.alloc.Free| + 3 * NewIn(Value(mem), old(m.xlat)[root]) >= |old(m.alloc.Free)|
                && Valid() && m.lent == old(m.lent) && m.alloc.Free <= old(m.alloc.Free)
                && m.xlat == MapPart(old(m.xlat), root, Value(mem), mem.size)
                && Isolated(root, old(Now()), Now(), {})
                && AllSameBytes(old(Snaps(regions0)), old(m.ram), old(Snaps(regions0)), m.ram, old(m.Spare()))
    {
      hide Machine.Valid, SpaceOk, Splits, MapPart, PagesPart, Owns, RegionOk, AllDifferent, AllMapped, Isolated,
           SameOutside, Snaps, NewIn, AllSameBytes, SpanList;
      ghost var r, s0 := Value(mem), Snaps(regions0);
      SnapSpans(regions0);
      SpaceGains(holes0, s0, m.xlat, root, own, k, pieces, j, r);
      m.SpareFrames();
      ok := MapRegion(m, root, mem);
      if ok {
        assert Snaps(regions0) == s0 && Value(mem) == r;
        SnapsInsert(regions0, j, mem);
        assert SpaceOk(holes, Snaps(regions), m.xlat[root], own);
        InsertMapped(regions0, j, mem);
        IsolatedMap(root, old(Now()), Now(), r, mem.size);
        SpaceKeptBytes(holes0, s0, old(m.xlat)[root], own, old(m.ram), m.ram, m.Spare());
      }
    }

    /** A bound region whose pages have not been set up yet. */
    ghost predicate Blank(mem: MemoryMapping)
      reads mem
    {
      Proper(Span(mem.base, mem.size)) && |mem.pages| == mem.size
        && forall i :: 0 <= i < mem.size ==> mem.pages[i] == NO_PAGE
    }

    /** Reserves the pages of a region that has just been bound, and maps it. */
    method EnterReserved(mem: MemoryMapping, ghost holes0: seq<Span>, ghost regions0: seq<MemoryMapping>, ghost k: nat,
                         ghost pieces: seq<Span>, ghost j: nat, perms: nat, cache: nat)
      requires m.Valid() && root in m.xlat && root != m.kernelRoot && own <= m.lent && Blank(mem)
      requires AllDifferent(regions0) && AllMapped(regions0) && mem !in regions0
      requires SpaceOk(holes0, Snaps(regions0), m.xlat[root], own) && Bound(mem, holes0, regions0, k, pieces, j)
      modifies mem, m, m.alloc, m.alloc.words
      ensures Valid() && m.lent == old(m.lent) && m.alloc.Free <= old(m.alloc.Free)
              && |m.alloc.Free| >= |old(m.alloc.Free)|
      ensures Isolated(root, old(Now()), Now(), {})
      ensures AllSameBytes(old(Snaps(regions0)), old(m.ram), old(Snaps(regions0)), m.ram, old(m.Spare()))
      ensures Value(mem) == Region(Span(mem.base, mem.size), ReservedPages(mem.size), perms, cache)
    {
      hide Machine.Valid, SpaceOk, AllDifferent, AllMapped, SameOutside, Snaps, MapPart, RegionOk, NewIn, Isolated,
           AddressSpace.Bound, AllSameBytes;
      ghost var s0 := Snaps(regions0);
      mem.Allocate(perms, cache);
      assert mem.pages == ReservedPages(mem.size);
      ReservedOk(Value(mem), m.xlat[root]);
      assert Snaps(regions0) == s0;
      var ok := Enter(mem, holes0, regions0, k, pieces, j);
    }

    /** Points the pages of a region that has just been bound at physical addresses, and maps it. */
    method EnterDirect(mem: MemoryMapping, ghost holes0: seq<Span>, ghost regions0: seq<MemoryMapping>, ghost k: nat,
                       ghost pieces: seq<Span>, ghost j: nat, address: nat, perms: nat, cache: nat) returns (ok: bool)
      requires m.Valid() && root in m.xlat && root != m.kernelRoot && own <= m.lent && Blank(mem)
      requires AllDifferent(regions0) && AllMapped(regions0) && mem !in regions0
      requires SpaceOk(holes0, Snaps(regions0), m.xlat[root], own) && Bound(mem, holes0, regions0, k, pieces, j)
      modifies mem, m, m.alloc, m.alloc.words
      ensures |old(m.alloc.Free)| >= 3 * mem.size ==> ok
      ensures ok ==> Valid() && m.lent == old(m.lent) && |m.alloc.Free| + 3 * mem.size >= |old(m.alloc.Free)|
      ensures ok ==> Isolated(root, old(Now()), Now(), {})
      ensures ok ==> AllSameBytes(old(Snaps(regions0)), old(m.ram), old(Snaps(regions0)), m.ram, old(m.Spare()))
      ensures Value(mem) == Region(Span(mem.base, mem.size), DirectPages(address, mem.size), perms, cache)
    {
      hide Machine.Valid, SpaceOk, AllDifferent, AllMapped, SameOutside, Snaps, MapPart, RegionOk, NewIn, Isolated,
           Splits, AllSameBytes;
      ghost var s0 := Snaps(regions0);
      mem.MapTo(address, perms, cache);
      assert mem.pages == DirectPages(address, mem.size);
      BoundEnd(holes0, s0, m.xlat[root], own, k, pieces, Span(mem.base, mem.size));
      DirectOk(Value(mem), address, m.xlat[root]);
      assert Snaps(regions0) == s0;
      ok := Enter(mem, holes0, regions0, k, pieces, j);
    }

    /** allocate, once a hole has been found. */
    method AllocateIn(k: nat, size: nat, perms: nat, cache: nat) returns (base: nat, ghost j: nat)
      requires Valid() && k < |holes| && 0 < size <= holes[k].size
      modifies this`holes, this`regions, m, m.alloc, m.alloc.words
      ensures Valid() && m.lent == old(m.lent) && m.alloc.Free <= old(m.alloc.Free)
              && |m.alloc.Free| >= |old(m.alloc.Free)|
      ensures Isolated(root, old(Now()), Now(), {})
      ensures AllSameBytes(old(Snaps(regions)), old(m.ram), old(Snaps(regions)), m.ram, old(m.Spare()))
      ensures Span(base, size) == TopPart(old(holes)[k], size)
      ensures holes == Replace(old(holes), k, TopRest(old(holes)[k], size))
              && IsSucc(SpanList(old(regions)), Span(base, size), j)
      ensures j <= |old(regions)| && |regions| == |old(regions)| + 1
      ensures regions == old(regions)[..j] + [regions[j]] + old(regions)[j..] && fresh(regions[j])
      ensures Value(regions[j]) == Region(Span(base, size), ReservedPages(size), perms, cache)
    {
      hide Machine.Valid, SpaceOk, Splits, AllDifferent, AllMapped, SameOutside, Snaps, MapPart, RegionOk, NewIn,
           Isolated, AddressSpace.Bound, AllSameBytes;
      SpaceBounds(holes, Snaps(regions), m.xlat[root], own);
      SnapSpans(regions);
      ghost var holes0, regions0, s0 := holes, regions, Snaps(regions);
      var mem;
      mem, j := BindHole(k, size);
      assert Snaps(regions0) == s0;
      EnterReserved(mem, holes0, regions0, k, TopRest(holes0[k], size), j, perms, cache);
      base := mem.base;
    }

    /** allocate: size reserved pages at the top of the highest hole that fits; 0 when none does. */
    method Allocate(size: nat, perms: nat, cache: nat) returns (base: nat, ghost k: nat, ghost j: nat)
      requires Valid() && size > 0
      modifies this`holes, this`regions, m, m.alloc, m.alloc.words
      ensures Valid() && m.lent == old(m.lent) && m.alloc.Free <= old(m.alloc.Free)
              && |m.alloc.Free| >= |old(m.alloc.Free)|
      ensures Isolated(root, old(Now()), Now(), {})
      ensures AllSameBytes(old(Snaps(regions)), old(m.ram), old(Snaps(regions)), m.ram, old(m.Spare()))
      ensures base == 0 <==> forall i :: 0 <= i < |old(holes)| ==> old(holes)[i].size < size
      ensures base == 0 ==> holes == old(holes) && regions == old(regions)
      ensures base != 0 ==>
                && k < |old(holes)| && old(holes)[k].size >= size
                && (forall i ::
                   0 <= i < |old(holes)| && old(holes)[i].size >= size ==> old(holes)[i].base <= old(holes)[k].base)
                && Span(base, size) == TopPart(old(holes)[k], size)
                && holes == Replace(old(holes), k, TopRest(old(holes)[k], size))
                && IsSucc(SpanList(old(regions)), Span(base, size), j)
                && j <= |old(regions)| && |regions| == |old(regions)| + 1
                && regions == old(regions)[..j] + [regions[j]] + old(regions)[j..] && fresh(regions[j])
                && Value(regions[j]) == Region(Span(base, size), ReservedPages(size), perms, cache)
    {
      hide Machine.Valid, SpaceOk, Splits, AllDifferent, AllMapped, SameOutside, Snaps, MapPart, RegionOk, NewIn,
           AllSameBytes;
      NothingChanged(root, Now(), Snaps(regions));
      SpaceBounds(holes, Snaps(regions), m.xlat[root], own);
      SnapSpans(regions);
      var t := FindFreeHole(holes, size);
      k := t;
      if t == |holes| {
        j := 0;
        base := 0;
        return;
      }
      base, j := AllocateIn(t, size, perms, cache);
    }

    /** map, once a hole has been found; ok is false when a page table could not be allocated. */
    method MapIn(k: nat, address: nat, size: nat, perms: nat, cache: nat) returns (ok: bool, base: nat, ghost j: nat)
      requires Valid() && k < |holes| && 0 < size <= holes[k].size
      modifies this`holes, this`regions, m, m.alloc, m.alloc.words
      ensures |old(m.alloc.Free)| >= 3 * size ==> ok
      ensures ok ==>
                && Valid() && m.lent == old(m.lent) && |m.alloc.Free| + 3 * size >= |old(m.alloc.Free)|
                && Isolated(root, old(Now()), Now(), {})
                && AllSameBytes(old(Snaps(regions)), old(m.ram), old(Snaps(regions)), m.ram, old(m.Spare()))
                && Span(base, size) == TopPart(old(holes)[k], size)
                && holes == Replace(old(holes), k, TopRest(old(holes)[k], size))
                && IsSucc(SpanList(old(regions)), Span(base, size), j)
                && j <= |old(regions)| && |regions| == |old(regions)| + 1
                && regions == old(regions)[..j] + [regions[j]] + old(regions)[j..] && fresh(regions[j])
                && Value(regions[j]) == Region(Span(base, size), DirectPages(address, size), perms, cache)
    {
      hide Machine.Valid, SpaceOk, Splits, AllDifferent, AllMapped, SameOutside, Snaps, MapPart, RegionOk, NewIn,
           Isolated, AddressSpace.Bound, AllSameBytes;
      SpaceBounds(holes, Snaps(regions), m.xlat[root], own);
      SnapSpans(regions);
      ghost var holes0, regions0, s0 := holes, regions, Snaps(regions);
      var mem;
      mem, j := BindHole(k, size);
      assert Snaps(regions0) == s0;
      ok := EnterDirect(mem, holes0, regions0, k, TopRest(holes0[k], size), j, address, perms, cache);
      base := mem.base;
    }

    /** map: size pages on given physical addresses at the top of the highest hole that fits. */
    method Map(address: nat, size: nat, perms: nat, cache: nat)
      returns (ok: bool, base: nat, ghost k: nat, ghost j: nat)
      requires Valid() && size > 0
      modifies this`holes, this`regions, m, m.alloc, m.alloc.words
      ensures |old(m.alloc.Free)| >= 3 * size ==> ok
      ensures ok ==> Valid() && m.lent == old(m.lent) && |m.alloc.Free| + 3 * size >= |old(m.alloc.Free)|
      ensures ok ==> Isolated(root, old(Now()), Now(), {})
      ensures ok ==> AllSameBytes(old(Snaps(regions)), old(m.ram), old(Snaps(regions)), m.ram, old(m.Spare()))
      ensures ok ==> (base == 0 <==> forall i :: 0 <= i < |old(holes)| ==> old(holes)[i].size < size)
      ensures ok && base == 0 ==> holes == old(holes) && regions == old(regions)
      ensures ok && base != 0 ==>
                && k < |old(holes)| && old(holes)[k].size >= size
                && (forall i ::
                   0 <= i < |old(holes)| && old(holes)[i].size >= size ==> old(holes)[i].base <= old(holes)[k].base)
                && Span(base, size) == TopPart(old(holes)[k], size)
                && holes == Replace(old(holes), k, TopRest(old(holes)[k], size))
                && IsSucc(SpanList(old(regions)), Span(base, size), j)
                && j <= |old(regions)| && |regions| == |old(regions)| + 1
                && regions == old(regions)[..j] + [regions[j]] + old(regions)[j..] && fresh(regions[j])
                && Value(regions[j]) == Region(Span(base, size), DirectPages(address, size), perms, cache)
    {
      hide Machine.Valid, SpaceOk, Splits, AllDifferent, AllMapped, SameOutside, Snaps, MapPart, RegionOk, NewIn,
           AllSameBytes;
      NothingChanged(root, Now(), Snaps(regions));
      SpaceBounds(holes, Snaps(regions), m.xlat[root], own);
      var t := FindFreeHole(holes, size);
      k := t;
      if t == |holes| {
        j := 0;
        base := 0;
        ok := true;
        return;
      }
      ok, base, j := MapIn(t, address, size, perms, cache);
    }

    /**
     * allocate_at on a page-aligned request that does not wrap: it is granted exactly when one of
     * the merged holes contains it, which on a sorted hole list means exactly when every page of
     * it is free.
     */
    method AllocateAt(base: nat, size: nat, perms: nat, cache: nat) returns (addr: nat, ghost k: nat, ghost j: nat)
      requires Valid() && base > 0 && size > 0 && Clean(base, size)
      modifies this`holes, this`regions, m, m.alloc, m.alloc.words
      ensures Valid() && m.lent == old(m.lent) && m.alloc.Free <= old(m.alloc.Free)
              && |m.alloc.Free| >= |old(m.alloc.Free)|
      ensures Isolated(root, old(Now()), Now(), {})
      ensures AllSameBytes(old(Snaps(regions)), old(m.ram), old(Snaps(regions)), m.ram, old(m.Spare()))
      ensures addr == if Granted(Merge(old(holes)), base, size) then base else 0
      ensures Sorted(old(holes)) ==> (addr == base <==> AllFree(old(holes), base, size))
      ensures addr == 0 ==> holes == Merge(old(holes)) && regions == old(regions)
      ensures addr != 0 ==>
                && k < |Merge(old(holes))| && Contains(Merge(old(holes))[k], base, size)
                && holes == Replace(Merge(old(holes)), k, Carve(Merge(old(holes))[k], base, size))
                && IsSucc(SpanList(old(regions)), Span(base, size), j)
                && j <= |old(regions)| && |regions| == |old(regions)| + 1
                && regions == old(regions)[..j] + [regions[j]] + old(regions)[j..] && fresh(regions[j])
                && Value(regions[j]) == Region(Span(base, size), ReservedPages(size), perms, cache)
    {
      hide Machine.Valid, SpaceOk, Splits, AllDifferent, AllMapped, SameOutside, Snaps, MapPart, RegionOk, NewIn,
           Isolated, Merge, Carve, AllFree, Granted, Sorted, AllSameBytes, Replace, ReservedPages, DirectPages;
      ghost var holes0, regions0, s0 := Merge(holes), regions, Snaps(regions);
      MergedSpace(holes, s0, m.xlat[root], own, base, size);
      SnapSpans(regions);
      NothingChanged(root, Now(), Snaps(regions));
      var mem;
      mem, k, j := BindExact(base, size);
      if mem == null { return 0, k, j; }
      CarveSplits(holes0[k], base, size);
      assert Snaps(regions0) == s0;
      EnterReserved(mem, holes0, regions0, k, Carve(holes0[k], base, size), j, perms, cache);
      addr := mem.base;
    }

    /** map_at on a page-aligned request that does not wrap. */
    method MapAt(base: nat, address: nat, size: nat, perms: nat, cache: nat)
      returns (ok: bool, addr: nat, ghost k: nat, ghost j: nat)
      requires Valid() && base > 0 && size > 0 && Clean(base, size)
      modifies this`holes, this`regions, m, m.alloc, m.alloc.words
      ensures |old(m.alloc.Free)| >= 3 * size ==> ok
      ensures ok ==> Valid() && m.lent == old(m.lent) && |m.alloc.Free| + 3 * size >= |old(m.alloc.Free)|
      ensures ok ==> Isolated(root, old(Now()), Now(), {})
      ensures ok ==> AllSameBytes(old(Snaps(regions)), old(m.ram), old(Snaps(regions)), m.ram, old(m.Spare()))
      ensures ok ==> addr == if Granted(Merge(old(holes)), base, size) then base else 0
      ensures Sorted(old(holes)) && ok ==> (addr == base <==> AllFree(old(holes), base, size))
      ensures ok && addr == 0 ==> holes == Merge(old(holes)) && regions == old(regions)
      ensures ok && addr != 0 ==>
                && k < |Merge(old(holes))| && Contains(Merge(old(holes))[k], base, size)
                && holes == Replace(Merge(old(holes)), k, Carve(Merge(old(holes))[k], base, size))
                && IsSucc(SpanList(old(regions)), Span(base, size), j)
                && j <= |old(regions)| && |regions| == |old(regions)| + 1
                && regions == old(regions)[..j] + [regions[j]] + old(regions)[j..] && fresh(regions[j])
                && Value(regions[j]) == Region(Span(base, size), DirectPages(address, size), perms, cache)
    {
      hide Machine.Valid, SpaceOk, Splits, AllDifferent, AllMapped, SameOutside, Snaps, MapPart, RegionOk, NewIn,
           Isolated, Merge, Carve, AllFree, Granted, Sorted, AllSameBytes, Replace, ReservedPages, DirectPages;
      ghost var holes0, regions0, s0 := Merge(holes), regions, Snaps(regions);
      MergedSpace(holes, s0, m.xlat[root], own, base, size);
      SnapSpans(regions);
      NothingChanged(root, Now(), Snaps(regions));
      var mem;
      mem, k, j := BindExact(base, size);
      if mem == null { return true, 0, k, j; }
      CarveSplits(holes0[k], base, size);
      assert Snaps(regions0) == s0;
      ok := EnterDirect(mem, holes0, regions0, k, Carve(holes0[k], base, size), j, address, perms, cache);
      addr := mem.base;
    }

    // ----- regions by address

    method RegionForAddress(address: nat) returns (k: nat)
      ensures FoundAt(SpanList(regions), address, k)
    {
      k := 0;
      while k < |regions|
        invariant k <= |regions| && forall i :: 0 <= i < k ==> !Within(SpanList(regions)[i], address)
      {
        if address >= regions[k].base && address <= regions[k].base + regions[k].size * 0x1000 { return; }
        k := k + 1;
      }
    }

    /** Pages of region k have gained frames since the state s0, and nothing else has changed. */
    ghost predicate Regrown(region: MemoryMapping, k: nat, s0: seq<Region>, lent0: set<nat>)
      reads this, regions, region, m
    {
      && root in m.xlat && root != m.kernelRoot && own <= lent0
      && AllDifferent(regions) && AllMapped(regions) && k < |regions| == |s0| && regions[k] == region
      && SpaceOk(holes, s0, m.xlat[root], own) && Snaps(regions) == s0[k := WithPages(s0[k], region.pages)]
      && Grown(s0[k].pages, region.pages, lent0, m.lent)
    }

    /** map_region after pages of region k have gained frames. */
    method Remap(region: MemoryMapping, ghost k: nat, ghost s0: seq<Region>, ghost lent0: set<nat>) returns (ok: bool)
      requires m.Valid() && root in m.xlat && Regrown(region, k, s0, lent0)
      modifies this`own, region`mapped, m, m.alloc, m.alloc.words
      ensures |old(m.alloc.Free)| >= 3 * NewIn(Value(region), old(m.xlat)[root]) ==> ok
      ensures ok ==>
                && Valid() && m.lent == old(m.lent) && own == old(own) + (m.lent - lent0)
                && m.alloc.Free <= old(m.alloc.Free)
                && m.Spare() == old(m.Spare()) && SameOutside(old(m.ram), m.ram, m.Spare())
                && m.xlat == MapPart(old(m.xlat), root, Value(region), region.size)
                && |m.alloc.Free| + 3 * NewIn(Value(region), old(m.xlat)[root]) >= |old(m.alloc.Free)|
    {
      hide Machine.Valid, SpaceOk, AllDifferent, SameOutside, Snaps, MapPart, PagesPart, NewIn, Grown, Machine.Spare;
      ghost var s1 := Snaps(regions);
      SpaceGrow(holes, s0, m.xlat[root], own, k, region.pages, lent0, m.lent);
      GrownLent(s0[k].pages, region.pages, lent0, m.lent);
      RegionFits(holes, s1, m.xlat[root] + PagesMap(s1[k]), own + (m.lent - lent0), k);
      ok := MapRegion(m, root, region);
      if ok {
        own := own + (m.lent - lent0);
        assert Snaps(regions) == s1;
      }
    }

    /** What follows a touch: the region is mapped again if it was touched; s0 and a are the state before. */
    method AfterTouch(region: MemoryMapping, touched: bool, ghost k: nat, ghost s0: seq<Region>, ghost a: Shot)
      returns (ok: bool)
      requires m.Valid() && root in m.xlat && Regrown(region, k, s0, a.lent) && a.lent !! a.spare
      requires a.xlat == m.xlat && a.own == own && Handed(a.ram, m.ram, a.spare, m.Spare(), a.lent, m.lent)
      requires !touched ==> region.pages == s0[k].pages && m.lent == a.lent
      modifies this`own, region`mapped, m, m.alloc, m.alloc.words
      ensures !touched || |old(m.alloc.Free)| >= 3 * NewIn(Value(region), old(m.xlat)[root]) ==> ok
      ensures ok ==>
                && Valid() && m.lent == old(m.lent) && own == old(own) + (m.lent - a.lent)
                && m.xlat.Keys == old(m.xlat).Keys && (!touched ==> m.xlat == old(m.xlat))
                && (touched ==> m.xlat == MapPart(old(m.xlat), root, Value(region), region.size))
                && |m.alloc.Free|
                   + (if touched then 3 * NewIn(Value(region), old(m.xlat)[root]) else 0) >= |old(m.alloc.Free)|
                && Isolated(root, a, Now(), {}) && AllSameBytes(s0, a.ram, Snaps(regions), m.ram, a.spare)
                && m.Spare() <= a.spare
    {
      hide Machine.Valid, SpaceOk, AllDifferent, AllMapped, SameOutside, Snaps, MapPart, PagesPart, NewIn, Grown,
           Handed, Isolated, AllSameBytes, Machine.Spare;
      ghost var s1, ram1, spare1 := Snaps(regions), m.ram, m.Spare();
      SpaceGrowBytes(holes, s0, m.xlat[root], own, k, region.pages, a.lent, m.lent, a.ram, m.ram, a.spare, m.Spare());
      GrownLent(s0[k].pages, region.pages, a.lent, m.lent);
      m.SpareFrames();
      HandedFrames(a.ram, ram1, a.spare, spare1, a.lent, m.lent);
      if touched {
        ok := Remap(region, k, s0, a.lent);
        if ok {
          assert Snaps(regions) == s1;
          SpaceKeptBytes(holes, s1, m.xlat[root], own, ram1, m.ram, spare1);
          SameBytesTwice(s0, a.ram, a.spare, s1, ram1, spare1, s1, m.ram);
        }
      } else {
        ok := true;
        assert s1 == s0;
        RamSame(m.ram, m.Spare());
      }
      if ok { GrowIsolated(a, spare1, ram1); }
    }

    lemma {:induction false} GrowIsolated(a: Shot, spare1: set<nat>, ram1: seq<Page>)
      requires a.own <= a.lent && a.lent !! a.spare && Handed(a.ram, ram1, a.spare, spare1, a.lent, m.lent)
      requires SameOutside(ram1, m.ram, spare1) && m.Spare() == spare1 && own == a.own + (m.lent - a.lent)
      requires m.xlat.Keys == a.xlat.Keys && forall r :: r in a.xlat && r != root ==> m.xlat[r] == a.xlat[r]
      ensures Isolated(root, a, Now(), {})
    {
      hide Isolated, Handed, SameOutside;
      IsolatedGrow(root, a, Now(), spare1, ram1);
    }

    /** memory_mapping::fault_hit: what the invariants are once the page may have got a frame. */
    method FaultPage(region: MemoryMapping, ghost k: nat, address: nat) returns (ok: bool, result: FaultResult)
      requires Valid() && k < |regions| && regions[k] == region
      modifies region`pages, m, m.alloc, m.alloc.words
      ensures m.Valid() && m.xlat == old(m.xlat)
              && (ok <==> region.base <= address < region.base + region.size * 0x1000)
      ensures ok ==>
                && Regrown(region, k, old(Snaps(regions)), old(m.lent)) && old(m.lent) !! old(m.Spare())
                && Handed(old(m.ram), m.ram, old(m.Spare()), m.Spare(), old(m.lent), m.lent)
                && PageFaulted(old(Value(region)), Value(region), (address - region.base) / 0x1000, result,
                   old(m.alloc.Free), m.alloc.Free)
                && (result != RemapValid ==> m.lent == old(m.lent))
                && (result == RemapValid ==> NewIn(Value(region), m.xlat[root]) <= 1)
    {
      hide AddressSpace.Valid, Machine.Valid, SpaceOk, AllMapped, SameOutside, Snaps, NewIn, Grown, Handed,
           Machine.Spare;
      ghost var s0, a := Snaps(regions), Now();
      Opened();
      SpareParts(m);
      RegionFits(holes, s0, m.xlat[root], own, k);
      m.SpareFrames();
      if region.base <= address < region.base + region.size * 0x1000 {
        PageAt(s0[k], address);
        assert PageOk(region.pages[(address - region.base) / 0x1000]);
      }
      ok, result := region.FaultHit(m, address);
      if !ok { return; }
      assert Snaps(regions) == s0[k := WithPages(s0[k], region.pages)];
      HandSpare(m, a);
      if result == RemapValid {
        NewAfterOne(holes, s0, m.xlat[root], own, k, region.pages, (address - region.base) / 0x1000);
      }
    }

    /** fault_hit once the lookup has found a region. */
    method FaultIn(region: MemoryMapping, ghost k: nat, address: nat) returns (ok: bool, accepted: bool)
      requires Valid() && k < |regions| && regions[k] == region
      modifies this`own, region, m, m.alloc, m.alloc.words
      ensures !(region.base <= address < region.base + region.size * 0x1000) ==> !ok
      ensures ok ==>
              Valid() && |m.alloc.Free| + 4 >= |old(m.alloc.Free)|
              && FaultDone(root, old(Look()), Look(), k, address, accepted)
      ensures region.base <= address < region.base + region.size * 0x1000 ==>
                var i := (address - region.base) / 0x1000;
                && i < |old(region.pages)|
                && (|old(m.alloc.Free)| >= 4 || old(region.pages)[i].backed || old(m.alloc.Free) == {} ==> ok)
    {
      hide AddressSpace.Valid, Machine.Valid, SpaceOk, AllMapped, AllDifferent, SameOutside, Snaps, MapPart, PagesPart,
           NewIn, Grown, Handed;
      hide Isolated, AllSameBytes, Machine.Spare, FaultDone;
      ghost var s0, a, idx: nat := Snaps(regions), Now(), 0;
      Opened();
      RegionFits(holes, s0, m.xlat[root], own, k);
      if region.base <= address < region.base + region.size * 0x1000 {
        idx := (address - region.base) / 0x1000;
        PageAt(s0[k], address);
        assert PageOk(region.pages[idx]);
        BackedMapped(holes, s0, m.xlat[root], own, k, idx);
      }
      var result;
      ok, result := FaultPage(region, k, address);
      if !ok { return false, false; }
      ok := AfterTouch(region, result == RemapValid, k, s0, a);
      accepted := result == RemapValid || result == Ignore;
      if ok { FaultEnds(old(Look()), k, idx, result == RemapValid, address); }
    }

    lemma {:induction false} FaultEnds(a: View, k: nat, i: nat, touched: bool, address: nat)
      requires PageTouched(a, k, i, touched) && a.regions[k].span.base <= address
               && i == (address - a.regions[k].span.base) / 0x1000
      requires Value(regions[k]).span == a.regions[k].span && |regions[k].pages| == regions[k].size
      requires address / 0x1000 == First(a.regions[k]) + i && i < a.regions[k].span.size
      requires a.regions[k].pages[i].backed || a.regions[k].pages[i].reserved
      requires a.regions[k].pages[i].backed ==> address / 0x1000 in a.shot.xlat[root]
      ensures FaultDone(root, a, Look(), k, address, !a.regions[k].pages[i].backed)
    {
      hide Isolated, AllSameBytes, Snaps, PagesPart, MapPart, Unbacked, PageStep;
      PageDone(a, k, i, touched);
      if touched {
        HeldMapped(a.shot.xlat, root, Value(regions[k]), address / 0x1000);
        UnbackedDrops(a.regions[k].pages, i, regions[k].pages[i].ptr);
      }
      PageKeys(root, a, Look(), k, i);
    }

    /** One page of region k has been touched, and the region mapped again if that gave it a frame. */
    ghost predicate PageTouched(a: View, k: nat, i: nat, touched: bool)
      reads this, regions, m, m.alloc
    {
      && k < |regions| == |a.regions| && i < |a.regions[k].pages| == |regions[k].pages| && root in a.shot.xlat
      && Snaps(regions) == a.regions[k := WithPages(a.regions[k], regions[k].pages)] && holes == a.holes
      && regions[k].pages == a.regions[k].pages[i := regions[k].pages[i]]
      && (touched <==> !a.regions[k].pages[i].backed && a.shot.free != {})
      && regions[k].pages[i]
         == (if touched then BackingPage(regions[k].pages[i].ptr, true, true) else a.regions[k].pages[i])
      && m.xlat == (if touched then MapPart(a.shot.xlat, root, Value(regions[k]), regions[k].size) else a.shot.xlat)
      && Isolated(root, a.shot, Now(), {}) && AllSameBytes(a.regions, a.shot.ram, Snaps(regions), m.ram, a.shot.spare)
      && m.Spare() <= a.shot.spare
    }

    lemma {:induction false} PageDone(a: View, k: nat, i: nat, touched: bool)
      requires PageTouched(a, k, i, touched)
      ensures PageStep(root, a, Look(), k, i)
    {
      hide Isolated, AllSameBytes, Snaps, PagesPart;
    }

    /**
     * fault_hit. An address at which some region ends makes the kernel panic (ok is false), even
     * when another region owns it. Any other fault is accepted exactly when a region owns the
     * address and the page has no frame; with a frame for the page and three for page tables it
     * is then backed, and the number of pages that can still fault falls by one. What the regions
     * read as never changes.
     */
    method FaultHit(address: nat) returns (ok: bool, accepted: bool, ghost k: nat)
      requires Valid()
      modifies this`own, regions, m, m.alloc, m.alloc.words
      ensures EndsAt(SpanList(regions), address) ==> !ok
      ensures |old(m.alloc.Free)| >= 4 && !EndsAt(SpanList(regions), address) ==> ok
      ensures !HasOwner(SpanList(regions), address) && !EndsAt(SpanList(regions), address) ==> ok
      ensures ok ==>
              Valid() && |m.alloc.Free| + 4 >= |old(m.alloc.Free)|
              && FaultStep(root, old(Look()), Look(), address, accepted, k)
      ensures ok ==> (k < |regions| <==> HasOwner(SpanList(regions), address))
    {
      hide Machine.Valid, SpaceOk, AllMapped, AllDifferent, Snaps, EndsAt, HasOwner, FoundAt, FaultDone, SpanList;
      var t := RegionForAddress(address);
      k := t;
      SnapSpans(regions);
      LookupSpace(holes, Snaps(regions), m.xlat[root], own, address, k);
      if t == |regions| { return true, false, k; }
      ok, accepted := FaultIn(regions[t], k, address);
    }

    /** memory_mapping::touch: what the invariants are once the page may have got a frame. */
    method TouchPage(region: MemoryMapping, ghost k: nat, idx: nat) returns (touched: bool)
      requires Valid() && k < |regions| && regions[k] == region && idx < region.size
      modifies region`pages, m, m.alloc, m.alloc.words
      ensures m.Valid() && m.xlat == old(m.xlat) && Regrown(region, k, old(Snaps(regions)), old(m.lent))
              && old(m.lent) !! old(m.Spare())
      ensures Handed(old(m.ram), m.ram, old(m.Spare()), m.Spare(), old(m.lent), m.lent)
      ensures idx < |old(region.pages)| == |region.pages| && NewIn(Value(region), m.xlat[root]) <= 1
      ensures touched <==> !old(region.pages)[idx].backed && old(m.alloc.Free) != {}
      ensures !touched ==>
              region.pages == old(region.pages) && m.lent == old(m.lent) && m.alloc.Free == old(m.alloc.Free)
      ensures touched ==>
                && region.pages == old(region.pages)[idx := BackingPage(region.pages[idx].ptr, true, true)]
                && |m.alloc.Free| == |old(m.alloc.Free)| - 1
    {
      hide AddressSpace.Valid, Machine.Valid, SpaceOk, AllMapped, SameOutside, Snaps, NewIn, Grown, Handed,
           Machine.Spare;
      ghost var s0, a := Snaps(regions), Now();
      Opened();
      SpareParts(m);
      RegionFits(holes, s0, m.xlat[root], own, k);
      m.SpareFrames();
      assert PageOk(region.pages[idx]);
      touched := region.Touch(m, idx);
      assert Snaps(regions) == s0[k := WithPages(s0[k], region.pages)];
      HandSpare(m, a);
      NewAfterOne(holes, s0, m.xlat[root], own, k, region.pages, idx);
    }

    /** touch; at an address at which a region ends the code reads behind the region's pages, and ok is false. */
    method Touch(address: nat) returns (ok: bool, ghost k: nat)
      requires Valid()
      modifies this`own, regions, m, m.alloc, m.alloc.words
      ensures EndsAt(SpanList(regions), address) ==> !ok
      ensures |old(m.alloc.Free)| >= 4 && !EndsAt(SpanList(regions), address) ==> ok
      ensures !HasOwner(SpanList(regions), address) && !EndsAt(SpanList(regions), address) ==> ok
      ensures ok ==>
              Valid() && |m.alloc.Free| + 4 >= |old(m.alloc.Free)| && TouchStep(root, old(Look()), Look(), address, k)
      ensures ok ==> (k < |regions| <==> HasOwner(SpanList(regions), address))
    {
      hide Machine.Valid, SpaceOk, AllMapped, AllDifferent, Snaps, EndsAt, HasOwner, FoundAt, PageStep, SpanList;
      var t := RegionForAddress(address);
      k := t;
      SnapSpans(regions);
      LookupSpace(holes, Snaps(regions), m.xlat[root], own, address, k);
      if t == |regions| { return true, k; }
      var idx := (address - regions[t].base) / 0x1000;
      if idx >= regions[t].size { return false, k; }
      ok := TouchIn(regions[t], k, idx);
    }

    method TouchIn(region: MemoryMapping, ghost k: nat, idx: nat) returns (ok: bool)
      requires Valid() && k < |regions| && regions[k] == region && idx < region.size
      modifies this`own, region, m, m.alloc, m.alloc.words
      ensures |old(m.alloc.Free)| >= 4 ==> ok
      ensures ok ==> Valid() && |m.alloc.Free| + 4 >= |old(m.alloc.Free)| && PageStep(root, old(Look()), Look(), k, idx)
    {
      hide AddressSpace.Valid, Machine.Valid, SpaceOk, AllMapped, AllDifferent, SameOutside, Snaps, MapPart, PagesPart,
           NewIn, Grown, Handed;
      hide Isolated, AllSameBytes, Machine.Spare, PageStep;
      ghost var s0, a := Snaps(regions), Now();
      Opened();
      var touched := TouchPage(region, k, idx);
      ok := AfterTouch(region, touched, k, s0, a);
      if ok { PageDone(old(Look()), k, idx, touched); }
    }

    /** touch_all of the region the lookup finds: its pages are backed as far as frames go. */
    method TouchAll(address: nat) returns (ok: bool, ghost k: nat)
      requires Valid()
      modifies this`own, regions, m, m.alloc, m.alloc.words
      ensures FoundAt(SpanList(regions), address, k) && (k == |regions| ==> ok)
      ensures k < |regions| && |old(m.alloc.Free)| >= 4 * regions[k].size ==> ok
      ensures ok ==> Valid() && TouchAllStep(root, old(Look()), Look(), address, k)
      ensures ok && k < |regions| ==> |m.alloc.Free| + 4 * regions[k].size >= |old(m.alloc.Free)|
    {
      hide Machine.Valid, SpaceOk, AllMapped, AllDifferent, Snaps, FoundAt, GrowStep, SpanList;
      var t := RegionForAddress(address);
      k := t;
      SnapSpans(regions);
      FoundRange(SpanList(regions), address, k);
      if t == |regions| { return true, k; }
      ok := TouchAllIn(regions[t], k);
    }

    method TouchAllIn(region: MemoryMapping, ghost k: nat) returns (ok: bool)
      requires Valid() && k < |regions| && regions[k] == region
      modifies this`own, region, m, m.alloc, m.alloc.words
      ensures |old(m.alloc.Free)| >= 4 * region.size ==> ok
      ensures ok ==>
              Valid() && |m.alloc.Free| + 4 * region.size >= |old(m.alloc.Free)|
              && GrowStep(root, old(Look()), Look(), k)
    {
      hide AddressSpace.Valid, Machine.Valid, SpaceOk, AllMapped, SameOutside, Snaps, MapPart, PagesPart, Grown, Handed,
           Isolated, AllSameBytes, Machine.Spare, GrowStep;
      ghost var s0, a := Snaps(regions), Now();
      Opened();
      SpareParts(m);
      RegionFits(holes, s0, m.xlat[root], own, k);
      assert forall i :: 0 <= i < region.size ==> PageOk(region.pages[i]);
      m.SpareFrames();
      var touched := region.TouchAll(m);
      GrownLength(s0[k].pages, region.pages, a.lent, m.lent);
      assert Snaps(regions) == s0[k := WithPages(s0[k], region.pages)];
      HandSpare(m, a);
      NewPagesBound(Value(region), m.xlat[root], region.size);
      ok := AfterTouch(region, touched, k, s0, a);
      if ok { GrowEnds(old(Look()), k); }
    }

    lemma {:induction false} GrowEnds(a: View, k: nat)
      requires k < |regions| == |a.regions| && holes == a.holes && m.Spare() <= a.shot.spare
               && Isolated(root, a.shot, Now(), {})
      requires Snaps(regions) == a.regions[k := WithPages(a.regions[k], regions[k].pages)]
      requires AllSameBytes(a.regions, a.shot.ram, Snaps(regions), m.ram, a.shot.spare)
      requires |regions[k].pages| == |a.regions[k].pages|
               && Grown(a.regions[k].pages, regions[k].pages, a.shot.lent, m.lent)
      requires |a.shot.free| >= |regions[k].pages| ==>
               forall i :: 0 <= i < |regions[k].pages| ==> regions[k].pages[i].backed
      ensures GrowStep(root, a, Look(), k)
    {
      hide Snaps, Isolated, AllSameBytes, Grown, Machine.Spare;
    }


    // ----- copying in and out

    /** ensure_load_store has been run for a copy; was and a are the region and the machine before. */
    ghost predicate Prepared(region: MemoryMapping, touched: bool, offset: nat, n: nat, was: Region, a: Shot)
      reads region, m, m.alloc
    {
      && Handed(a.ram, m.ram, a.spare, m.Spare(), a.lent, m.lent) && a.lent !! a.spare && m.alloc.Free <= a.free
      && (!touched ==> region.pages == was.pages && m.lent == a.lent)
      && |m.alloc.Free| + region.size >= |a.free| && 0 < |m.ram| && 0 !in a.spare
      && |region.pages| == region.size && RegionOk(Value(region))
      && CopyFrames(Value(region), offset, n, |m.ram|, m.Spare())
      && (forall i :: 0 <= i < region.size && Reaches(offset, n, i) ==> Plain(m, Frames(PtrsOf(region.pages))[i]))
      && (Fitting(offset, n, region.size) && |a.free| >= region.size && TouchFits(offset, n) ==>
         CopyBacked(Value(region), offset, n))
    }

    /** memory_mapping::load and store up to the copy: pages are touched. */
    method Prepare(region: MemoryMapping, ghost k: nat, offset: nat, n: nat) returns (touched: bool)
      requires Valid() && k < |regions| && regions[k] == region && offset + n + 0xFFF < TWO64
      requires Targets(Value(region), offset, n, |m.ram|, m.Spare())
      modifies region`pages, m, m.alloc, m.alloc.words
      ensures m.Valid() && m.xlat == old(m.xlat) && Regrown(region, k, old(Snaps(regions)), old(m.lent))
      ensures Prepared(region, touched, offset, n, old(Value(region)), old(Now()))
    {
      hide Machine.Valid, SpaceOk, AllMapped, Snaps, Grown, Handed, Frames, CopyBacked, Reaches, Machine.Spare,
           CopyFrames, RegionOk, Plain, Targets;
      ghost var s0, a := Snaps(regions), Now();
      SpareParts(m);
      RegionPages(holes, s0, m.xlat[root], own, k);
      FramesApart(m);
      touched := region.EnsureLoadStore(m, offset, n);
      GrownLength(s0[k].pages, region.pages, a.lent, m.lent);
      ghost var s1 := Snaps(regions);
      assert s1 == s0[k := WithPages(s0[k], region.pages)];
      HandSpare(m, a);
      FramesApart(m);
      HandedFrames(a.ram, m.ram, a.free, m.alloc.Free, a.lent, m.lent);
      HandedFrames(a.ram, m.ram, a.spare, m.Spare(), a.lent, m.lent);
      CopyReady(holes, s0, m.xlat[root], own, k, region.pages, a.lent, m.lent, |m.ram|, a.spare, m.Spare(), offset, n);
      PlainPtrs(m, Value(region), offset, n);
      if Fitting(offset, n, region.size) && |a.free| >= region.size && TouchFits(offset, n) {
        if n > 0 { FittingEnd(offset, n, region.size); }
        TouchedIsBacked(s1[k], offset, n);
      }
    }

    /** memory_mapping::load up to the remapping: pages are touched, then the bytes go through the window. */
    method CopyInto(region: MemoryMapping, ghost k: nat, offset: nat, data: seq<bv8>) returns (ok: bool, touched: bool)
      requires Valid() && WindowsClear(m) && k < |regions| && regions[k] == region
      requires region.size <= WINDOW_PAGES && offset + |data| + 0xFFF < TWO64
               && Targets(Value(region), offset, |data|, |m.ram|, m.Spare())
      modifies region`pages, m, m.alloc, m.alloc.words
      ensures |old(m.alloc.Free)| >= 4 * region.size && Fitting(offset, |data|, region.size) ==> ok
      ensures ok ==> m.Valid() && m.xlat == old(m.xlat) && Regrown(region, k, old(Snaps(regions)), old(m.lent))
      ensures ok ==> CopiedInto(region, touched, k, offset, data, old(Snaps(regions)), old(Now()))
    {
      hide Machine.Valid, SpaceOk, AllMapped, SameOutside, Snaps, Grown, Handed, Written, Frames, Loaded, CopyBacked,
           Reaches, Outside, Machine.Spare, CopyFrames, RegionOk, AllDifferent, Plain, TouchFits;
      ghost var s0, a := Snaps(regions), Now();
      touched := Prepare(region, k, offset, |data|);
      FramesApart(m);
      ghost var s1, ram1, spare1 := Snaps(regions), m.ram, m.Spare();
      ok := MappingLoad(m, PtrsOf(region.pages), offset, data);
      if ok {
        assert Snaps(regions) == s1;
        HandedFrames(a.ram, ram1, a.spare, spare1, a.lent, m.lent);
        CopyDone(holes, s0, m.xlat[root], own, k, region.pages, a.lent, m.lent, a.ram, ram1, m.ram, a.spare, spare1,
          offset, data);
      }
    }

    /** The bytes are in place; s0 and a are the state before. */
    ghost predicate CopiedInto(region: MemoryMapping, touched: bool, k: nat, offset: nat, data: seq<bv8>,
                               s0: seq<Region>, a: Shot)
      reads this`own, this`regions, regions, region, m, m.alloc
    {
      && k < |s0| && Fitting(offset, |data|, region.size) && 0 < |a.ram| && 0 !in a.spare && a.lent !! a.spare
      && (!touched ==> region.pages == s0[k].pages && m.lent == a.lent)
      && |m.alloc.Free| + 4 * region.size >= |a.free| && m.alloc.Free <= a.free
      && m.Spare() <= a.spare && m.lent - a.lent <= a.spare
      && Loaded(s0, a.ram, Snaps(regions), m.ram, k, offset, data, a.spare)
      && SameOutside(a.ram, m.ram, a.spare + own + Outside(Value(region), offset, |data|))
      && (|a.free| >= region.size && TouchFits(offset, |data|) ==> CopyBacked(Value(region), offset, |data|))
    }

    /**
     * What follows a copy: the region is mapped again if pages were touched for it; s0 and a are
     * the state before the copy.
     */
    method AfterCopy(region: MemoryMapping, touched: bool, ghost k: nat, ghost s0: seq<Region>, ghost a: Shot,
                     ghost spill: set<nat>) returns (ok: bool)
      requires m.Valid() && root in m.xlat && Regrown(region, k, s0, a.lent) && a.xlat == m.xlat && a.own == own
      requires !touched ==> region.pages == s0[k].pages && m.lent == a.lent
      requires m.Spare() <= a.spare && m.lent - a.lent <= a.spare && SameOutside(a.ram, m.ram, a.spare + own + spill)
      modifies this`own, region`mapped, m, m.alloc, m.alloc.words
      ensures |old(m.alloc.Free)| >= 3 * region.size ==> ok
      ensures ok ==>
                && Valid() && m.lent == old(m.lent) && own == old(own) + (m.lent - a.lent)
                && m.alloc.Free <= old(m.alloc.Free) && |m.alloc.Free| + 3 * region.size >= |old(m.alloc.Free)|
                && Isolated(root, a, Now(), spill) && m.Spare() == old(m.Spare())
                && SameOutside(old(m.ram), m.ram, m.Spare())
    {
      hide Machine.Valid, SpaceOk, AllDifferent, AllMapped, SameOutside, Snaps, MapPart, PagesPart, Grown, Isolated,
           Machine.Spare;
      ghost var s1, ram1, own0 := Snaps(regions), m.ram, own;
      SpaceGrow(holes, s0, m.xlat[root], own, k, region.pages, a.lent, m.lent);
      RegionFits(holes, s1, m.xlat[root] + PagesMap(s1[k]), own + (m.lent - a.lent), k);
      NewPagesBound(Value(region), m.xlat[root], region.size);
      GrownLent(s0[k].pages, region.pages, a.lent, m.lent);
      if touched {
        ok := Remap(region, k, s0, a.lent);
      } else {
        ok := true;
        assert s1 == s0;
        assert own0 + (m.lent - a.lent) == own0;
        RamSame(m.ram, m.Spare());
      }
      if ok { IsolatedCopy(root, a, Now(), m.Spare(), ram1, spill); }
    }

    /** load once the region has been found. */
    method LoadIn(region: MemoryMapping, ghost k: nat, offset: nat, data: seq<bv8>) returns (ok: bool)
      requires Valid() && WindowsClear(m) && k < |regions| && regions[k] == region
      requires region.size <= WINDOW_PAGES && offset + |data| + 0xFFF < TWO64
               && Targets(Value(region), offset, |data|, |m.ram|, m.Spare())
      modifies this`own, region, m, m.alloc, m.alloc.words
      ensures |old(m.alloc.Free)| >= 7 * region.size && Fitting(offset, |data|, region.size) ==> ok
      ensures ok ==> Valid() && WindowsClear(m) && LoadDone(root, old(Look()), Look(), k, offset, data)
    {
      hide Machine.Valid, SpaceOk, AllDifferent, AllMapped, SameOutside, Snaps, Grown, Isolated, Loaded, CopyBacked,
           Fitting, TouchFits, Outside, Pointed, Harmless, Machine.Spare, Targets;
      ghost var s0, a := Snaps(regions), Now();
      FramesApart(m);
      var touched;
      ok, touched := CopyInto(region, k, offset, data);
      if !ok { return; }
      ghost var s1, ram1, out := Snaps(regions), m.ram, Outside(Value(region), offset, |data|);
      ok := AfterCopy(region, touched, k, s0, a, out);
      if ok {
        assert Snaps(regions) == s1;
        Opened();
        FramesApart(m);
        GrownLength(s0[k].pages, region.pages, a.lent, m.lent);
        StillClear(root, a, Now(), out, m.kernelRoot);
        LoadSettles(root, holes, a, Now(), s0, s1, ram1, k, offset, data);
      }
    }

    /**
     * The region that the lookup finds at the address, if any, fits the copy window, and what it is
     * pointed at holds bytes in use.
     */
    predicate Copyable(address: nat, n: nat)
      reads this`regions, regions, m, m.alloc, m.alloc.words
    {
      forall k :: 0 <= k < |regions| && FoundAt(SpanList(regions), address, k) && regions[k].base <= address ==>
        regions[k].size <= WINDOW_PAGES && CopyInUse(regions[k], address - regions[k].base, n)
    }

    predicate CopyInUse(region: MemoryMapping, offset: nat, n: nat)
      reads region, m, m.alloc, m.alloc.words
    {
      forall i ::
        0 <= i < |region.pages| && Direct(Value(region), i) && Reaches(offset, n, i) ==>
        m.InUse(FrameAt(Value(region), i))
    }

    lemma {:induction false} InUseTargets(region: MemoryMapping, offset: nat, n: nat)
      requires m.Valid() && CopyInUse(region, offset, n)
      ensures Targets(Value(region), offset, n, |m.ram|, m.Spare())
    {
      hide Machine.Valid, Machine.InUse, Machine.Spare, Reaches;
      forall i: nat | Direct(Value(region), i) && Reaches(offset, n, i)
        ensures FrameAt(Value(region), i) < |m.ram| && FrameAt(Value(region), i) !in m.Spare()
      {
        m.UsedIsInUse(FrameAt(Value(region), i));
      }
    }

    /**
     * load. The region the lookup finds reads as data in the copied range wherever its pages have
     * frames, and as before elsewhere; see LoadDone for where other bytes go. No other context
     * changes and the copy window is empty again. It is survived if the copy fits the region and
     * there are seven free frames a page; a copy that does not fit is not. At the end of a region
     * only an empty copy fits.
     */
    method Load(address: nat, data: seq<bv8>) returns (ok: bool, ghost k: nat)
      requires Valid() && WindowsClear(m) && Copyable(address, |data|) && address + |data| + 0xFFF < TWO64
      modifies this`own, regions, m, m.alloc, m.alloc.words
      ensures FoundAt(SpanList(regions), address, k) && (k == |regions| ==> ok)
      ensures ok ==> Valid() && WindowsClear(m) && LoadStep(root, old(Look()), Look(), address, data, k)
      ensures k < |regions| ==>
                && regions[k].base <= address
                && ((|old(m.alloc.Free)| >= 7 * regions[k].size
                     && Fitting(address - regions[k].base, |data|, regions[k].size)) ==> ok)
      ensures EndsAt(SpanList(regions), address) && data != [] ==> !ok
      ensures HasOwner(SpanList(regions), address) && !EndsAt(SpanList(regions), address) ==>
              k < |regions| && Covers(SpanList(regions)[k], address)
      ensures k == |regions| <==> !HasOwner(SpanList(regions), address) && !EndsAt(SpanList(regions), address)
    {
      hide AddressSpace.Valid, Machine.Valid, SpaceOk, AllMapped, AllDifferent, Snaps, EndsAt, HasOwner, FoundAt,
           WindowsClear, LoadDone, Targets, AddressSpace.CopyInUse, Machine.Spare, SpanList;
      Opened();
      var t := RegionForAddress(address);
      k := t;
      SnapSpans(regions);
      LookupSpace(holes, Snaps(regions), m.xlat[root], own, address, k);
      if t == |regions| { return true, k; }
      InUseTargets(regions[t], address - regions[t].base, |data|);
      ok := LoadIn(regions[t], k, address - regions[t].base, data);
      if ok { LoadFits(root, old(Look()), Look(), k, address - regions[t].base, data); }
    }

    /** memory_mapping::store up to the remapping. */
    method CopyFrom(region: MemoryMapping, ghost k: nat, offset: nat, n: nat)
      returns (ok: bool, touched: bool, data: seq<bv8>)
      requires Valid() && WindowsClear(m) && k < |regions| && regions[k] == region
      requires region.size <= WINDOW_PAGES && offset + n + 0xFFF < TWO64
               && Targets(Value(region), offset, n, |m.ram|, m.Spare())
      modifies region`pages, m, m.alloc, m.alloc.words
      ensures |old(m.alloc.Free)| >= 4 * region.size && Fitting(offset, n, region.size) ==> ok
      ensures ok ==> m.Valid() && m.xlat == old(m.xlat) && Regrown(region, k, old(Snaps(regions)), old(m.lent))
      ensures ok ==> |data| == n && CopiedFrom(region, touched, k, offset, data, old(Snaps(regions)), old(Now()))
    {
      hide Machine.Valid, SpaceOk, AllMapped, SameOutside, Snaps, Grown, Handed, Frames, CopyBacked, Reaches, Reads,
           Machine.Spare, CopyFrames, RegionOk, AllDifferent, Plain, AllSameBytes, Stored, TouchFits;
      ghost var s0, a := Snaps(regions), Now();
      touched := Prepare(region, k, offset, n);
      ghost var s1, ram1, spare1 := Snaps(regions), m.ram, m.Spare();
      ok, data := MappingStore(m, PtrsOf(region.pages), offset, n);
      if ok {
        assert Snaps(regions) == s1;
        HandedFrames(a.ram, ram1, a.spare, spare1, a.lent, m.lent);
        ReadDone(holes, s0, m.xlat[root], own, k, region.pages, a.lent, m.lent, a.ram, ram1, m.ram, a.spare, spare1,
          offset, data);
      }
    }

    /** The bytes have been read; s0 and a are the state before. */
    ghost predicate CopiedFrom(region: MemoryMapping, touched: bool, k: nat, offset: nat, data: seq<bv8>,
                               s0: seq<Region>, a: Shot)
      reads this`own, this`regions, regions, region, m, m.alloc
    {
      && k < |s0| && Fitting(offset, |data|, region.size) && a.lent !! a.spare
      && (!touched ==> region.pages == s0[k].pages && m.lent == a.lent)
      && |m.alloc.Free| + 4 * region.size >= |a.free| && m.alloc.Free <= a.free
      && m.Spare() <= a.spare && m.lent - a.lent <= a.spare
      && AllSameBytes(s0, a.ram, Snaps(regions), m.ram, a.spare) && SameOutside(a.ram, m.ram, a.spare)
      && Stored(s0[k], Value(region), a.ram, offset, data)
    }

    /** store once the region has been found. */
    method StoreIn(region: MemoryMapping, ghost k: nat, offset: nat, n: nat) returns (ok: bool, data: seq<bv8>)
      requires Valid() && WindowsClear(m) && k < |regions| && regions[k] == region
      requires region.size <= WINDOW_PAGES && offset + n + 0xFFF < TWO64
               && Targets(Value(region), offset, n, |m.ram|, m.Spare())
      modifies this`own, region, m, m.alloc, m.alloc.words
      ensures |old(m.alloc.Free)| >= 7 * region.size && Fitting(offset, n, region.size) ==> ok
      ensures ok ==> Valid() && WindowsClear(m) && |data| == n && StoreDone(root, old(Look()), Look(), k, offset, data)
    {
      hide AddressSpace.Valid, Machine.Valid, SpaceOk, AllDifferent, AllMapped, SameOutside, Snaps, Grown, Isolated,
           AllSameBytes, Fitting, Stored, Machine.Spare, Targets;
      ghost var s0, a := Snaps(regions), Now();
      Opened();
      FramesApart(m);
      var touched;
      ok, touched, data := CopyFrom(region, k, offset, n);
      if !ok { return; }
      ghost var s1, ram1 := Snaps(regions), m.ram;
      SameInMore(a.ram, ram1, a.spare, a.spare + own + {});
      ok := AfterCopy(region, touched, k, s0, a, {});
      if ok {
        assert Snaps(regions) == s1;
        Opened();
        FramesApart(m);
        GrownLength(s0[k].pages, region.pages, a.lent, m.lent);
        SpaceKeptBytes(holes, s1, m.xlat[root], own, ram1, m.ram, m.Spare());
        SameBytesTwice(s0, a.ram, a.spare, s1, ram1, m.Spare(), s1, m.ram);
        StillClear(root, a, Now(), {}, m.kernelRoot);
      }
    }

    /**
     * store: the bytes the region reads as, wherever its pages have frames, and those of frame 0
     * where they have none; nothing reads differently afterwards. Survived as load is.
     */
    method Store(address: nat, n: nat) returns (ok: bool, data: seq<bv8>, ghost k: nat)
      requires Valid() && WindowsClear(m) && Copyable(address, n) && address + n + 0xFFF < TWO64
      modifies this`own, regions, m, m.alloc, m.alloc.words
      ensures FoundAt(SpanList(regions), address, k) && (k == |regions| ==> ok)
      ensures ok ==> Valid() && WindowsClear(m) && StoreStep(root, old(Look()), Look(), address, n, data, k)
      ensures k < |regions| ==>
                && regions[k].base <= address
                && ((|old(m.alloc.Free)| >= 7 * regions[k].size
                     && Fitting(address - regions[k].base, n, regions[k].size)) ==> ok)
      ensures EndsAt(SpanList(regions), address) && n > 0 ==> !ok
      ensures HasOwner(SpanList(regions), address) && !EndsAt(SpanList(regions), address) ==>
              k < |regions| && Covers(SpanList(regions)[k], address)
      ensures k == |regions| <==> !HasOwner(SpanList(regions), address) && !EndsAt(SpanList(regions), address)
    {
      hide AddressSpace.Valid, Machine.Valid, SpaceOk, AllMapped, AllDifferent, Snaps, EndsAt, HasOwner, FoundAt,
           WindowsClear, StoreDone, Targets, AddressSpace.CopyInUse, Machine.Spare, SpanList, StoreStep;
      ghost var a := Look();
      Opened();
      SnapSpans(regions);
      var t := RegionForAddress(address);
      k := t;
      LookupSpace(holes, Snaps(regions), m.xlat[root], own, address, k);
      if t == |regions| {
        StoreNothing(root, a, address, n, k);
        return true, [], k;
      }
      InUseTargets(regions[t], address - regions[t].base, n);
      ok, data := StoreIn(regions[t], k, address - regions[t].base, n);
      if ok {
        StoreFits(root, a, Look(), k, address - regions[t].base, data);
        StoreFound(root, a, Look(), address, n, data, k);
      }
    }

    // ----- destroying a region

    /** unbind_region: the pages of region k become a hole, and the holes are merged. */
    method UnbindRegion(k: nat) returns (ghost h: nat)
      requires k < |regions| && forall i :: 0 <= i < |holes| ==> End(holes[i]) < 0x7FFF_FFFF_FFFF_FFFF
      modifies this`holes, this`regions
      ensures regions == old(regions)[..k] + old(regions)[k + 1..]
      ensures h <= |old(holes)| && IsSucc(old(holes), SpanList(old(regions))[k], h)
      ensures holes == Merge(PutHole(old(holes), SpanList(old(regions))[k], h))
    {
      hide Merge, MergeFrom, End;
      var hole := Span(regions[k].base, regions[k].size);
      var t := FindSucc(holes, hole);
      h := t;
      if t < |holes| {
        holes := holes[..t] + [hole] + holes[t..];
      } else {
        holes := [hole] + holes;
      }
      regions := regions[..k] + regions[k + 1..];
      holes := MergeHoles(holes);
    }

    /** The part of destroy before the region is deleted: it is unmapped and unbound. */
    method Vacate(region: MemoryMapping, k: nat) returns (ghost h: nat)
      requires Valid() && k < |regions| && regions[k] == region
      modifies this`holes, this`regions, region`mapped, m`tables, m`xlat
      ensures m.Valid() && root in m.xlat && AllDifferent(regions) && AllMapped(regions)
      ensures m.xlat == UnmapPart(old(m.xlat), root, old(Value(region)), region.size)
      ensures regions == old(regions)[..k] + old(regions)[k + 1..] && region !in regions
      ensures Snaps(regions) == old(Snaps(regions))[..k] + old(Snaps(regions))[k + 1..]
      ensures h <= |old(holes)| && IsSucc(old(holes), SpanList(old(regions))[k], h)
      ensures holes == Merge(PutHole(old(holes), SpanList(old(regions))[k], h))
      ensures var freed := OwnedFrames(old(Value(region)));
              freed <= own && SpaceOk(holes, Snaps(regions), m.xlat[root], own - freed)
    {
      hide Machine.Valid, SpaceOk, AllDifferent, AllMapped, Snaps, UnmapPart, SetPart, OwnedFrames, Merge, PutHole,
           IsSucc, ReturnedFrames, SpanList;
      ghost var s0, r, rest := Snaps(regions), Value(region), regions[..k] + regions[k + 1..];
      RegionFits(holes, s0, m.xlat[root], own, k);
      SpaceBounds(holes, s0, m.xlat[root], own);
      DestroyReady(holes, s0, m.xlat[root], own, k, m.lent);
      RemoveMapped(regions, k);
      SnapSpans(regions);
      SnapsRemove(regions, k);
      UnmapRegion(m, root, region);
      assert m.xlat[root] == old(m.xlat)[root] - PagesSet(r) && Snaps(rest) == s0[..k] + s0[k + 1..];
      h := UnbindRegion(k);
      SpaceRemove(old(holes), s0, old(m.xlat)[root], own, k, h);
    }

    lemma {:induction false} Opened()
      requires Valid()
      ensures m.Valid() && root in m.xlat && root != m.kernelRoot && AllDifferent(regions) && AllMapped(regions)
      ensures own <= m.lent && SpaceOk(holes, Snaps(regions), m.xlat[root], own)
    {
      hide Machine.Valid, SpaceOk, Snaps, AllDifferent, AllMapped;
    }

    lemma {:induction false} Closed()
      requires m.Valid() && root in m.xlat && root != m.kernelRoot && AllDifferent(regions) && AllMapped(regions)
      requires own <= m.lent && SpaceOk(holes, Snaps(regions), m.xlat[root], own)
      ensures Valid()
    {
      hide Machine.Valid, SpaceOk, Snaps, AllDifferent, AllMapped;
    }

    /**
     * destroy: the region's pages are unmapped, its range becomes a hole again, and each frame it
     * owned goes back to the allocator, once. Frames it was only pointed at stay where they are.
     */
    method Destroy(region: MemoryMapping, k: nat) returns (ghost h: nat)
      requires Valid() && k < |regions| && regions[k] == region
      modifies this`holes, this`regions, this`own, region`mapped, m`tables, m`xlat, m`lent, m.alloc, m.alloc.words
      ensures Valid()
      ensures regions == old(regions)[..k] + old(regions)[k + 1..]
      ensures Snaps(regions) == old(Snaps(regions))[..k] + old(Snaps(regions))[k + 1..]
      ensures h <= |old(holes)| && IsSucc(old(holes), SpanList(old(regions))[k], h)
      ensures holes == Merge(PutHole(old(holes), SpanList(old(regions))[k], h))
      ensures Dropped(root, old(Now()), Now(), old(Value(region)))
    {
      hide AddressSpace.Valid, Machine.Valid, Machine.Spare, SpaceOk, AllDifferent, AllMapped, Snaps, UnmapPart,
           SetPart, OwnedFrames;
      hide Dropped, Merge, PutHole, IsSucc, ReturnedFrames, OwnFrames, SpanList;
      ghost var r := Value(region);
      ghost var freed := OwnedFrames(r);
      Opened();
      m.SpareIs();
      DestroyReady(holes, Snaps(regions), m.xlat[root], own, k, m.lent);
      RegionFits(holes, Snaps(regions), m.xlat[root], own, k);
      h := Vacate(region, k);
      region.Delete(m);
      own := own - freed;
      Closed();
      m.SpareIs();
      IsDropped(root, old(Now()), Now(), r, m.pool);
    }
  }

  lemma {:induction false} SnapsRemove(rs: seq<MemoryMapping>, k: nat)
    requires k < |rs|
    ensures Snaps(rs[..k] + rs[k + 1..]) == Snaps(rs)[..k] + Snaps(rs)[k + 1..]
  {}

  lemma {:induction false} DestroyReady(holes: seq<Span>, s: seq<Region>, x: map<nat, nat>, own: set<nat>, k: nat,
                                        lent: set<nat>)
    requires SpaceOk(holes, s, x, own) && k < |s| && own <= lent
    ensures forall p: nat :: Held(s[k], p) ==> p in x
    ensures OwnFrames(s[k].pages, lent) && OwnedFrames(s[k]) == ReturnedFrames(s[k].pages, |s[k].pages|)
  {
    hide LayoutOk, MakeEntry, VmmFlags;
    var r := s[k];
    assert r in s;
    assert forall i: nat ::
           i < |r.pages| && Returnable(r.pages[i]) ==> Owns(r, i) && FrameAt(r, i) == Frame(r.pages[i]);
  }

  /** The region has left the context, and the frames that it owned are free; no byte has changed. */
  ghost predicate Dropped(root: nat, a: Shot, b: Shot, r: Region) {
    var freed := OwnedFrames(r);
    && root in a.xlat && b.xlat == UnmapPart(a.xlat, root, r, r.span.size) && b.ram == a.ram
    && freed <= a.own && b.own == a.own - freed && b.lent == a.lent - freed && b.free == a.free + freed
    && Isolated(root, a, b, {})
  }

  lemma {:induction false} IsDropped(root: nat, a: Shot, b: Shot, r: Region, pool: set<nat>)
    requires root in a.xlat && b.xlat == UnmapPart(a.xlat, root, r, r.span.size) && b.ram == a.ram
    requires var freed := OwnedFrames(r);
             freed <= a.own <= a.lent && b.own == a.own - freed && b.lent == a.lent - freed && b.free == a.free + freed
    requires a.lent <= pool && a.spare == pool - a.lent && b.spare == pool - b.lent
    ensures Dropped(root, a, b, r)
  {
    hide SetPart, OwnedFrames;
    var freed := OwnedFrames(r);
    assert (a.lent - freed) - (a.own - freed) == a.lent - a.own;
    assert b.spare + b.own <= a.spare + a.own;
  }

  lemma {:induction false} StoreNothing(root: nat, a: View, address: nat, n: nat, k: nat)
    requires FoundAt(SpansOf(a.regions), address, k) && k == |a.regions|
    ensures StoreStep(root, a, a, address, n, [], k)
  {
    hide FoundAt, StoreDone;
  }

  lemma {:induction false} StoreFound(root: nat, a: View, b: View, address: nat, n: nat, data: seq<bv8>, k: nat)
    requires FoundAt(SpansOf(a.regions), address, k) && k < |a.regions| && a.regions[k].span.base <= address
    requires |data| == n && StoreDone(root, a, b, k, address - a.regions[k].span.base, data)
    ensures StoreStep(root, a, b, address, n, data, k)
  {
    hide FoundAt, StoreDone;
  }

  lemma {:induction false} LoadFits(root: nat, a: View, b: View, k: nat, offset: nat, data: seq<bv8>)
    requires LoadDone(root, a, b, k, offset, data)
    ensures Fitting(offset, |data|, b.regions[k].span.size)
  {
    hide Loaded, Isolated, Harmless, Grown;
  }

  lemma {:induction false} StoreFits(root: nat, a: View, b: View, k: nat, offset: nat, data: seq<bv8>)
    requires StoreDone(root, a, b, k, offset, data)
    ensures Fitting(offset, |data|, b.regions[k].span.size)
  {
    hide Isolated, Stored, AllSameBytes, Grown;
  }

  /** What a read through the window has seen, and that it left everything as it was. */
  lemma {:induction false} ReadDone(holes: seq<Span>, s: seq<Region>, x: map<nat, nat>, own: set<nat>, k: nat,
                                    pages: seq<BackingPage>,
                                    lent: set<nat>, lent': set<nat>, ram: seq<Page>, ram1: seq<Page>, ram2: seq<Page>,
                                    spare: set<nat>, spare': set<nat>,
                                    offset: nat, data: seq<bv8>)
    requires SpaceOk(holes, s, x, own) && k < |s| && own <= lent && lent !! spare
             && Targets(s[k], offset, |data|, |ram|, spare)
    requires Grown(s[k].pages, pages, lent, lent') && Handed(ram, ram1, spare, spare', lent, lent')
             && SameOutside(ram1, ram2, spare')
    requires 0 < |ram1| && 0 !in spare && RegionOk(WithPages(s[k], pages))
             && Reads(ram2, Frames(PtrsOf(pages)), offset, data)
    ensures AllSameBytes(s, ram, s[k := WithPages(s[k], pages)], ram2, spare) && SameOutside(ram, ram2, spare)
    ensures Stored(s[k], WithPages(s[k], pages), ram, offset, data)
  {
    hide LayoutOk, Agree, Owned, Grown, Handed, RegionOk, Separate, Reads, SameOutside, Frames, CopyBacked, SpaceOk,
         Misses, Same, ByteAt, Targets, Reaches;
    var r' := WithPages(s[k], pages);
    var s' := s[k := r'];
    SpaceGrowBytes(holes, s, x, own, k, pages, lent, lent', ram, ram1, spare, spare');
    SpaceGrow(holes, s, x, own, k, pages, lent, lent');
    GrownLent(s[k].pages, pages, lent, lent');
    HandedFrames(ram, ram1, spare, spare', lent, lent');
    OwnHanded(ram, ram1, spare, spare', lent, lent', own);
    SpaceKeptBytes(holes, s', x + PagesMap(r'), own + (lent' - lent), ram1, ram2, spare');
    SameBytesTwice(s, ram, spare, s', ram1, spare', s', ram2);
    OutsideTwice(ram, ram1, ram2, spare, spare');
    ZeroKept(ram, ram2, spare);
    StoredBytes(r', ram2, offset, data);
    forall off: nat | offset <= off < offset + |data| ensures ByteAt(r', ram2, off) == ByteAt(s[k], ram, off) {
      ReachesByte(offset, |data|, off - offset);
      SpaceByteAt(holes, s, x, own, k, pages, lent, lent', ram, ram1, ram2, spare, spare', off, offset, |data|);
    }
  }

  lemma {:induction false} OwnHanded(ram: seq<Page>, ram': seq<Page>, spare: set<nat>, spare': set<nat>, lent: set<nat>,
                                     lent': set<nat>, own: set<nat>)
    requires Handed(ram, ram', spare, spare', lent, lent') && own <= lent
    ensures own + (lent' - lent) !! spare' && own + (lent' - lent) <= lent'
  {}

  /** A page the copy reaches reads the same through the growth of its region and after it. */
  lemma {:induction false} SpaceByteAt(holes: seq<Span>, s: seq<Region>, x: map<nat, nat>, own: set<nat>, k: nat,
                                       pages: seq<BackingPage>,
                                       lent: set<nat>, lent': set<nat>, ram: seq<Page>, ram1: seq<Page>,
                                       ram2: seq<Page>, spare: set<nat>, spare': set<nat>,
                                       off: nat, offset: nat, n: nat)
    requires SpaceOk(holes, s, x, own) && k < |s| && own <= lent && lent !! spare
             && Targets(s[k], offset, n, |ram|, spare)
    requires Grown(s[k].pages, pages, lent, lent') && Handed(ram, ram1, spare, spare', lent, lent')
             && SameOutside(ram1, ram2, spare')
    requires Reaches(offset, n, off / 0x1000)
    ensures ByteAt(WithPages(s[k], pages), ram2, off) == ByteAt(s[k], ram, off)
  {
    hide LayoutOk, Agree, Grown, RegionOk, ByteAt, Reaches, SameOutside, Handed;
    var r' := WithPages(s[k], pages);
    assert s[k] in s && RegionOk(s[k]);
    OwnedClear(s, own, s[k], spare);
    GrownByteAt(s[k], pages, ram, ram1, spare, spare', lent, lent', off);
    GrownDirect(s[k], pages, lent, lent');
    GrownClear(s[k], pages, ram, ram1, spare, spare', lent, lent');
    HandedFrames(ram, ram1, spare, spare', lent, lent');
    KeptByteAt(r', ram1, ram2, spare', off);
  }

  /** Memory that a call changes in spare frames only keeps frame 0. */
  lemma {:induction false} ZeroKept(ram: seq<Page>, ram': seq<Page>, spare: set<nat>)
    requires SameOutside(ram, ram', spare) && 0 !in spare && 0 < |ram|
    ensures |ram'| == |ram| && ram'[0] == ram[0]
  {}

  lemma {:induction false} IsolatedCopy(root: nat, a: Shot, b: Shot, spare1: set<nat>, ram1: seq<Page>, spill: set<nat>)
    requires a.own <= a.lent <= b.lent && b.lent - a.lent <= a.spare && b.spare <= spare1 <= a.spare
    requires SameOutside(a.ram, ram1, a.spare + a.own + spill) && SameOutside(ram1, b.ram, spare1)
             && b.own == a.own + (b.lent - a.lent)
    requires b.xlat.Keys == a.xlat.Keys && forall r :: r in a.xlat && r != root ==> b.xlat[r] == a.xlat[r]
    ensures Isolated(root, a, b, spill)
  {
    assert b.lent - b.own == a.lent - a.own;
  }

  /** Frames an address space gained were spare. */
  lemma {:induction false} GainedWereSpare(root: nat, a: Shot, b: Shot, spill: set<nat>)
    requires Isolated(root, a, b, spill) && a.own <= a.lent
    ensures b.lent - a.lent <= a.spare
  {
    forall f | f in b.lent - a.lent ensures f in a.spare {
      if f !in b.own { assert f in b.lent - b.own; }
    }
  }

  /** The windows belong to the kernel's context, which no address space maps into. */
  lemma {:induction false} StillClear(root: nat, a: Shot, b: Shot, spill: set<nat>, kernel: nat)
    requires Isolated(root, a, b, spill) && kernel in a.xlat && kernel != root
    ensures kernel in b.xlat && b.xlat[kernel] == a.xlat[kernel]
  {}

  /** What the copy wrote stays while the region is mapped again. */
  lemma {:induction false} LoadSettles(root: nat, holes: seq<Span>, a: Shot, b: Shot, s: seq<Region>, s': seq<Region>,
                                       ram1: seq<Page>, k: nat, offset: nat, data: seq<bv8>)
    requires k < |s| == |s'| && Loaded(s, a.ram, s', ram1, k, offset, data, a.spare) && root in b.xlat
             && SpaceOk(holes, s', b.xlat[root], b.own)
    requires b.own !! b.spare && b.spare <= a.spare && SameOutside(ram1, b.ram, b.spare) && 0 !in a.spare && 0 !in a.own
    requires s' == s[k := WithPages(s[k], s'[k].pages)] && Isolated(root, a, b, Outside(s'[k], offset, |data|))
    ensures Loaded(s, a.ram, s', b.ram, k, offset, data, a.spare)
    ensures SameOutside(a.ram, b.ram, a.spare + a.own + Pointed(s'[k], offset, |data|)) <==>
            Harmless(a.ram[0], s'[k], offset, data)
  {
    hide SameOutside, Isolated, Harmless, Outside, Pointed, Loaded;
    SpaceKind(holes, s', b.xlat[root], b.own, k);
    LoadedThen(holes, b.xlat[root], b.own, s, a.ram, s', ram1, b.ram, k, offset, data, a.spare, b.spare);
    LoadKeeps(root, a, b, s, s', k, offset, data);
  }

  lemma {:induction false} LoadedLength(s: seq<Region>, ram: seq<Page>, s': seq<Region>, ram': seq<Page>, k: nat,
                                        offset: nat, data: seq<bv8>, spare: set<nat>)
    requires Loaded(s, ram, s', ram', k, offset, data, spare)
    ensures k < |s| == |s'| && 0 < |ram| == |ram'|
  {
    hide Same, ByteAt, LoadedAt, Spilled;
  }

  lemma {:induction false} SpaceKind(holes: seq<Span>, s: seq<Region>, x: map<nat, nat>, own: set<nat>, k: nat)
    requires SpaceOk(holes, s, x, own) && k < |s|
    ensures OneKind(s[k])
  {
    hide LayoutOk, Agree, Owned, OneKind;
    assert RegionOk(s[k]);
  }

  lemma {:induction false} LoadedThen(holes: seq<Span>, x: map<nat, nat>, own: set<nat>, s: seq<Region>, ram: seq<Page>,
                                      s': seq<Region>, ram1: seq<Page>, ram2: seq<Page>,
                                      k: nat, offset: nat, data: seq<bv8>, spare: set<nat>, spare1: set<nat>)
    requires Loaded(s, ram, s', ram1, k, offset, data, spare) && SpaceOk(holes, s', x, own) && own !! spare1
             && spare1 <= spare
    requires SameOutside(ram1, ram2, spare1) && 0 !in spare && s' == s[k := WithPages(s[k], s'[k].pages)]
    ensures Loaded(s, ram, s', ram2, k, offset, data, spare)
  {
    hide ByteAt, Same, ReachedFrames, SpillByte, SpaceOk, SameOutside, LoadedAt, Pointed, Clear;
    SpaceKeptBytes(holes, s', x, own, ram1, ram2, spare1);
    var frames := spare + ReachedFrames(s'[k], offset, |data|);
    forall i | 0 <= i < |s| && i != k && Clear(s[i], Pointed(s'[k], offset, |data|))
      ensures Same(s[i], ram, s'[i], ram2, frames)
    {
      BothSame(s[i], ram, s'[i], ram1, s'[i], ram2, frames, spare1);
    }
    SpaceClear(holes, s', x, own, k, spare1);
    forall off: nat | !Loose(s'[k], off / 0x1000, spare) ensures ByteAt(s'[k], ram2, off) == ByteAt(s'[k], ram1, off) {
      KeptByteAt(s'[k], ram1, ram2, spare1, off);
    }
    ZeroKept(ram1, ram2, spare1);
  }

  lemma {:induction false} SpaceClear(holes: seq<Span>, s: seq<Region>, x: map<nat, nat>, own: set<nat>, k: nat,
                                      free: set<nat>)
    requires SpaceOk(holes, s, x, own) && k < |s| && own !! free
    ensures Clear(s[k], free)
  {
    hide LayoutOk, Agree, Clear;
    OwnedClear(s, own, s[k], free);
  }

  /** Every frame that was neither spare nor the space's own nor pointed at is as it was exactly when frame 0 is. */
  lemma {:induction false} LoadKeeps(root: nat, a: Shot, b: Shot, s: seq<Region>, s': seq<Region>, k: nat, offset: nat,
                                     data: seq<bv8>)
    requires Loaded(s, a.ram, s', b.ram, k, offset, data, a.spare) && OneKind(s'[k])
    requires Isolated(root, a, b, Outside(s'[k], offset, |data|)) && 0 !in a.spare && 0 !in a.own
    ensures SameOutside(a.ram, b.ram, a.spare + a.own + Pointed(s'[k], offset, |data|)) <==>
            Harmless(a.ram[0], s'[k], offset, data)
  {
    hide ByteAt, Same, Spilled, LastMiss, Pointed, CopyBacked, ReachedFrames, Clear, LoadedAt;
    if 0 in Pointed(s'[k], offset, |data|) {
      DirectNeverMisses(s'[k], offset, |data|);
    } else {
      SpillHarmless(a.ram[0], b.ram[0], s'[k], offset, data);
    }
  }

  lemma {:induction false} DirectNeverMisses(r: Region, offset: nat, n: nat)
    requires OneKind(r) && Pointed(r, offset, n) != {}
    ensures CopyBacked(r, offset, n) && forall at: nat :: !LastMiss(r, offset, n, at)
  {
    var f :| f in Pointed(r, offset, n);
    assert AllDirect(r);
    forall at: nat ensures !LastMiss(r, offset, n, at) { BackedNeverMisses(r, offset, n, at); }
  }

  /** Frames lent out are above the low ones, in memory, and not spare; frame 0 is nobody's. */
  lemma {:induction false} FramesApart(m: Machine)
    requires m.Valid()
    ensures (forall f :: f in m.lent ==> FIRST_FRAME <= f < |m.ram|) && m.lent !! m.Spare()
    ensures 0 !in m.Spare() && 0 !in m.lent && 0 < |m.ram|
  {
    hide Machine.Valid, Machine.Spare;
    m.SpareFrames();
    RamBound(m);
    assert forall f :: f in m.lent ==> f in m.lent + m.Spare();
    assert forall f :: f in m.Spare() ==> f in m.lent + m.Spare();
  }

  /** Touching pages takes free frames, so it takes spare ones. */
  lemma {:induction false} HandSpare(m: Machine, a: Shot)
    requires m.Valid() && Handed(a.ram, m.ram, a.free, m.alloc.Free, a.lent, m.lent)
             && a.spare == a.free + m.tables.Keys
    ensures Handed(a.ram, m.ram, a.spare, m.Spare(), a.lent, m.lent)
  {
    hide Machine.Valid;
    m.SpareFrames();
  }

  lemma {:induction false} SpareParts(m: Machine)
    ensures m.Spare() == m.alloc.Free + m.tables.Keys
  {}

  lemma {:induction false} HandedFrames(ram: seq<Page>, ram': seq<Page>, free: set<nat>, free': set<nat>,
                                        lent: set<nat>, lent': set<nat>)
    requires Handed(ram, ram', free, free', lent, lent')
    ensures SameOutside(ram, ram', free) && |ram'| == |ram| && free' <= free && lent' - lent <= free && lent' !! free'
  {}

  lemma {:induction false} RamBound(m: Machine)
    requires m.Valid()
    ensures 0 < |m.ram| <= 0x8_0000_0000_0000
  {
    hide FrameAllocator.Valid, TablesOk;
    KernelTable(m.tables, m.xlat, m.kernelRoot);
    assert m.kernelRoot in m.pool;
  }

  lemma {:induction false} FittingEnd(offset: nat, n: nat, size: nat)
    requires n > 0
    ensures Fitting(offset, n, size) <==> CopyEnd(offset, n) <= size
  {}

  lemma {:induction false} TouchedIsBacked(r: Region, offset: nat, n: nat)
    requires Fitting(offset, n, |r.pages|) && TouchFits(offset, n)
    requires n > 0 ==>
             forall i ::
             TouchFirst(offset) <= i < TouchFirst(offset) + TouchCount(n) && i < |r.pages| ==> r.pages[i].backed
    ensures CopyBacked(r, offset, n)
  {
    forall i: nat | i < |r.pages| && Reaches(offset, n, i) ensures r.pages[i].backed {
      TouchCoverage(offset, n);
    }
  }

  /** The frames r is pointed at where the copy reaches it are in memory and not spare. */
  ghost predicate Targets(r: Region, offset: nat, n: nat, len: nat, spare: set<nat>) {
    forall i: nat :: Direct(r, i) && Reaches(offset, n, i) ==> FrameAt(r, i) < len && FrameAt(r, i) !in spare
  }

  lemma {:induction false} RegionPages(holes: seq<Span>, s: seq<Region>, x: map<nat, nat>, own: set<nat>, k: nat)
    requires SpaceOk(holes, s, x, own) && k < |s|
    ensures |s[k].pages| == s[k].span.size
            && forall i :: 0 <= i < |s[k].pages| ==> s[k].pages[i].backed || s[k].pages[i].reserved
  {
    hide LayoutOk, Agree, Owned, OneKind;
    assert RegionOk(s[k]);
    assert forall i :: 0 <= i < |s[k].pages| ==> PageOk(s[k].pages[i]);
  }

  /** The frames behind the region suit the copy window. */
  lemma {:induction false} CopyReady(holes: seq<Span>, s: seq<Region>, x: map<nat, nat>, own: set<nat>, k: nat,
                                     pages: seq<BackingPage>,
                                     lent: set<nat>, lent': set<nat>, len: nat, spare: set<nat>, spare': set<nat>,
                                     offset: nat, n: nat)
    requires SpaceOk(holes, s, x, own) && k < |s| && own <= lent && lent' !! spare' && spare' <= spare
    requires Grown(s[k].pages, pages, lent, lent') && (forall f :: f in lent' ==> FIRST_FRAME <= f < len)
             && Targets(s[k], offset, n, len, spare)
    ensures RegionOk(WithPages(s[k], pages)) && CopyFrames(WithPages(s[k], pages), offset, n, len, spare')
  {
    hide LayoutOk, Agree, Owned, Separate, Grown, RegionOk, GoodFrames, Reaches, OneKind;
    var r, r' := s[k], WithPages(s[k], pages);
    assert r in s && RegionOk(r);
    GrowOk(r, pages, lent, lent');
    SpacesSeparate(holes, s);
    UpdateMembers(s, k, r');
    GrowOwned(s, own, k, pages, lent, lent');
    assert r' in s[k := r'];
    GrownLent(r.pages, pages, lent, lent');
    OwnedGood(s[k := r'], own + (lent' - lent), r', lent', len, spare');
    GrownDirect(r, pages, lent, lent');
    FramesDiffer(s[k := r'], own + (lent' - lent), r');
  }

  lemma {:induction false} FramesDiffer(s: seq<Region>, own: set<nat>, r: Region)
    requires Owned(s, own) && r in s && RegionOk(r)
    ensures forall i: nat, j: nat ::
              i < |r.pages| && j < |r.pages| && r.pages[i].backed && r.pages[j].backed && FrameAt(r, i) == FrameAt(r, j)
              ==> i == j
  {
    forall i: nat, j: nat |
      i < |r.pages| && j < |r.pages| && r.pages[i].backed && r.pages[j].backed && FrameAt(r, i) == FrameAt(r, j)
      ensures i == j
    {
      if AllReserved(r) { assert Owns(r, i) && Owns(r, j); }
    }
  }

  lemma {:induction false} GrownReserved(r: Region, pages: seq<BackingPage>, lent: set<nat>, lent': set<nat>)
    requires AllReserved(r) && Grown(r.pages, pages, lent, lent')
    ensures AllReserved(WithPages(r, pages))
  {
    forall i | 0 <= i < |pages| ensures pages[i].reserved { assert r.pages[i].reserved; }
  }

  lemma {:induction false} PlainPtrs(m: Machine, r: Region, offset: nat, n: nat)
    requires RegionOk(r) && CopyFrames(r, offset, n, |m.ram|, m.Spare()) && 0 < |m.ram| && 0 !in m.Spare()
    ensures forall i :: 0 <= i < |r.pages| && Reaches(offset, n, i) ==> Plain(m, Frames(PtrsOf(r.pages))[i])
  {
    hide Reaches, Machine.Spare;
    forall i | 0 <= i < |r.pages| && Reaches(offset, n, i) ensures Plain(m, r.pages[i].ptr / 0x1000) {
      assert PageOk(r.pages[i]);
      if r.pages[i].backed { assert (Owns(r, i) || Direct(r, i)) && FrameAt(r, i) == r.pages[i].ptr / 0x1000; }
    }
  }

  lemma {:induction false} OwnedGood(s: seq<Region>, own: set<nat>, r: Region, lent: set<nat>, len: nat, free: set<nat>)
    requires Owned(s, own) && r in s && own <= lent && lent !! free && forall f :: f in lent ==> FIRST_FRAME <= f < len
    ensures GoodFrames(r, len, free)
  {
    forall i: nat | Owns(r, i) ensures FIRST_FRAME <= FrameAt(r, i) < len && FrameAt(r, i) !in free {
      assert FrameAt(r, i) in own;
    }
  }

  /** What the copy has done to the regions and to the frames of others. */
  lemma {:induction false} CopyDone(holes: seq<Span>, s: seq<Region>, x: map<nat, nat>, own: set<nat>, k: nat,
                                    pages: seq<BackingPage>,
                                    lent: set<nat>, lent': set<nat>, ram: seq<Page>, ram1: seq<Page>, ram2: seq<Page>,
                                    spare: set<nat>, spare': set<nat>,
                                    offset: nat, data: seq<bv8>)
    requires SpaceOk(holes, s, x, own) && k < |s| && own <= lent && lent !! spare
    requires Grown(s[k].pages, pages, lent, lent') && Handed(ram, ram1, spare, spare', lent, lent')
    requires (forall f :: f in lent' ==> FIRST_FRAME <= f < |ram1|) && 0 < |ram1| && 0 !in spare
    requires RegionOk(WithPages(s[k], pages)) && CopyFrames(WithPages(s[k], pages), offset, |data|, |ram1|, spare')
    requires Written(ram1, ram2, spare', Frames(PtrsOf(pages)), offset, data)
    ensures Loaded(s, ram, s[k := WithPages(s[k], pages)], ram2, k, offset, data, spare)
    ensures SameOutside(ram, ram2, spare + own + Outside(WithPages(s[k], pages), offset, |data|))
  {
    hide LayoutOk, Agree, Owned, Grown, Handed, Written, RegionOk, Separate, Same, ReachedFrames, Spilled, SameOutside,
         Outside, CopyFrames, SpaceOk, Pointed, Clear, ByteAt, LoadedAt;
    var r' := WithPages(s[k], pages);
    var s' := s[k := r'];
    GrownOwned(holes, s, x, own, k, pages, lent, lent');
    HandedFrames(ram, ram1, spare, spare', lent, lent');
    OwnHanded(ram, ram1, spare, spare', lent, lent', own);
    WrittenLength(ram1, ram2, spare', Frames(PtrsOf(pages)), offset, data);
    CopyOthers(holes, s, x, own, k, pages, lent, lent', ram, ram1, ram2, spare, spare', offset, data);
    CopyOwn(holes, s, x, own, k, pages, lent, lent', ram, ram1, ram2, spare, spare', offset, data);
    if 0 !in Pointed(r', offset, |data|) { WrittenSpills(r', ram1, ram2, spare', offset, data); }
    ZeroKept(ram, ram1, spare);
    CopyMissesOthers(s', own + (lent' - lent), k, ram, ram1, ram2, lent, lent', own, spare, spare', offset, data);
  }

  lemma {:induction false} GrownOwned(holes: seq<Span>, s: seq<Region>, x: map<nat, nat>, own: set<nat>, k: nat,
                                      pages: seq<BackingPage>, lent: set<nat>, lent': set<nat>)
    requires SpaceOk(holes, s, x, own) && k < |s| && own <= lent && Grown(s[k].pages, pages, lent, lent')
    ensures Owned(s[k := WithPages(s[k], pages)], own + (lent' - lent))
  {
    hide LayoutOk, Agree, Owned, Separate, Grown;
    SpacesSeparate(holes, s);
    UpdateMembers(s, k, WithPages(s[k], pages));
    GrowOwned(s, own, k, pages, lent, lent');
  }

  /** The region the copy went to. */
  lemma {:induction false} CopyOwn(holes: seq<Span>, s: seq<Region>, x: map<nat, nat>, own: set<nat>, k: nat,
                                   pages: seq<BackingPage>,
                                   lent: set<nat>, lent': set<nat>, ram: seq<Page>, ram1: seq<Page>, ram2: seq<Page>,
                                   spare: set<nat>, spare': set<nat>,
                                   offset: nat, data: seq<bv8>)
    requires SpaceOk(holes, s, x, own) && k < |s| && own <= lent && lent !! spare
    requires Grown(s[k].pages, pages, lent, lent') && Handed(ram, ram1, spare, spare', lent, lent')
    requires RegionOk(WithPages(s[k], pages)) && CopyFrames(WithPages(s[k], pages), offset, |data|, |ram1|, spare')
    requires Written(ram1, ram2, spare', Frames(PtrsOf(pages)), offset, data)
    ensures forall off: nat :: !Loose(WithPages(s[k], pages), off / 0x1000, spare) ==>
              ByteAt(WithPages(s[k], pages), ram2, off)
                == LoadedAt(WithPages(s[k], pages), ByteAt(s[k], ram, off), offset, data, off)
  {
    hide LayoutOk, Agree, Owned, Grown, Handed, Written, RegionOk, CopyFrames, ByteAt, LoadedAt, SameOutside;
    var r' := WithPages(s[k], pages);
    assert s[k] in s && RegionOk(s[k]);
    SpaceClear(holes, s, x, own, k, spare);
    GrownDirect(s[k], pages, lent, lent');
    HandedFrames(ram, ram1, spare, spare', lent, lent');
    LoadedBytes(r', ram1, ram2, spare', offset, data);
    forall off: nat | !Loose(r', off / 0x1000, spare)
      ensures ByteAt(r', ram2, off) == LoadedAt(r', ByteAt(s[k], ram, off), offset, data, off)
    {
      GrownByteAt(s[k], pages, ram, ram1, spare, spare', lent, lent', off);
    }
  }

  /** The other regions. */
  lemma {:induction false} CopyOthers(holes: seq<Span>, s: seq<Region>, x: map<nat, nat>, own: set<nat>, k: nat,
                                      pages: seq<BackingPage>,
                                      lent: set<nat>, lent': set<nat>, ram: seq<Page>, ram1: seq<Page>, ram2: seq<Page>,
                                      spare: set<nat>, spare': set<nat>,
                                      offset: nat, data: seq<bv8>)
    requires SpaceOk(holes, s, x, own) && k < |s| && own <= lent && lent !! spare && own + (lent' - lent) <= lent'
    requires Grown(s[k].pages, pages, lent, lent') && Handed(ram, ram1, spare, spare', lent, lent')
    requires Owned(s[k := WithPages(s[k], pages)], own + (lent' - lent)) && RegionOk(WithPages(s[k], pages))
    requires (forall f :: f in lent' ==> FIRST_FRAME <= f < |ram1|)
             && Written(ram1, ram2, spare', Frames(PtrsOf(pages)), offset, data)
    ensures forall i :: 0 <= i < |s| && i != k && Clear(s[i], Pointed(WithPages(s[k], pages), offset, |data|)) ==>
              Same(s[i], ram, s[i], ram2, spare + ReachedFrames(WithPages(s[k], pages), offset, |data|))
  {
    hide LayoutOk, Agree, Owned, Grown, Handed, Written, RegionOk, Same, ReachedFrames, SpaceOk, Pointed, Clear,
         AllSameBytes;
    var r' := WithPages(s[k], pages);
    var s', frames := s[k := r'], ReachedFrames(r', offset, |data|);
    SpaceGrowBytes(holes, s, x, own, k, pages, lent, lent', ram, ram1, spare, spare');
    HandedFrames(ram, ram1, spare, spare', lent, lent');
    forall i | 0 <= i < |s| && i != k && Clear(s[i], Pointed(r', offset, |data|))
      ensures Same(s[i], ram, s[i], ram2, spare + frames)
    {
      Different(holes, s, x, own, i, k);
      assert s'[i] == s[i] && s'[k] == r';
      OneSame(s, ram, s', ram1, spare, i);
      CopyOther(s', own + (lent' - lent), k, i, ram1, ram2, lent', spare', offset, data);
      SameMore(s[i], ram, s[i], ram1, spare, spare + frames);
      BothSame(s[i], ram, s[i], ram1, s[i], ram2, spare + frames, spare' + frames);
    }
  }

  lemma {:induction false} OneSame(s: seq<Region>, ram: seq<Page>, s': seq<Region>, ram': seq<Page>, frames: set<nat>,
                                   i: nat)
    requires AllSameBytes(s, ram, s', ram', frames) && i < |s|
    ensures i < |s'| && Same(s[i], ram, s'[i], ram', frames)
  {
    hide Same;
  }

  lemma {:induction false} Different(holes: seq<Span>, s: seq<Region>, x: map<nat, nat>, own: set<nat>, i: nat, k: nat)
    requires SpaceOk(holes, s, x, own) && i < |s| && k < |s| && i != k
    ensures s[i].span != s[k].span
  {
    hide Agree, Owned, Separate, LayoutOk;
    SpacesSeparate(holes, s);
    assert RegionOk(s[i]);
    assert SpansOf(s)[i] == s[i].span && SpansOf(s)[k] == s[k].span;
  }

  lemma {:induction false} CopyOther(s: seq<Region>, own: set<nat>, k: nat, i: nat, ram: seq<Page>, ram': seq<Page>,
                                     lent: set<nat>, spare: set<nat>, offset: nat, data: seq<bv8>)
    requires k < |s| && i < |s| && i != k && Owned(s, own) && own <= lent && lent !! spare && RegionOk(s[k])
    requires (forall f :: f in lent ==> FIRST_FRAME <= f < |ram|) && Clear(s[i], Pointed(s[k], offset, |data|))
    requires s[i] != s[k] && Written(ram, ram', spare, Frames(PtrsOf(s[k].pages)), offset, data)
    ensures Same(s[i], ram, s[i], ram', spare + ReachedFrames(s[k], offset, |data|))
  {
    hide Same, Written, Owned, RegionOk, GoodFrames, ReachedFrames, Pointed, Clear;
    OwnedGood(s, own, s[i], lent, |ram|, spare);
    OtherBytes(s, own, s[k], s[i], ram, ram', spare, offset, data);
  }

  lemma {:induction false} CopyMissesOthers(s: seq<Region>, own: set<nat>, k: nat, ram: seq<Page>, ram1: seq<Page>,
                                            ram2: seq<Page>, lent: set<nat>, lent': set<nat>, own0: set<nat>,
                                            spare: set<nat>, spare': set<nat>, offset: nat, data: seq<bv8>)
    requires k < |s| && Owned(s, own) && own == own0 + (lent' - lent) && lent' - lent <= spare && spare' <= spare
    requires RegionOk(s[k]) && SameOutside(ram, ram1, spare)
    requires Written(ram1, ram2, spare', Frames(PtrsOf(s[k].pages)), offset, data)
    ensures SameOutside(ram, ram2, spare + own0 + Outside(s[k], offset, |data|))
  {
    hide Written, ReachedFrames, Hit, Owned, RegionOk, PtrsOf, Outside;
    var fs, touched := Frames(PtrsOf(s[k].pages)), spare + own0 + Outside(s[k], offset, |data|);
    WrittenLength(ram1, ram2, spare', fs, offset, data);
    ReachedOwned(s, own, k, offset, |data|);
    forall f | 0 <= f < |ram| && f !in touched ensures ram2[f] == ram[f] {
      HitIsReached(s[k], offset, |data|, f);
      WrittenElsewhere(ram1, ram2, spare', fs, offset, data, f);
    }
  }

  /** A copy is sent to frames the space owns or points at, and to frame 0 only if a page it reaches has none. */
  lemma {:induction false} ReachedOwned(s: seq<Region>, own: set<nat>, k: nat, offset: nat, n: nat)
    requires k < |s| && Owned(s, own) && RegionOk(s[k])
    ensures ReachedFrames(s[k], offset, n) <= own + Outside(s[k], offset, n)
  {
    var r := s[k];
    forall i: nat | i < |r.pages| && Reaches(offset, n, i) ensures FrameAt(r, i) in own + Outside(r, offset, n) {
      assert PageOk(r.pages[i]);
      if r.pages[i].backed {
        assert r in s && (Owns(r, i) || Direct(r, i));
        assert Direct(r, i) ==> FrameAt(r, i) in Pointed(r, offset, n);
      }
    }
  }

  lemma {:induction false} GrownLength(a: seq<BackingPage>, b: seq<BackingPage>, lent: set<nat>, lent': set<nat>)
    requires Grown(a, b, lent, lent')
    ensures |b| == |a|
  {}

  lemma {:induction false} FoundRange(l: seq<Span>, a: nat, k: nat)
    requires FoundAt(l, a, k)
    ensures k <= |l|
  {}

  lemma {:induction false} LookupSpace(holes: seq<Span>, s: seq<Region>, x: map<nat, nat>, own: set<nat>, a: nat,
                                       k: nat)
    requires SpaceOk(holes, s, x, own) && FoundAt(SpansOf(s), a, k)
    ensures k < |s| && Covers(SpansOf(s)[k], a) <==> HasOwner(SpansOf(s), a) && !EndsAt(SpansOf(s), a)
    ensures k == |s| <==> !HasOwner(SpansOf(s), a) && !EndsAt(SpansOf(s), a)
    ensures EndsAt(SpansOf(s), a) <==> k < |s| && End(SpansOf(s)[k]) == a
    ensures k < |s| ==> Within(SpansOf(s)[k], a)
  {
    hide Agree, Owned, Tiled, EndsAt, HasOwner, AllApart, Sorted;
    TiledApart(holes, SpansOf(s));
    LookupExact(SpansOf(s), a, k);
  }

  lemma {:induction false} NothingChanged(root: nat, a: Shot, s: seq<Region>)
    ensures Isolated(root, a, a, {}) && AllSameBytes(s, a.ram, s, a.ram, a.spare)
  {}

  /** A page with a frame is mapped. */
  lemma {:induction false} BackedMapped(holes: seq<Span>, s: seq<Region>, x: map<nat, nat>, own: set<nat>, k: nat,
                                        i: nat)
    requires SpaceOk(holes, s, x, own) && k < |s| && i < |s[k].pages|
    ensures s[k].pages[i].backed ==> First(s[k]) + i in x
  {
    hide LayoutOk, Owned, MakeEntry, VmmFlags;
    assert s[k] in s && RegionOk(s[k]);
    if s[k].pages[i].backed { assert Held(s[k], First(s[k]) + i); }
  }

  lemma {:induction false} PageAt(r: Region, address: nat)
    requires r.span.base % 0x1000 == 0 && r.span.base <= address < End(r.span)
    ensures address / 0x1000 == First(r) + (address - r.span.base) / 0x1000
            && (address - r.span.base) / 0x1000 < r.span.size
  {}

  lemma {:induction false} HeldMapped(x: map<nat, map<nat, nat>>, root: nat, r: Region, p: nat)
    requires root in x && Held(r, p)
    ensures p in MapPart(x, root, r, r.span.size)[root]
  {
    hide MakeEntry, VmmFlags, Range;
  }

  lemma {:induction false} NewAfterOne(holes: seq<Span>, s: seq<Region>, x: map<nat, nat>, own: set<nat>, k: nat,
                                       pages: seq<BackingPage>, idx: nat)
    requires SpaceOk(holes, s, x, own) && k < |s| && |pages| == s[k].span.size && idx < |pages|
    requires |s[k].pages| == |pages| && pages == s[k].pages[idx := pages[idx]]
    ensures NewIn(WithPages(s[k], pages), x) <= 1
  {
    hide LayoutOk, Owned, MakeEntry, VmmFlags;
    var r' := WithPages(s[k], pages);
    forall j | 0 <= j < |pages| && j != idx && pages[j].backed ensures First(r') + j in x {
      assert s[k] in s && Held(s[k], First(r') + j);
    }
    NewOne(r', x, idx, |pages|);
  }

  lemma {:induction false} NewOne(r: Region, x: map<nat, nat>, idx: nat, n: nat)
    requires n <= |r.pages|
    requires forall j :: 0 <= j < n && j != idx && r.pages[j].backed ==> First(r) + j in x
    ensures NewPages(r, x, n) <= if n <= idx then 0 else 1
  {
    if n > 0 { NewOne(r, x, idx, n - 1); }
  }

  lemma {:induction false} GrownLent(a: seq<BackingPage>, b: seq<BackingPage>, lent: set<nat>, lent': set<nat>)
    requires Grown(a, b, lent, lent')
    ensures lent <= lent'
  {}

  lemma {:induction false} RegionFits(holes: seq<Span>, rs: seq<Region>, x: map<nat, nat>, own: set<nat>, k: nat)
    requires SpaceOk(holes, rs, x, own) && k < |rs|
    ensures Fits(rs[k]) && RegionOk(rs[k])
  {
    hide Agree, Owned, LayoutOk;
    SpacesSeparate(holes, rs);
    assert RegionOk(rs[k]);
  }

  /** After merging the invariant still holds, and on a sorted list exactly the free ranges are granted. */
  lemma {:induction false} MergedSpace(holes: seq<Span>, rs: seq<Region>, x: map<nat, nat>, own: set<nat>, base: nat,
                                       size: nat)
    requires SpaceOk(holes, rs, x, own) && Clean(base, size) && size > 0
    ensures SpaceOk(Merge(holes), rs, x, own)
    ensures forall i :: 0 <= i < |Merge(holes)| ==> Proper(Merge(holes)[i]) && End(Merge(holes)[i]) <= USER_END
    ensures forall i :: 0 <= i < |rs| ==> End(SpansOf(rs)[i]) <= USER_END
    ensures Sorted(holes) ==> (Granted(Merge(holes), base, size) <==> AllFree(holes, base, size))
  {
    hide Agree, Owned, Merge, Granted, AllFree, Sorted, Cover;
    LayoutMerge(holes, SpansOf(rs));
    SpaceBounds(Merge(holes), rs, x, own);
    assert forall a: nat :: Cover(holes, a) <= 1;
    if Sorted(holes) { SortedGrants(holes, base, size); }
  }

  lemma {:induction false} DirectOk(r: Region, address: nat, x: map<nat, nat>)
    requires Proper(r.span) && r.pages == DirectPages(address, r.span.size) && End(r.span) <= USER_END
    ensures RegionOk(r) && (forall i: nat :: !Owns(r, i)) && NewIn(r, x) <= r.span.size
  {
    NewPagesBound(r, x, r.span.size);
    forall i, j | 0 <= i < j < |r.pages| ensures FrameAt(r, i) != FrameAt(r, j) { DirectDiffer(address, i, j); }
  }

  /** Addresses less than 2^64 bytes apart are on different pages if they are whole pages apart. */
  lemma {:induction false} DirectDiffer(address: nat, i: nat, j: nat)
    requires i < j < 0x8_0000_0000
    ensures Wrap64(address + i * 0x1000) / 0x1000 != Wrap64(address + j * 0x1000) / 0x1000
  {
    WrapPage(address + i * 0x1000);
    WrapPage(address + j * 0x1000);
    var q := address / 0x1000;
    assert (address + i * 0x1000) / 0x1000 == q + i && (address + j * 0x1000) / 0x1000 == q + j;
    NotCongruent(q + i, j - i, 0x10_0000_0000_0000);
  }

  lemma {:induction false} NotCongruent(x: nat, d: nat, n: nat)
    requires 0 < d < n
    ensures x % n != (x + d) % n
  {
    var q, r := x / n, x % n;
    if r + d < n { ModUnique(x + d, n, q, r + d); } else { ModUnique(x + d, n, q + 1, r + d - n); }
  }

  lemma {:induction false} WrapPage(x: nat)
    ensures Wrap64(x) / 0x1000 == x / 0x1000 % 0x10_0000_0000_0000
  {
    var q, r := x / TWO64, x % TWO64;
    assert x / 0x1000 == q * 0x10_0000_0000_0000 + r / 0x1000;
    ModUnique(x / 0x1000, 0x10_0000_0000_0000, q, r / 0x1000);
  }

  /** All ranges lie between the bounds of the user half. */
  lemma {:induction false} SpaceBounds(holes: seq<Span>, rs: seq<Region>, x: map<nat, nat>, own: set<nat>)
    requires SpaceOk(holes, rs, x, own)
    ensures forall i :: 0 <= i < |holes| ==> Proper(holes[i]) && USER_BASE <= holes[i].base && End(holes[i]) <= USER_END
    ensures forall i :: 0 <= i < |rs| ==> USER_BASE <= SpansOf(rs)[i].base && End(SpansOf(rs)[i]) <= USER_END
  {
    hide Agree, Owned, Tiled;
    TiledApart(holes, SpansOf(rs));
  }

  lemma {:induction false} ReservedOk(r: Region, x: map<nat, nat>)
    requires Proper(r.span) && r.pages == ReservedPages(r.span.size)
    ensures RegionOk(r) && (forall i: nat :: !Owns(r, i)) && NewIn(r, x) == 0
  {
    NewPagesBound(r, x, r.span.size);
  }

  lemma {:induction false} NewPagesBound(r: Region, x: map<nat, nat>, n: nat)
    requires n <= |r.pages|
    ensures NewPages(r, x, n) <= n
    ensures (forall i :: 0 <= i < n ==> !r.pages[i].backed) ==> NewPages(r, x, n) == 0
  {
    if n > 0 { NewPagesBound(r, x, n - 1); }
  }

}
