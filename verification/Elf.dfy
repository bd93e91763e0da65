/** The ELF64 loader on top of the address space. */
module Elf {
  import opened Bits
  import opened Machines
  import opened Spans
  import opened Binding
  import opened Mappings
  import opened Regions
  import opened Copying
  import opened AddressSpaces

  // ----- the file format

  const EHDR_SIZE: nat := 64
  const PHDR_SIZE: nat := 56
  const TYPE_LOAD: nat := 1

  /** An n-byte little-endian number. */
  function Le(file: seq<bv8>, at: nat, n: nat): nat
    requires at + n <= |file|
    decreases n
  {
    if n == 0 then 0 else file[at] as nat + 256 * Le(file, at + 1, n - 1)
  }

  /** elf64_check */
  predicate Check(file: seq<bv8>)
    requires |file| >= EHDR_SIZE
  {
    && file[0] == 0x7F && file[1] == 0x45 && file[2] == 0x4C && file[3] == 0x46
    && file[4] == 2             // ELF_CLASS_64
    && file[5] == 1             // ELF_DATA_LSB
    && Le(file, 20, 4) == 1     // e_version
    && Le(file, 16, 2) == 2     // e_type
  }

  function Entry(file: seq<bv8>): nat requires |file| >= EHDR_SIZE { Le(file, 24, 8) }
  function PhOff(file: seq<bv8>): nat requires |file| >= EHDR_SIZE { Le(file, 32, 8) }
  function PhNum(file: seq<bv8>): nat requires |file| >= EHDR_SIZE { Le(file, 56, 2) }

  /** The headers lie in the file. */
  predicate HeadersIn(file: seq<bv8>) {
    |file| >= EHDR_SIZE && PhOff(file) + PhNum(file) * PHDR_SIZE <= |file|
  }

  datatype Phdr = Phdr(kind: nat, flags: nat, offset: nat, vaddr: nat, filesz: nat, memsz: nat)

  function PhdrAt(file: seq<bv8>, i: nat): Phdr
    requires HeadersIn(file) && i < PhNum(file)
  {
    var at := PhOff(file) + i * PHDR_SIZE;
    assert at + PHDR_SIZE <= |file| by { assert (i + 1) * PHDR_SIZE <= PhNum(file) * PHDR_SIZE; }
    Phdr(Le(file, at, 4), Le(file, at + 4, 4), Le(file, at + 8, 8), Le(file, at + 16, 8), Le(file, at + 32, 8),
      Le(file, at + 40, 8))
  }

  /** The loadable segments among the first n program headers, in order. */
  function Segments(file: seq<bv8>, n: nat): seq<Phdr>
    requires HeadersIn(file) && n <= PhNum(file)
  {
    if n == 0 then []
    else
      var p := PhdrAt(file, n - 1);
      if p.kind == TYPE_LOAD then Segments(file, n - 1) + [p] else Segments(file, n - 1)
  }

  function Pages(p: Phdr): nat {
    (p.memsz + 0xFFF) / 0x1000
  }

  function SpanOf(p: Phdr): Span {
    Span(p.vaddr, Pages(p))
  }

  /** vm_perm::user with execute, read and write as the header's flags say. */
  function Perms(flags: nat): nat {
    var a := if And(flags, 1) != 0 then Or(8, 4) else 8;
    var b := if And(flags, 4) != 0 then Or(a, 1) else a;
    if And(flags, 2) != 0 then Or(b, 2) else b
  }

  // ----- images that can be loaded

  /** A segment with whole pages in the user range whose bytes lie in the file. */
  predicate SegmentOk(p: Phdr, size: nat) {
    && p.vaddr % 0x1000 == 0 && USER_BASE <= p.vaddr && p.memsz > 0 && p.filesz <= p.memsz
    && End(SpanOf(p)) <= USER_END && Pages(p) <= WINDOW_PAGES && p.offset + p.filesz <= size
  }

  ghost predicate Disjoint(segs: seq<Phdr>) {
    forall i, j :: 0 <= i < j < |segs| ==> Apart(SpanOf(segs[i]), SpanOf(segs[j]))
  }

  /** One of the first n segments ends where segment t starts. */
  ghost predicate Follows(segs: seq<Phdr>, n: nat, t: nat)
    requires n <= |segs| && t < |segs|
  {
    exists i :: 0 <= i < n && End(SpanOf(segs[i])) == segs[t].vaddr
  }

  /** One of the first n segments has bytes in the file and starts where an earlier one ends. */
  ghost predicate Adjacent(segs: seq<Phdr>, n: nat)
    requires n <= |segs|
  {
    exists t :: 0 <= t < n && segs[t].filesz > 0 && Follows(segs, t, t)
  }

  /** A page of code with a page of data behind it. */
  lemma {:induction false} AdjacentImage(size: nat)
    requires size >= 0x2000
    ensures var segs :=
            [Phdr(TYPE_LOAD, 5, 0, USER_BASE, 0x1000, 0x1000),
            Phdr(TYPE_LOAD, 6, 0x1000, USER_BASE + 0x1000, 0x1000, 0x1000)];
            Disjoint(segs) && Adjacent(segs, 2) && forall i :: 0 <= i < 2 ==> SegmentOk(segs[i], size)
  {
    var segs :=
        [Phdr(TYPE_LOAD, 5, 0, USER_BASE, 0x1000, 0x1000),
        Phdr(TYPE_LOAD, 6, 0x1000, USER_BASE + 0x1000, 0x1000, 0x1000)];
    assert End(SpanOf(segs[0])) == segs[1].vaddr;
    assert segs[1].filesz > 0 && Follows(segs, 1, 1);
  }

  /** The pages of the largest segment. */
  function Widest(segs: seq<Phdr>): (w: nat)
    ensures forall i :: 0 <= i < |segs| ==> Pages(segs[i]) <= w
  {
    if segs == [] then 0
    else
      var n := |segs| - 1;
      var w := Widest(segs[..n]);
      assert forall i :: 0 <= i < n ==> segs[i] == segs[..n][i];
      if Pages(segs[n]) > w then Pages(segs[n]) else w
  }

  /** The region a segment's load may go through: its own, or, for a load of nothing, any. */
  function Reach(p: Phdr, w: nat): nat {
    if p.filesz > 0 then Pages(p) else w
  }

  /** Frames for the first n segments: seven for each page. */
  function Need(segs: seq<Phdr>, n: nat): nat
    requires n <= |segs|
  {
    if n == 0 then 0 else Need(segs, n - 1) + 7 * Reach(segs[n - 1], Widest(segs))
  }

  lemma {:induction false} NeedGrows(segs: seq<Phdr>, n: nat, t: nat)
    requires n <= t <= |segs|
    ensures Need(segs, n) <= Need(segs, t)
    decreases t - n
  {
    hide Widest, Reach;
    if n < t { NeedGrows(segs, n, t - 1); }
  }

  /** Frames for a whole image; without segments that have no bytes, seven for each page. */
  function NeedFor(file: seq<bv8>): nat
    requires HeadersIn(file)
  {
    var segs := Segments(file, PhNum(file));
    Need(segs, |segs|)
  }

  /** The image's segments suit each other and the address space they are loaded into. */
  ghost predicate Loadable(file: seq<bv8>, holes: seq<Span>, l: seq<Span>) {
    && HeadersIn(file)
    && var segs := Segments(file, PhNum(file));
       && (forall i :: 0 <= i < |segs| ==> SegmentOk(segs[i], |file|))
       && Disjoint(segs)
       && Sorted(holes)
       && (forall i :: 0 <= i < |segs| ==> AllFree(holes, segs[i].vaddr, Pages(segs[i])) && !EndsAt(l, segs[i].vaddr))
  }

  /** A fresh address space suits every image whose segments are page-aligned, in range and disjoint. */
  lemma {:induction false} FreshLoadable(file: seq<bv8>)
    requires HeadersIn(file) && Disjoint(Segments(file, PhNum(file)))
    requires forall i :: 0 <= i < |Segments(file, PhNum(file))| ==> SegmentOk(Segments(file, PhNum(file))[i], |file|)
    ensures Loadable(file, [USER_SPAN], [])
  {
    hide Segments, Disjoint, PhNum;
    var segs := Segments(file, PhNum(file));
    forall i | 0 <= i < |segs| ensures AllFree([USER_SPAN], segs[i].vaddr, Pages(segs[i])) {
      assert SegmentOk(segs[i], |file|);
      forall a: nat | segs[i].vaddr <= a < segs[i].vaddr + Pages(segs[i]) * 0x1000 ensures Cover([USER_SPAN], a) > 0 {
        CoverOne(USER_SPAN, a);
      }
    }
  }

  /** Byte off of a segment's pages: the file's byte below p_filesz, zero above it. */
  function ImageByte(file: seq<bv8>, p: Phdr, off: nat): bv8
    requires p.offset + p.filesz <= |file|
  {
    if off < p.filesz then file[p.offset + off] else 0
  }

  /** Some region holds the segment, with its permissions, and reads as the segment demands. */
  ghost predicate Holds(s: seq<Region>, ram: seq<Page>, file: seq<bv8>, p: Phdr)
    requires p.offset + p.filesz <= |file|
  {
    exists k :: 0 <= k < |s| && HoldsAt(s[k], ram, file, p)
  }

  ghost predicate HoldsAt(r: Region, ram: seq<Page>, file: seq<bv8>, p: Phdr)
    requires p.offset + p.filesz <= |file|
  {
    r.span == SpanOf(p) && r.perms == Perms(p.flags) && AllReserved(r)
      && forall off: nat :: ByteAt(r, ram, off) == ImageByte(file, p, off)
  }

  /** Demand faults and touches, which change no byte a region reads as, keep the image. */
  lemma {:induction false} HoldsKept(s: seq<Region>, ram: seq<Page>, s': seq<Region>, ram': seq<Page>, free: set<nat>,
                                     file: seq<bv8>, p: Phdr)
    requires p.offset + p.filesz <= |file| && Holds(s, ram, file, p) && AllSameBytes(s, ram, s', ram', free)
    requires forall i ::
             0 <= i < |s| ==>
             s'[i].span == s[i].span && s'[i].perms == s[i].perms && (AllReserved(s[i]) ==> AllReserved(s'[i]))
    ensures Holds(s', ram', file, p)
  {
    hide ByteAt, Same, AllReserved;
    var k :| 0 <= k < |s| && HoldsAt(s[k], ram, file, p);
    ReservedSame(s[k], ram, s'[k], ram', free);
    assert HoldsAt(s'[k], ram', file, p);
  }

  // ----- loading one segment

  /** What binding the segment does to the holes: they stay sorted, and ranges apart from it stay free. */
  lemma {:induction false} HolesAfter(holes: seq<Span>, l: seq<Span>, k: nat, base: nat, size: nat)
    requires LayoutOk(holes, l) && Sorted(holes) && size > 0 && Clean(base, size)
    requires k < |Merge(holes)| && Contains(Merge(holes)[k], base, size)
    ensures Sorted(Replace(Merge(holes), k, Carve(Merge(holes)[k], base, size)))
    ensures forall o: Span :: Apart(Span(base, size), o) && AllFree(holes, o.base, o.size) ==>
              AllFree(Replace(Merge(holes), k, Carve(Merge(holes)[k], base, size)), o.base, o.size)
  {
    hide Merge, MergeFrom, Cover, Carve, Splits;
    var l1 := Merge(holes);
    LayoutMerge(holes, l);
    TiledApart(l1, l);
    forall a: nat ensures Cover(l1, a) == Cover(holes, a) <= 1 { MergedCovers(holes, a); }
    MergeCoalesces(holes);
    CarveKeepsSorted(l1, k, base, size);
    CarveSplits(l1[k], base, size);
    forall o: Span | Apart(Span(base, size), o) && AllFree(holes, o.base, o.size)
      ensures AllFree(Replace(l1, k, Carve(l1[k], base, size)), o.base, o.size)
    {
      StillFree(l1, k, Carve(l1[k], base, size), Span(base, size), o);
    }
  }

  lemma {:induction false} MergedCovers(l: seq<Span>, a: nat)
    ensures Cover(Merge(l), a) == Cover(l, a)
  {
    MergeCovers(l, 0, a);
  }

  lemma {:induction false} SpaceApart(holes: seq<Span>, s: seq<Region>, x: map<nat, nat>, own: set<nat>)
    requires SpaceOk(holes, s, x, own)
    ensures LayoutOk(holes, SpansOf(s)) && AllApart(SpansOf(s))
  {
    hide Agree, Owned, Tiled;
    TiledApart(holes, SpansOf(s));
  }

  /** A list of spans with one more in it ends where the old list ended, or where the new span does. */
  lemma {:induction false} EndsInsert(l: seq<Span>, j: nat, sp: Span, a: nat)
    requires j <= |l| && EndsAt(Insert(l, j, sp), a)
    ensures EndsAt(l, a) || a == End(sp)
  {
    var i :| 0 <= i < |l| + 1 && End(Insert(l, j, sp)[i]) == a;
    if i < j { assert End(l[i]) == a; } else if i > j { assert End(l[i - 1]) == a; }
  }

  /** The regions there were are still there and read as before, unless they are pointed at a frame that was free. */
  ghost predicate Extends(s: seq<Region>, ram: seq<Page>, s': seq<Region>, ram': seq<Page>, free: set<nat>) {
    forall i :: 0 <= i < |s| ==> HasLike(s[i], ram, s', ram', free)
  }

  ghost predicate HasLike(r: Region, ram: seq<Page>, s': seq<Region>, ram': seq<Page>, free: set<nat>) {
    exists k :: 0 <= k < |s'| && Like(r, ram, s'[k], ram', free)
  }

  ghost predicate Like(r: Region, ram: seq<Page>, r': Region, ram': seq<Page>, free: set<nat>) {
    r'.span == r.span && r'.perms == r.perms && (AllReserved(r) ==> AllReserved(r')) && Same(r, ram, r', ram', free)
  }

  lemma {:induction false} HoldsExtended(s: seq<Region>, ram: seq<Page>, s': seq<Region>, ram': seq<Page>,
                                         free: set<nat>, file: seq<bv8>, p: Phdr)
    requires p.offset + p.filesz <= |file| && Holds(s, ram, file, p) && Extends(s, ram, s', ram', free)
    ensures Holds(s', ram', file, p)
  {
    hide ByteAt, Same, AllReserved;
    var i :| 0 <= i < |s| && HoldsAt(s[i], ram, file, p);
    assert HasLike(s[i], ram, s', ram', free);
    var k :| 0 <= k < |s'| && Like(s[i], ram, s'[k], ram', free);
    ReservedSame(s[i], ram, s'[k], ram', free);
    assert HoldsAt(s'[k], ram', file, p);
  }

  /**
   * A freshly reserved region into which the file's bytes have been copied holds the segment, and
   * the others are like before.
   */
  lemma {:induction false} SegmentHeld(root: nat, a: View, b: View, j: nat, file: seq<bv8>, p: Phdr)
    requires SegmentOk(p, |file|) && LoadDone(root, a, b, j, 0, file[p.offset..p.offset + p.filesz])
             && CopyBacked(b.regions[j], 0, p.filesz)
    requires a.regions[j] == Region(SpanOf(p), ReservedPages(Pages(p)), Perms(p.flags), a.regions[j].cache)
    requires a.shot.own <= a.shot.lent
    ensures HoldsAt(b.regions[j], b.shot.ram, file, p) && OthersLike(a, b, j)
  {
    hide ByteAt, Same, ReachedFrames, Spilled, SegmentOk, CopyBacked, Isolated, Outside, Harmless, Perms, Pages,
         ReservedPages, LoadedAt, Pointed, Clear, Loose, Grown;
    var r, r' := a.regions[j], b.regions[j];
    SegmentClean(p, |file|);
    ReservedAll(r);
    GrownReserved(r, r'.pages, a.shot.lent, b.shot.lent);
    GainedWereSpare(root, a.shot, b.shot, Outside(r', 0, p.filesz));
    FreshReached(r, r'.pages, a.shot.lent, b.shot.lent, 0, p.filesz);
    NothingPointed(r', 0, p.filesz);
    assert |file[p.offset..p.offset + p.filesz]| == p.filesz
           && a.shot.spare + ReachedFrames(r', 0, p.filesz) == a.shot.spare;
    forall i | 0 <= i < |a.regions| && i != j
      ensures Like(a.regions[i], a.shot.ram, b.regions[i], b.shot.ram, a.shot.spare)
    {
      NothingClear(a.regions[i]);
      assert Same(a.regions[i], a.shot.ram, b.regions[i], b.shot.ram, a.shot.spare);
    }
    SegmentRead(a, b, j, file, p);
  }

  /** Every region but j is still there and reads as before, unless it is pointed at a spare frame. */
  ghost predicate OthersLike(a: View, b: View, j: nat) {
    |b.regions| == |a.regions|
      && forall i ::
      0 <= i < |a.regions| && i != j ==> Like(a.regions[i], a.shot.ram, b.regions[i], b.shot.ram, a.shot.spare)
  }

  lemma {:induction false} NothingPointed(r: Region, offset: nat, n: nat)
    requires AllReserved(r) || n == 0
    ensures Pointed(r, offset, n) == {}
  {}

  lemma {:induction false} NothingClear(r: Region)
    ensures Clear(r, {})
  {}

  lemma {:induction false} SegmentRead(a: View, b: View, j: nat, file: seq<bv8>, p: Phdr)
    requires j < |a.regions| == |b.regions| && SegmentOk(p, |file|) && |b.regions[j].pages| == Pages(p)
             && AllReserved(b.regions[j])
    requires a.regions[j].pages == ReservedPages(Pages(p)) && CopyBacked(b.regions[j], 0, p.filesz)
    requires Loaded(a.regions, a.shot.ram, b.regions, b.shot.ram, j, 0, file[p.offset..p.offset + p.filesz],
             a.shot.spare)
    ensures forall off: nat :: ByteAt(b.regions[j], b.shot.ram, off) == ImageByte(file, p, off)
  {
    hide Same, ReachedFrames, Spilled, ByteAt, Fitting, Pointed, Clear;
    SegmentClean(p, |file|);
    var r, r' := a.regions[j], b.regions[j];
    forall off: nat ensures ByteAt(r', b.shot.ram, off) == ImageByte(file, p, off) {
      FreshReadsZero(r, a.shot.ram, off);
      assert !Loose(r', off / 0x1000, a.shot.spare);
      if off < p.filesz {
        ReachesByte(0, p.filesz, off);
        assert r'.pages[off / 0x1000].backed;
      }
    }
  }

  /** A load of nothing into another region leaves the fresh region and all others as they are. */
  lemma {:induction false} EmptyHeld(root: nat, a: View, b: View, j: nat, k: nat, offset: nat, file: seq<bv8>, p: Phdr)
    requires p.filesz == 0 && p.offset <= |file| && LoadDone(root, a, b, k, offset, []) && AllReserved(a.regions[k])
             && j != k && j < |a.regions|
    requires a.regions[j] == Region(SpanOf(p), ReservedPages(Pages(p)), Perms(p.flags), a.regions[j].cache)
    ensures HoldsAt(b.regions[j], b.shot.ram, file, p) && OthersLike(a, b, j)
  {
    hide Same, ReachedFrames, Spilled, Isolated, Outside, Harmless, Perms, Pages, ReservedPages, Clear, Grown, ByteAt,
         CopyBacked, Pointed;
    NothingPointed(b.regions[k], offset, 0);
    NoneReached(b.regions[k], offset);
    GrownReserved(a.regions[k], b.regions[k].pages, a.shot.lent, b.shot.lent);
    forall i | 0 <= i < |a.regions| ensures Like(a.regions[i], a.shot.ram, b.regions[i], b.shot.ram, a.shot.spare) {
      NothingClear(a.regions[i]);
      if i == k { EmptySame(a, b, k, offset); }
      assert Same(a.regions[i], a.shot.ram, b.regions[i], b.shot.ram,
             a.shot.spare + ReachedFrames(b.regions[k], offset, 0));
      assert a.shot.spare + ReachedFrames(b.regions[k], offset, 0) == a.shot.spare;
    }
    ReservedAll(a.regions[j]);
    ReservedSame(a.regions[j], a.shot.ram, b.regions[j], b.shot.ram, a.shot.spare);
    forall off: nat
      ensures ByteAt(b.regions[j], b.shot.ram, off) == ImageByte(file, p, off)
    {
      FreshReadsZero(a.regions[j], a.shot.ram, off);
    }
  }

  lemma {:induction false} NoneReached(r: Region, offset: nat)
    ensures ReachedFrames(r, offset, 0) == {}
  {}

  lemma {:induction false} EmptySame(a: View, b: View, k: nat, offset: nat)
    requires k < |a.regions| == |b.regions| && AllReserved(a.regions[k]) && AllReserved(b.regions[k])
    requires Grown(a.regions[k].pages, b.regions[k].pages, a.shot.lent, b.shot.lent)
             && b.regions[k] == WithPages(a.regions[k], b.regions[k].pages)
    requires Loaded(a.regions, a.shot.ram, b.regions, b.shot.ram, k, offset, [], a.shot.spare)
    ensures Same(a.regions[k], a.shot.ram, b.regions[k], b.shot.ram,
            a.shot.spare + ReachedFrames(b.regions[k], offset, 0))
  {
    hide ReachedFrames, Spilled, Clear, Grown, ByteAt, Pointed;
    GrownDirect(a.regions[k], b.regions[k].pages, a.shot.lent, b.shot.lent);
    forall off: nat ensures ByteAt(a.regions[k], a.shot.ram, off) == ByteAt(b.regions[k], b.shot.ram, off) {
      assert !Loose(b.regions[k], off / 0x1000, a.shot.spare);
    }
  }

  lemma {:induction false} FreshReadsZero(r: Region, ram: seq<Page>, off: nat)
    requires r.pages == ReservedPages(|r.pages|)
    ensures ByteAt(r, ram, off) == 0
  {}

  lemma {:induction false} ValidSpace(space: AddressSpace)
    requires space.Valid()
    ensures LayoutOk(space.holes, SpanList(space.regions)) && AllApart(SpanList(space.regions))
    ensures space.root in space.m.xlat && space.root != space.m.kernelRoot && space.own <= space.m.lent
  {
    hide Machine.Valid, SpaceOk, LayoutOk, AllDifferent, AllMapped, Snaps;
    SnapSpans(space.regions);
    SpaceApart(space.holes, Snaps(space.regions), space.m.xlat[space.root], space.own);
  }

  lemma {:induction false} SpanListInsert(rs: seq<MemoryMapping>, j: nat, r: MemoryMapping)
    requires j <= |rs|
    ensures SpanList(rs[..j] + [r] + rs[j..]) == Insert(SpanList(rs), j, Span(r.base, r.size))
  {}

  /** The new region adds its own end to those of the others. */
  lemma {:induction false} BoundAt(l: seq<Span>, j: nat, sp: Span)
    requires j <= |l| && Proper(sp)
    ensures EndsAt(Insert(l, j, sp), sp.base) <==> EndsAt(l, sp.base)
    ensures forall a: nat :: EndsAt(Insert(l, j, sp), a) ==> EndsAt(l, a) || a == End(sp)
  {
    forall a: nat | EndsAt(Insert(l, j, sp), a) ensures EndsAt(l, a) || a == End(sp) { EndsInsert(l, j, sp, a); }
    if i :| 0 <= i < |l| && End(l[i]) == sp.base { assert Insert(l, j, sp)[if i < j then i else i + 1] == l[i]; }
  }

  lemma {:induction false} SegmentClean(p: Phdr, size: nat)
    requires SegmentOk(p, size)
    ensures Clean(p.vaddr, Pages(p)) && Pages(p) > 0 && Proper(SpanOf(p)) && End(SpanOf(p)) != p.vaddr
            && p.filesz <= Pages(p) * 0x1000
    ensures p.vaddr > 0 && Pages(p) <= WINDOW_PAGES && p.offset + p.filesz <= size
    ensures p.vaddr + p.filesz + 0xFFF < TWO64 && TouchFits(0, p.filesz) && Fitting(0, p.filesz, Pages(p))
  {}

  /** allocate_at for a segment. */
  method BindSegment(space: AddressSpace, p: Phdr, ghost size: nat) returns (ghost j: nat)
    requires space.Valid() && WindowsClear(space.m) && SegmentOk(p, size) && Sorted(space.holes)
    requires AllFree(space.holes, p.vaddr, Pages(p))
    modifies space`holes, space`regions, space.m, space.m.alloc, space.m.alloc.words
    ensures space.Valid() && WindowsClear(space.m) && Sorted(space.holes)
    ensures j <= |old(space.regions)| && |space.regions| == |old(space.regions)| + 1 && fresh(space.regions[j])
    ensures space.regions == old(space.regions)[..j] + [space.regions[j]] + old(space.regions)[j..]
    ensures Value(space.regions[j]) == Region(SpanOf(p), ReservedPages(Pages(p)), Perms(p.flags), 0)
    ensures AllSameBytes(old(Snaps(space.regions)), old(space.m.ram), old(Snaps(space.regions)), space.m.ram,
            old(space.m.Spare()))
    ensures space.m.alloc.Free <= old(space.m.alloc.Free) && |space.m.alloc.Free| >= |old(space.m.alloc.Free)|
            && space.m.Spare() == old(space.m.Spare())
    ensures Isolated(space.root, old(space.Now()), space.Now(), {})
    ensures forall o: Span ::
            Apart(SpanOf(p), o) && AllFree(old(space.holes), o.base, o.size) ==> AllFree(space.holes, o.base, o.size)
    ensures EndsAt(SpanList(space.regions), p.vaddr) <==> EndsAt(SpanList(old(space.regions)), p.vaddr)
    ensures forall a: nat ::
            EndsAt(SpanList(space.regions), a) ==> EndsAt(SpanList(old(space.regions)), a) || a == End(SpanOf(p))
    ensures SpanList(space.regions)[j] == SpanOf(p)
  {
    hide AddressSpace.Valid, Sorted, AllFree, EndsAt, Snaps, AllSameBytes, Merge, Carve, Replace, Granted, Isolated,
         LayoutOk, AllApart, SegmentOk, Pages, Perms, Contains, Clean;
    ghost var a := space.Now();
    SegmentClean(p, size);
    ValidSpace(space);
    SpareKept(space);
    var addr;
    ghost var k;
    addr, k, j := space.AllocateAt(p.vaddr, Pages(p), Perms(p.flags), 0);
    HolesAfter(old(space.holes), SpanList(old(space.regions)), k, p.vaddr, Pages(p));
    SpanListInsert(old(space.regions), j, space.regions[j]);
    SpareKept(space);
    BoundAt(SpanList(old(space.regions)), j, SpanOf(p));
    StillClear(space.root, a, space.Now(), {}, space.m.kernelRoot);
  }

  lemma {:induction false} SpareKept(space: AddressSpace)
    requires space.Valid()
    ensures space.m.Spare() == space.m.pool - space.m.lent
  {
    hide Machine.Valid, Machine.Spare, SpaceOk, AllMapped, AllDifferent;
    space.m.SpareIs();
  }

  /** Regions that end at the address are reserved memory of no more than w pages, and fit the window. */
  ghost predicate EndFits(s: seq<Region>, a: nat, w: nat) {
    forall k ::
      0 <= k < |s| && End(s[k].span) == a ==> AllReserved(s[k]) && s[k].span.size <= WINDOW_PAGES && s[k].span.size <= w
  }

  /**
   * load for a segment that has just been bound as region j; its bytes, if it has any, are lost
   * where another region ends.
   */
  method FillSegment(space: AddressSpace, file: seq<bv8>, p: Phdr, ghost j: nat, ghost w: nat) returns (ok: bool)
    requires space.Valid() && WindowsClear(space.m) && SegmentOk(p, |file|) && j < |space.regions| && Pages(p) <= w
    requires EndFits(Snaps(space.regions), p.vaddr, w) && SpanList(space.regions)[j] == SpanOf(p)
    requires Value(space.regions[j]) == Region(SpanOf(p), ReservedPages(Pages(p)), Perms(p.flags), 0)
    requires |space.m.alloc.Free| >= 7 * Reach(p, w)
    modifies space`own, space.regions, space.m, space.m.alloc, space.m.alloc.words
    ensures ok <==> !(p.filesz > 0 && EndsAt(SpanList(space.regions), p.vaddr))
    ensures ok ==> Filled(space, file, p, j, 7 * Reach(p, w), old(space.Look()))
  {
    hide AddressSpace.Valid, EndsAt, Snaps, LayoutOk, AllApart, SegmentOk, Pages, Perms, WindowsClear, LoadDone,
         CopyBacked, Clean, HasOwner, FoundAt, ReservedPages, SpanList, EndFits, HoldsAt, OthersLike, Isolated;
    SegmentClean(p, |file|);
    ValidSpace(space);
    ghost var l, a := SpanList(space.regions), space.Look();
    SnapSpans(space.regions);
    OwnerIs(l, j, p.vaddr);
    SegmentCopyable(space, j, p, w);
    ghost var k;
    ok, k := space.Load(p.vaddr, file[p.offset..p.offset + p.filesz]);
    LookupHere(space.holes, l, j, k, p.vaddr);
    if p.filesz == 0 && k != j { EndIs(a.regions, p.vaddr, k, w); }
    if ok { FillEnds(space.root, a, space.Look(), j, k, w, file, p); }
  }

  /** After the load, into its own region or, if it is one of nothing, into the one that ends there. */
  lemma {:induction false} FillEnds(root: nat, a: View, b: View, j: nat, k: nat, w: nat, file: seq<bv8>, p: Phdr)
    requires SegmentOk(p, |file|) && j < |a.regions| && k < |a.regions| && Pages(p) <= w && a.shot.own <= a.shot.lent
    requires a.regions[j] == Region(SpanOf(p), ReservedPages(Pages(p)), Perms(p.flags), a.regions[j].cache)
    requires k != j ==> p.filesz == 0 && AllReserved(a.regions[k]) && a.regions[k].span.size <= w
    requires LoadStep(root, a, b, p.vaddr, file[p.offset..p.offset + p.filesz], k) && |a.shot.free| >= 7 * Reach(p, w)
    ensures HoldsAt(b.regions[j], b.shot.ram, file, p) && OthersLike(a, b, j) && Isolated(root, a.shot, b.shot, {})
    ensures b.shot.free <= a.shot.free && b.shot.spare <= a.shot.spare
            && |b.shot.free| + 7 * Reach(p, w) >= |a.shot.free|
  {
    hide LoadDone, CopyBacked, HoldsAt, OthersLike, Isolated, Pages, Perms, ReservedPages, SegmentOk, FoundAt,
         TouchFits;
    SegmentClean(p, |file|);
    var data, offset := file[p.offset..p.offset + p.filesz], p.vaddr - a.regions[k].span.base;
    ReservedAll(a.regions[j]);
    LoadParts(root, a, b, k, offset, data);
    if k == j {
      SegmentHeld(root, a, b, j, file, p);
    } else {
      assert data == [];
      EmptyHeld(root, a, b, j, k, offset, file, p);
    }
  }

  /** Region j holds the segment and every other is as it was; a is the state before. */
  ghost predicate Filled(space: AddressSpace, file: seq<bv8>, p: Phdr, j: nat, cost: nat, a: View)
    requires p.offset + p.filesz <= |file|
    reads space, space.regions, space.m, space.m.alloc, space.m.alloc.words
  {
    && space.Valid() && WindowsClear(space.m) && j < |space.regions| == |a.regions|
    && HoldsAt(Snaps(space.regions)[j], space.m.ram, file, p) && OthersLike(a, space.Look(), j)
    && Isolated(space.root, a.shot, space.Now(), {})
    && space.m.alloc.Free <= a.shot.free && space.m.Spare() <= a.shot.spare
    && |space.m.alloc.Free| + cost >= |a.shot.free|
  }

  lemma {:induction false} LoadParts(root: nat, a: View, b: View, k: nat, offset: nat, data: seq<bv8>)
    requires LoadDone(root, a, b, k, offset, data) && AllReserved(a.regions[k])
    ensures |data| == 0 || (|a.shot.free| >= b.regions[k].span.size && TouchFits(offset, |data|)) ==>
            CopyBacked(b.regions[k], offset, |data|)
    ensures b.shot.free <= a.shot.free && b.shot.spare <= a.shot.spare
            && |b.shot.free| + 7 * b.regions[k].span.size >= |a.shot.free|
    ensures |b.regions| == |a.regions| && b.regions[k].span == a.regions[k].span
    ensures CopyBacked(b.regions[k], offset, |data|) ==> Isolated(root, a.shot, b.shot, {})
  {
    hide Loaded, Harmless, Isolated, Grown, Pointed;
    GrownReserved(a.regions[k], b.regions[k].pages, a.shot.lent, b.shot.lent);
    NothingPointed(b.regions[k], offset, |data|);
    assert CopyBacked(b.regions[k], offset, |data|) ==> Outside(b.regions[k], offset, |data|) == {};
  }

  lemma {:induction false} EndIs(s: seq<Region>, a: nat, k: nat, w: nat)
    requires EndFits(s, a, w) && k < |s| && End(s[k].span) == a
    ensures AllReserved(s[k]) && s[k].span.size <= w
  {}

  /** The lookup at an address of range j finds that range, or, if there is one, the one that ends there. */
  lemma {:induction false} LookupHere(holes: seq<Span>, l: seq<Span>, j: nat, k: nat, a: nat)
    requires LayoutOk(holes, l) && AllApart(l) && j < |l| && Covers(l[j], a) && FoundAt(l, a, k)
    ensures k < |l| && l[k].base <= a && (EndsAt(l, a) <==> End(l[k]) == a) && (!EndsAt(l, a) ==> k == j)
  {
    hide Tiled, Sorted, EndsAt;
    LookupExact(l, a, k);
    assert HasOwner(l, a);
  }

  lemma {:induction false} ReservedAll(r: Region)
    requires r.pages == ReservedPages(|r.pages|)
    ensures AllReserved(r)
  {}

  /** The lookup at the start of a segment that was just bound finds its region, or one that ends there. */
  lemma {:induction false} SegmentCopyable(space: AddressSpace, j: nat, p: Phdr, w: nat)
    requires j < |space.regions| && SpanList(space.regions)[j] == SpanOf(p) && EndFits(Snaps(space.regions), p.vaddr, w)
    requires AllApart(SpanList(space.regions)) && Pages(p) > 0 && Pages(p) <= WINDOW_PAGES
    requires Value(space.regions[j]) == Region(SpanOf(p), ReservedPages(Pages(p)), Perms(p.flags), 0)
    ensures space.Copyable(p.vaddr, p.filesz) && Covers(SpanList(space.regions)[j], p.vaddr)
  {
    hide Pages, Perms, Machine.InUse;
    ReservedAll(Value(space.regions[j]));
    var l := SpanList(space.regions);
    forall k | 0 <= k < |space.regions| && FoundAt(l, p.vaddr, k)
      ensures AllReserved(Value(space.regions[k])) && space.regions[k].size <= WINDOW_PAGES
    {
      assert Within(l[k], p.vaddr);
      if End(l[k]) != p.vaddr {
        assert Covers(l[k], p.vaddr) && Covers(l[j], p.vaddr);
      } else {
        assert End(Snaps(space.regions)[k].span) == p.vaddr;
      }
    }
    forall k | 0 <= k < |space.regions| && FoundAt(l, p.vaddr, k) && space.regions[k].base <= p.vaddr
      ensures space.CopyInUse(space.regions[k], p.vaddr - space.regions[k].base, p.filesz)
    {
      assert AllReserved(Value(space.regions[k]));
    }
  }

  /** The copy into a fresh region reaches frames it has only just gained. */
  lemma {:induction false} FreshReached(r: Region, pages: seq<BackingPage>, lent: set<nat>, lent': set<nat>,
                                        offset: nat, n: nat)
    requires Grown(r.pages, pages, lent, lent') && r.pages == ReservedPages(|r.pages|)
             && CopyBacked(WithPages(r, pages), offset, n)
    ensures ReachedFrames(WithPages(r, pages), offset, n) <= lent' - lent
  {
    var r' := WithPages(r, pages);
    forall i: nat | i < |pages| && Reaches(offset, n, i) ensures FrameAt(r', i) in lent' - lent {
      assert Gained(r.pages, pages, i);
    }
  }

  lemma {:induction false} OwnerIs(l: seq<Span>, j: nat, a: nat)
    requires AllApart(l) && j < |l| && Covers(l[j], a)
    ensures HasOwner(l, a) && forall k :: 0 <= k < |l| && Covers(l[k], a) ==> k == j
  {}

  /** Binds and fills one segment; ok is false if it has bytes and another region ends where it starts. */
  method LoadSegment(space: AddressSpace, file: seq<bv8>, p: Phdr, ghost w: nat) returns (ok: bool)
    requires space.Valid() && WindowsClear(space.m) && SegmentOk(p, |file|) && Sorted(space.holes) && Pages(p) <= w
    requires AllFree(space.holes, p.vaddr, Pages(p)) && EndFits(Snaps(space.regions), p.vaddr, w)
    requires |space.m.alloc.Free| >= 7 * Reach(p, w)
    modifies space`holes, space`regions, space`own, space.regions, space.m, space.m.alloc, space.m.alloc.words
    ensures ok <==> !(p.filesz > 0 && EndsAt(SpanList(old(space.regions)), p.vaddr))
    ensures ok ==> space.Valid() && WindowsClear(space.m) && Sorted(space.holes)
    ensures ok ==> Holds(Snaps(space.regions), space.m.ram, file, p)
    ensures ok ==>
            Extends(old(Snaps(space.regions)), old(space.m.ram), Snaps(space.regions), space.m.ram,
            old(space.m.Spare()))
    ensures ok ==> Isolated(space.root, old(space.Now()), space.Now(), {}) && space.m.Spare() <= old(space.m.Spare())
    ensures ok ==>
            forall o: Span ::
            Apart(SpanOf(p), o) && AllFree(old(space.holes), o.base, o.size) ==> AllFree(space.holes, o.base, o.size)
    ensures ok ==>
            forall a: nat ::
            EndsAt(SpanList(space.regions), a) ==> EndsAt(SpanList(old(space.regions)), a) || a == End(SpanOf(p))
    ensures ok ==> |space.m.alloc.Free| + 7 * Reach(p, w) >= |old(space.m.alloc.Free)|
    ensures forall t :: 0 <= t < |space.regions| ==> space.regions[t] in old(space.regions) || fresh(space.regions[t])
  {
    hide AddressSpace.Valid, Sorted, AllFree, EndsAt, Snaps, AllSameBytes, SegmentOk, Pages, Perms, WindowsClear, Holds,
         HoldsAt, OthersLike, Extends, SpanOf, Isolated, SpanList, EndFits, Machine.Spare, Reach;
    ghost var s0, a, rs0 := Snaps(space.regions), space.Now(), space.regions;
    SegmentClean(p, |file|);
    ghost var j := BindSegment(space, p, |file|);
    ghost var r := Value(space.regions[j]);
    assert forall t :: 0 <= t < |space.regions| ==> space.regions[t] in rs0 || fresh(space.regions[t]);
    assert Snaps(rs0) == s0;
    SnapsInsert(rs0, j, space.regions[j]);
    EndInsert(s0, j, r, p.vaddr, w);
    ghost var b, l := space.Look(), SpanList(space.regions);
    ok := FillSegment(space, file, p, j, w);
    assert SpanList(space.regions) == l;
    if ok {
      BoundAndFilled(s0, a.ram, b, space.Look(), j, r, file, p);
      IsolatedTwice(space.root, a, b.shot, space.Now(), {});
    }
  }

  lemma {:induction false} EndInsert(s: seq<Region>, j: nat, r: Region, a: nat, w: nat)
    requires j <= |s| && EndFits(s, a, w) && End(r.span) != a
    ensures EndFits(InsertRegion(s, j, r), a, w)
  {
    hide AllReserved;
  }

  /** What there was before the segment was bound is like it was. */
  lemma {:induction false} BoundAndFilled(s0: seq<Region>, ram0: seq<Page>, b: View, c: View, j: nat, r: Region,
                                          file: seq<bv8>, p: Phdr)
    requires j <= |s0| && b.regions == InsertRegion(s0, j, r) && AllSameBytes(s0, ram0, s0, b.shot.ram, b.shot.spare)
    requires p.offset + p.filesz <= |file| && OthersLike(b, c, j) && HoldsAt(c.regions[j], c.shot.ram, file, p)
    ensures Holds(c.regions, c.shot.ram, file, p) && Extends(s0, ram0, c.regions, c.shot.ram, b.shot.spare)
  {
    hide Same, HoldsAt, AllReserved;
    forall i | 0 <= i < |s0| ensures HasLike(s0[i], ram0, c.regions, c.shot.ram, b.shot.spare) {
      var k := if i < j then i else i + 1;
      assert b.regions[k] == s0[i] && Like(b.regions[k], b.shot.ram, c.regions[k], c.shot.ram, b.shot.spare);
      BothSame(s0[i], ram0, s0[i], b.shot.ram, c.regions[k], c.shot.ram, b.shot.spare, b.shot.spare);
      assert Like(s0[i], ram0, c.regions[k], c.shot.ram, b.shot.spare);
    }
  }

  // ----- the whole image

  lemma {:induction false} SegmentsPrefix(file: seq<bv8>, i: nat, n: nat)
    requires HeadersIn(file) && i <= n <= PhNum(file)
    ensures Segments(file, i) <= Segments(file, n)
    decreases n - i
  {
    hide PhdrAt, Le, PhNum, PhOff;
    if i < n { SegmentsPrefix(file, i, n - 1); }
  }

  /** The segments from number n on can still be bound, and what ends where one starts is one of the first n. */
  ghost predicate StillBindable(segs: seq<Phdr>, n: nat, holes: seq<Span>, l: seq<Span>) {
    n <= |segs|
      && forall t ::
      n <= t < |segs| ==>
      AllFree(holes, segs[t].vaddr, Pages(segs[t])) && (EndsAt(l, segs[t].vaddr) ==> Follows(segs, n, t))
  }

  lemma {:induction false} BindableAfter(segs: seq<Phdr>, n: nat, holes: seq<Span>, holes': seq<Span>, l: seq<Span>,
                                         l': seq<Span>)
    requires Disjoint(segs) && n < |segs| && StillBindable(segs, n, holes, l)
    requires forall o: Span ::
             Apart(SpanOf(segs[n]), o) && AllFree(holes, o.base, o.size) ==> AllFree(holes', o.base, o.size)
    requires forall a: nat :: EndsAt(l', a) ==> EndsAt(l, a) || a == End(SpanOf(segs[n]))
    ensures StillBindable(segs, n + 1, holes', l')
  {
    hide AllFree, EndsAt;
    forall t | n + 1 <= t < |segs|
      ensures AllFree(holes', segs[t].vaddr, Pages(segs[t])) && (EndsAt(l', segs[t].vaddr) ==> Follows(segs, n + 1, t))
    {
      var o := SpanOf(segs[t]);
      assert Apart(SpanOf(segs[n]), o) && AllFree(holes, o.base, o.size);
    }
  }

  ghost predicate AllHeld(s: seq<Region>, ram: seq<Page>, file: seq<bv8>, segs: seq<Phdr>) {
    forall i :: 0 <= i < |segs| ==> segs[i].offset + segs[i].filesz <= |file| && Holds(s, ram, file, segs[i])
  }

  lemma {:induction false} HeldMore(s: seq<Region>, ram: seq<Page>, s': seq<Region>, ram': seq<Page>, free: set<nat>,
                                    file: seq<bv8>, segs: seq<Phdr>, p: Phdr)
    requires AllHeld(s, ram, file, segs) && Extends(s, ram, s', ram', free)
    requires p.offset + p.filesz <= |file| && Holds(s', ram', file, p)
    ensures AllHeld(s', ram', file, segs + [p])
  {
    hide Holds, Extends;
    forall i | 0 <= i < |segs| ensures Holds(s', ram', file, segs[i]) {
      HoldsExtended(s, ram, s', ram', free, file, segs[i]);
    }
  }

  lemma {:induction false} ExtendsTwice(s0: seq<Region>, ram0: seq<Page>, free0: set<nat>, s1: seq<Region>,
                                        ram1: seq<Page>, free1: set<nat>, s2: seq<Region>, ram2: seq<Page>)
    requires Extends(s0, ram0, s1, ram1, free0) && Extends(s1, ram1, s2, ram2, free1) && free1 <= free0
    ensures Extends(s0, ram0, s2, ram2, free0)
  {
    hide Same, AllReserved;
    forall i | 0 <= i < |s0| ensures HasLike(s0[i], ram0, s2, ram2, free0) {
      assert HasLike(s0[i], ram0, s1, ram1, free0);
      var j :| 0 <= j < |s1| && Like(s0[i], ram0, s1[j], ram1, free0);
      assert HasLike(s1[j], ram1, s2, ram2, free1);
      var k :| 0 <= k < |s2| && Like(s1[j], ram1, s2[k], ram2, free1);
      BothSame(s0[i], ram0, s1[j], ram1, s2[k], ram2, free0, free1);
      assert Like(s0[i], ram0, s2[k], ram2, free0);
    }
  }

  lemma {:induction false} ExtendsSelf(s: seq<Region>, ram: seq<Page>, free: set<nat>)
    ensures Extends(s, ram, s, ram, free)
  {
    forall i | 0 <= i < |s| ensures HasLike(s[i], ram, s, ram, free) {
      assert Like(s[i], ram, s[i], ram, free);
    }
  }

  /**
   * elf64_load: on a file that passes the check and whose segments suit the address space, with
   * the frames it needs, the kernel survives exactly if no segment that has bytes in the file
   * starts where an earlier one ends. Every segment is then in a region of its own that reads as the file's bytes below
   * p_filesz and as zero above; regions that were there read as before.
   */
  method Load(space: AddressSpace, file: seq<bv8>) returns (ok: bool, loaded: bool, ip: nat)
    requires space.Valid() && WindowsClear(space.m) && |file| >= EHDR_SIZE
    requires Check(file) ==> Loadable(file, space.holes, SpanList(space.regions))
    requires Check(file) ==> |space.m.alloc.Free| >= NeedFor(file)
    modifies space`holes, space`regions, space`own, space.regions, space.m, space.m.alloc, space.m.alloc.words
    ensures ok <==> !(Check(file) && Adjacent(Segments(file, PhNum(file)), |Segments(file, PhNum(file))|))
    ensures ok ==> loaded == Check(file) && space.Valid() && WindowsClear(space.m)
    ensures ok ==>
            Extends(old(Snaps(space.regions)), old(space.m.ram), Snaps(space.regions), space.m.ram,
            old(space.m.Spare()))
    ensures ok ==> Isolated(space.root, old(space.Now()), space.Now(), {})
    ensures ok && !loaded ==> space.regions == old(space.regions) && space.holes == old(space.holes)
    ensures forall t :: 0 <= t < |space.regions| ==> space.regions[t] in old(space.regions) || fresh(space.regions[t])
    ensures ok && loaded ==>
              && ip == Entry(file) && AllHeld(Snaps(space.regions), space.m.ram, file, Segments(file, PhNum(file)))
              && |space.m.alloc.Free| + NeedFor(file) >= |old(space.m.alloc.Free)|
  {
    hide AddressSpace.Valid, Snaps, Extends, Check, WindowsClear, Progress, Segments, PhdrAt, Le, AllHeld, NeedFor,
         Loadable, Isolated, Adjacent, Machine.Spare;
    ghost var s0, a := Snaps(space.regions), space.Now();
    ExtendsSelf(s0, a.ram, a.spare);
    NothingIsolated(space.root, a, {});
    if !Check(file) { return true, false, 0; }
    LoadStart(space, file);
    var i := 0;
    while i < PhNum(file)
      invariant i <= PhNum(file)
      invariant space.Valid() && WindowsClear(space.m) && Progress(space, file, i, s0, a)
      invariant forall t ::
                0 <= t < |space.regions| ==> space.regions[t] in old(space.regions) || fresh(space.regions[t])
    {
      if PhdrAt(file, i).kind == TYPE_LOAD {
        ok := LoadNext(space, file, i, s0, a);
        if !ok { return false, false, 0; }
      } else {
        SkipHeader(space, file, i, s0, a);
      }
      i := i + 1;
    }
    LoadEnd(space, file, s0, a);
    return true, true, Entry(file);
  }

  /** The state of the loop before header i: earlier segments are held, later ones can still be bound. */
  ghost predicate Progress(space: AddressSpace, file: seq<bv8>, i: nat, s0: seq<Region>, a: Shot)
    reads space, space.regions, space.m, space.m.alloc
  {
    && HeadersIn(file) && i <= PhNum(file)
    && var segs := Segments(file, PhNum(file));
       && Disjoint(segs) && (forall t :: 0 <= t < |segs| ==> SegmentOk(segs[t], |file|))
       && |a.free| >= Need(segs, |segs|) && |Segments(file, i)| <= |segs|
       && Sorted(space.holes)
       && AllHeld(Snaps(space.regions), space.m.ram, file, Segments(file, i))
       && Extends(s0, a.ram, Snaps(space.regions), space.m.ram, a.spare)
       && StillBindable(segs, |Segments(file, i)|, space.holes, SpanList(space.regions))
       && !Adjacent(segs, |Segments(file, i)|)
       && Isolated(space.root, a, space.Now(), {})
       && space.m.Spare() <= a.spare && |space.m.alloc.Free| + Need(segs, |Segments(file, i)|) >= |a.free|
  }

  /** A region ends where segment n starts exactly when an earlier segment does, and that region can be copied into. */
  lemma {:induction false} FollowsRegion(space: AddressSpace, file: seq<bv8>, segs: seq<Phdr>, n: nat)
    requires space.Valid() && n < |segs| && StillBindable(segs, n, space.holes, SpanList(space.regions))
    requires AllHeld(Snaps(space.regions), space.m.ram, file, segs[..n])
             && forall t :: 0 <= t < |segs| ==> SegmentOk(segs[t], |file|)
    ensures EndsAt(SpanList(space.regions), segs[n].vaddr) <==> Follows(segs, n, n)
    ensures EndFits(Snaps(space.regions), segs[n].vaddr, Widest(segs))
  {
    hide AddressSpace.Valid, AllFree, EndsAt, SegmentOk, EndFits, Holds, SpanList, Snaps, SpanOf, Widest, Pages;
    ValidSpace(space);
    SnapSpans(space.regions);
    if Follows(segs, n, n) {
      var i :| 0 <= i < n && End(SpanOf(segs[i])) == segs[n].vaddr;
      assert segs[..n][i] == segs[i] && SegmentOk(segs[i], |file|);
      SegmentClean(segs[i], |file|);
      HeldEnd(space.holes, Snaps(space.regions), space.m.ram, file, segs[i], segs[n].vaddr, Widest(segs));
    } else {
      NoEnd(Snaps(space.regions), segs[n].vaddr, Widest(segs));
    }
  }

  /** The region of a loaded segment is the only one that ends where the segment does. */
  lemma {:induction false} HeldEnd(holes: seq<Span>, s: seq<Region>, ram: seq<Page>, file: seq<bv8>, p: Phdr, a: nat,
                                   w: nat)
    requires LayoutOk(holes, SpansOf(s)) && AllApart(SpansOf(s)) && p.offset + p.filesz <= |file|
             && Holds(s, ram, file, p)
    requires End(SpanOf(p)) == a && Pages(p) <= WINDOW_PAGES && Pages(p) <= w
    ensures EndsAt(SpansOf(s), a) && EndFits(s, a, w)
  {
    hide ByteAt, Pages, Perms, AllReserved, Tiled, Sorted;
    var k :| 0 <= k < |s| && HoldsAt(s[k], ram, file, p);
    assert End(SpansOf(s)[k]) == a;
    forall t | 0 <= t < |s| && End(s[t].span) == a ensures t == k {
      assert Proper(SpansOf(s)[t]) && Proper(SpansOf(s)[k]);
    }
  }

  lemma {:induction false} NoEnd(s: seq<Region>, a: nat, w: nat)
    requires !EndsAt(SpansOf(s), a)
    ensures EndFits(s, a, w)
  {
    hide AllReserved;
    forall k | 0 <= k < |s| ensures End(s[k].span) != a { assert End(SpansOf(s)[k]) != a; }
  }

  method LoadNext(space: AddressSpace, file: seq<bv8>, i: nat, ghost s0: seq<Region>, ghost a: Shot) returns (ok: bool)
    requires space.Valid() && WindowsClear(space.m) && Progress(space, file, i, s0, a)
    requires i < PhNum(file) && PhdrAt(file, i).kind == TYPE_LOAD
    modifies space`holes, space`regions, space`own, space.regions, space.m, space.m.alloc, space.m.alloc.words
    ensures ok ==> space.Valid() && WindowsClear(space.m) && Progress(space, file, i + 1, s0, a)
    ensures !ok ==> Adjacent(Segments(file, PhNum(file)), |Segments(file, PhNum(file))|)
    ensures forall t :: 0 <= t < |space.regions| ==> space.regions[t] in old(space.regions) || fresh(space.regions[t])
  {
    hide AddressSpace.Valid, Sorted, AllFree, EndsAt, Snaps, SegmentOk, Pages, Perms, Holds, Extends, SpanOf,
         WindowsClear, AllHeld, StillBindable, Segments, Need, PhdrAt, Le, Disjoint, Isolated, EndFits, Follows,
         SpanList, Machine.Spare, Widest, Reach;
    var p := PhdrAt(file, i);
    NextSegment(file, i);
    ghost var segs, n := Segments(file, PhNum(file)), |Segments(file, i)|;
    assert SegmentOk(segs[n], |file|);
    SegmentClean(p, |file|);
    BindableNow(segs, n, space.holes, SpanList(space.regions));
    FollowsRegion(space, file, segs, n);
    NeedStep(segs, n);
    ghost var s1, b, holes1, l1 := Snaps(space.regions), space.Now(), space.holes, SpanList(space.regions);
    ok := LoadSegment(space, file, p, Widest(segs));
    if !ok { return; }
    HeldMore(s1, b.ram, Snaps(space.regions), space.m.ram, b.spare, file, Segments(file, i), p);
    ExtendsTwice(s0, a.ram, a.spare, s1, b.ram, b.spare, Snaps(space.regions), space.m.ram);
    IsolatedTwice(space.root, a, b, space.Now(), {});
    BindableAfter(segs, n, holes1, space.holes, l1, SpanList(space.regions));
  }

  lemma {:induction false} SkipHeader(space: AddressSpace, file: seq<bv8>, i: nat, s0: seq<Region>, a: Shot)
    requires Progress(space, file, i, s0, a)
    requires i < PhNum(file) && PhdrAt(file, i).kind != TYPE_LOAD
    ensures Progress(space, file, i + 1, s0, a)
  {
    hide Sorted, Snaps, SegmentOk, Extends, AllHeld, StillBindable, Segments, Need, PhdrAt, Le, Disjoint, Isolated,
         Machine.Spare;
    NextSegment(file, i);
  }

  lemma {:induction false} LoadStart(space: AddressSpace, file: seq<bv8>)
    requires Loadable(file, space.holes, SpanList(space.regions))
    requires |space.m.alloc.Free| >= NeedFor(file)
    ensures HeadersIn(file) && Progress(space, file, 0, Snaps(space.regions), space.Now())
  {
    hide Sorted, Snaps, SegmentOk, Extends, Disjoint, AllFree, EndsAt, PhdrAt, Le;
    ExtendsSelf(Snaps(space.regions), space.m.ram, space.m.Spare());
  }

  lemma {:induction false} LoadEnd(space: AddressSpace, file: seq<bv8>, s0: seq<Region>, a: Shot)
    requires HeadersIn(file) && Progress(space, file, PhNum(file), s0, a)
    ensures AllHeld(Snaps(space.regions), space.m.ram, file, Segments(file, PhNum(file)))
    ensures Extends(s0, a.ram, Snaps(space.regions), space.m.ram, a.spare) && Isolated(space.root, a, space.Now(), {})
    ensures |space.m.alloc.Free| + NeedFor(file) >= |a.free|
    ensures !Adjacent(Segments(file, PhNum(file)), |Segments(file, PhNum(file))|)
  {
    hide Sorted, Snaps, SegmentOk, Extends, Disjoint, AllHeld, StillBindable, PhdrAt, Le, Isolated;
  }

  lemma {:induction false} NextSegment(file: seq<bv8>, i: nat)
    requires HeadersIn(file) && i < PhNum(file)
    ensures var segs, p := Segments(file, PhNum(file)), PhdrAt(file, i);
            if p.kind == TYPE_LOAD then
              && Segments(file, i + 1) == Segments(file, i) + [p]
              && |Segments(file, i)| < |segs| && segs[|Segments(file, i)|] == p
              && segs[..|Segments(file, i)|] == Segments(file, i)
            else Segments(file, i + 1) == Segments(file, i)
  {
    hide PhdrAt, Le, PhNum, PhOff, Pages;
    var segs := Segments(file, PhNum(file));
    SegmentsPrefix(file, i + 1, PhNum(file));
    var p := PhdrAt(file, i);
    if p.kind == TYPE_LOAD {
      var done := Segments(file, i);
      assert (done + [p])[..|done|] == done;
      assert segs[|done|] == (done + [p])[|done|];
    }
  }

  lemma {:induction false} NeedStep(segs: seq<Phdr>, n: nat)
    requires n < |segs|
    ensures Need(segs, n + 1) == Need(segs, n) + 7 * Reach(segs[n], Widest(segs)) <= Need(segs, |segs|)
  {
    hide Widest, Reach;
    NeedGrows(segs, n + 1, |segs|);
  }

  lemma {:induction false} BindableNow(segs: seq<Phdr>, n: nat, holes: seq<Span>, l: seq<Span>)
    requires StillBindable(segs, n, holes, l) && n < |segs|
    ensures AllFree(holes, segs[n].vaddr, Pages(segs[n]))
  {}
}
