/**
 * The kernel heap: blocks of whole pages in the kernel's context, each followed by a page that is
 * never mapped. Contents of heap memory are kept as 64-bit words by virtual address.
 */
module Heaps {
  import opened Bits
  import opened FrameAllocation
  import opened PageTree
  import opened Machines
  import opened Mappings
  import opened Copying
  import opened Regions
  import opened AddressSpaces

  const HEAP_BASE: nat := 0x2_0000_0000
  const HEAP_PAGE: nat := 0x20_0000        // HEAP_BASE / 0x1000
  const HEAP_LIMIT: nat := 0x7_0000_0000   // the first page of the copy window

  /** A block of rounded size `size` in `pages` pages from page `first`. */
  datatype Block = Block(first: nat, pages: nat, size: nat)

  function Rounded(bytes: nat): (size: nat)
    ensures bytes <= size < bytes + 8 && size % 8 == 0
  {
    (bytes + 7) / 8 * 8
  }

  /** The pages for a rounded size and the two header words. */
  function PagesFor(size: nat): (n: nat)
    ensures n > 0 && size + 16 <= n * 0x1000 < size + 16 + 0x1000
  {
    (size + 16 + 0xFFF) / 0x1000
  }

  function EndOf(b: Block): nat {
    (b.first + b.pages) * 0x1000
  }

  /** The pointer kmalloc returns. */
  function PointerOf(b: Block): nat
    requires b.size + 16 <= b.pages * 0x1000
  {
    EndOf(b) - b.size
  }

  /** vm_perm::rw, vm_cache::def */
  function HeapFlags(): nat {
    VmmFlags(3, 0)
  }

  // ----- where kfree looks for the block -----

  predicate Findable(size: nat) {
    size % 0x1000 != 0 && size % 0x1000 != 0xFF8
  }

  /** The page kfree starts at is the block's first page exactly when the rounded size is not 0 or 4088 mod 4096. */
  lemma {:induction false} StartFound(first: nat, size: nat)
    requires size % 8 == 0
    ensures var b := Block(first, PagesFor(size), size);
            && (PointerOf(b) / 0x1000 == first <==> Findable(size))
            && (PointerOf(b) / 0x1000 == if Findable(size) then first else first + 1)
  {
    var n := PagesFor(size);
    var gap := n * 0x1000 - size;
    assert (n * 0x1000) % 8 == 0;
    GapRest(size, n, gap);
    if gap < 0x1000 { ModUnique(first * 0x1000 + gap, 0x1000, first, gap); }
       else { ModUnique(first * 0x1000 + gap, 0x1000, first + 1, gap - 0x1000); }
  }

  /** The space before the payload and what the size leaves of its last page. */
  lemma {:induction false} GapRest(size: nat, n: nat, gap: nat)
    requires n > 0 && size + gap == n * 0x1000 && 16 <= gap < 0x1010 && gap % 8 == 0
    ensures Findable(size) <==> gap < 0x1000
  {
    if gap < 0x1000 {
      ModUnique(size, 0x1000, n - 1, 0x1000 - gap);
    } else if gap == 0x1000 {
      ModUnique(size, 0x1000, n - 1, 0);
    } else {
      assert gap == 0x1008;
      ModUnique(size, 0x1000, n - 2, 0xFF8);
    }
  }

  /** Where the size is wrong for it, kfree leaves the first page mapped and goes on to the guard page. */
  lemma {:induction false} FreedRange(first: nat, size: nat)
    requires size % 8 == 0
    ensures var b := Block(first, PagesFor(size), size);
            Range(PointerOf(b) / 0x1000, b.pages) == Range(first, b.pages) <==> Findable(size)
    ensures !Findable(size) ==>
              var b := Block(first, PagesFor(size), size);
              first !in Range(PointerOf(b) / 0x1000, b.pages)
                && first + b.pages in Range(PointerOf(b) / 0x1000, b.pages)
  {
    StartFound(first, size);
    assert first in Range(first, PagesFor(size));
  }

  /** kmalloc(4096) is such a block. */
  lemma {:induction false} OnePageIsNotFound()
    ensures Rounded(0x1000) == 0x1000 && PagesFor(0x1000) == 2 && !Findable(0x1000)
    ensures PointerOf(Block(HEAP_PAGE, 2, 0x1000)) / 0x1000 == HEAP_PAGE + 1
    ensures Range(HEAP_PAGE + 1, 2) == {HEAP_PAGE + 1, HEAP_PAGE + 2}
  {
    StartFound(HEAP_PAGE, 0x1000);
  }

  // ----- what holds between calls -----

  function Put(x: map<nat, nat>, k: nat, v: nat): (y: map<nat, nat>)
    ensures y.Keys == x.Keys + {k} && y[k] == v && forall p :: p in x && p != k ==> y[p] == x[p]
  {
    x + map[k := v]
  }

  function TakeOut(x: map<nat, nat>, k: nat): (y: map<nat, nat>)
    ensures y.Keys == x.Keys - {k} && forall p :: p in y ==> y[p] == x[p]
  {
    x - {k}
  }

  lemma {:induction false} ValuesPut(x: map<nat, nat>, k: nat, v: nat)
    requires k !in x
    ensures Put(x, k, v).Values == x.Values + {v}
  {
    hide Put;
    var y := Put(x, k, v);
    assert v in y.Values by { assert k in y; }
    forall w | w in x.Values ensures w in y.Values { var p :| p in x && x[p] == w; assert p in y; }
    forall w | w in y.Values ensures w in x.Values + {v} { var p :| p in y && y[p] == w; }
  }

  lemma {:induction false} MappedAt(x: map<nat, map<nat, nat>>, root: nat, page: nat, e: nat)
    requires root in x
    ensures Mapped(x, root, page, e)[root] == Put(x[root], page, e)
    ensures Unmapped(x, root, page)[root] == TakeOut(x[root], page)
  {}

  /** The block's pages are mapped, its guard page is not, its two header words are in place. */
  ghost predicate BlockOk(b: Block, frames: map<nat, nat>, words: map<nat, nat>, top: nat) {
    && b.size % 8 == 0 && b.pages == PagesFor(b.size)
    && HEAP_PAGE <= b.first && b.first + b.pages < top
    && Range(b.first, b.pages) <= frames.Keys
    && b.first + b.pages !in frames
    && Word(words, PointerOf(b) - 16) == b.size && Word(words, PointerOf(b) - 8) == b.pages
  }

  function Word(words: map<nat, nat>, a: nat): nat {
    if a in words then words[a] else 0
  }

  /** A guard page or more between two blocks. */
  predicate Apart(a: Block, b: Block) {
    a.first + a.pages < b.first || b.first + b.pages < a.first
  }

  /**
   * The kernel's flat map is exactly the heap's pages, each with a frame of its own; every live
   * block is in order, and no two touch. Pages below top that no block has were left by a kmalloc
   * that ran out of frames.
   */
  ghost predicate HeapOk(x: map<nat, nat>, frames: map<nat, nat>, own: set<nat>, live: set<Block>, words: map<nat, nat>,
                         top: nat)
  {
    && FramesMapped(x, frames, own)
    && HEAP_PAGE <= top <= HEAP_LIMIT && (forall p :: p in frames ==> HEAP_PAGE <= p < top)
    && (forall b :: b in live ==> BlockOk(b, frames, words, top))
    && (forall a, b :: a in live && b in live && a != b ==> Apart(a, b))
  }

  ghost predicate FramesMapped(x: map<nat, nat>, frames: map<nat, nat>, own: set<nat>) {
    && x.Keys == frames.Keys && own == frames.Values
    && (forall p ::
       p in frames ==> frames[p] < 0x8_0000_0000_0000 && x[p] == MakeEntry(frames[p] * 0x1000, HeapFlags()))
    && OneToOne(frames)
  }

  lemma {:induction false} BlockStays(b: Block, frames: map<nat, nat>, g: map<nat, nat>, words: map<nat, nat>, top: nat,
                                      top': nat)
    requires BlockOk(b, frames, words, top) && top <= top' && frames.Keys <= g.Keys && b.first + b.pages !in g
    ensures BlockOk(b, g, words, top')
  {
    hide PagesFor, PointerOf, Word, Range;
  }

  lemma {:induction false} OneMoreFrame(x: map<nat, nat>, frames: map<nat, nat>, own: set<nat>, top: nat, f: nat)
    requires FramesMapped(x, frames, own) && top !in frames && f < 0x8_0000_0000_0000 && f !in own
    ensures FramesMapped(Put(x, top, MakeEntry(f * 0x1000, HeapFlags())), Put(frames, top, f), own + {f})
  {
    hide MakeEntry, HeapFlags, Put;
    ValuesPut(frames, top, f);
    StillOneToOne(frames, top, f);
    var y, g := Put(x, top, MakeEntry(f * 0x1000, HeapFlags())), Put(frames, top, f);
    forall p | p in g ensures g[p] < 0x8_0000_0000_0000 && y[p] == MakeEntry(g[p] * 0x1000, HeapFlags()) {
      if p != top { assert p in frames && y[p] == x[p] && g[p] == frames[p]; }
    }
  }

  ghost predicate OneToOne(frames: map<nat, nat>) {
    forall p, q :: p in frames && q in frames && p != q ==> frames[p] != frames[q]
  }

  lemma {:induction false} StillOneToOne(frames: map<nat, nat>, top: nat, f: nat)
    requires OneToOne(frames) && f !in frames.Values
    ensures OneToOne(Put(frames, top, f))
  {
    hide Put;
    assert forall p :: p in frames ==> frames[p] in frames.Values;
  }

  lemma {:induction false} MapMore(x: map<nat, nat>, frames: map<nat, nat>, own: set<nat>, live: set<Block>,
                                   words: map<nat, nat>, top: nat, f: nat)
    requires HeapOk(x, frames, own, live, words, top) && top < HEAP_LIMIT
    requires f < 0x8_0000_0000_0000 && f !in own
    ensures HeapOk(Put(x, top, MakeEntry(f * 0x1000, HeapFlags())), Put(frames, top, f), own + {f}, live, words,
            top + 1)
  {
    hide FramesMapped, MakeEntry, HeapFlags, BlockOk, Put;
    OneMoreFrame(x, frames, own, top, f);
    forall b | b in live ensures BlockOk(b, Put(frames, top, f), words, top + 1) {
      GuardBelow(b, frames, words, top);
      BlockStays(b, frames, Put(frames, top, f), words, top, top + 1);
    }
  }

  lemma {:induction false} GuardBelow(b: Block, frames: map<nat, nat>, words: map<nat, nat>, top: nat)
    requires BlockOk(b, frames, words, top)
    ensures b.first + b.pages < top && b.first + b.pages !in frames && HEAP_PAGE <= b.first && b.pages > 0
    ensures b.size + 16 <= b.pages * 0x1000
            && b.first * 0x1000 + 16 <= PointerOf(b) <= EndOf(b) == PointerOf(b) + b.size
    ensures Range(b.first, b.pages) <= frames.Keys && b.size % 8 == 0 && b.pages == PagesFor(b.size)
    ensures Word(words, PointerOf(b) - 16) == b.size && Word(words, PointerOf(b) - 8) == b.pages
  {
    hide Word, Range;
  }

  /** The words of the new header, and where they are. */
  function WithHeader(words: map<nat, nat>, b: Block): map<nat, nat>
    requires b.size + 16 <= b.pages * 0x1000
  {
    Put(Put(words, PointerOf(b) - 16, b.size), PointerOf(b) - 8, b.pages)
  }

  /** Only the header is read, so words elsewhere may change. */
  lemma {:induction false} HeaderStays(b: Block, frames: map<nat, nat>, words: map<nat, nat>, w: map<nat, nat>,
                                       top: nat)
    requires BlockOk(b, frames, words, top) && b.size + 16 <= b.pages * 0x1000
    requires Word(w, PointerOf(b) - 16) == Word(words, PointerOf(b) - 16)
             && Word(w, PointerOf(b) - 8) == Word(words, PointerOf(b) - 8)
    ensures BlockOk(b, frames, w, top)
  {
    hide PagesFor, PointerOf, Word, Range;
  }

  /** Blocks with a page between them have no address in common. */
  lemma {:induction false} AddressesApart(a: Block, b: Block)
    requires Apart(a, b)
    ensures if a.first < b.first then EndOf(a) <= b.first * 0x1000 else EndOf(b) <= a.first * 0x1000
  {}

  lemma {:induction false} NewBlock(x: map<nat, nat>, frames: map<nat, nat>, own: set<nat>, live: set<Block>,
                                    words: map<nat, nat>, top: nat, b: Block)
    requires HeapOk(x, frames, own, live, words, top) && top < HEAP_LIMIT && b.size % 8 == 0
             && b.pages == PagesFor(b.size)
    requires HEAP_PAGE <= b.first && b.first + b.pages == top && Range(b.first, b.pages) <= frames.Keys
    requires forall a :: a in live ==> a.first + a.pages < b.first
    ensures HeapOk(x, frames, own, live + {b}, WithHeader(words, b), top + 1)
  {
    hide FramesMapped, PagesFor, PointerOf, EndOf, Range, BlockOk;
    var w := WithHeader(words, b);
    HeaderWritten(b, frames, words, top);
    forall a | a in live ensures BlockOk(a, frames, w, top + 1) {
      GuardBelow(a, frames, words, top);
      AddressesApart(a, b);
      HeaderStays(a, frames, words, w, top);
      BlockStays(a, frames, frames, w, top, top + 1);
    }
  }

  lemma {:induction false} HeaderWritten(b: Block, frames: map<nat, nat>, words: map<nat, nat>, top: nat)
    requires b.size % 8 == 0 && b.pages == PagesFor(b.size) && HEAP_PAGE <= b.first && b.first + b.pages == top
    requires Range(b.first, b.pages) <= frames.Keys && top !in frames
    ensures b.size + 16 <= b.pages * 0x1000 && BlockOk(b, frames, WithHeader(words, b), top + 1)
    ensures PointerOf(b) >= b.first * 0x1000 + 16
  {
    hide Range;
  }

  /** A write inside the payload of a live block leaves every header alone. */
  lemma {:induction false} PayloadWrite(x: map<nat, nat>, frames: map<nat, nat>, own: set<nat>, live: set<Block>,
                                        words: map<nat, nat>, top: nat, b: Block, a: nat, v: nat)
    requires HeapOk(x, frames, own, live, words, top) && b in live && PagesFor(b.size) == b.pages
             && PointerOf(b) <= a < EndOf(b)
    ensures HeapOk(x, frames, own, live, Put(words, a, v), top)
  {
    hide FramesMapped, PagesFor, PointerOf, EndOf, Range, BlockOk;
    forall c | c in live ensures BlockOk(c, frames, Put(words, a, v), top) {
      GuardBelow(b, frames, words, top);
      GuardBelow(c, frames, words, top);
      if c != b { AddressesApart(b, c); }
      HeaderStays(c, frames, words, Put(words, a, v), top);
    }
  }

  lemma {:induction false} DropBlock(x: map<nat, nat>, frames: map<nat, nat>, own: set<nat>, live: set<Block>,
                                     words: map<nat, nat>, top: nat, b: Block)
    requires HeapOk(x, frames, own, live, words, top)
    ensures HeapOk(x, frames, own, live - {b}, words, top)
  {
    hide FramesMapped, BlockOk;
  }

  /** No live block has the page. */
  ghost predicate NoBlockHas(live: set<Block>, p: nat) {
    forall b :: b in live ==> p < b.first || b.first + b.pages <= p
  }

  lemma {:induction false} OneLessFrame(x: map<nat, nat>, frames: map<nat, nat>, own: set<nat>, p: nat)
    requires FramesMapped(x, frames, own) && p in frames
    ensures FramesMapped(TakeOut(x, p), TakeOut(frames, p), own - {frames[p]})
  {
    hide MakeEntry, HeapFlags, TakeOut;
    var g := TakeOut(frames, p);
    forall v | v in own - {frames[p]} ensures v in g.Values { var q :| q in frames && frames[q] == v; assert q in g; }
    forall v | v in g.Values ensures v in own - {frames[p]} { var q :| q in g && g[q] == v; assert q in frames; }
  }

  lemma {:induction false} UnmapLess(x: map<nat, nat>, frames: map<nat, nat>, own: set<nat>, live: set<Block>,
                                     words: map<nat, nat>, top: nat, p: nat)
    requires HeapOk(x, frames, own, live, words, top) && p in frames && NoBlockHas(live, p)
    ensures HeapOk(TakeOut(x, p), TakeOut(frames, p), own - {frames[p]}, live, words, top)
  {
    hide FramesMapped, BlockOk, TakeOut;
    OneLessFrame(x, frames, own, p);
    forall b | b in live ensures BlockOk(b, TakeOut(frames, p), words, top) { BlockLeft(b, p, frames, words, top); }
  }

  lemma {:induction false} BlockLeft(b: Block, p: nat, frames: map<nat, nat>, words: map<nat, nat>, top: nat)
    requires BlockOk(b, frames, words, top) && (p < b.first || b.first + b.pages <= p)
    ensures BlockOk(b, TakeOut(frames, p), words, top)
  {
    hide PagesFor, PointerOf, Word, TakeOut;
  }

  /**
   * Two live blocks share no page, each ends at a page end, and its guard page belongs to no block
   * and is not mapped.
   */
  lemma {:induction false} BlocksApart(x: map<nat, nat>, frames: map<nat, nat>, own: set<nat>, live: set<Block>,
                                       words: map<nat, nat>, top: nat, a: Block, b: Block)
    requires HeapOk(x, frames, own, live, words, top) && a in live && b in live
    ensures a != b ==> Range(a.first, a.pages) !! Range(b.first, b.pages)
    ensures a.first + a.pages !in Range(b.first, b.pages) && a.first + a.pages !in x
    ensures a.size + 16 <= a.pages * 0x1000 && PointerOf(a) + a.size == (a.first + a.pages) * 0x1000
  {
    hide FramesMapped, PagesFor, Word, BlockOk;
    GuardBelow(a, frames, words, top);
    GuardBelow(b, frames, words, top);
    assert a != b ==> Apart(a, b);
    assert x.Keys == frames.Keys by { KeysAgree(x, frames, own); }
  }

  lemma {:induction false} KeysAgree(x: map<nat, nat>, frames: map<nat, nat>, own: set<nat>)
    requires FramesMapped(x, frames, own)
    ensures x.Keys == frames.Keys
  {
    hide MakeEntry, HeapFlags;
  }

  lemma {:induction false} IsolatedPage(kernel: nat, a: Shot, b: Shot, page: nat, e: nat, f: nat)
    requires kernel in a.xlat && a.own <= a.lent && a.lent !! a.spare && f in a.spare && b.spare <= a.spare
             && SameOutside(a.ram, b.ram, a.spare)
    requires b.xlat == Mapped(a.xlat, kernel, page, e) && b.lent == a.lent + {f} && b.own == a.own + {f}
    ensures Isolated(kernel, a, b, {})
  {
    assert (a.lent + {f}) - (a.own + {f}) == a.lent - a.own;
  }

  /** A frame for a heap page, mapped at the page. */
  method MapFresh(m: Machine, va: nat) returns (ok: bool, got: bool, ghost f: nat)
    requires m.Valid() && m.kernelRoot in m.xlat && va / 0x1000 < HEAP_LIMIT
    modifies m, m.alloc, m.alloc.words
    ensures |old(m.alloc.Free)| >= 4 ==> ok && got
    ensures ok ==> m.Valid() && |m.alloc.Free| + 4 >= |old(m.alloc.Free)|
    ensures ok && !got ==>
            m.alloc.Free == {} == old(m.alloc.Free) && m.xlat == old(m.xlat) && m.lent == old(m.lent)
            && m.ram == old(m.ram) && m.Spare() == old(m.Spare())
    ensures ok && got ==>
              && f in old(m.alloc.Free) && f < 0x8_0000_0000_0000 && m.lent == old(m.lent) + {f}
              && m.xlat == Mapped(old(m.xlat), m.kernelRoot, va / 0x1000, MakeEntry(f * 0x1000, HeapFlags()))
              && SameOutside(old(m.ram), m.ram, old(m.Spare())) && m.Spare() <= old(m.Spare()) && f in old(m.Spare())
  {
    hide Machine.Valid, Machine.Spare, SameOutside, MakeEntry, HeapFlags, Mapped, MissingTables, WithRun;
    m.SpareFrames();
    m.SpareIs();
    var p := m.AllocPhys();
    m.SpareIs();
    f := p / 0x1000;
    if p == 0 { return true, false, 0; }
    ghost var ram1, spare1 := m.ram, m.Spare();
    assert Wrap64(p) == p;
    got := true;
    ok := m.MapPages(m.kernelRoot, va, p, 1, HeapFlags());
    if ok {
      SameInMore(old(m.ram), ram1, old(m.alloc.Free), old(m.Spare()));
      OutsideTwice(old(m.ram), ram1, m.ram, old(m.Spare()), spare1);
    }
  }

  /** One page given back: its frame is read from the tables, the page is unmapped, the frame freed. */
  method FreeMapped(m: Machine, va: nat, ghost f: nat)
    requires m.Valid() && m.kernelRoot in m.xlat && va / 0x1000 < USER_PAGES && va / 0x1000 in m.xlat[m.kernelRoot]
    requires f in m.lent && f < 0x8_0000_0000_0000
             && m.xlat[m.kernelRoot][va / 0x1000] == MakeEntry(f * 0x1000, HeapFlags())
    modifies m`tables, m`xlat, m`lent, m.alloc, m.alloc.words
    ensures m.Valid() && m.xlat == Unmapped(old(m.xlat), m.kernelRoot, va / 0x1000)
    ensures m.lent == old(m.lent) - {f} && m.alloc.Free == old(m.alloc.Free) + {f}
  {
    hide Machine.Valid, MakeEntry, Unmapped, WithoutRun, VmmFlags, GetEntry, TableAt;
    m.EntryIsFlat(m.kernelRoot, va);
    NoExecuteIsLost(3, 0);
    EntryRoundTrip(f, HeapFlags());
    HoleGrows(m.xlat, m.kernelRoot, va / 0x1000, 0);
    var phys := AddrOf(GetEntry(m.tables, m.kernelRoot, va));
    ghost var done;
    var ret;
    ret, done := m.UnmapPages(m.kernelRoot, va, 1);
    m.FreePhys(phys);
  }

  class Heap {
    const m: Machine
    var top: nat
    var words: map<nat, nat>
    ghost var frames: map<nat, nat>   // the frame of each heap page
    ghost var own: set<nat>           // those frames
    ghost var live: set<Block>

    ghost predicate Valid()
      reads this, m, m.alloc, m.alloc.words
    {
      && m.Valid() && m.kernelRoot in m.xlat
      && top % 0x1000 == 0 && own <= m.lent
      && HeapOk(m.xlat[m.kernelRoot], frames, own, live, words, top / 0x1000)
    }

    ghost function Now(): Shot
      reads this`own, m, m.alloc
    {
      Shot(m.xlat, m.lent, own, m.alloc.Free, m.Spare(), m.ram)
    }

    /** The heap before the first call. */
    constructor (machine: Machine)
      requires machine.Valid() && machine.kernelRoot in machine.xlat && machine.xlat[machine.kernelRoot] == map[]
      ensures Valid() && m == machine && top == HEAP_BASE && live == {} && frames == map[]
    {
      hide Machine.Valid, HeapOk;
      EmptyHeap();
      m, top, words, frames, own, live := machine, HEAP_BASE, map[], map[], {}, {};
    }

    /** One turn of the loop of kmalloc; got is false when there is no frame for the page. */
    method MapTop() returns (ok: bool, got: bool)
      requires Valid() && top / 0x1000 < HEAP_LIMIT
      modifies this`top, this`frames, this`own, m, m.alloc, m.alloc.words
      ensures ok ==> Valid() && Isolated(m.kernelRoot, old(Now()), Now(), {})
      ensures |old(m.alloc.Free)| >= 4 ==> ok && got
      ensures ok ==> |m.alloc.Free| + 4 >= |old(m.alloc.Free)|
      ensures ok && !got ==> m.alloc.Free == {} && top == old(top) && frames == old(frames)
      ensures ok && got ==> OnePage(old(top), top, old(frames), frames)
    {
      hide Machine.Valid, HeapOk, Isolated, MakeEntry, SameOutside, HeapFlags, Mapped, Put, Machine.Spare;
      ghost var page, f, a := top / 0x1000, 0, Now();
      m.SpareFrames();
      NothingIsolated(m.kernelRoot, a, {});
      ok, got, f := MapFresh(m, top);
      if ok && got {
        MappedAt(a.xlat, m.kernelRoot, page, MakeEntry(f * 0x1000, HeapFlags()));
        Advance(a.xlat[m.kernelRoot], f);
        IsolatedPage(m.kernelRoot, a, Now(), page, MakeEntry(f * 0x1000, HeapFlags()), f);
      }
    }

    /** top moves over a page that has just been mapped to frame f. */
    method Advance(ghost x: map<nat, nat>, ghost f: nat)
      requires m.Valid() && m.kernelRoot in m.xlat && top % 0x1000 == 0 && top / 0x1000 < HEAP_LIMIT
      requires own + {f} <= m.lent && f !in own && f < 0x8_0000_0000_0000
      requires HeapOk(x, frames, own, live, words, top / 0x1000)
               && m.xlat[m.kernelRoot] == Put(x, top / 0x1000, MakeEntry(f * 0x1000, HeapFlags()))
      modifies this`top, this`frames, this`own
      ensures Valid() && own == old(own) + {f} && OnePage(old(top), top, old(frames), frames)
    {
      hide Machine.Valid, HeapOk, MakeEntry, HeapFlags, Put;
      MapMore(x, frames, own, live, words, top / 0x1000, f);
      PutGains(frames, top / 0x1000, f);
      frames, own := Put(frames, top / 0x1000, f), own + {f};
      top := top + 0x1000;
    }

    /** The loop of kmalloc; got is false when the frames run out. */
    method MapBlock(pages: nat) returns (ok: bool, got: bool)
      requires Valid() && top / 0x1000 + pages <= HEAP_LIMIT
      modifies this`top, this`frames, this`own, m, m.alloc, m.alloc.words
      ensures ok ==> Valid() && Isolated(m.kernelRoot, old(Now()), Now(), {})
      ensures |old(m.alloc.Free)| >= 4 * pages ==> ok && got
      ensures ok ==> |m.alloc.Free| + 4 * pages >= |old(m.alloc.Free)|
      ensures ok && got ==> Mounted(old(top), top, old(frames), frames, pages)
      ensures ok && !got ==> m.alloc.Free == {} && Leaked(old(top), top, old(frames), frames, pages)
    {
      hide Heap.Valid, Heap.Now, Isolated, Mounted, Gains, Leaked;
      ghost var first := top / 0x1000;
      NothingIsolated(m.kernelRoot, Now(), {});
      var i := 0;
      ghost var a, n := Now(), |m.alloc.Free|;
      MountedNone(top, frames);
      while i < pages
        invariant i <= pages && top == old(top) + i * 0x1000 && top / 0x1000 == first + i && Valid()
        invariant Mounted(old(top), top, old(frames), frames, i)
        invariant Isolated(m.kernelRoot, a, Now(), {})
        invariant |m.alloc.Free| + 4 * i >= n
      {
        ghost var b, g := Now(), frames;
        ok, got := MapTop();
        if !ok { return; }
        IsolatedTwice(m.kernelRoot, a, b, Now(), {});
        if !got { LeakedBy(old(top), top, old(frames), frames, i, pages); return; }
        MountedMore(old(top), old(frames), g, frames, i);
        i := i + 1;
      }
      return true, true;
    }

    /**
     * kmalloc: a fresh block that ends at a page end with an unmapped page after it, or 0 when
     * the frames run out. ok is false when the kernel has dereferenced the NULL of a failed table
     * allocation.
     */
    method KMalloc(bytes: nat) returns (ok: bool, ptr: nat, ghost b: Block)
      requires Valid() && bytes + 0x1017 < TWO64 && top / 0x1000 + PagesFor(Rounded(bytes)) < HEAP_LIMIT
      modifies this`top, this`frames, this`own, this`words, this`live, m, m.alloc, m.alloc.words
      ensures ok ==> Valid() && Isolated(m.kernelRoot, old(Now()), Now(), {})
      ensures |old(m.alloc.Free)| >= 4 * PagesFor(Rounded(bytes)) ==> ok && ptr != 0
      ensures ok ==> |m.alloc.Free| + 4 * PagesFor(Rounded(bytes)) >= |old(m.alloc.Free)|
      ensures ok && ptr == 0 ==>
                && m.alloc.Free == {} && live == old(live) && words == old(words)
                && Leaked(old(top), top, old(frames), frames, PagesFor(Rounded(bytes)))
      ensures ok && ptr != 0 ==>
                && b == Block(old(top) / 0x1000, PagesFor(Rounded(bytes)), Rounded(bytes))
                && ptr == PointerOf(b) && live == old(live) + {b} && b !in old(live)
                && words == WithHeader(old(words), b)
                && top == old(top) + (b.pages + 1) * 0x1000
                && Gains(old(frames), frames, Range(b.first, b.pages))
    {
      hide Heap.Valid, Heap.Now, Isolated, PagesFor, Rounded, Range, PointerOf, WithHeader, Mounted, Gains, Leaked;
      var size := Rounded(bytes);
      var pages := PagesFor(size);
      var out := top;
      b := Block(top / 0x1000, pages, size);
      BlocksBelow(this);
      var got;
      ok, got := MapBlock(pages);
      ptr := 0;
      if ok && got {
        MountedMeans(old(top), top, old(frames), frames, pages);
        ptr := Commit(out, pages, size);
      }
    }

    /** One turn of the loop of kfree. */
    method UnmapOnePage(va: nat, ghost page: nat)
      requires Valid() && page == va / 0x1000 && page in frames && NoBlockHas(live, page)
      modifies this`frames, this`own, m`tables, m`xlat, m`lent, m.alloc, m.alloc.words
      ensures Valid() && frames == TakeOut(old(frames), page) && own == old(own) - {old(frames)[page]}
              && old(frames)[page] in old(own)
      ensures m.lent == old(m.lent) - {old(frames)[page]} && m.alloc.Free == old(m.alloc.Free) + {old(frames)[page]}
      ensures m.kernelRoot in old(m.xlat) && m.xlat == Unmapped(old(m.xlat), m.kernelRoot, page)
    {
      hide Machine.Valid, HeapOk, MakeEntry, HeapFlags, Unmapped, TakeOut, NoBlockHas;
      ghost var f := frames[page];
      PageFrame(m.xlat[m.kernelRoot], frames, own, live, words, top / 0x1000, page);
      UnmapLess(m.xlat[m.kernelRoot], frames, own, live, words, top / 0x1000, page);
      MappedAt(m.xlat, m.kernelRoot, page, 0);
      FreeMapped(m, va, f);
      frames, own := TakeOut(frames, page), own - {f};
    }

    /**
     * kfree of a block whose size does not hide its start: the pages it unmaps are the pages
     * kmalloc mapped for the block, and each of their frames goes back to the allocator.
     */
    method KFree(ptr: nat, ghost b: Block)
      requires Valid() && b in live && b.size + 16 <= b.pages * 0x1000 && ptr == PointerOf(b) && Findable(b.size)
      modifies this`frames, this`own, this`live, m`tables, m`xlat, m`lent, m.alloc, m.alloc.words
      ensures Valid() && live == old(live) - {b}
      ensures frames == Cut(old(frames), b.first, b.pages)
      ensures forall p :: p in Range(b.first, b.pages) ==> p in old(frames)
      ensures |FramesOf(old(frames), b.first, b.pages)| == b.pages
      ensures Returned(FramesOf(old(frames), b.first, b.pages), old(own), own, old(m.lent), m.lent, old(m.alloc.Free),
              m.alloc.Free)
      ensures Isolated(m.kernelRoot, old(Now()), Now(), {})
      ensures m.kernelRoot in old(m.xlat) && m.xlat == WithoutRun(old(m.xlat), m.kernelRoot, b.first, b.pages)
    {
      hide Machine.Valid, HeapOk, Isolated, FramesMapped, PagesFor, PointerOf, Cut, FramesOf, WithoutRun, NoBlockHas,
           Range;
      m.SpareIs();
      BlockRead(m.xlat[m.kernelRoot], frames, own, live, words, top / 0x1000, b);
      HeapParts(m.xlat[m.kernelRoot], frames, own, live, words, top / 0x1000);
      DropBlock(m.xlat[m.kernelRoot], frames, own, live, words, top / 0x1000, b);
      FramesCount(m.xlat[m.kernelRoot], frames, own, b.first, b.pages);
      var size := Word(words, ptr - 16);
      var required := Word(words, ptr - 8);
      var start := ptr / 0x1000 * 0x1000;
      var pages := PagesFor(size);
      assert required == pages;
      live := live - {b};
      UnmapRange(start, pages, b.first);
      m.SpareIs();
      IsolatedFreed(m.kernelRoot, old(Now()), Now(), b.first, pages, FramesOf(old(frames), b.first, pages));
    }

    /** The loop of kfree. */
    method UnmapRange(start: nat, pages: nat, ghost first: nat)
      requires Valid() && start == first * 0x1000
      requires forall p :: first <= p < first + pages ==> p in frames && NoBlockHas(live, p)
      modifies this`frames, this`own, m`tables, m`xlat, m`lent, m.alloc, m.alloc.words
      ensures Valid() && frames == Cut(old(frames), first, pages)
      ensures Returned(FramesOf(old(frames), first, pages), old(own), own, old(m.lent), m.lent, old(m.alloc.Free),
              m.alloc.Free)
      ensures m.kernelRoot in old(m.xlat) && m.xlat == WithoutRun(old(m.xlat), m.kernelRoot, first, pages)
    {
      hide Heap.Valid, Cut, FramesOf, WithoutRun, Unmapped, NoBlockHas, TakeOut, Returned;
      ghost var frames0, x0, lent0, own0, free0 := frames, m.xlat, m.lent, own, m.alloc.Free;
      KernelMapped(this);
      CutNone(frames, first);
      HoleGrows(m.xlat, m.kernelRoot, first, 0);
      var i := 0;
      assert Returned({}, own, own, m.lent, m.lent, m.alloc.Free,
             m.alloc.Free) by { ReturnedNone(own, m.lent, m.alloc.Free); }
      while i < pages
        invariant i <= pages && Valid() && frames == Cut(frames0, first, i)
                  && m.xlat == WithoutRun(x0, m.kernelRoot, first, i)
        invariant Returned(FramesOf(frames0, first, i), own0, own, lent0, m.lent, free0, m.alloc.Free)
      {
        assert (start + i * 0x1000) / 0x1000 == first + i;
        CutOne(frames0, first, i);
        OneMoreOf(frames0, first, i);
        ReturnedMore(FramesOf(frames0, first, i), frames[first + i], own0, own, lent0, m.lent, free0, m.alloc.Free);
        UnmapOnePage(start + i * 0x1000, first + i);
        HoleGrows(x0, m.kernelRoot, first, i);
        i := i + 1;
      }
    }

    /** The owner of a block writes a word of its payload. */
    method WriteWord(addr: nat, v: nat, ghost b: Block)
      requires Valid() && b in live && b.size + 16 <= b.pages * 0x1000 && PointerOf(b) <= addr < EndOf(b)
      modifies this`words
      ensures Valid() && words == Put(old(words), addr, v)
    {
      hide Machine.Valid, HeapOk, Put, PointerOf, EndOf, PagesFor;
      BlockSize(m.xlat[m.kernelRoot], frames, own, live, words, top / 0x1000, b);
      PayloadWrite(m.xlat[m.kernelRoot], frames, own, live, words, top / 0x1000, b, addr, v);
      words := Put(words, addr, v);
    }

    /**
     * The copy of krealloc, to the payload of a block that does not hold the source. It is
     * survived exactly when it fits, because the page after the block is not mapped.
     */
    method CopyWords(dst: nat, src: nat, n: nat, ghost b: Block) returns (ok: bool)
      requires Valid() && b in live && b.size + 16 <= b.pages * 0x1000 && b.size % 8 == 0 && dst == PointerOf(b)
      requires src + 8 * n <= dst || dst + b.size <= src
      modifies this`words
      ensures ok <==> 8 * n <= b.size
      ensures ok ==> Valid() && Copied(old(words), words, dst, src, n)
    {
      hide Heap.Valid, PointerOf, Put, EndOf, Copied, Word, Machine.Valid;
      BlockEnd(b);
      CopiedNone(words, dst, src);
      var i := 0;
      while i < n
        invariant i <= n && 8 * i <= b.size && Valid() && Copied(old(words), words, dst, src, i)
      {
        ghost var w := words;
        ValidMachine(this);
        WordMapped(this, b, dst + 8 * i);
        var f;
        ok, f := Translate(m, dst + 8 * i);
        if !ok { return; }
        WriteWord(dst + 8 * i, Word(words, src + 8 * i), b);
        CopiedMore(old(words), w, words, dst, src, i, b.size);
        i := i + 1;
      }
      ok := true;
    }

    /**
     * krealloc. To a size that is no smaller the contents move to the new block and the old block
     * is freed. To a smaller one the copy runs over the end of the new block into its guard page,
     * which is not mapped, and out of memory it goes to NULL; neither is survived.
     */
    method KRealloc(ptr: nat, bytes: nat, ghost b: Block) returns (ok: bool, newPtr: nat, ghost nb: Block)
      requires Valid() && bytes + 0x1017 < TWO64 && top / 0x1000 + PagesFor(Rounded(bytes)) < HEAP_LIMIT
      requires ptr != 0 ==> b in live && b.size + 16 <= b.pages * 0x1000 && ptr == PointerOf(b) && Findable(b.size)
      modifies this, m, m.alloc, m.alloc.words
      ensures |old(m.alloc.Free)| >= 4 * PagesFor(Rounded(bytes)) && (ptr != 0 ==> b.size <= Rounded(bytes)) ==>
              ok && newPtr != 0
      ensures ptr != 0 && b.size > Rounded(bytes) ==> !ok
      ensures ok ==> Valid() && Isolated(m.kernelRoot, old(Now()), Now(), {})
      ensures ok && ptr == 0 ==> live == if newPtr == 0 then old(live) else old(live) + {nb}
      ensures ok && newPtr != 0 ==>
              nb == Block(old(top) / 0x1000, PagesFor(Rounded(bytes)), Rounded(bytes)) && newPtr == PointerOf(nb)
              && nb !in old(live)
      ensures ok && ptr != 0 ==>
                && newPtr != 0 && live == old(live) + {nb} - {b}
                && (forall i: nat :: 8 * i < b.size ==> Word(words, newPtr + 8 * i) == Word(old(words), ptr + 8 * i))
                && (forall c :: c in old(live) && c != b ==> c in live)
    {
      hide Heap.Valid, Heap.Now, PagesFor, Rounded, Isolated, PointerOf, EndOf, WithHeader, Returned, WithoutRun, Cut,
           FramesOf, Range, Findable, Leaked, Gains, Word;
      if ptr != 0 { BlockSizes(this, b); }
      ok, newPtr, nb := KMalloc(bytes);
      if !ok || ptr == 0 { return; }
      if newPtr == 0 { ok := false; return; }
      NewApart(this, nb, b, old(words));
      var size := Word(words, ptr - 16);
      ok := CopyWords(newPtr, ptr, size / 8, nb);
      if !ok { return; }
      ghost var a := Now();
      KFree(ptr, b);
      IsolatedTwice(m.kernelRoot, old(Now()), a, Now(), {});
    }

    /** The end of kmalloc: the guard page and the header. */
    method Commit(out: nat, pages: nat, size: nat) returns (ptr: nat)
      requires Valid() && top / 0x1000 < HEAP_LIMIT && out % 0x1000 == 0 && top == out + pages * 0x1000
      requires size % 8 == 0 && pages == PagesFor(size) && HEAP_PAGE <= out / 0x1000
               && Range(out / 0x1000, pages) <= frames.Keys
      requires forall a :: a in live ==> a.first + a.pages < out / 0x1000
      modifies this`top, this`words, this`live
      ensures var b := Block(out / 0x1000, pages, size);
              && Valid() && ptr == PointerOf(b) && ptr != 0 && live == old(live) + {b}
              && words == WithHeader(old(words), b)
      ensures top == old(top) + 0x1000
    {
      hide Machine.Valid, HeapOk, PagesFor, Range, Put, PointerOf, WithHeader;
      ghost var b := Block(out / 0x1000, pages, size);
      NextPage(out, pages);
      NextPage(top, 1);
      BlockAddress(out, pages, size);
      NewBlock(m.xlat[m.kernelRoot], frames, own, live, words, top / 0x1000, b);
      top := top + 0x1000;
      var header := out + (pages * 0x1000 - (size + 16));
      HeaderAt(words, b, header);
      words := Put(words, header, size);
      words := Put(words, header + 8, pages);
      live := live + {b};
      ptr := header + 16;
    }
  }

  // ----- what kfree takes away -----

  ghost function Cut(frames: map<nat, nat>, first: nat, n: nat): map<nat, nat> {
    frames - Range(first, n)
  }

  /** The frames of n pages from the first. */
  ghost function FramesOf(frames: map<nat, nat>, first: nat, n: nat): (s: set<nat>) {
    set p | p in frames && first <= p < first + n :: frames[p]
  }

  /** Frames went from the heap back to the allocator. */
  ghost predicate Returned(freed: set<nat>, own: set<nat>, own': set<nat>, lent: set<nat>, lent': set<nat>,
                           free: set<nat>, free': set<nat>)
  {
    freed <= own && own' == own - freed && lent' == lent - freed && free' == free + freed
  }

  lemma {:induction false} ReturnedMore(freed: set<nat>, f: nat, own: set<nat>, own': set<nat>, lent: set<nat>,
                                        lent': set<nat>, free: set<nat>, free': set<nat>)
    requires Returned(freed, own, own', lent, lent', free, free')
    ensures f in own' ==> Returned(freed + {f}, own, own' - {f}, lent, lent' - {f}, free, free' + {f})
  {}

  lemma {:induction false} ReturnedCount(freed: set<nat>, own: set<nat>, own': set<nat>, lent: set<nat>,
                                         lent': set<nat>, free: set<nat>, free': set<nat>)
    requires Returned(freed, own, own', lent, lent', free, free')
    ensures |free'| >= |free|
  {
    assert free' == free + (freed - free);
  }

  lemma {:induction false} ReturnedNone(own: set<nat>, lent: set<nat>, free: set<nat>)
    ensures Returned({}, own, own, lent, lent, free, free)
  {}

  lemma {:induction false} CutNone(frames: map<nat, nat>, first: nat)
    ensures Cut(frames, first, 0) == frames && FramesOf(frames, first, 0) == {}
  {
    assert frames - Range(first, 0) == frames;
  }

  lemma {:induction false} CutOne(frames: map<nat, nat>, first: nat, i: nat)
    ensures TakeOut(Cut(frames, first, i), first + i) == Cut(frames, first, i + 1)
    ensures first + i in frames ==>
            first + i in Cut(frames, first, i) && Cut(frames, first, i)[first + i] == frames[first + i]
  {
    assert Range(first, i + 1) == Range(first, i) + {first + i};
    assert (frames - Range(first, i)) - {first + i} == frames - Range(first, i + 1);
  }

  lemma {:induction false} OneMoreOf(frames: map<nat, nat>, first: nat, i: nat)
    requires first + i in frames
    ensures FramesOf(frames, first, i + 1) == FramesOf(frames, first, i) + {frames[first + i]}
  {}

  lemma {:induction false} HeapParts(x: map<nat, nat>, frames: map<nat, nat>, own: set<nat>, live: set<Block>,
                                     words: map<nat, nat>, top: nat)
    requires HeapOk(x, frames, own, live, words, top)
    ensures FramesMapped(x, frames, own)
  {
    hide FramesMapped, BlockOk;
  }

  lemma {:induction false} PageFrame(x: map<nat, nat>, frames: map<nat, nat>, own: set<nat>, live: set<Block>,
                                     words: map<nat, nat>, top: nat, p: nat)
    requires HeapOk(x, frames, own, live, words, top) && p in frames
    ensures p in x && p < USER_PAGES && frames[p] in own && frames[p] < 0x8_0000_0000_0000
            && x[p] == MakeEntry(frames[p] * 0x1000, HeapFlags())
  {
    hide MakeEntry, HeapFlags, BlockOk;
  }

  /** What kfree reads and reaches, starting from the pointer of a live block. */
  lemma {:induction false} BlockRead(x: map<nat, nat>, frames: map<nat, nat>, own: set<nat>, live: set<Block>,
                                     words: map<nat, nat>, top: nat, b: Block)
    requires HeapOk(x, frames, own, live, words, top) && b in live && Findable(b.size)
    ensures b.size + 16 <= b.pages * 0x1000 && PointerOf(b) >= 16 && PointerOf(b) / 0x1000 == b.first
            && b.pages == PagesFor(b.size)
    ensures Word(words, PointerOf(b) - 16) == b.size && Word(words, PointerOf(b) - 8) == b.pages
    ensures forall p :: b.first <= p < b.first + b.pages ==> p in frames && NoBlockHas(live - {b}, p)
    ensures forall p :: p in Range(b.first, b.pages) ==> p in frames
  {
    hide FramesMapped, PagesFor, PointerOf, Word, BlockOk;
    GuardBelow(b, frames, words, top);
    StartFound(b.first, b.size);
    forall p | b.first <= p < b.first + b.pages ensures p in frames && NoBlockHas(live - {b}, p) {
      assert p in Range(b.first, b.pages);
      assert forall a :: a in live - {b} ==> Apart(a, b);
    }
  }

  lemma {:induction false} FramesCount(x: map<nat, nat>, frames: map<nat, nat>, own: set<nat>, first: nat, n: nat)
    requires FramesMapped(x, frames, own) && forall p :: first <= p < first + n ==> p in frames
    ensures |FramesOf(frames, first, n)| == n
  {
    hide MakeEntry, HeapFlags, FramesOf;
    CutNone(frames, first);
    if n > 0 {
      FramesCount(x, frames, own, first, n - 1);
      OneMoreOf(frames, first, n - 1);
      NotAmong(frames, first, n - 1);
    }
  }

  lemma {:induction false} NotAmong(frames: map<nat, nat>, first: nat, n: nat)
    requires first + n in frames && OneToOne(frames)
    ensures frames[first + n] !in FramesOf(frames, first, n)
  {}

  lemma {:induction false} IsolatedFreed(kernel: nat, a: Shot, b: Shot, first: nat, n: nat, freed: set<nat>)
    requires kernel in a.xlat && b.xlat == WithoutRun(a.xlat, kernel, first, n) && b.ram == a.ram && a.own <= a.lent
    requires Returned(freed, a.own, b.own, a.lent, b.lent, a.free, b.free) && b.spare <= a.spare + freed
    ensures Isolated(kernel, a, b, {})
  {
    assert (a.lent - freed) - (a.own - freed) == a.lent - a.own;
  }

  lemma {:induction false} BlockSize(x: map<nat, nat>, frames: map<nat, nat>, own: set<nat>, live: set<Block>,
                                     words: map<nat, nat>, top: nat, b: Block)
    requires HeapOk(x, frames, own, live, words, top) && b in live
    ensures PagesFor(b.size) == b.pages && b.size % 8 == 0 && b.size + 16 <= b.pages * 0x1000
    ensures b.first * 0x1000 + 16 <= PointerOf(b) <= EndOf(b) == PointerOf(b) + b.size
    ensures Word(words, PointerOf(b) - 16) == b.size
    ensures forall a :: a in live && a != b ==> Apart(a, b)
  {
    hide FramesMapped, PagesFor, PointerOf, EndOf, Word, BlockOk;
    GuardBelow(b, frames, words, top);
  }

  lemma {:induction false} BlockSizes(heap: Heap, b: Block)
    requires heap.Valid() && b in heap.live
    ensures b.size + 16 <= b.pages * 0x1000 && b.size % 8 == 0
            && b.first * 0x1000 + 16 <= PointerOf(b) <= EndOf(b) == PointerOf(b) + b.size
    ensures Word(heap.words, PointerOf(b) - 16) == b.size
    ensures forall a :: a in heap.live && a != b ==> Apart(a, b)
  {
    hide Machine.Valid, HeapOk, PagesFor, PointerOf, EndOf, Word, Apart;
    BlockSize(heap.m.xlat[heap.m.kernelRoot], heap.frames, heap.own, heap.live, heap.words, heap.top / 0x1000, b);
  }

  lemma {:induction false} BlockEnd(b: Block)
    requires b.size + 16 <= b.pages * 0x1000
    ensures EndOf(b) == PointerOf(b) + b.size
  {}

  /** n words from src are now at dst, and no other word changed. */
  ghost predicate Copied(words: map<nat, nat>, words': map<nat, nat>, dst: nat, src: nat, n: nat) {
    && (forall i: nat :: i < n ==> Word(words', dst + 8 * i) == Word(words, src + 8 * i))
    && (forall a: nat :: a < dst || dst + 8 * n <= a ==> Word(words', a) == Word(words, a))
  }

  lemma {:induction false} ValidMachine(heap: Heap)
    requires heap.Valid()
    ensures heap.m.Valid() && heap.m.kernelRoot in heap.m.xlat
  {
    hide HeapOk, Machine.Valid;
  }

  /** A word of a block's payload is mapped, and the one after it is not. */
  lemma {:induction false} WordMapped(heap: Heap, b: Block, a: nat)
    requires heap.Valid() && b in heap.live && b.size + 16 <= b.pages * 0x1000 && PointerOf(b) <= a <= EndOf(b)
    ensures heap.m.kernelRoot in heap.m.xlat && (a / 0x1000 in heap.m.xlat[heap.m.kernelRoot] <==> a < EndOf(b))
  {
    hide Machine.Valid, FramesMapped, PagesFor, Word, BlockOk;
    GuardBelow(b, heap.frames, heap.words, heap.top / 0x1000);
    KeysAgree(heap.m.xlat[heap.m.kernelRoot], heap.frames, heap.own);
    if a < EndOf(b) {
      assert b.first <= a / 0x1000 < b.first + b.pages;
    } else {
      assert a / 0x1000 == b.first + b.pages;
    }
  }

  lemma {:induction false} CopiedNone(words: map<nat, nat>, dst: nat, src: nat)
    ensures Copied(words, words, dst, src, 0)
  {}

  lemma {:induction false} CopiedMore(words: map<nat, nat>, w: map<nat, nat>, words': map<nat, nat>, dst: nat, src: nat,
                                      i: nat, size: nat)
    requires Copied(words, w, dst, src, i) && 8 * i < size && (src + 8 * i < dst || dst + size <= src)
    requires words' == Put(w, dst + 8 * i, Word(w, src + 8 * i))
    ensures Copied(words, words', dst, src, i + 1)
  {
    hide Put;
  }

  /** The new block lies clear of the old one, whose payload the new header has not touched. */
  lemma {:induction false} NewApart(heap: Heap, nb: Block, b: Block, words: map<nat, nat>)
    requires heap.Valid() && nb in heap.live && b in heap.live && nb != b && nb.size + 16 <= nb.pages * 0x1000
             && heap.words == WithHeader(words, nb)
    ensures b.size + 16 <= b.pages * 0x1000 && b.size % 8 == 0 && PointerOf(b) >= 16
            && Word(heap.words, PointerOf(b) - 16) == b.size
    ensures PointerOf(b) + b.size <= PointerOf(nb) || PointerOf(nb) + nb.size <= PointerOf(b)
    ensures forall i: nat ::
            8 * i < b.size ==> Word(heap.words, PointerOf(b) + 8 * i) == Word(words, PointerOf(b) + 8 * i)
  {
    hide Heap.Valid, PointerOf, EndOf, Put;
    BlockSizes(heap, b);
    BlockSizes(heap, nb);
    AddressesApart(b, nb);
  }

  lemma {:induction false} BlockAddress(top: nat, pages: nat, size: nat)
    requires top % 0x1000 == 0 && size + 16 <= pages * 0x1000
    ensures PointerOf(Block(top / 0x1000, pages, size)) == top + pages * 0x1000 - size
  {}

  lemma {:induction false} BlocksBelow(heap: Heap)
    requires heap.Valid()
    ensures heap.top % 0x1000 == 0 && HEAP_PAGE <= heap.top / 0x1000
            && forall b :: b in heap.live ==> b.first + b.pages < heap.top / 0x1000
  {
    hide FramesMapped, BlockOk, Machine.Valid;
    forall b | b in heap.live
      ensures b.first + b.pages < heap.top / 0x1000
    {
      GuardBelow(b, heap.frames, heap.words, heap.top / 0x1000);
    }
  }

  /** More pages have frames, and those that had keep theirs. */
  ghost predicate Gains(frames: map<nat, nat>, frames': map<nat, nat>, pages: set<nat>) {
    frames'.Keys == frames.Keys + pages && forall p :: p in frames && p !in pages ==> frames'[p] == frames[p]
  }

  /** top has moved over a page that has got a frame. */
  ghost predicate OnePage(top: nat, top': nat, frames: map<nat, nat>, frames': map<nat, nat>) {
    top' == top + 0x1000 && top' / 0x1000 == top / 0x1000 + 1 && Gains(frames, frames', {top / 0x1000})
  }

  lemma {:induction false} PutGains(frames: map<nat, nat>, page: nat, f: nat)
    ensures Gains(frames, Put(frames, page, f), {page})
  {}

  /** top has moved over n pages that have got frames. */
  ghost predicate Mounted(top: nat, top': nat, frames: map<nat, nat>, frames': map<nat, nat>, n: nat) {
    top' == top + n * 0x1000 && Gains(frames, frames', Range(top / 0x1000, n))
  }

  /** The frames ran out before all the pages had one. */
  ghost predicate Leaked(top: nat, top': nat, frames: map<nat, nat>, frames': map<nat, nat>, pages: nat) {
    exists n: nat :: n < pages && Mounted(top, top', frames, frames', n)
  }

  lemma {:induction false} LeakedBy(top: nat, top': nat, frames: map<nat, nat>, frames': map<nat, nat>, n: nat,
                                    pages: nat)
    requires n < pages && Mounted(top, top', frames, frames', n)
    ensures Leaked(top, top', frames, frames', pages)
  {}

  lemma {:induction false} MountedNone(top: nat, frames: map<nat, nat>)
    ensures Mounted(top, top, frames, frames, 0)
  {}

  lemma {:induction false} MountedMore(top: nat, frames: map<nat, nat>, g: map<nat, nat>, frames': map<nat, nat>,
                                       i: nat)
    requires Mounted(top, top + i * 0x1000, frames, g, i) && Gains(g, frames', {top / 0x1000 + i})
    ensures Mounted(top, top + (i + 1) * 0x1000, frames, frames', i + 1)
  {
    RangeMore(top / 0x1000, i);
    GainsTwice(frames, g, frames', Range(top / 0x1000, i), {top / 0x1000 + i});
  }

  lemma {:induction false} RangeMore(first: nat, i: nat)
    ensures Range(first, i + 1) == Range(first, i) + {first + i}
  {}

  lemma {:induction false} GainsTwice(f: map<nat, nat>, g: map<nat, nat>, h: map<nat, nat>, a: set<nat>, b: set<nat>)
    requires Gains(f, g, a) && Gains(g, h, b)
    ensures Gains(f, h, a + b)
  {}

  lemma {:induction false} MountedMeans(top: nat, top': nat, frames: map<nat, nat>, frames': map<nat, nat>, n: nat)
    requires Mounted(top, top', frames, frames', n)
    ensures top' == top + n * 0x1000 && Gains(frames, frames', Range(top / 0x1000, n))
            && Range(top / 0x1000, n) <= frames'.Keys
  {}

  lemma {:induction false} HeaderAt(words: map<nat, nat>, b: Block, out: nat)
    requires b.size + 16 <= b.pages * 0x1000 && out + 16 == PointerOf(b)
    ensures WithHeader(words, b) == Put(Put(words, out, b.size), out + 8, b.pages)
  {
    hide Put;
  }

  lemma {:induction false} EmptyHeap()
    ensures HeapOk(map[], map[], {}, {}, map[], HEAP_PAGE)
  {}

  lemma {:induction false} KernelMapped(heap: Heap)
    requires heap.Valid()
    ensures heap.m.kernelRoot in heap.m.xlat
  {
    hide HeapOk, Machine.Valid;
  }

  lemma {:induction false} NextPage(top: nat, i: nat)
    requires top % 0x1000 == 0
    ensures (top + i * 0x1000) / 0x1000 == top / 0x1000 + i && (top + i * 0x1000) % 0x1000 == 0
  {}
}
