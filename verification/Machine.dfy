/**
 * Physical memory and the page tables of the x86_64 port: mapping, unmapping, new contexts.
 * Frames that hold page tables are kept apart from frames that hold bytes; Valid() proves that
 * no frame is both.
 */
module Machines {
  import opened Bits
  import opened FrameAllocation
  import opened Options
  import opened PageTree

  type Page = p: seq<bv8> | |p| == 0x1000 witness seq(0x1000, i => 0)

  function ZeroPage(): (p: Page)
    ensures forall i :: 0 <= i < 0x1000 ==> p[i] == 0
  {
    seq(0x1000, i => 0)
  }

  /** A flat map from page to entry, read the way vmm_get_entry reads: 0 where nothing is mapped. */
  function Flat(m: map<nat, nat>, page: nat): nat {
    if page in m then m[page] else 0
  }

  /** The flat maps after one page of a context is mapped or unmapped. */
  function Mapped(xlat: map<nat, map<nat, nat>>, root: nat, page: nat, e: nat): (x: map<nat, map<nat, nat>>)
    requires root in xlat
    ensures x.Keys == xlat.Keys
  {
    xlat[root := xlat[root] + map[page := e]]
  }

  function Unmapped(xlat: map<nat, map<nat, nat>>, root: nat, page: nat): (x: map<nat, map<nat, nat>>)
    requires root in xlat
    ensures x.Keys == xlat.Keys
  {
    xlat[root := xlat[root] - {page}]
  }

  /** The tables of every context read as its flat map. */
  ghost predicate Refines(t: Tables, xlat: map<nat, map<nat, nat>>) {
    && (forall r, p: nat :: r in xlat && p < USER_PAGES ==> Lookup(t, r, p) == Flat(xlat[r], p))
    && (forall r, p :: r in xlat && p in xlat[r] ==> p < USER_PAGES && xlat[r][p] % 2 == 1)
  }

  ghost predicate SameUpperHalf(t: Tables, r: nat, kernel: nat) {
    r in t && kernel in t && |t[r]| == |t[kernel]| == 512 && t[r][256..] == t[kernel][256..]
  }

  /** Every frame of the pool is free, a table or lent, and only one of these. */
  ghost predicate FramesOk(pool: set<nat>, free: set<nat>, tabs: set<nat>, lent: set<nat>, len: nat) {
    && free !! tabs && free !! lent && tabs !! lent
    && pool == free + tabs + lent
    && (forall f :: f in pool ==> FIRST_FRAME <= f < len)
  }

  /** The tables are a tree that reads as the flat maps, and all contexts share the upper half. */
  ghost predicate TablesOk(t: Tables, xlat: map<nat, map<nat, nat>>, kernel: nat) {
    && Tree(t, xlat.Keys)
    && kernel in xlat
    && (forall r :: r in xlat ==> SameUpperHalf(t, r, kernel))
    && Refines(t, xlat)
  }

  /** Only frames that were free have had their bytes changed. */
  ghost predicate SameOutside(ram: seq<Page>, ram': seq<Page>, free: set<nat>) {
    |ram'| == |ram| && forall f :: 0 <= f < |ram| && f !in free ==> ram'[f] == ram[f]
  }

  lemma {:induction false} OutsideTwice(ram: seq<Page>, ram1: seq<Page>, ram2: seq<Page>, free: set<nat>,
                                        free1: set<nat>)
    requires SameOutside(ram, ram1, free) && SameOutside(ram1, ram2, free1) && free1 <= free
    ensures SameOutside(ram, ram2, free)
  {}

  lemma {:induction false} RamSame(ram: seq<Page>, free: set<nat>)
    ensures SameOutside(ram, ram, free)
  {}

  lemma {:induction false} SameInMore(ram: seq<Page>, ram': seq<Page>, free: set<nat>, more: set<nat>)
    requires SameOutside(ram, ram', free) && free <= more
    ensures SameOutside(ram, ram', more)
  {}

  /** The number of tables that must be allocated before a page can be mapped. */
  function MissingTables(t: Tables, root: nat, page: nat): (n: nat)
    ensures n <= 3
  {
    var path := Path(page);
    if TableAt(t, root, [path[0]]).None? then 3
    else if TableAt(t, root, [path[0], path[1]]).None? then 2
    else if TableAt(t, root, path).None? then 1
    else 0
  }

  /** count pages from page on, mapped to the frames from phys on. */
  ghost function Run(page: nat, phys: nat, count: nat, perms: nat): map<nat, nat> {
    map p: nat | p in Range(page, count) :: MakeEntry(Wrap64(phys + (p - page) * 0x1000), perms)
  }

  lemma {:induction false} LendFrame(pool: set<nat>, free: set<nat>, tabs: set<nat>, lent: set<nat>, len: nat, f: nat)
    requires FramesOk(pool, free, tabs, lent, len) && f in free
    ensures FramesOk(pool, free - {f}, tabs, lent + {f}, len) && FIRST_FRAME <= f < len && f !in lent
  {
    assert f in pool;
    assert free - {f} + tabs + (lent + {f}) == pool;
  }

  lemma {:induction false} ReturnFrame(pool: set<nat>, free: set<nat>, tabs: set<nat>, lent: set<nat>, len: nat, f: nat)
    requires FramesOk(pool, free, tabs, lent, len) && f in lent
    ensures FramesOk(pool, free + {f}, tabs, lent - {f}, len) && FIRST_FRAME <= f < len && f !in free
  {
    assert f in pool;
    assert free + {f} + tabs + (lent - {f}) == pool;
  }

  lemma {:induction false} TableFrame(pool: set<nat>, free: set<nat>, tabs: set<nat>, lent: set<nat>, len: nat, f: nat)
    requires FramesOk(pool, free, tabs, lent, len) && f in free
    ensures FramesOk(pool, free - {f}, tabs + {f}, lent, len)
    ensures FIRST_FRAME <= f < len && f !in tabs && f !in lent
  {
    assert f in pool;
    assert free - {f} + (tabs + {f}) + lent == pool;
  }

  lemma {:induction false} FreeInPool(pool: set<nat>, free: set<nat>, tabs: set<nat>, lent: set<nat>, len: nat)
    requires FramesOk(pool, free, tabs, lent, len)
    ensures forall f :: f in free ==> FIRST_FRAME <= f < len
  {
    assert forall f :: f in free ==> f in pool;
  }

  lemma {:induction false} TableInMemory(t: Tables, xlat: map<nat, map<nat, nat>>, kernel: nat, root: nat, q: seq<nat>,
                                         off: nat, f: nat)
    requires TablesOk(t, xlat, kernel) && root in xlat && UserPath(q) && UserPath(q + [off])
    requires TableAt(t, root, q) == Some(f)
    ensures f in t && |t[f]| == 512 && off < 512
    ensures TableAt(t, root, q + [off]) == Next(t, f, off)
  {
    assert (q + [off])[..|q|] == q && (q + [off])[|q|] == off;
  }

  lemma {:induction false} FreeBelowLen(frames: FrameAllocator)
    requires frames.Valid()
    ensures forall f :: f in frames.Free ==> f < frames.len
  {
    hide ClearBits, Pow2;
  }

  lemma {:induction false} BootTables(root: nat, top: seq<nat>)
    requires |top| == 512 && forall i :: 0 <= i < 256 ==> top[i] == 0
    ensures TablesOk(map[root := top], map[root := map[]], root)
  {
    var t := NewRoot(map[], {}, root, top);
    assert t == map[root := top];
    assert {} + {root} == {root};
  }

  /** Writes below a root's lower half leave every upper half alone. */
  lemma {:induction false} UpperHalfKept(t: Tables, roots: set<nat>, root: nat, q: seq<nat>, f: nat, off: nat, e: nat)
    requires Tree(t, roots) && root in roots && UserPath(q) && TableAt(t, root, q) == Some(f)
    requires off < 512 && (q == [] ==> off < 256)
    ensures f in t && |t[f]| == 512
    ensures forall r :: r in roots ==> r in t && |t[r]| == 512 && Write(t, f, off, e)[r][256..] == t[r][256..]
  {
    forall r | r in roots ensures Write(t, f, off, e)[r][256..] == t[r][256..] {
      if r == f {
        assert UserPath([]) && TableAt(t, r, []) == Some(r);
        assert q == [];
      }
    }
  }

  ghost predicate Leaf(t: Tables, root: nat, page: nat, f: nat) {
    page < USER_PAGES && TableAt(t, root, Path(page)) == Some(f)
  }

  lemma {:induction false} RunSnoc(page: nat, phys: nat, i: nat, perms: nat)
    ensures Run(page, phys, i + 1, perms)
         == Run(page, phys, i, perms) + map[page + i := MakeEntry(Wrap64(phys + i * 0x1000), perms)]
  {
    hide MakeEntry, Wrap64, Range;
  }

  lemma {:induction false} AddTwice(xlat: map<nat, map<nat, nat>>, root: nat, a: map<nat, nat>, b: map<nat, nat>)
    requires root in xlat
    ensures xlat[root := xlat[root] + a][root := (xlat[root] + a) + b] == xlat[root := xlat[root] + (a + b)]
  {
    assert (xlat[root] + a) + b == xlat[root] + (a + b);
  }

  lemma {:induction false} RunGrows(xlat: map<nat, map<nat, nat>>, root: nat, page: nat, phys: nat, i: nat, perms: nat)
    requires root in xlat
    ensures Mapped(WithRun(xlat, root, page, phys, i, perms), root, page + i,
            MakeEntry(Wrap64(phys + i * 0x1000), perms))
         == WithRun(xlat, root, page, phys, i + 1, perms)
  {
    hide MakeEntry, Wrap64, Run;
    RunSnoc(page, phys, i, perms);
    AddTwice(xlat, root, Run(page, phys, i, perms), map[page + i := MakeEntry(Wrap64(phys + i * 0x1000), perms)]);
  }

  lemma {:induction false} EmptyRun(xlat: map<nat, map<nat, nat>>, root: nat, page: nat, phys: nat, perms: nat)
    requires root in xlat
    ensures WithRun(xlat, root, page, phys, 0, perms) == xlat
  {
    assert xlat[root] + Run(page, phys, 0, perms) == xlat[root];
  }

  /** Writing the slot of a page is an update of the flat map of its context. */
  lemma {:induction false} WriteLeaf(t: Tables, xlat: map<nat, map<nat, nat>>, kernel: nat, root: nat, page: nat,
                                     f: nat, e: nat)
    requires TablesOk(t, xlat, kernel) && root in xlat && Leaf(t, root, page, f)
    requires e % 2 == 1 || e == 0
    ensures f in t && |t[f]| == 512 && Write(t, f, Slot(page), e).Keys == t.Keys
    ensures TablesOk(Write(t, f, Slot(page), e),
                     if e == 0 then Unmapped(xlat, root, page) else Mapped(xlat, root, page, e), kernel)
    ensures forall r, q :: r in xlat && UserPath(q) ==> TableAt(Write(t, f, Slot(page), e), r, q) == TableAt(t, r, q)
  {
    hide TableAt, Lookup;
    var xlat' := if e == 0 then Unmapped(xlat, root, page) else Mapped(xlat, root, page, e);
    assert xlat'.Keys == xlat.Keys;
    var t' := SetLeaf(t, xlat.Keys, root, page, f, e);
    UpperHalfKept(t, xlat.Keys, root, Path(page), f, Slot(page), e);
    assert Refines(t', xlat');
  }

  lemma {:induction false} TopTable(t: Tables, root: nat)
    ensures TableAt(t, root, []) == Some(root)
  {}

  lemma {:induction false} PagePath(page: nat)
    requires page < USER_PAGES
    ensures var p := Path(page);
            && UserPath([]) && UserPath([p[0]]) && UserPath([p[0], p[1]]) && UserPath(p)
            && [] + [p[0]] == [p[0]] && [p[0]] + [p[1]] == [p[0], p[1]] && [p[0], p[1]] + [p[2]] == p
  {}

  /** The flat maps after a run of pages of a context is mapped. */
  ghost function WithRun(xlat: map<nat, map<nat, nat>>, root: nat, page: nat, phys: nat, count: nat,
                         perms: nat): (x: map<nat, map<nat, nat>>)
    requires root in xlat
    ensures x.Keys == xlat.Keys
  {
    xlat[root := xlat[root] + Run(page, phys, count, perms)]
  }

  /** The flat maps after a run of pages of a context is unmapped. */
  ghost function WithoutRun(xlat: map<nat, map<nat, nat>>, root: nat, page: nat, count: nat): (x: map<nat, map<nat,
                            nat>>)
    requires root in xlat
    ensures x.Keys == xlat.Keys
  {
    xlat[root := xlat[root] - Range(page, count)]
  }

  lemma {:induction false} HoleGrows(xlat: map<nat, map<nat, nat>>, root: nat, page: nat, i: nat)
    requires root in xlat
    ensures Unmapped(WithoutRun(xlat, root, page, i), root, page + i) == WithoutRun(xlat, root, page, i + 1)
    ensures WithoutRun(xlat, root, page, 0) == xlat
  {
    assert xlat[root] - Range(page, 0) == xlat[root];
    assert Range(page, i + 1) == Range(page, i) + {page + i};
    CutTwice(xlat[root], Range(page, i), {page + i});
  }

  lemma {:induction false} CutTwice(x: map<nat, nat>, a: set<nat>, b: set<nat>)
    ensures x - (a + b) == (x - a) - b
  {}

  lemma {:induction false} RunGone(xlat: map<nat, map<nat, nat>>, root: nat, page: nat, count: nat)
    requires root in xlat
    ensures forall p :: page <= p < page + count ==> p !in WithoutRun(xlat, root, page, count)[root]
  {}

  lemma {:induction false} StillMapped(xlat: map<nat, map<nat, nat>>, root: nat, page: nat, i: nat)
    requires root in xlat
    ensures page + i in xlat[root] ==> page + i in WithoutRun(xlat, root, page, i)[root]
  {}

  lemma {:induction false} UserPaths()
    ensures forall p: nat :: p < USER_PAGES ==> UserPath(Path(p))
  {}

  lemma {:induction false} KernelTable(t: Tables, xlat: map<nat, map<nat, nat>>, kernel: nat)
    requires TablesOk(t, xlat, kernel)
    ensures kernel in t && |t[kernel]| == 512 && kernel in xlat
  {}

  lemma {:induction false} AddContext(t: Tables, xlat: map<nat, map<nat, nat>>, kernel: nat, n: nat, top: seq<nat>)
    requires TablesOk(t, xlat, kernel) && n !in t
    requires |top| == 512 && top[..256] == ZeroTable()[..256] && top[256..] == t[kernel][256..]
    ensures n !in xlat && t[n := top].Keys == t.Keys + {n} && TablesOk(t[n := top], xlat[n := map[]], kernel)
  {
    hide TableAt, Lookup;
    assert forall i :: 0 <= i < 256 ==> top[i] == top[..256][i] == 0;
    var t' := NewRoot(t, xlat.Keys, n, top);
    assert xlat[n := map[]].Keys == xlat.Keys + {n};
  }

  /** A page whose table is missing is not mapped. */
  lemma {:induction false} NoTableNoPage(t: Tables, xlat: map<nat, map<nat, nat>>, kernel: nat, root: nat, page: nat)
    requires TablesOk(t, xlat, kernel) && root in xlat && page < USER_PAGES
    requires TableAt(t, root, Path(page)).None?
    ensures page !in xlat[root]
  {
    assert Lookup(t, root, page) == 0;
  }

  class Machine {
    const alloc: FrameAllocator
    const kernelRoot: nat                   // kernel_pml4
    var tables: Tables
    var ram: seq<Page>                      // the bytes of the frames that hold no table
    ghost const pool: set<nat>              // every frame the allocator ever manages
    ghost var lent: set<nat>                // frames handed out for data
    ghost var xlat: map<nat, map<nat, nat>> // the flat map of each context, by root

    ghost predicate Valid()
      reads this, alloc, alloc.words
    {
      && alloc.Valid()
      && |ram| == alloc.len <= 0x8_0000_0000_0000
      && FramesOk(pool, alloc.Free, tables.Keys, lent, alloc.len)
      && TablesOk(tables, xlat, kernelRoot)
    }

    /** The frames that belong to the kernel itself: free ones and those that hold tables. Their bytes are nobody's. */
    ghost function Spare(): set<nat>
      reads this`tables, alloc`Free
    {
      alloc.Free + tables.Keys
    }

    /** A frame of memory that is in use and holds no table. */
    predicate InUse(f: nat)
      reads this, alloc, alloc.words
    {
      f < |ram| && f !in tables && f < 64 * alloc.words.Length && Used(alloc.words[..], f)
    }

    lemma {:induction false} SpareIs()
      requires Valid()
      ensures Spare() == pool - lent && alloc.Free <= Spare() && lent <= pool
    {
      hide TablesOk, FrameAllocator.Valid;
      assert alloc.Free + tables.Keys == pool - lent;
    }

    lemma {:induction false} SpareFrames()
      requires Valid()
      ensures lent !! Spare() && forall f :: f in lent + Spare() ==> FIRST_FRAME <= f < |ram|
    {
      hide TablesOk, FrameAllocator.Valid;
      forall f | f in lent + Spare() ensures FIRST_FRAME <= f < |ram| { assert f in pool; }
    }

    lemma {:induction false} UsedIsInUse(f: nat)
      requires Valid()
      ensures InUse(f) <==> f < |ram| && f !in Spare()
    {
      hide TablesOk, Pow2, Bit, FramesOk;
    }

    /** The machine after boot: a kernel context whose lower half is empty. */
    constructor (frames: FrameAllocator, root: nat, top: seq<nat>, bytes: seq<Page>)
      requires frames.Valid() && frames.len <= 0x8_0000_0000_0000 && |bytes| == frames.len
      requires forall f :: f in frames.Free ==> FIRST_FRAME <= f
      requires FIRST_FRAME <= root < frames.len && root !in frames.Free
      requires |top| == 512 && forall i :: 0 <= i < 256 ==> top[i] == 0
      ensures Valid() && alloc == frames && kernelRoot == root && ram == bytes
      ensures lent == {} && xlat == map[root := map[]] && pool == frames.Free + {root}
    {
      hide FrameAllocator.Valid, TablesOk;
      FreeBelowLen(frames);
      alloc := frames;
      kernelRoot := root;
      tables := map[root := top];
      ram := bytes;
      pool := frames.Free + {root};
      lent := {};
      xlat := map[root := map[]];
      BootTables(root, top);
    }

    /** arch_mm_alloc_phys(1): a zeroed frame, or 0 when there is none. */
    method AllocPhys() returns (addr: nat)
      requires Valid()
      modifies this, alloc, alloc.words
      ensures Valid()
      ensures tables == old(tables) && xlat == old(xlat) && alloc.Free <= old(alloc.Free)
              && SameOutside(old(ram), ram, old(alloc.Free))
      ensures addr == 0 <==> old(alloc.Free) == {}
      ensures addr == 0 ==> lent == old(lent) && alloc.Free == old(alloc.Free) && ram == old(ram)
      ensures addr != 0 ==>
                && addr % 0x1000 == 0 && addr < 0x8000_0000_0000_0000 && addr / 0x1000 in old(alloc.Free)
                && addr / 0x1000 < |old(ram)|
                && lent == old(lent) + {addr / 0x1000}
                && alloc.Free == old(alloc.Free) - {addr / 0x1000}
                && |alloc.Free| == |old(alloc.Free)| - 1
                && ram == old(ram)[addr / 0x1000 := ZeroPage()]
    {
      hide FrameAllocator.Valid, TablesOk, FramesOk;
      FreeInPool(pool, alloc.Free, tables.Keys, lent, alloc.len);
      addr := alloc.Alloc();
      if addr != 0 {
        LendFrame(pool, old(alloc.Free), tables.Keys, lent, alloc.len, addr / 0x1000);
        ram := ram[addr / 0x1000 := ZeroPage()];
        lent := lent + {addr / 0x1000};
      }
    }

    /** arch_mm_free_phys(addr, 1) of a frame lent out. */
    method FreePhys(addr: nat)
      requires Valid() && addr / 0x1000 in lent
      modifies this`lent, alloc, alloc.words
      ensures Valid()
      ensures lent == old(lent) - {addr / 0x1000}
      ensures alloc.Free == old(alloc.Free) + {addr / 0x1000}
    {
      hide FrameAllocator.BitsValid, TablesOk, FramesOk;
      ReturnFrame(pool, alloc.Free, tables.Keys, lent, alloc.len, addr / 0x1000);
      assert Range(addr / 0x1000, 1) == {addr / 0x1000};
      alloc.Release(addr, 1);
      lent := lent - {addr / 0x1000};
    }

    /** Stores the entry of a new table and clears the table. */
    method InstallTable(f: nat, off: nat, next: nat, flags: nat, ghost root: nat, ghost q: seq<nat>)
      requires TablesOk(tables, xlat, kernelRoot) && root in xlat && flags < 0x1000
      requires |q| < 3 && UserPath(q) && UserPath(q + [off])
      requires TableAt(tables, root, q) == Some(f)
      requires f in tables && |tables[f]| == 512 && !Present(tables[f][off])
      requires next !in tables && next < 0x8_0000_0000_0000
      modifies this`tables
      ensures TablesOk(tables, xlat, kernelRoot)
      ensures tables.Keys == old(tables.Keys) + {next}
      ensures forall r, q' :: r in xlat && UserPath(q') ==>
                TableAt(tables, r, q') == if r == root && q' == q + [off] then Some(next)
                  else TableAt(old(tables), r, q')
    {
      hide TableAt, Lookup, MakeEntry;
      var e := MakeEntry(next * 0x1000, flags);
      EntryRoundTrip(next, flags);
      assert off < 512 by { assert (q + [off])[|q|] == off; }
      ghost var t' := HangTable(tables, xlat.Keys, root, q, off, f, next, e);
      UpperHalfKept(tables, xlat.Keys, root, q, f, off, e);
      tables := Write(tables, f, off, e)[next := ZeroTable()];
    }

    /** vmm_get_or_alloc_ent; ok is false when it returns NULL. */
    method GetOrAllocEnt(f: nat, off: nat, flags: nat, ghost root: nat, ghost q: seq<nat>) returns (ok: bool, next: nat)
      requires Valid() && root in xlat && flags < 0x1000
      requires |q| < 3 && UserPath(q) && UserPath(q + [off])
      requires TableAt(tables, root, q) == Some(f)
      modifies this, alloc, alloc.words
      ensures ok <==> TableAt(old(tables), root, q + [off]).Some? || old(alloc.Free) != {}
      ensures ok ==>
                && Valid()
                && xlat == old(xlat) && lent == old(lent) && alloc.Free <= old(alloc.Free)
                && SameOutside(old(ram), ram, old(alloc.Free))
                && TableAt(tables, root, q + [off]) == Some(next)
                && (forall r, q' :: r in xlat && UserPath(q') && !(r == root && q' == q + [off]) ==>
                      TableAt(tables, r, q') == TableAt(old(tables), r, q'))
                && |alloc.Free| == |old(alloc.Free)| - if TableAt(old(tables), root, q + [off]).Some? then 0 else 1
    {
      hide FrameAllocator.Valid, FramesOk, TablesOk, TableAt, Present, FrameOf;
      FreeInPool(pool, alloc.Free, tables.Keys, lent, alloc.len);
      TableInMemory(tables, xlat, kernelRoot, root, q, off, f);
      var ent := tables[f][off];
      if !Present(ent) {
        var addr := alloc.Alloc();
        if addr == 0 {
          tables := Write(tables, f, off, 0);
          return false, 0;
        }
        next := addr / 0x1000;
        TableFrame(pool, old(alloc.Free), tables.Keys, lent, alloc.len, next);
        ram := ram[next := ZeroPage()];
        InstallTable(f, off, next, flags, root, q);
        return true, next;
      }
      return true, FrameOf(ent);
    }

    /** One turn of the loop of vmm_map_pages; ok is false when a table could not be allocated. */
    method MapPage(root: nat, virt: nat, phys: nat, perms: nat) returns (ok: bool)
      requires Valid() && root in xlat && virt / 0x1000 < USER_PAGES
      modifies this, alloc, alloc.words
      ensures ok <==> |old(alloc.Free)| >= MissingTables(old(tables), root, virt / 0x1000)
      ensures ok ==>
                && Valid() && lent == old(lent) && alloc.Free <= old(alloc.Free)
                && SameOutside(old(ram), ram, old(alloc.Free))
                && xlat == Mapped(old(xlat), root, virt / 0x1000, MakeEntry(phys, perms))
                && |alloc.Free| == |old(alloc.Free)| - MissingTables(old(tables), root, virt / 0x1000)
    {
      hide FrameAllocator.Valid, FramesOk, TablesOk, Leaf, MissingTables, MakeEntry, SameOutside, Mapped, TableAt;
      var pt;
      ok, pt := PageTable(root, virt);
      if !ok { return; }
      var offs := VirtToOffs(virt);
      OffsAreDigits(virt);
      var e := MakeEntry(phys, perms);
      WriteLeaf(tables, xlat, kernelRoot, root, virt / 0x1000, pt, e);
      tables := Write(tables, pt, offs.pt, e);
      xlat := Mapped(xlat, root, virt / 0x1000, e);
    }

    /** The way down to the page table of an address, with the tables on it allocated as needed. */
    method PageTable(root: nat, virt: nat) returns (ok: bool, pt: nat)
      requires Valid() && root in xlat && virt / 0x1000 < USER_PAGES
      modifies this, alloc, alloc.words
      ensures ok <==> |old(alloc.Free)| >= MissingTables(old(tables), root, virt / 0x1000)
      ensures ok ==>
                && Valid() && lent == old(lent) && alloc.Free <= old(alloc.Free)
                && SameOutside(old(ram), ram, old(alloc.Free))
                && xlat == old(xlat) && Leaf(tables, root, virt / 0x1000, pt)
                && |alloc.Free| == |old(alloc.Free)| - MissingTables(old(tables), root, virt / 0x1000)
    {
      hide FrameAllocator.Valid, FramesOk, TablesOk, TableAt, VirtToOffs;
      var higher := FLAG_WRITE + FLAG_USER;
      var offs := VirtToOffs(virt);
      ghost var page := virt / 0x1000;
      OffsAreDigits(virt);
      Digits3(page);
      PagePath(page);
      pt := 0;
      var pdp, pd;
      TopTable(tables, root);
      PathSteps(tables, root, offs.pml4, offs.pdp, offs.pd);
      ok, pdp := GetOrAllocEnt(root, offs.pml4, higher, root, []);
      if !ok { return; }
      ok, pd := GetOrAllocEnt(pdp, offs.pdp, higher, root, [offs.pml4]);
      if !ok { return; }
      ok, pt := GetOrAllocEnt(pd, offs.pd, higher, root, [offs.pml4, offs.pdp]);
    }

    /**
     * vmm_map_pages on the user half of a context: the flat map gains the run and no other page of
     * any context changes. When ok is false the kernel has dereferenced the NULL of a failed
     * table allocation; that needs the allocator to be short of three frames a page.
     */
    method MapPages(root: nat, virt: nat, phys: nat, count: nat, perms: nat) returns (ok: bool)
      requires Valid() && root in xlat && virt / 0x1000 + count <= USER_PAGES
      modifies this, alloc, alloc.words
      ensures |old(alloc.Free)| >= 3 * count ==> ok
      ensures count == 1 ==> (ok <==> |old(alloc.Free)| >= MissingTables(old(tables), root, virt / 0x1000))
      ensures ok && count == 1 ==> |alloc.Free| == |old(alloc.Free)| - MissingTables(old(tables), root, virt / 0x1000)
      ensures ok ==>
                && Valid() && lent == old(lent) && alloc.Free <= old(alloc.Free)
                && Spare() == old(Spare()) && SameOutside(old(ram), ram, Spare())
                && xlat == WithRun(old(xlat), root, virt / 0x1000, phys, count, perms)
                && (count == 1 ==> xlat == Mapped(old(xlat), root, virt / 0x1000, MakeEntry(Wrap64(phys), perms)))
                && |alloc.Free| + 3 * count >= |old(alloc.Free)|
    {
      hide Machine.Valid, Machine.Spare, MakeEntry, WithRun, Mapped, MissingTables, SameOutside;
      var v, p, i := virt, phys, 0;
      RamSame(ram, alloc.Free);
      EmptyRun(xlat, root, virt / 0x1000, phys, perms);
      RunGrows(xlat, root, virt / 0x1000, phys, 0, perms);
      assert phys + 0 * 0x1000 == phys;
      SpareIs();
      while i < count
        invariant i <= count && v == virt + i * 0x1000 && p == phys + i * 0x1000
        invariant Valid() && lent == old(lent) && alloc.Free <= old(alloc.Free)
                  && SameOutside(old(ram), ram, old(alloc.Free))
        invariant xlat == WithRun(old(xlat), root, virt / 0x1000, phys, i, perms)
        invariant |alloc.Free| + 3 * i >= |old(alloc.Free)|
        invariant i == 0 ==> alloc.Free == old(alloc.Free) && tables == old(tables)
        invariant i == 1 ==>
                    |alloc.Free| == |old(alloc.Free)| - MissingTables(old(tables), root, virt / 0x1000)
      {
        ghost var ram1, free1 := ram, alloc.Free;
        ok := MapPage(root, v, Wrap64(p), perms);
        if !ok { return; }
        OutsideTwice(old(ram), ram1, ram, old(alloc.Free), free1);
        RunGrows(old(xlat), root, virt / 0x1000, phys, i, perms);
        v := v + 0x1000;
        p := p + 0x1000;
        i := i + 1;
      }
      ok := true;
      SpareIs();
      SameInMore(old(ram), ram, old(alloc.Free), Spare());
    }

    /** A page that is mapped needs no new table. */
    lemma {:induction false} MappedNeedsNoTable(root: nat, page: nat)
      requires Valid() && root in xlat && page in xlat[root]
      ensures page < USER_PAGES && MissingTables(tables, root, page) == 0
    {
      hide FrameAllocator.Valid, FramesOk, Tree, TableAt;
      var p := Path(page);
      PathSteps(tables, root, p[0], p[1], p[2]);
      assert Lookup(tables, root, page) == xlat[root][page];
    }

    /** In every state the walk of vmm_get_entry reads the flat map. */
    lemma {:induction false} EntryIsFlat(root: nat, virt: nat)
      requires Valid() && root in xlat && virt / 0x1000 < USER_PAGES
      ensures GetEntry(tables, root, virt) == Flat(xlat[root], virt / 0x1000)
    {
      hide FrameAllocator.Valid, FramesOk, GetEntry, Lookup;
      GetEntryIsLookup(tables, root, virt);
    }

    /** One turn of the loop of vmm_unmap_pages. */
    method UnmapPage(root: nat, virt: nat) returns (ret: bool)
      requires Valid() && root in xlat && virt / 0x1000 < USER_PAGES
      modifies this`tables, this`xlat
      ensures Valid()
      ensures ret <==> TableAt(old(tables), root, Path(virt / 0x1000)).Some?
      ensures xlat == if ret then Unmapped(old(xlat), root, virt / 0x1000) else old(xlat)
      ensures !ret ==> virt / 0x1000 !in xlat[root]
      ensures forall q :: UserPath(q) ==> TableAt(tables, root, q) == TableAt(old(tables), root, q)
    {
      hide FrameAllocator.Valid, FramesOk, TablesOk, TableAt, VirtToOffs, Next;
      var offs := VirtToOffs(virt);
      ghost var page := virt / 0x1000;
      OffsAreDigits(virt);
      Digits3(page);
      PagePath(page);
      PathSteps(tables, root, offs.pml4, offs.pdp, offs.pd);
      if TableAt(tables, root, Path(page)).None? {
        NoTableNoPage(tables, xlat, kernelRoot, root, page);
      }
      var pdp := Next(tables, root, offs.pml4);
      if pdp.None? { return false; }
      var pd := Next(tables, pdp.value, offs.pdp);
      if pd.None? { return false; }
      var pt := Next(tables, pd.value, offs.pd);
      if pt.None? { return false; }
      WriteLeaf(tables, xlat, kernelRoot, root, page, pt.value, 0);
      tables := Write(tables, pt.value, offs.pt, 0);
      xlat := Unmapped(xlat, root, page);
      return true;
    }

    /**
     * vmm_unmap_pages on the user half of a context: it stops at the first page that has no table
     * and then returns 0, with the pages before it gone and the rest as they were; it returns 1
     * exactly when every page has a table, and then none of them is mapped.
     */
    method UnmapPages(root: nat, virt: nat, count: nat) returns (ret: bool, ghost done: nat)
      requires Valid() && root in xlat && virt / 0x1000 + count <= USER_PAGES
      modifies this`tables, this`xlat
      ensures Valid() && done <= count && Spare() == old(Spare())
      ensures xlat == WithoutRun(old(xlat), root, virt / 0x1000, done)
      ensures forall p: nat :: virt / 0x1000 <= p < virt / 0x1000 + done ==> TableAt(old(tables), root, Path(p)).Some?
      ensures ret ==> done == count
      ensures !ret ==> done < count && TableAt(old(tables), root, Path(virt / 0x1000 + done)).None?
      ensures !ret ==> virt / 0x1000 + done !in old(xlat)[root]
      ensures ret ==> forall p :: virt / 0x1000 <= p < virt / 0x1000 + count ==> p !in xlat[root]
    {
      hide Machine.Valid, TableAt, Unmapped, WithoutRun, Path, Range;
      UserPaths();
      SpareIs();
      var v := virt;
      done := 0;
      HoleGrows(xlat, root, virt / 0x1000, 0);
      var i := 0;
      while i < count
        invariant i <= count && v == virt + i * 0x1000 && done == i && Spare() == old(Spare())
        invariant Valid() && xlat == WithoutRun(old(xlat), root, virt / 0x1000, i)
        invariant forall q :: UserPath(q) ==> TableAt(tables, root, q) == TableAt(old(tables), root, q)
        invariant forall p: nat :: virt / 0x1000 <= p < virt / 0x1000 + i ==> TableAt(old(tables), root, Path(p)).Some?
      {
        StillMapped(old(xlat), root, virt / 0x1000, i);
        ret := UnmapPage(root, v);
        SpareIs();
        if !ret { return; }
        HoleGrows(old(xlat), root, virt / 0x1000, i);
        v := v + 0x1000;
        i := i + 1;
        done := i;
      }
      ret := true;
      RunGone(old(xlat), root, virt / 0x1000, count);
    }

    /**
     * vmm_new_address_space once the kernel's own context exists. It does not look at the result
     * of the frame allocation, so the caller must know that a frame is free.
     */
    method NewContext() returns (root: nat)
      requires Valid() && alloc.Free != {}
      modifies this, alloc, alloc.words
      ensures Valid() && lent == old(lent) && alloc.Free <= old(alloc.Free)
      ensures Spare() == old(Spare()) && SameOutside(old(ram), ram, Spare())
      ensures root !in old(xlat) && xlat == old(xlat)[root := map[]]
      ensures |alloc.Free| == |old(alloc.Free)| - 1
      ensures && root in tables && kernelRoot in tables && |tables[root]| == |tables[kernelRoot]| == 512
              && tables[root][..256] == ZeroTable()[..256]
              && tables[root][256..] == tables[kernelRoot][256..]
    {
      hide FrameAllocator.Valid, FramesOk, TablesOk, Machine.Spare;
      SpareIs();
      FreeInPool(pool, alloc.Free, tables.Keys, lent, alloc.len);
      KernelTable(tables, xlat, kernelRoot);
      var addr := alloc.Alloc();
      root := addr / 0x1000;
      TableFrame(pool, old(alloc.Free), tables.Keys, lent, alloc.len, root);
      ram := ram[root := ZeroPage()];
      var top: seq<nat> := ZeroTable()[..256] + tables[kernelRoot][256..];
      AddContext(tables, xlat, kernelRoot, root, top);
      tables := tables[root := top];
      xlat := xlat[root := map[]];
      SpareIs();
    }
  }
}
