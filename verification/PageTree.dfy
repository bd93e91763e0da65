/**
 * The x86_64 page-table format (4-level paging, section 4.5 of the Intel SDM, Volume 3A) and the
 * tree that the tables of all contexts form in physical memory.
 */
module PageTree {
  import opened Options
  import opened Bits

  // ----- entries

  const FLAG_PRESENT: nat := 1
  const FLAG_WRITE: nat := 2
  const FLAG_USER: nat := 4
  const FLAG_PAT0: nat := 8
  const FLAG_PAT1: nat := 16
  const FLAG_PAT2: nat := 128
  const FLAG_NX: nat := 0x8000_0000_0000_0000

  /** ~(0xFFF | (1ull << 63)) */
  const ADDR_MASK: nat := 0x7FFF_FFFF_FFFF_F000

  predicate Present(entry: nat) {
    And(entry, FLAG_PRESENT) != 0
  }

  /** entry & VMM_ADDR_MASK */
  function AddrOf(entry: nat): nat {
    And(entry, ADDR_MASK)
  }

  /** The number of the frame an entry points to. */
  function FrameOf(entry: nat): nat {
    AddrOf(entry) / 0x1000
  }

  /** phys | perms | VMM_FLAG_PRESENT */
  function MakeEntry(phys: nat, perms: nat): (e: nat)
    ensures e % 2 == 1
  {
    Or(Or(phys, perms), FLAG_PRESENT)
  }

  lemma {:induction false} PresentIsOdd(entry: nat)
    ensures Present(entry) <==> entry % 2 == 1
  {
    AndOdd(entry, 1);
  }

  lemma {:induction false} AddrIsField(entry: nat)
    ensures AddrOf(entry) == entry / 0x1000 % 0x8_0000_0000_0000 * 0x1000
  {
    Powers();
    var ones: nat := Pow2(51) - 1;
    ShlIsMul(ones, 12);
    FieldAt(entry, ones, 12);
    ShrIsDiv(entry, 12);
    AndOnes(entry / 0x1000, 51);
    ShlIsMul(And(entry / 0x1000, ones), 12);
  }

  lemma {:induction false} EntryIsSum(frame: nat, perms: nat)
    requires perms < 0x1000
    ensures MakeEntry(frame * 0x1000, perms) == frame * 0x1000 + Or(perms, FLAG_PRESENT)
    ensures Or(perms, FLAG_PRESENT) < 0x1000
  {
    hide Or, Shl, Pow2;
    Powers();
    ShlIsMul(frame, 12);
    OrDisjoint(frame, perms, 12);
    OrOne(frame * 0x1000 + perms);
    OrOne(perms);
  }

  /** An entry gives back the frame and the flags it was made from. */
  lemma {:induction false} EntryRoundTrip(frame: nat, perms: nat)
    requires frame < 0x8_0000_0000_0000 && perms < 0x1000
    ensures Present(MakeEntry(frame * 0x1000, perms))
    ensures AddrOf(MakeEntry(frame * 0x1000, perms)) == frame * 0x1000
    ensures FrameOf(MakeEntry(frame * 0x1000, perms)) == frame
    ensures MakeEntry(frame * 0x1000, perms) % 0x1000 == Or(perms, FLAG_PRESENT)
  {
    hide MakeEntry, Present, AddrOf, Or;
    var e := MakeEntry(frame * 0x1000, perms);
    PresentIsOdd(e);
    EntryIsSum(frame, perms);
    ModUnique(e, 0x1000, frame, Or(perms, FLAG_PRESENT));
    AddrIsField(e);
  }

  /** The bits below a page go the way of the flags. */
  lemma {:induction false} LowBits(frame: nat, low: nat, perms: nat)
    requires frame < 0x8_0000_0000_0000 && low < 0x1000 && perms < 0x1000
    ensures FrameOf(MakeEntry(frame * 0x1000 + low, perms)) == frame
  {
    hide MakeEntry, FrameOf, Or, Shl, Pow2;
    Powers();
    ShlIsMul(frame, 12);
    OrDisjoint(frame, low, 12);
    OrBelow(low, perms, 12);
    OrAssoc(frame * 0x1000, low, perms);
    EntryIs(frame * 0x1000 + low, perms);
    EntryIs(frame * 0x1000, Or(low, perms));
    EntryRoundTrip(frame, Or(low, perms));
  }

  lemma {:induction false} EntryIs(phys: nat, perms: nat)
    ensures MakeEntry(phys, perms) == Or(Or(phys, perms), FLAG_PRESENT)
  {}

  lemma {:induction false} OrOne(x: nat)
    ensures Or(x, 1) == if x % 2 == 1 then x else x + 1
  {
    if x > 0 { assert Or(x / 2, 0) == x / 2; }
  }

  // ----- virtual addresses

  datatype Offs = Offs(pml4: nat, pdp: nat, pd: nat, pt: nat)

  function VirtToOffs(addr: nat): Offs {
    Offs(Shr(And(addr, Shl(0x1ff, 39)), 39),
         Shr(And(addr, Shl(0x1ff, 30)), 30),
         Shr(And(addr, Shl(0x1ff, 21)), 21),
         Shr(And(addr, Shl(0x1ff, 12)), 12))
  }

  function OffsToVirt(offs: Offs): nat {
    Or(Or(Or(Shl(offs.pml4, 39), Shl(offs.pdp, 30)), Shl(offs.pd, 21)), Shl(offs.pt, 12))
  }

  lemma {:induction false} Field9(addr: nat, s: nat)
    ensures Shr(And(addr, Shl(0x1ff, s)), s) == Shr(addr, s) % 512
  {
    Powers();
    FieldAt(addr, 0x1ff, s);
    AndOnes(Shr(addr, s), 9);
  }

  lemma {:induction false} Shr9(addr: nat, s: nat)
    ensures Shr(addr, s + 9) == Shr(addr, s) / 512
  {
    Powers();
    ShrShr(addr, s, 9);
    ShrIsDiv(Shr(addr, s), 9);
  }

  /** The four indices are the base-512 digits of the page number. */
  lemma {:induction false} OffsAreDigits(addr: nat)
    ensures var page := addr / 0x1000;
            VirtToOffs(addr) == Offs(page / 512 / 512 / 512 % 512, page / 512 / 512 % 512, page / 512 % 512, page % 512)
  {
    Powers();
    ShrIsDiv(addr, 12);
    Shr9(addr, 12);
    Shr9(addr, 21);
    Shr9(addr, 30);
    Field9(addr, 12);
    Field9(addr, 21);
    Field9(addr, 30);
    Field9(addr, 39);
  }

  lemma {:induction false} OrDigit(hi: nat, lo: nat, s: nat)
    requires lo < 512
    ensures Or(Shl(hi, s + 9), Shl(lo, s)) == Shl(hi * 512 + lo, s)
  {
    if s > 0 {
      OrDigit(hi, lo, s - 1);
      var a, b := Shl(hi, s + 8), Shl(lo, s - 1);
      assert a > 0 && b > 0 ==> Or(2 * a, 2 * b) == 2 * Or(a, b);
    } else {
      Powers();
      OrDisjoint(hi, lo, 9);
      ShlIsMul(hi, 9);
    }
  }

  lemma {:induction false} VirtIsPage(o: Offs)
    requires o.pml4 < 512 && o.pdp < 512 && o.pd < 512 && o.pt < 512
    ensures OffsToVirt(o) == (((o.pml4 * 512 + o.pdp) * 512 + o.pd) * 512 + o.pt) * 0x1000
  {
    hide Or, Shl, Pow2;
    Powers();
    OrDigit(o.pml4, o.pdp, 30);
    OrDigit(o.pml4 * 512 + o.pdp, o.pd, 21);
    OrDigit((o.pml4 * 512 + o.pdp) * 512 + o.pd, o.pt, 12);
    ShlIsMul(((o.pml4 * 512 + o.pdp) * 512 + o.pd) * 512 + o.pt, 12);
  }

  lemma {:induction false} Digit(hi: nat, lo: nat)
    requires lo < 512
    ensures (hi * 512 + lo) / 512 == hi && (hi * 512 + lo) % 512 == lo
  {}

  /** Going to offsets and back clears the offset in the page and keeps the 36-bit page number. */
  lemma {:induction false} OffsRoundTrip(addr: nat)
    requires addr < 0x1_0000_0000_0000
    ensures OffsToVirt(VirtToOffs(addr)) == addr / 0x1000 * 0x1000
  {
    hide *;
    OffsAreDigits(addr);
    VirtIsPage(VirtToOffs(addr));
    var p := addr / 0x1000;
    var a := p / 512;
    var b := a / 512;
    assert p < 0x10_0000_0000 && a < 0x800_0000 && b < 0x4_0000 && b / 512 < 512;
  }

  /** Going to an address and back loses nothing. */
  lemma {:induction false} VirtRoundTrip(o: Offs)
    requires o.pml4 < 512 && o.pdp < 512 && o.pd < 512 && o.pt < 512
    ensures VirtToOffs(OffsToVirt(o)) == o
  {
    hide *;
    VirtIsPage(o);
    OffsAreDigits(OffsToVirt(o));
    var a := o.pml4 * 512 + o.pdp;
    var b := a * 512 + o.pd;
    Digit(o.pml4, o.pdp);
    Digit(a, o.pd);
    Digit(b, o.pt);
    assert (b * 512 + o.pt) * 0x1000 / 0x1000 == b * 512 + o.pt;
  }

  /** The pages below 0x800000000000, the user half. */
  const USER_PAGES: nat := 0x8_0000_0000

  // ----- the tables

  /** The tables in physical memory, by the number of the frame that holds them. */
  type Tables = map<nat, seq<nat>>

  /** tab->ents[off] = e */
  function Write(t: Tables, f: nat, off: nat, e: nat): Tables
    requires f in t && off < |t[f]|
  {
    var tab: seq<nat> := t[f][off := e];
    t[f := tab]
  }

  /** vmm_get_or_null_ent */
  function Next(t: Tables, f: nat, off: nat): Option<nat> {
    if f in t && off < |t[f]| && Present(t[f][off]) then Some(FrameOf(t[f][off])) else None
  }

  /** vmm_get_entry for a user-half address. */
  function GetEntry(t: Tables, root: nat, virt: nat): nat {
    var offs := VirtToOffs(virt);
    match Next(t, root, offs.pml4)
    case None => 0
    case Some(pdp) =>
      match Next(t, pdp, offs.pdp)
      case None => 0
      case Some(pd) =>
        match Next(t, pd, offs.pd)
        case None => 0
        case Some(pt) => if pt in t && offs.pt < |t[pt]| then t[pt][offs.pt] else 0
  }

  /** The table reached from a root by following the indices of a path. */
  function TableAt(t: Tables, root: nat, path: seq<nat>): Option<nat>
    decreases |path|
  {
    if path == [] then Some(root)
    else
      match TableAt(t, root, path[..|path| - 1])
      case None => None
      case Some(f) => Next(t, f, path[|path| - 1])
  }

  /** At most three steps, the first through the lower half of the root. */
  predicate UserPath(path: seq<nat>) {
    && |path| <= 3
    && (path != [] ==> path[0] < 256)
    && forall i :: 0 <= i < |path| ==> path[i] < 512
  }

  /** The way to the page table of a page, and the page's place in it. */
  function Path(page: nat): (path: seq<nat>)
    ensures page < USER_PAGES ==> UserPath(path)
  {
    [page / 512 / 512 / 512, page / 512 / 512 % 512, page / 512 % 512]
  }

  function Slot(page: nat): nat {
    page % 512
  }

  lemma {:induction false} PathInjective(p: nat, q: nat)
    requires Path(p) == Path(q) && Slot(p) == Slot(q)
    ensures p == q
  {
    assert Path(p)[0] == Path(q)[0] && Path(p)[1] == Path(q)[1] && Path(p)[2] == Path(q)[2];
    assert p / 512 / 512 == q / 512 / 512;
    assert p / 512 == q / 512;
  }

  /** The entry of a page, by way of its path. */
  function Lookup(t: Tables, root: nat, page: nat): nat {
    match TableAt(t, root, Path(page))
    case None => 0
    case Some(f) => if f in t && Slot(page) < |t[f]| then t[f][Slot(page)] else 0
  }

  lemma {:induction false} PathSteps(t: Tables, root: nat, i: nat, j: nat, k: nat)
    ensures TableAt(t, root, [i]) == Next(t, root, i)
    ensures TableAt(t, root, [i, j]) == (match TableAt(t, root, [i]) case None => None case Some(f) => Next(t, f, j))
    ensures TableAt(t, root, [i, j, k])
            == (match TableAt(t, root, [i, j]) case None => None case Some(f) => Next(t, f, k))
  {
    assert [i][..0] == [] && [i, j][..1] == [i] && [i, j, k][..2] == [i, j];
  }

  lemma {:induction false} Digits3(page: nat)
    requires page < USER_PAGES
    ensures page / 512 / 512 / 512 % 512 == page / 512 / 512 / 512 < 256
  {
    var a := page / 512;
    var b := a / 512;
    assert a < 0x400_0000 && b < 0x2_0000;
  }

  lemma {:induction false} GetEntryIsLookup(t: Tables, root: nat, virt: nat)
    requires virt / 0x1000 < USER_PAGES
    ensures GetEntry(t, root, virt) == Lookup(t, root, virt / 0x1000)
  {
    hide VirtToOffs, TableAt, Next;
    var page := virt / 0x1000;
    OffsAreDigits(virt);
    PathSteps(t, root, page / 512 / 512 / 512, page / 512 / 512 % 512, page / 512 % 512);
    Digits3(page);
  }

  /** Every table of every context is in memory, and no frame is reached by two paths. */
  ghost predicate Tree(t: Tables, roots: set<nat>) {
    && (forall f :: f in t ==> |t[f]| == 512)
    && roots <= t.Keys
    && (forall r, q :: r in roots && UserPath(q) && TableAt(t, r, q).Some? ==> TableAt(t, r, q).value in t)
    && (forall r, q, r', q' ::
          r in roots && UserPath(q) && r' in roots && UserPath(q')
          && TableAt(t, r, q).Some? && TableAt(t, r, q) == TableAt(t, r', q')
          ==> r == r' && q == q')
  }

  function ZeroTable(): (z: seq<nat>)
    ensures |z| == 512 && forall i :: 0 <= i < 512 ==> z[i] == 0
  {
    seq(512, i => 0)
  }

  lemma {:induction false} Parent(q: seq<nat>)
    requires UserPath(q) && q != []
    ensures UserPath(q[..|q| - 1]) && q[|q| - 1] < 512
  {}

  // ----- writing the entry of a page

  lemma {:induction false} LeafPaths(t: Tables, roots: set<nat>, root: nat, page: nat, f: nat, e: nat, r: nat,
                                     q: seq<nat>)
    requires Tree(t, roots) && root in roots && page < USER_PAGES
    requires TableAt(t, root, Path(page)) == Some(f)
    requires r in roots && UserPath(q)
    ensures f in t && |t[f]| == 512 && TableAt(Write(t, f, Slot(page), e), r, q) == TableAt(t, r, q)
    decreases |q|
  {
    if q != [] {
      Parent(q);
      var p := q[..|q| - 1];
      LeafPaths(t, roots, root, page, f, e, r, p);
      assert TableAt(t, r, p) != Some(f);
    }
  }

  /** Writing one slot of a page's table changes the entry of that page in that context and nothing else. */
  lemma {:induction false} SetLeaf(t: Tables, roots: set<nat>, root: nat, page: nat, f: nat, e: nat)
    returns (t': Tables)
    requires Tree(t, roots) && root in roots && page < USER_PAGES
    requires TableAt(t, root, Path(page)) == Some(f)
    ensures f in t && |t[f]| == 512 && t' == Write(t, f, Slot(page), e)
    ensures Tree(t', roots)
    ensures forall r, q :: r in roots && UserPath(q) ==> TableAt(t', r, q) == TableAt(t, r, q)
    ensures forall r, p: nat :: r in roots && p < USER_PAGES ==>
              Lookup(t', r, p) == if r == root && p == page then e else Lookup(t, r, p)
  {
    t' := Write(t, f, Slot(page), e);
    forall r, q | r in roots && UserPath(q) ensures TableAt(t', r, q) == TableAt(t, r, q) {
      LeafPaths(t, roots, root, page, f, e, r, q);
    }
    forall r, p: nat | r in roots && p < USER_PAGES
      ensures Lookup(t', r, p) == if r == root && p == page then e else Lookup(t, r, p)
    {
      assert TableAt(t', r, Path(p)) == TableAt(t, r, Path(p));
      if TableAt(t, r, Path(p)) == Some(f) {
        assert Path(p) == Path(page) && r == root;
        if Slot(p) == Slot(page) { PathInjective(p, page); }
      }
    }
  }

  // ----- hanging an empty table into the tree

  ghost predicate CanHang(t: Tables, roots: set<nat>, root: nat, q: seq<nat>, off: nat, f: nat, n: nat, e: nat) {
    && Tree(t, roots) && root in roots && |q| < 3 && UserPath(q + [off])
    && TableAt(t, root, q) == Some(f)
    && f in t && off < 512 && !Present(t[f][off])
    && n !in t && Present(e) && FrameOf(e) == n
  }

  lemma {:induction false} HangPaths(t: Tables, roots: set<nat>, root: nat, q: seq<nat>, off: nat, f: nat, n: nat,
                                     e: nat,
                                     r: nat, q': seq<nat>)
    requires UserPath(q) && CanHang(t, roots, root, q, off, f, n, e)
    requires r in roots && UserPath(q')
    ensures TableAt(Write(t, f, off, e)[n := ZeroTable()], r, q')
         == if r == root && q' == q + [off] then Some(n) else TableAt(t, r, q')
    decreases |q'|
  {
    hide Tree, UserPath;
    if q' != [] {
      Parent(q');
      var p := q'[..|q'| - 1];
      var x := q'[|q'| - 1];
      assert q' == p + [x];
      HangPaths(t, roots, root, q, off, f, n, e, r, p);
      if r == root && p == q + [off] {
        assert p[..|p| - 1] == q;
      } else if TableAt(t, r, p).Some? {
        OnePath(t, roots, r, p, root, q);
        assert q' == q + [off] ==> p == q && x == off;
      }
    }
  }

  lemma {:induction false} OnePath(t: Tables, roots: set<nat>, r: nat, p: seq<nat>, root: nat, q: seq<nat>)
    requires Tree(t, roots) && r in roots && UserPath(p) && root in roots && UserPath(q) && TableAt(t, r, p).Some?
    ensures TableAt(t, r, p).value in t && |t[TableAt(t, r, p).value]| == 512
    ensures TableAt(t, r, p) == TableAt(t, root, q) ==> r == root && p == q
  {
    hide TableAt, UserPath;
  }

  /** An empty table on a path that had none changes no entry of any context. */
  lemma {:induction false} HangTable(t: Tables, roots: set<nat>, root: nat, q: seq<nat>, off: nat, f: nat, n: nat,
                                     e: nat) returns (t': Tables)
    requires UserPath(q) && CanHang(t, roots, root, q, off, f, n, e)
    ensures t' == Write(t, f, off, e)[n := ZeroTable()]
    ensures Tree(t', roots)
    ensures forall r, q' :: r in roots && UserPath(q') ==>
              TableAt(t', r, q') == if r == root && q' == q + [off] then Some(n) else TableAt(t, r, q')
    ensures forall r, p: nat :: r in roots && p < USER_PAGES ==> Lookup(t', r, p) == Lookup(t, r, p)
  {
    t' := Write(t, f, off, e)[n := ZeroTable()];
    forall r, q' | r in roots && UserPath(q')
      ensures TableAt(t', r, q') == if r == root && q' == q + [off] then Some(n) else TableAt(t, r, q')
    {
      HangPaths(t, roots, root, q, off, f, n, e, r, q');
    }
    assert (q + [off])[..|q|] == q;
    assert TableAt(t, root, q + [off]) == None;
    forall r, p: nat | r in roots && p < USER_PAGES ensures Lookup(t', r, p) == Lookup(t, r, p) {
      var path := Path(p);
      assert TableAt(t', r, path) == if r == root && path == q + [off] then Some(n) else TableAt(t, r, path);
      assert TableAt(t, r, path) != Some(f);
    }
  }

  // ----- a new context

  lemma {:induction false} RootPaths(t: Tables, roots: set<nat>, n: nat, top: seq<nat>, r: nat, q: seq<nat>)
    requires Tree(t, roots) && n !in t && |top| == 512
    requires forall i :: 0 <= i < 256 ==> top[i] == 0
    requires r in roots + {n} && UserPath(q)
    ensures TableAt(t[n := top], r, q) == if r == n then (if q == [] then Some(n) else None) else TableAt(t, r, q)
    decreases |q|
  {
    if q != [] {
      Parent(q);
      RootPaths(t, roots, n, top, r, q[..|q| - 1]);
      if r == n && |q| == 1 {
        assert q[..0] == [];
        assert top[q[0]] == 0;
      }
    }
  }

  /** A root with an empty lower half adds a context that maps nothing and leaves the others alone. */
  lemma {:induction false} NewRoot(t: Tables, roots: set<nat>, n: nat, top: seq<nat>) returns (t': Tables)
    requires Tree(t, roots) && n !in t && |top| == 512
    requires forall i :: 0 <= i < 256 ==> top[i] == 0
    ensures t' == t[n := top] && Tree(t', roots + {n})
    ensures forall p: nat :: p < USER_PAGES ==> Lookup(t', n, p) == 0
    ensures forall r, p: nat :: r in roots && p < USER_PAGES ==> Lookup(t', r, p) == Lookup(t, r, p)
  {
    t' := t[n := top];
    forall r, q | r in roots + {n} && UserPath(q)
      ensures TableAt(t', r, q) == if r == n then (if q == [] then Some(n) else None) else TableAt(t, r, q)
    {
      RootPaths(t, roots, n, top, r, q);
    }
  }
}
