/** memory_mapping: the lazily backed pages of one region. */
module Mappings {
  import opened Bits
  import opened FrameAllocation
  import opened Machines

  /** backing_page; backed is _exists, reserved is _allocated. */
  datatype BackingPage = BackingPage(ptr: nat, backed: bool, reserved: bool)

  const NO_PAGE := BackingPage(0, false, false)

  datatype FaultResult = Invalid | RemapValid | Ignore | InvalidAccess | NotMapped

  function Frame(p: BackingPage): nat {
    p.ptr / 0x1000
  }

  /** Page i gained its frame on the way from a to b. */
  predicate Gained(a: seq<BackingPage>, b: seq<BackingPage>, i: nat) {
    i < |a| && i < |b| && !a[i].backed && b[i].backed
  }

  /**
   * Reserved pages have been backed: pages that had a frame keep it, pages without one keep none
   * or gain one, and the frames gained are exactly the frames newly lent out, one a page.
   */
  ghost predicate Grown(a: seq<BackingPage>, b: seq<BackingPage>, lent: set<nat>, lent': set<nat>) {
    && |a| == |b| && lent <= lent'
    && (forall i :: 0 <= i < |a| && !Gained(a, b, i) ==> b[i] == a[i])
    && (forall i :: 0 <= i < |a| && Gained(a, b, i) ==>
          a[i].reserved && b[i].reserved && b[i].ptr % 0x1000 == 0 && b[i].ptr < TWO64
          && Frame(b[i]) in lent' - lent)
    && (forall i, j ::
          0 <= i < |a| && 0 <= j < |a| && Gained(a, b, i) && Gained(a, b, j) && Frame(b[i]) == Frame(b[j])
          ==> i == j)
    && (forall f :: f in lent' - lent ==> exists i :: 0 <= i < |a| && Gained(a, b, i) && Frame(b[i]) == f)
  }

  /** The frames newly lent out hold zeroes. */
  ghost predicate Zeroed(ram: seq<Page>, frames: set<nat>) {
    forall f :: f in frames ==> f < |ram| && ram[f] == ZeroPage()
  }

  /** What backing pages does to memory: frames go from free to lent, zeroed, and no other byte changes. */
  ghost predicate Handed(ram: seq<Page>, ram': seq<Page>, free: set<nat>, free': set<nat>, lent: set<nat>,
                         lent': set<nat>)
  {
    && free' <= free && lent <= lent' && lent' !! free' && lent' - lent <= free
    && SameOutside(ram, ram', free) && Zeroed(ram', lent' - lent)
  }

  lemma {:induction false} HandOne(ram: seq<Page>, ram': seq<Page>, free: set<nat>, free': set<nat>, lent: set<nat>,
                                   lent': set<nat>, f: nat)
    requires Handed(ram, ram', free, free', lent, lent') && f in free' && f < |ram'|
    ensures Handed(ram, ram'[f := ZeroPage()], free, free' - {f}, lent, lent' + {f})
  {
    forall g | g in lent' + {f} - lent ensures g < |ram'| && ram'[f := ZeroPage()][g] == ZeroPage() {
      if g != f { assert g in lent' - lent; }
    }
  }

  lemma {:induction false} HandNone(ram: seq<Page>, free: set<nat>, lent: set<nat>)
    requires lent !! free
    ensures Handed(ram, ram, free, free, lent, lent)
  {}

  /** How many reserved pages have no frame yet. */
  function Unbacked(pages: seq<BackingPage>): nat {
    if pages == [] then 0
    else Unbacked(pages[1..]) + if pages[0].reserved && !pages[0].backed then 1 else 0
  }

  lemma {:induction false} UnbackedDrops(pages: seq<BackingPage>, i: nat, ptr: nat)
    requires i < |pages| && pages[i].reserved && !pages[i].backed
    ensures Unbacked(pages[i := BackingPage(ptr, true, true)]) == Unbacked(pages) - 1
  {
    var after := pages[i := BackingPage(ptr, true, true)];
    if i > 0 {
      UnbackedDrops(pages[1..], i - 1, ptr);
      assert after[1..] == pages[1..][i - 1 := BackingPage(ptr, true, true)];
    } else {
      assert after[1..] == pages[1..];
    }
  }

  /** One more page backed by one more frame. */
  lemma {:induction false} GrowOne(a: seq<BackingPage>, b: seq<BackingPage>, lent: set<nat>, lent': set<nat>, i: nat,
                                   ptr: nat)
    requires Grown(a, b, lent, lent') && i < |b| && !b[i].backed && b[i].reserved
    requires ptr % 0x1000 == 0 && ptr < TWO64 && ptr / 0x1000 !in lent'
    ensures Grown(a, b[i := BackingPage(ptr, true, true)], lent, lent' + {Frame(BackingPage(ptr, true, true))})
  {
    var c := b[i := BackingPage(ptr, true, true)];
    var f := ptr / 0x1000;
    assert !Gained(a, b, i) && a[i] == b[i];
    assert Gained(a, c, i) && Frame(c[i]) == f;
    forall g | g in lent' + {f} - lent ensures exists j :: 0 <= j < |a| && Gained(a, c, j) && Frame(c[j]) == g {
      if g != f {
        assert g in lent' - lent;
        var j :| 0 <= j < |a| && Gained(a, b, j) && Frame(b[j]) == g;
        assert Gained(a, c, j) && Frame(c[j]) == g;
      }
    }
    forall j, k | 0 <= j < |a| && 0 <= k < |a| && Gained(a, c, j) && Gained(a, c, k) && Frame(c[j]) == Frame(c[k])
      ensures j == k
    {
      if j != i { assert Gained(a, b, j); }
      if k != i { assert Gained(a, b, k); }
    }
    forall j | 0 <= j < |a| && !Gained(a, c, j) ensures c[j] == a[j] { assert !Gained(a, b, j); }
    forall j | 0 <= j < |a| && Gained(a, c, j)
      ensures a[j].reserved && c[j].reserved && c[j].ptr % 0x1000 == 0 && c[j].ptr < TWO64
              && Frame(c[j]) in lent' + {f} - lent
    {
      if j != i { assert Gained(a, b, j); }
    }
  }

  lemma {:induction false} GrownRefl(a: seq<BackingPage>, lent: set<nat>)
    ensures Grown(a, a, lent, lent)
  {}

  /** The pages ensure_load_store touches, and the pages a copy reaches. */
  function TouchFirst(offset: nat): nat { offset / 0x1000 }
  function TouchCount(size: nat): nat { (size + 0xFFF) / 0x1000 }
  function CopyEnd(offset: nat, size: nat): nat { (offset + size + 0xFFF) / 0x1000 }

  /**
   * ensure_load_store touches every page of the copy exactly when the offset in the first page
   * leaves room in the touched pages; otherwise it misses the last page and only that one.
   */
  lemma {:induction false} TouchCoverage(offset: nat, size: nat)
    requires size > 0
    ensures CopyEnd(offset, size) <= TouchFirst(offset) + TouchCount(size)
       <==> offset % 0x1000 + size <= TouchCount(size) * 0x1000
    ensures TouchFirst(offset) + TouchCount(size) <= CopyEnd(offset, size) <= TouchFirst(offset) + TouchCount(size) + 1
  {
    var q, r := offset / 0x1000, offset % 0x1000;
    assert offset == q * 0x1000 + r;
    assert CopyEnd(offset, size) == q + (r + size + 0xFFF) / 0x1000;
  }

  /** A two-byte copy across a page boundary, of which only the first page is touched. */
  lemma {:induction false} TouchMissesPage()
    ensures CopyEnd(0xFFF, 2) == 2 && TouchFirst(0xFFF) + TouchCount(2) == 1
  {}

  /** A page whose frame goes back when the region is deleted. */
  predicate Returnable(p: BackingPage) {
    p.backed && p.reserved
  }

  ghost function ReturnedFrames(pages: seq<BackingPage>, n: nat): (s: set<nat>)
    requires n <= |pages|
    ensures forall f :: f in s <==> exists i: nat :: i < n && Returnable(pages[i]) && Frame(pages[i]) == f
  {
    set i: nat | i < n && Returnable(pages[i]) :: Frame(pages[i])
  }

  /** The frames of the returnable pages are lent out, one a page. */
  ghost predicate OwnFrames(pages: seq<BackingPage>, lent: set<nat>) {
    && (forall i :: 0 <= i < |pages| && Returnable(pages[i]) ==> Frame(pages[i]) in lent)
    && (forall i, j ::
       0 <= i < j < |pages| && Returnable(pages[i]) && Returnable(pages[j]) ==> Frame(pages[i]) != Frame(pages[j]))
  }

  lemma {:induction false} ReturnedGrows(pages: seq<BackingPage>, n: nat)
    requires n < |pages|
    ensures ReturnedFrames(pages, n + 1) == if Returnable(pages[n]) then ReturnedFrames(pages, n) + {Frame(pages[n])}
            else ReturnedFrames(pages, n)
    ensures ReturnedFrames(pages, 0) == {}
  {}

  class MemoryMapping {
    const base: nat
    const size: nat
    var pages: seq<BackingPage>
    var perms: nat
    var cache: nat
    var mapped: bool

    constructor (base: nat, size: nat)
      ensures this.base == base && this.size == size && !mapped
      ensures |pages| == size && forall i :: 0 <= i < size ==> pages[i] == NO_PAGE
    {
      this.base := base;
      this.size := size;
      pages := seq(size, i => NO_PAGE);
      perms := 0;
      cache := 0;
      mapped := false;
    }

    /** Reserves every page and backs none. */
    method Allocate(perms: nat, cache: nat)
      requires |pages| == size && forall i :: 0 <= i < size ==> pages[i] == NO_PAGE
      modifies this`pages, this`perms, this`cache
      ensures |pages| == size && forall i :: 0 <= i < size ==> pages[i] == BackingPage(0, false, true)
      ensures this.perms == perms && this.cache == cache
    {
      this.perms := perms;
      this.cache := cache;
      for i := 0 to |pages|
        invariant |pages| == size && this.perms == perms && this.cache == cache
        invariant forall j :: 0 <= j < size ==> pages[j] == if j < i then BackingPage(0, false, true) else NO_PAGE
      {
        pages := pages[i := pages[i].(reserved := true)];
      }
    }

    /** Backs every page with consecutive physical addresses and reserves none. */
    method MapTo(address: nat, perms: nat, cache: nat)
      requires |pages| == size && forall i :: 0 <= i < size ==> pages[i] == NO_PAGE
      modifies this`pages, this`perms, this`cache
      ensures |pages| == size
      ensures forall i :: 0 <= i < size ==> pages[i] == BackingPage(Wrap64(address + i * 0x1000), true, false)
      ensures this.perms == perms && this.cache == cache
    {
      this.perms := perms;
      this.cache := cache;
      var a := address;
      for i := 0 to |pages|
        invariant |pages| == size && this.perms == perms && this.cache == cache
        invariant a == address + i * 0x1000
        invariant forall j :: 0 <= j < i ==> pages[j] == BackingPage(Wrap64(address + j * 0x1000), true, false)
        invariant forall j :: i <= j < size ==> pages[j] == NO_PAGE
      {
        pages := pages[i := BackingPage(Wrap64(a), true, false)];
        a := a + 0x1000;
      }
    }

    /** The destructor: every frame the region owns goes back, once; mapped addresses are left alone. */
    method Delete(m: Machine)
      requires m.Valid() && |pages| == size && OwnFrames(pages, m.lent)
      modifies m`lent, m.alloc, m.alloc.words
      ensures m.Valid()
      ensures m.lent == old(m.lent) - ReturnedFrames(pages, size)
      ensures m.alloc.Free == old(m.alloc.Free) + ReturnedFrames(pages, size)
    {
      hide Machine.Valid, ReturnedFrames;
      LentAboveZero(m);
      var i := 0;
      if size > 0 { ReturnedGrows(pages, 0); }
      assert ReturnedFrames(pages, 0) == {};
      while i < size
        invariant i <= size && m.Valid()
        invariant m.lent == old(m.lent) - ReturnedFrames(pages, i)
        invariant m.alloc.Free == old(m.alloc.Free) + ReturnedFrames(pages, i)
      {
        ReturnedGrows(pages, i);
        if pages[i].backed && pages[i].reserved && pages[i].ptr != 0 {
          m.FreePhys(pages[i].ptr);
        }
        i := i + 1;
      }
    }

    /** Backs page idx if it has no frame and there is one; says whether it did. */
    method Touch(m: Machine, idx: nat) returns (touched: bool)
      requires m.Valid() && |pages| == size && idx < size
      requires pages[idx].backed || pages[idx].reserved
      modifies this`pages, m, m.alloc, m.alloc.words
      ensures m.Valid() && m.tables == old(m.tables) && m.xlat == old(m.xlat)
      ensures Grown(old(pages), pages, old(m.lent), m.lent)
      ensures Handed(old(m.ram), m.ram, old(m.alloc.Free), m.alloc.Free, old(m.lent), m.lent)
      ensures touched <==> !old(pages[idx].backed) && old(m.alloc.Free) != {}
      ensures !touched ==>
              pages == old(pages) && m.lent == old(m.lent) && m.ram == old(m.ram) && m.alloc.Free == old(m.alloc.Free)
      ensures touched ==>
                && |pages| == size && pages == old(pages)[idx := pages[idx]]
                && pages[idx] == BackingPage(pages[idx].ptr, true, true)
                && pages[idx].ptr % 0x1000 == 0 && pages[idx].ptr < TWO64
                && Frame(pages[idx]) in old(m.alloc.Free) && Frame(pages[idx]) !in old(m.lent)
                && m.lent == old(m.lent) + {Frame(pages[idx])}
                && m.alloc.Free == old(m.alloc.Free) - {Frame(pages[idx])}
                && |m.alloc.Free| == |old(m.alloc.Free)| - 1
                && Frame(pages[idx]) < |old(m.ram)| && m.ram == old(m.ram)[Frame(pages[idx]) := ZeroPage()]
    {
      hide Machine.Valid, Grown, Handed;
      LentNotFree(m);
      GrownRefl(pages, m.lent);
      HandNone(m.ram, m.alloc.Free, m.lent);
      if !pages[idx].backed {
        var ptr := m.AllocPhys();
        if ptr == 0 { return false; }
        GrowOne(pages, pages, old(m.lent), old(m.lent), idx, ptr);
        HandOne(old(m.ram), old(m.ram), old(m.alloc.Free), old(m.alloc.Free), old(m.lent), old(m.lent), ptr / 0x1000);
        pages := pages[idx := BackingPage(ptr, true, pages[idx].reserved)];
        return true;
      }
      return false;
    }

    /** memory_mapping::fault_hit; ok is false when the kernel panics, which it does outside the region. */
    method FaultHit(m: Machine, address: nat) returns (ok: bool, result: FaultResult)
      requires m.Valid() && |pages| == size
      modifies this`pages, m, m.alloc, m.alloc.words
      ensures ok <==> base <= address < base + size * 0x1000
      ensures m.Valid() && m.tables == old(m.tables) && m.xlat == old(m.xlat)
      ensures ok ==>
                var i := (address - base) / 0x1000;
                result == if old(pages)[i].backed then InvalidAccess
                          else if !old(pages)[i].reserved then NotMapped
                          else if old(m.alloc.Free) == {} then Ignore
                          else RemapValid
      ensures Grown(old(pages), pages, old(m.lent), m.lent)
      ensures Handed(old(m.ram), m.ram, old(m.alloc.Free), m.alloc.Free, old(m.lent), m.lent)
      ensures !ok || result != RemapValid ==>
              pages == old(pages) && m.lent == old(m.lent) && m.ram == old(m.ram) && m.alloc.Free == old(m.alloc.Free)
      ensures ok && result == RemapValid ==>
                var i := (address - base) / 0x1000;
                && |pages| == size && pages == old(pages)[i := BackingPage(pages[i].ptr, true, true)]
                && |m.alloc.Free| == |old(m.alloc.Free)| - 1
    {
      hide Machine.Valid, Grown, Handed;
      LentNotFree(m);
      GrownRefl(pages, m.lent);
      HandNone(m.ram, m.alloc.Free, m.lent);
      if address < base || address >= base + size * 0x1000 { return false, Invalid; }
      var idx := (address - base) / 0x1000;
      var page := pages[idx];
      if page.reserved && !page.backed {
        var touched := Touch(m, idx);
        if touched { return true, RemapValid; } else { return true, Ignore; }
      } else if page.backed {
        return true, InvalidAccess;
      } else if !page.reserved && !page.backed {
        return true, NotMapped;
      }
      return true, Invalid;
    }

    /** Touches pages first, ..., last - 1; touch_all and ensure_load_store run this loop. */
    method TouchRange(m: Machine, first: nat, last: nat) returns (touched: bool)
      requires m.Valid() && |pages| == size && first <= last <= size
      requires forall i :: 0 <= i < size ==> pages[i].backed || pages[i].reserved
      modifies this`pages, m, m.alloc, m.alloc.words
      ensures m.Valid() && m.tables == old(m.tables) && m.xlat == old(m.xlat)
      ensures Grown(old(pages), pages, old(m.lent), m.lent)
      ensures Handed(old(m.ram), m.ram, old(m.alloc.Free), m.alloc.Free, old(m.lent), m.lent)
      ensures !touched ==> pages == old(pages) && m.lent == old(m.lent)
      ensures |m.alloc.Free| + (last - first) >= |old(m.alloc.Free)|
      ensures forall i :: first <= i < last && !pages[i].backed ==> m.alloc.Free == {}
      ensures |old(m.alloc.Free)| >= last - first ==> forall i :: first <= i < last ==> pages[i].backed
    {
      hide Machine.Valid, Grown, Handed;
      LentNotFree(m);
      GrownRefl(pages, m.lent);
      HandNone(m.ram, m.alloc.Free, m.lent);
      touched := false;
      var i := first;
      while i < last
        invariant first <= i <= last && |pages| == size
        invariant m.Valid() && m.tables == old(m.tables) && m.xlat == old(m.xlat)
        invariant Grown(old(pages), pages, old(m.lent), m.lent)
        invariant Handed(old(m.ram), m.ram, old(m.alloc.Free), m.alloc.Free, old(m.lent), m.lent)
        invariant !touched ==> pages == old(pages) && m.lent == old(m.lent)
        invariant |m.alloc.Free| + (i - first) >= |old(m.alloc.Free)|
        invariant forall j :: 0 <= j < size ==> pages[j].backed || pages[j].reserved
        invariant forall j :: first <= j < i && !pages[j].backed ==> m.alloc.Free == {}
        invariant |old(m.alloc.Free)| >= last - first ==> forall j :: first <= j < i ==> pages[j].backed
      {
        ghost var before, lentBefore, ramBefore, freeBefore := pages, m.lent, m.ram, m.alloc.Free;
        var now := Touch(m, i);
        if now {
          GrowOne(old(pages), before, old(m.lent), lentBefore, i, pages[i].ptr);
          HandOne(old(m.ram), ramBefore, old(m.alloc.Free), freeBefore, old(m.lent), lentBefore, Frame(pages[i]));
        }
        touched := touched || now;
        i := i + 1;
      }
    }

    method TouchAll(m: Machine) returns (touched: bool)
      requires m.Valid() && |pages| == size
      requires forall i :: 0 <= i < size ==> pages[i].backed || pages[i].reserved
      modifies this`pages, m, m.alloc, m.alloc.words
      ensures m.Valid() && m.tables == old(m.tables) && m.xlat == old(m.xlat)
      ensures Grown(old(pages), pages, old(m.lent), m.lent)
      ensures Handed(old(m.ram), m.ram, old(m.alloc.Free), m.alloc.Free, old(m.lent), m.lent)
      ensures !touched ==> pages == old(pages) && m.lent == old(m.lent)
      ensures |m.alloc.Free| + size >= |old(m.alloc.Free)|
      ensures |old(m.alloc.Free)| >= size ==> forall i :: 0 <= i < size ==> pages[i].backed
    {
      hide Machine.Valid, Grown, Handed;
      touched := TouchRange(m, 0, size);
    }

    /** ensure_load_store: nothing is touched when the copy does not fit the region. */
    method EnsureLoadStore(m: Machine, offset: nat, n: nat) returns (touched: bool)
      requires m.Valid() && |pages| == size && offset + n + 0xFFF < TWO64
      requires forall i :: 0 <= i < size ==> pages[i].backed || pages[i].reserved
      modifies this`pages, m, m.alloc, m.alloc.words
      ensures m.Valid() && m.tables == old(m.tables) && m.xlat == old(m.xlat)
      ensures Grown(old(pages), pages, old(m.lent), m.lent)
      ensures Handed(old(m.ram), m.ram, old(m.alloc.Free), m.alloc.Free, old(m.lent), m.lent)
      ensures !touched ==> pages == old(pages) && m.lent == old(m.lent)
      ensures CopyEnd(offset, n) > size ==> pages == old(pages) && m.lent == old(m.lent)
      ensures |m.alloc.Free| + size >= |old(m.alloc.Free)|
      ensures CopyEnd(offset, n) <= size && |old(m.alloc.Free)| >= size ==>
                forall i :: TouchFirst(offset) <= i < TouchFirst(offset) + TouchCount(n) ==> pages[i].backed
    {
      hide Machine.Valid, Handed;
      LentNotFree(m);
      var count := (n + 0xFFF) / 0x1000;
      var start := offset / 0x1000;
      if (offset + n + 0xFFF) / 0x1000 > size {
        HandNone(m.ram, m.alloc.Free, m.lent);
        return false;
      }
      hide Grown;
      if n > 0 { TouchCoverage(offset, n); }
      touched := TouchRange(m, start, start + count);
    }
  }

  lemma {:induction false} LentAboveZero(m: Machine)
    requires m.Valid()
    ensures forall f :: f in m.lent ==> FIRST_FRAME <= f < |m.ram|
  {
    hide FrameAllocator.Valid, TablesOk;
    assert forall f :: f in m.lent ==> f in m.pool;
  }

  lemma {:induction false} LentNotFree(m: Machine)
    requires m.Valid()
    ensures m.lent !! m.alloc.Free
  {}
}
