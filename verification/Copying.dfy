/**
 * Copies through the kernel's copy windows: arch_mm_mapping_load, arch_mm_mapping_store and
 * vmm_ctx_memcpy.
 */
module Copying {
  import opened Bits
  import opened FrameAllocation
  import opened PageTree
  import opened Machines

  const DST_WINDOW: nat := 0x7000_0000_0000
  const SRC_WINDOW: nat := 0x7800_0000_0000

  /** The pages of the windows, from the destination window to the end of the user half. */
  const WINDOW_PAGES: nat := 0x1_0000_0000

  /** A copy of n bytes at the offset reaches page i. */
  predicate Reaches(offset: nat, n: nat, i: nat) {
    n > 0 && i * 0x1000 < offset + n && offset < (i + 1) * 0x1000
  }

  /** The pages that the copy reaches lie in different frames. */
  ghost predicate Distinct(frames: seq<nat>, offset: nat, n: nat) {
    forall i, j :: 0 <= i < j < |frames| && Reaches(offset, n, i) && Reaches(offset, n, j) ==> frames[i] != frames[j]
  }

  /** The frames that the copy reaches. */
  ghost predicate Hit(frames: seq<nat>, offset: nat, n: nat, f: nat) {
    exists i :: 0 <= i < |frames| && Reaches(offset, n, i) && frames[i] == f
  }

  /** The byte at this place of the range falls on byte o of frame f. */
  predicate Lands(frames: seq<nat>, at: nat, f: nat, o: nat) {
    at / 0x1000 < |frames| && frames[at / 0x1000] == f && at % 0x1000 == o
  }

  /**
   * What byte o of frame f holds after data has been written, in order, at the offset of the range
   * backed by frames.
   */
  function ByteAfter(b: bv8, frames: seq<nat>, offset: nat, data: seq<bv8>, f: nat, o: nat): bv8 {
    if data == [] then b
    else
      var n := |data| - 1;
      if Lands(frames, offset + n, f, o) then data[n] else ByteAfter(b, frames, offset, data[..n], f, o)
  }

  /**
   * Memory after data has been written at the offset of the range backed by frames. Nothing is
   * said of the frames in free, which may be free or hold page tables.
   */
  ghost predicate Written(ram: seq<Page>, ram': seq<Page>, free: set<nat>, frames: seq<nat>, offset: nat,
                          data: seq<bv8>)
  {
    && |ram'| == |ram|
    && forall f, o :: 0 <= f < |ram| && f !in free && 0 <= o < 0x1000 ==>
         ram'[f][o] == ByteAfter(ram[f][o], frames, offset, data, f, o)
  }

  lemma {:induction false} WrittenAfter(ram0: seq<Page>, ram1: seq<Page>, ram2: seq<Page>, free: set<nat>,
                                        frames: seq<nat>, offset: nat, data: seq<bv8>)
    requires SameOutside(ram0, ram1, free) && Written(ram1, ram2, {}, frames, offset, data)
    ensures Written(ram0, ram2, free, frames, offset, data)
  {
    hide ByteAfter;
  }

  lemma {:induction false} ReachesByte(offset: nat, n: nat, k: nat)
    requires k < n
    ensures Reaches(offset, n, (offset + k) / 0x1000)
  {}

  /** A byte on which nothing falls stays. */
  lemma {:induction false} AfterMiss(b: bv8, frames: seq<nat>, offset: nat, data: seq<bv8>, f: nat, o: nat)
    requires forall at: nat :: offset <= at < offset + |data| ==> !Lands(frames, at, f, o)
    ensures ByteAfter(b, frames, offset, data, f, o) == b
  {
    hide Lands;
    if data != [] { AfterMiss(b, frames, offset, data[..|data| - 1], f, o); }
  }

  /** The last byte that falls on a place is the one found there. */
  lemma {:induction false} AfterHit(b: bv8, frames: seq<nat>, offset: nat, data: seq<bv8>, f: nat, o: nat, k: nat)
    requires k < |data| && Lands(frames, offset + k, f, o)
    requires forall at: nat :: offset + k < at < offset + |data| ==> !Lands(frames, at, f, o)
    ensures ByteAfter(b, frames, offset, data, f, o) == data[k]
  {
    hide Lands;
    if k < |data| - 1 { AfterHit(b, frames, offset, data[..|data| - 1], f, o, k); }
  }

  /** A frame that the copy does not reach stays as it was. */
  lemma {:induction false} WrittenElsewhere(ram: seq<Page>, ram': seq<Page>, free: set<nat>, frames: seq<nat>,
                                            offset: nat, data: seq<bv8>, f: nat)
    requires Written(ram, ram', free, frames, offset, data) && f < |ram| && f !in free
             && !Hit(frames, offset, |data|, f)
    ensures ram'[f] == ram[f]
  {
    hide ByteAfter;
    forall o | 0 <= o < 0x1000 ensures ram'[f][o] == ram[f][o] {
      forall at: nat | offset <= at < offset + |data|
        ensures !Lands(frames, at, f, o)
      {
        ReachesByte(offset, |data|, at - offset);
      }
      AfterMiss(ram[f][o], frames, offset, data, f, o);
    }
  }

  /** If the pages the copy reaches lie in different frames, every byte of data is found at its place. */
  lemma {:induction false} WrittenByte(ram: seq<Page>, ram': seq<Page>, free: set<nat>, frames: seq<nat>, offset: nat,
                                       data: seq<bv8>, k: nat)
    requires Written(ram, ram', free, frames, offset, data) && Distinct(frames, offset, |data|) && k < |data|
    requires (offset + k) / 0x1000 < |frames| && frames[(offset + k) / 0x1000] < |ram|
             && frames[(offset + k) / 0x1000] !in free
    ensures ram'[frames[(offset + k) / 0x1000]][(offset + k) % 0x1000] == data[k]
  {
    hide ByteAfter;
    var i, o := (offset + k) / 0x1000, (offset + k) % 0x1000;
    ReachesByte(offset, |data|, k);
    forall at: nat | offset + k < at < offset + |data|
      ensures !Lands(frames, at, frames[i], o)
    {
      ReachesByte(offset, |data|, at - offset);
    }
    AfterHit(ram[frames[i]][o], frames, offset, data, frames[i], o, k);
  }

  /** One more byte. */
  lemma {:induction false} WriteByte(ram: seq<Page>, cur: seq<Page>, next: seq<Page>, frames: seq<nat>, offset: nat,
                                     data: seq<bv8>, k: nat)
    requires k < |data| && (offset + k) / 0x1000 < |frames| && frames[(offset + k) / 0x1000] < |ram|
    requires Written(ram, cur, {}, frames, offset, data[..k])
    requires var f := frames[(offset + k) / 0x1000]; next == cur[f := cur[f][(offset + k) % 0x1000 := data[k]]]
    ensures Written(ram, next, {}, frames, offset, data[..k + 1])
  {
    var d := data[..k + 1];
    assert d[..k] == data[..k];
    forall f, o | 0 <= f < |ram| && 0 <= o < 0x1000
      ensures next[f][o] == ByteAfter(ram[f][o], frames, offset, d, f, o)
    {
      assert cur[f][o] == ByteAfter(ram[f][o], frames, offset, data[..k], f, o);
    }
  }

  lemma {:induction false} KernelThere(m: Machine)
    requires m.Valid()
    ensures m.kernelRoot in m.xlat
  {}

  /** The frame of a kernel page and the place in it, as the hardware finds them; a fault when nothing is mapped. */
  method Translate(m: Machine, va: nat) returns (ok: bool, frame: nat)
    requires m.Valid() && m.kernelRoot in m.xlat
    ensures ok <==> va / 0x1000 in m.xlat[m.kernelRoot]
    ensures ok ==> frame == FrameOf(m.xlat[m.kernelRoot][va / 0x1000])
  {
    hide FrameAllocator.Valid, FramesOk, GetEntry, Tree, Lookup, FrameOf;
    if va / 0x1000 >= USER_PAGES { return false, 0; }
    m.EntryIsFlat(m.kernelRoot, va);
    var entry := GetEntry(m.tables, m.kernelRoot, va);
    PresentIsOdd(entry);
    ok := Present(entry);
    frame := FrameOf(entry);
  }

  /** The frame is memory that holds bytes and no page table. */
  predicate Bytes(m: Machine, f: nat)
    reads m
  {
    f < |m.ram| && f !in m.tables
  }

  /** One byte written at a kernel address; a frame that holds a table is not written to as bytes. */
  method Poke(m: Machine, va: nat, b: bv8) returns (ok: bool)
    requires m.Valid() && m.kernelRoot in m.xlat
    requires va / 0x1000 in m.xlat[m.kernelRoot] ==> Bytes(m, FrameOf(m.xlat[m.kernelRoot][va / 0x1000]))
    modifies m`ram
    ensures m.Valid()
    ensures ok <==> va / 0x1000 in m.xlat[m.kernelRoot]
    ensures ok ==> var f := FrameOf(m.xlat[m.kernelRoot][va / 0x1000]);
                   m.ram == old(m.ram)[f := old(m.ram)[f][va % 0x1000 := b]]
  {
    hide FrameAllocator.Valid, FramesOk, TablesOk, FrameOf;
    var f;
    ok, f := Translate(m, va);
    if ok {
      m.ram := m.ram[f := m.ram[f][va % 0x1000 := b]];
    }
  }

  /** The frames an entry has room for. */
  const FRAME_LIMIT: nat := 0x8_0000_0000_0000

  /** The window's pages are mapped, to these frames where an entry can name them. */
  ghost predicate WindowHolds(x: map<nat, nat>, window: nat, frames: seq<nat>) {
    && window % 0x1000 == 0
    && (forall i :: 0 <= i < |frames| ==>
          window / 0x1000 + i in x && (frames[i] < FRAME_LIMIT ==> FrameOf(x[window / 0x1000 + i]) == frames[i]))
  }

  lemma {:induction false} RamLimit(m: Machine)
    requires m.Valid()
    ensures |m.ram| <= FRAME_LIMIT
  {}

  lemma {:induction false} WindowPage(window: nat, offset: nat)
    requires window % 0x1000 == 0
    ensures (window + offset) / 0x1000 == window / 0x1000 + offset / 0x1000
    ensures (window + offset) % 0x1000 == offset % 0x1000
  {
    ModUnique(window + offset, 0x1000, window / 0x1000 + offset / 0x1000, offset % 0x1000);
  }

  lemma {:induction false} WindowByte(x: map<nat, nat>, window: nat, frames: seq<nat>, offset: nat)
    requires WindowHolds(x, window, frames) && offset / 0x1000 < |frames| && frames[offset / 0x1000] < FRAME_LIMIT
    ensures (window + offset) / 0x1000 in x
    ensures FrameOf(x[(window + offset) / 0x1000]) == frames[offset / 0x1000]
    ensures (window + offset) % 0x1000 == offset % 0x1000
  {
    hide FrameOf;
    WindowPage(window, offset);
    var f := frames[offset / 0x1000];
  }

  lemma {:induction false} WindowBeyond(x: map<nat, nat>, window: nat, frames: seq<nat>, offset: nat)
    requires WindowHolds(x, window, frames) && offset / 0x1000 >= |frames|
    requires forall p :: window / 0x1000 + |frames| <= p ==> p !in x
    ensures (window + offset) / 0x1000 !in x
  {
    WindowPage(window, offset);
  }

  /** memcpy into a window; a byte that falls behind its pages faults. */
  method CopyIn(m: Machine, window: nat, ghost frames: seq<nat>, offset: nat, data: seq<bv8>) returns (ok: bool)
    requires m.Valid() && m.kernelRoot in m.xlat && WindowHolds(m.xlat[m.kernelRoot], window, frames)
    requires forall p :: window / 0x1000 + |frames| <= p ==> p !in m.xlat[m.kernelRoot]
    requires forall i :: 0 <= i < |frames| && Reaches(offset, |data|, i) ==> Bytes(m, frames[i])
    modifies m`ram
    ensures m.Valid()
    ensures ok <==> data == [] || offset + |data| <= |frames| * 0x1000
    ensures ok ==> Written(old(m.ram), m.ram, {}, frames, offset, data)
  {
    hide Machine.Valid, FrameOf, WindowHolds, Written;
    RamLimit(m);
    var k := 0;
    WrittenNone(m.ram, frames, offset);
    assert data[..0] == [];
    while k < |data|
      invariant k <= |data| && |m.ram| == |old(m.ram)| && m.Valid()
      invariant k > 0 ==> offset + k <= |frames| * 0x1000
      invariant Written(old(m.ram), m.ram, {}, frames, offset, data[..k])
    {
      var va := window + (offset + k);
      if (offset + k) / 0x1000 < |frames| {
        ReachesByte(offset, |data|, k);
        WindowByte(m.xlat[m.kernelRoot], window, frames, offset + k);
      } else {
        WindowBeyond(m.xlat[m.kernelRoot], window, frames, offset + k);
      }
      ghost var cur := m.ram;
      ok := Poke(m, va, data[k]);
      if !ok { return; }
      WriteByte(old(m.ram), cur, m.ram, frames, offset, data, k);
      k := k + 1;
    }
    assert data[..|data|] == data;
    ok := true;
  }

  lemma {:induction false} WrittenNone(ram: seq<Page>, frames: seq<nat>, offset: nat)
    ensures Written(ram, ram, {}, frames, offset, [])
  {}

  /** The bytes of a range backed by frames. */
  ghost predicate Reads(ram: seq<Page>, frames: seq<nat>, offset: nat, data: seq<bv8>) {
    forall k :: 0 <= k < |data| ==>
      var i := (offset + k) / 0x1000;
      i < |frames| && frames[i] < |ram| && data[k] == ram[frames[i]][(offset + k) % 0x1000]
  }

  /** memcpy out of a window. */
  method CopyOut(m: Machine, window: nat, ghost frames: seq<nat>, offset: nat, n: nat)
    returns (ok: bool, data: seq<bv8>)
    requires m.Valid() && m.kernelRoot in m.xlat && WindowHolds(m.xlat[m.kernelRoot], window, frames)
    requires forall p :: window / 0x1000 + |frames| <= p ==> p !in m.xlat[m.kernelRoot]
    requires forall i :: 0 <= i < |frames| && Reaches(offset, n, i) ==> Bytes(m, frames[i])
    ensures ok <==> n == 0 || offset + n <= |frames| * 0x1000
    ensures ok ==> |data| == n && Reads(m.ram, frames, offset, data)
  {
    hide Machine.Valid, FrameOf, WindowHolds;
    RamLimit(m);
    data := [];
    while |data| < n
      invariant |data| <= n && (data != [] ==> offset + |data| <= |frames| * 0x1000)
      invariant Reads(m.ram, frames, offset, data)
    {
      var k := |data|;
      if (offset + k) / 0x1000 < |frames| {
        ReachesByte(offset, n, k);
        WindowByte(m.xlat[m.kernelRoot], window, frames, offset + k);
      } else {
        WindowBeyond(m.xlat[m.kernelRoot], window, frames, offset + k);
      }
      var f;
      ok, f := Translate(m, window + (offset + k));
      if !ok { return; }
      data := data + [m.ram[f][(window + (offset + k)) % 0x1000]];
    }
    ok := true;
  }

  // ----- setting a window up and taking it down

  /** Pages from page on, mapped writable to the given physical addresses. */
  ghost function WindowMap(page: nat, ptrs: seq<nat>): map<nat, nat> {
    map p: nat | p in Range(page, |ptrs|) :: MakeEntry(Wrap64(ptrs[p - page]), FLAG_WRITE)
  }

  ghost function WithWindow(xlat: map<nat, map<nat, nat>>, root: nat, page: nat, ptrs: seq<nat>): (x: map<nat, map<nat,
                            nat>>)
    requires root in xlat
    ensures x.Keys == xlat.Keys
  {
    xlat[root := xlat[root] + WindowMap(page, ptrs)]
  }

  lemma {:induction false} WindowStart(xlat: map<nat, map<nat, nat>>, root: nat, page: nat)
    requires root in xlat
    ensures WithWindow(xlat, root, page, []) == xlat
  {
    assert xlat[root] + WindowMap(page, []) == xlat[root];
  }

  lemma {:induction false} WindowSnoc(page: nat, ptrs: seq<nat>, i: nat)
    requires i < |ptrs|
    ensures WindowMap(page, ptrs[..i + 1]) == WindowMap(page, ptrs[..i])
            + map[page + i := MakeEntry(Wrap64(ptrs[i]), FLAG_WRITE)]
  {
    hide MakeEntry, Wrap64, Range;
  }

  lemma {:induction false} WindowGrows(xlat: map<nat, map<nat, nat>>, root: nat, page: nat, ptrs: seq<nat>, i: nat)
    requires root in xlat && i < |ptrs|
    ensures Mapped(WithWindow(xlat, root, page, ptrs[..i]), root, page + i, MakeEntry(Wrap64(ptrs[i]), FLAG_WRITE))
         == WithWindow(xlat, root, page, ptrs[..i + 1])
  {
    hide MakeEntry, Wrap64, WindowMap;
    WindowSnoc(page, ptrs, i);
    AddTwice(xlat, root, WindowMap(page, ptrs[..i]), map[page + i := MakeEntry(Wrap64(ptrs[i]), FLAG_WRITE)]);
  }

  lemma {:induction false} WindowGone(xlat: map<nat, map<nat, nat>>, root: nat, page: nat, ptrs: seq<nat>)
    requires root in xlat && forall p :: p in Range(page, |ptrs|) ==> p !in xlat[root]
    ensures WithoutRun(WithWindow(xlat, root, page, ptrs), root, page, |ptrs|) == xlat
  {
    hide MakeEntry, Wrap64, Range;
    assert (xlat[root] + WindowMap(page, ptrs)) - Range(page, |ptrs|) == xlat[root];
  }

  /** The loop that maps the pages of a mapping into the window. */
  method MapWindow(m: Machine, window: nat, ptrs: seq<nat>) returns (ok: bool)
    requires m.Valid() && m.kernelRoot in m.xlat && window % 0x1000 == 0 && window / 0x1000 + |ptrs| <= USER_PAGES
    modifies m, m.alloc, m.alloc.words
    ensures |old(m.alloc.Free)| >= 3 * |ptrs| ==> ok
    ensures ok ==>
              && m.Valid() && m.lent == old(m.lent) && m.alloc.Free <= old(m.alloc.Free)
              && m.Spare() == old(m.Spare()) && SameOutside(old(m.ram), m.ram, m.Spare())
              && m.xlat == WithWindow(old(m.xlat), m.kernelRoot, window / 0x1000, ptrs)
              && |m.alloc.Free| + 3 * |ptrs| >= |old(m.alloc.Free)|
  {
    hide Machine.Valid, MakeEntry, Mapped, WithWindow, WithRun;
    var i, virt := 0, window;
    WindowStart(m.xlat, m.kernelRoot, window / 0x1000);
    while i < |ptrs|
      invariant i <= |ptrs| && virt == window + i * 0x1000
      invariant m.Valid() && m.lent == old(m.lent) && m.alloc.Free <= old(m.alloc.Free)
      invariant m.Spare() == old(m.Spare()) && SameOutside(old(m.ram), m.ram, m.Spare())
      invariant m.xlat == WithWindow(old(m.xlat), m.kernelRoot, window / 0x1000, ptrs[..i])
      invariant |m.alloc.Free| + 3 * i >= |old(m.alloc.Free)|
    {
      ok := m.MapPages(m.kernelRoot, virt, ptrs[i], 1, FLAG_WRITE);
      if !ok { return; }
      WindowGrows(old(m.xlat), m.kernelRoot, window / 0x1000, ptrs, i);
      i := i + 1;
      virt := virt + 0x1000;
    }
    assert ptrs[..|ptrs|] == ptrs;
    ok := true;
  }

  /** The loop that unmaps the window again. */
  method UnmapWindow(m: Machine, window: nat, n: nat)
    requires m.Valid() && m.kernelRoot in m.xlat && window % 0x1000 == 0 && window / 0x1000 + n <= USER_PAGES
    requires forall p :: window / 0x1000 <= p < window / 0x1000 + n ==> p in m.xlat[m.kernelRoot]
    modifies m`tables, m`xlat
    ensures m.Valid() && m.Spare() == old(m.Spare())
    ensures m.xlat == WithoutRun(old(m.xlat), m.kernelRoot, window / 0x1000, n)
  {
    hide Machine.Valid, WithoutRun, Unmapped, TableAt;
    var i, virt := 0, window;
    HoleGrows(m.xlat, m.kernelRoot, window / 0x1000, 0);
    while i < n
      invariant i <= n && virt == window + i * 0x1000
      invariant m.Valid() && m.Spare() == old(m.Spare())
                && m.xlat == WithoutRun(old(m.xlat), m.kernelRoot, window / 0x1000, i)
    {
      StillMapped(old(m.xlat), m.kernelRoot, window / 0x1000, i);
      ghost var before := m.xlat;
      var ret;
      ghost var done;
      ret, done := m.UnmapPages(m.kernelRoot, virt, 1);
      HoleGrows(old(m.xlat), m.kernelRoot, window / 0x1000, i);
      HoleGrows(before, m.kernelRoot, virt / 0x1000, 0);
      i := i + 1;
      virt := virt + 0x1000;
    }
  }

  // ----- arch_mm_mapping_load and arch_mm_mapping_store

  /** Nothing is mapped in the windows. */
  ghost predicate WindowsClear(m: Machine)
    reads m
  {
    m.kernelRoot in m.xlat && forall p :: p in m.xlat[m.kernelRoot] ==> p < DST_WINDOW / 0x1000
  }

  ghost function Frames(ptrs: seq<nat>): (f: seq<nat>)
    ensures |f| == |ptrs| && forall i :: 0 <= i < |ptrs| ==> f[i] == ptrs[i] / 0x1000
  {
    seq(|ptrs|, i requires 0 <= i < |ptrs| => ptrs[i] / 0x1000)
  }

  /** What is or-ed into the low bits of an address does not change the frame, aligned or not. */
  lemma {:induction false} PtrEntry(ptr: nat, perms: nat)
    requires ptr / 0x1000 < FRAME_LIMIT && perms < 0x1000
    ensures FrameOf(MakeEntry(Wrap64(ptr), perms)) == ptr / 0x1000
  {
    hide MakeEntry, FrameOf;
    LowBits(ptr / 0x1000, ptr % 0x1000, perms);
    assert ptr < TWO64;
  }

  lemma {:induction false} WindowEntries(page: nat, ptrs: seq<nat>)
    ensures forall p: nat :: p in WindowMap(page, ptrs) <==> page <= p < page + |ptrs|
    ensures forall i: nat ::
            i < |ptrs| ==>
            page + i in WindowMap(page, ptrs)
            && WindowMap(page, ptrs)[page + i] == MakeEntry(Wrap64(ptrs[i]), FLAG_WRITE)
  {
    hide MakeEntry, Wrap64;
  }

  lemma {:induction false} WindowSet(xlat: map<nat, map<nat, nat>>, root: nat, window: nat, ptrs: seq<nat>)
    requires root in xlat && window % 0x1000 == 0
    requires forall p :: p in xlat[root] ==> p < window / 0x1000
    ensures WindowHolds(WithWindow(xlat, root, window / 0x1000, ptrs)[root], window, Frames(ptrs))
    ensures forall p :: window / 0x1000 + |ptrs| <= p ==> p !in WithWindow(xlat, root, window / 0x1000, ptrs)[root]
    ensures forall p ::
            window / 0x1000 <= p < window / 0x1000 + |ptrs| ==> p in WithWindow(xlat, root, window / 0x1000, ptrs)[root]
  {
    hide MakeEntry, FrameOf, WindowMap, Wrap64;
    var page := window / 0x1000;
    var x := WithWindow(xlat, root, page, ptrs)[root];
    WindowEntries(page, ptrs);
    forall i: nat | i < |ptrs|
      ensures page + i in x && (Frames(ptrs)[i] < FRAME_LIMIT ==> FrameOf(x[page + i]) == Frames(ptrs)[i])
    {
      if Frames(ptrs)[i] < FRAME_LIMIT { PtrEntry(ptrs[i], FLAG_WRITE); }
    }
  }

  /** The frame is memory, and neither free nor a page table. */
  ghost predicate Plain(m: Machine, f: nat)
    reads m, m.alloc
  {
    f < |m.ram| && f !in m.Spare()
  }

  lemma {:induction false} PlainBytes(m: Machine)
    ensures forall f: nat :: Plain(m, f) ==> Bytes(m, f)
  {}

  /**
   * arch_mm_mapping_load: the bytes land in the frames of the pages they fall into, in no other
   * frame, and the window is empty again. ok is false when a table allocation failed or a byte
   * fell behind the mapping's last page.
   */
  method MappingLoad(m: Machine, ptrs: seq<nat>, offset: nat, data: seq<bv8>) returns (ok: bool)
    requires m.Valid() && WindowsClear(m) && |ptrs| <= WINDOW_PAGES
    requires forall i :: 0 <= i < |ptrs| && Reaches(offset, |data|, i) ==> Plain(m, Frames(ptrs)[i])
    modifies m, m.alloc, m.alloc.words
    ensures |old(m.alloc.Free)| >= 3 * |ptrs| && (data == [] || offset + |data| <= |ptrs| * 0x1000) ==> ok
    ensures ok ==>
              && (data == [] || offset + |data| <= |ptrs| * 0x1000)
              && m.Valid() && m.lent == old(m.lent) && m.alloc.Free <= old(m.alloc.Free)
              && m.xlat == old(m.xlat)
              && |m.alloc.Free| + 3 * |ptrs| >= |old(m.alloc.Free)|
              && m.Spare() == old(m.Spare()) && Written(old(m.ram), m.ram, m.Spare(), Frames(ptrs), offset, data)
  {
    hide Machine.Valid, WithWindow, WithoutRun, WindowHolds, Written, Machine.Spare;
    ghost var page := DST_WINDOW / 0x1000;
    ok := MapWindow(m, DST_WINDOW, ptrs);
    if !ok { return; }
    WindowSet(old(m.xlat), m.kernelRoot, DST_WINDOW, ptrs);
    PlainBytes(m);
    ghost var ram1 := m.ram;
    ok := CopyIn(m, DST_WINDOW, Frames(ptrs), offset, data);
    if !ok { return; }
    WrittenAfter(old(m.ram), ram1, m.ram, m.Spare(), Frames(ptrs), offset, data);
    UnmapWindow(m, DST_WINDOW, |ptrs|);
    WindowGone(old(m.xlat), m.kernelRoot, page, ptrs);
  }

  /** arch_mm_mapping_store: reads the bytes of the pages and leaves memory and the window as they were. */
  method MappingStore(m: Machine, ptrs: seq<nat>, offset: nat, n: nat) returns (ok: bool, data: seq<bv8>)
    requires m.Valid() && WindowsClear(m) && |ptrs| <= WINDOW_PAGES
    requires forall i :: 0 <= i < |ptrs| && Reaches(offset, n, i) ==> Plain(m, Frames(ptrs)[i])
    modifies m, m.alloc, m.alloc.words
    ensures |old(m.alloc.Free)| >= 3 * |ptrs| && (n == 0 || offset + n <= |ptrs| * 0x1000) ==> ok
    ensures ok ==>
              && (n == 0 || offset + n <= |ptrs| * 0x1000)
              && m.Valid() && m.lent == old(m.lent) && m.alloc.Free <= old(m.alloc.Free)
              && m.xlat == old(m.xlat)
              && |m.alloc.Free| + 3 * |ptrs| >= |old(m.alloc.Free)|
              && m.Spare() == old(m.Spare()) && SameOutside(old(m.ram), m.ram, m.Spare())
              && |data| == n && Reads(m.ram, Frames(ptrs), offset, data)
  {
    hide Machine.Valid, WithWindow, WithoutRun, WindowHolds, Reads, Machine.Spare;
    ghost var page := DST_WINDOW / 0x1000;
    data := [];
    ok := MapWindow(m, DST_WINDOW, ptrs);
    if !ok { return; }
    WindowSet(old(m.xlat), m.kernelRoot, DST_WINDOW, ptrs);
    PlainBytes(m);
    ok, data := CopyOut(m, DST_WINDOW, Frames(ptrs), offset, n);
    if !ok { return; }
    UnmapWindow(m, DST_WINDOW, |ptrs|);
    WindowGone(old(m.xlat), m.kernelRoot, page, ptrs);
  }

  // ----- vmm_ctx_memcpy

  /** The physical addresses behind n pages of a context; 0 for a page that is not mapped. */
  ghost function CtxPtrs(x: map<nat, nat>, page: nat, n: nat): (ptrs: seq<nat>)
    ensures |ptrs| == n && forall i :: 0 <= i < n ==> ptrs[i] == AddrOf(Flat(x, page + i))
  {
    if n == 0 then [] else CtxPtrs(x, page, n - 1) + [AddrOf(Flat(x, page + n - 1))]
  }

  /** Pages of a context that the copy may name: none of the kernel's window pages. */
  ghost predicate OutsideWindows(m: Machine, ctx: nat, page: nat, n: nat)
    reads m
  {
    ctx in m.xlat && page + n <= if ctx == m.kernelRoot then DST_WINDOW / 0x1000 else USER_PAGES
  }

  /** Both windows set up as far as page i. */
  ghost function BothWindows(xlat: map<nat, map<nat, nat>>, root: nat, dptrs: seq<nat>, sptrs: seq<nat>): (x: map<nat,
                             map<nat, nat>>)
    requires root in xlat
    ensures x.Keys == xlat.Keys
  {
    WithWindow(WithWindow(xlat, root, DST_WINDOW / 0x1000, dptrs), root, SRC_WINDOW / 0x1000, sptrs)
  }

  lemma {:induction false} MappedCommutes(xlat: map<nat, map<nat, nat>>, root: nat, p: nat, e: nat, page: nat,
                                          ptrs: seq<nat>)
    requires root in xlat && p !in Range(page, |ptrs|)
    ensures Mapped(WithWindow(xlat, root, page, ptrs), root, p, e)
            == WithWindow(Mapped(xlat, root, p, e), root, page, ptrs)
  {
    hide MakeEntry, Wrap64, Range;
    var a := WindowMap(page, ptrs);
    assert p !in a;
    MapsCommute(xlat[root], a, map[p := e]);
  }

  lemma {:induction false} MapsCommute(x: map<nat, nat>, a: map<nat, nat>, b: map<nat, nat>)
    requires a.Keys !! b.Keys
    ensures (x + a) + b == (x + b) + a
  {}

  lemma {:induction false} BothGrow(xlat: map<nat, map<nat, nat>>, root: nat, dptrs: seq<nat>, sptrs: seq<nat>, i: nat)
    requires root in xlat && i < |dptrs| == |sptrs| <= 0x8000_0000
    ensures BothWindows(xlat, root, dptrs[..i + 1], sptrs[..i + 1])
         == Mapped(Mapped(BothWindows(xlat, root, dptrs[..i], sptrs[..i]),
                          root, DST_WINDOW / 0x1000 + i, MakeEntry(Wrap64(dptrs[i]), FLAG_WRITE)),
                   root, SRC_WINDOW / 0x1000 + i, MakeEntry(Wrap64(sptrs[i]), FLAG_WRITE))
  {
    hide MakeEntry, Wrap64, Range, WithWindow, Mapped, WindowMap;
    var d, s := DST_WINDOW / 0x1000, SRC_WINDOW / 0x1000;
    var x := WithWindow(xlat, root, d, dptrs[..i]);
    var e := MakeEntry(Wrap64(dptrs[i]), FLAG_WRITE);
    MappedCommutes(x, root, d + i, e, s, sptrs[..i]);
    WindowGrows(xlat, root, d, dptrs, i);
    WindowGrows(WithWindow(xlat, root, d, dptrs[..i + 1]), root, s, sptrs, i);
  }

  /** What the windows do to a page of a context outside them. */
  lemma {:induction false} BothElsewhere(xlat: map<nat, map<nat, nat>>, root: nat, dptrs: seq<nat>, sptrs: seq<nat>,
                                         ctx: nat, p: nat)
    requires root in xlat && ctx in xlat && (ctx == root ==> p < DST_WINDOW / 0x1000)
    ensures Flat(BothWindows(xlat, root, dptrs, sptrs)[ctx], p) == Flat(xlat[ctx], p)
  {
    hide MakeEntry, Wrap64, Range;
  }

  /** One turn of the loop that sets the windows up. */
  method MapPair(m: Machine, dstCtx: nat, d: nat, dv: nat, srcCtx: nat, s: nat, sv: nat) returns (ok: bool)
    requires m.Valid() && m.kernelRoot in m.xlat && dstCtx in m.xlat && srcCtx in m.xlat
    requires d / 0x1000 < USER_PAGES && s / 0x1000 < USER_PAGES && dv / 0x1000 < USER_PAGES && sv / 0x1000 < USER_PAGES
    modifies m, m.alloc, m.alloc.words
    ensures |old(m.alloc.Free)| >= 6 ==> ok
    ensures ok ==>
              && m.Valid() && m.lent == old(m.lent) && m.alloc.Free <= old(m.alloc.Free)
              && m.Spare() == old(m.Spare()) && SameOutside(old(m.ram), m.ram, m.Spare())
              && |m.alloc.Free| + 6 >= |old(m.alloc.Free)|
              && m.xlat == Mapped(Mapped(old(m.xlat), m.kernelRoot, dv / 0x1000,
                                         MakeEntry(Wrap64(AddrOf(Flat(old(m.xlat)[dstCtx], d / 0x1000))), FLAG_WRITE)),
                                  m.kernelRoot, sv / 0x1000,
                                  MakeEntry(Wrap64(AddrOf(Flat(old(m.xlat)[srcCtx], s / 0x1000))), FLAG_WRITE))
  {
    hide Machine.Valid, MakeEntry, Mapped, WithRun, AddrOf, Flat, GetEntry;
    m.EntryIsFlat(dstCtx, d);
    var dptr := AddrOf(GetEntry(m.tables, dstCtx, d));
    m.EntryIsFlat(srcCtx, s);
    var sptr := AddrOf(GetEntry(m.tables, srcCtx, s));
    ok := m.MapPages(m.kernelRoot, dv, dptr, 1, FLAG_WRITE);
    if !ok { return; }
    ok := m.MapPages(m.kernelRoot, sv, sptr, 1, FLAG_WRITE);
  }

  /** The loop that maps the pages of both contexts into the windows. */
  method MapBoth(m: Machine, dstCtx: nat, dst: nat, srcCtx: nat, src: nat, n: nat) returns (ok: bool)
    requires m.Valid() && m.kernelRoot in m.xlat && n <= 0x8000_0000 && dst % 0x1000 == src % 0x1000 == 0
    requires OutsideWindows(m, dstCtx, dst / 0x1000, n) && OutsideWindows(m, srcCtx, src / 0x1000, n)
    modifies m, m.alloc, m.alloc.words
    ensures |old(m.alloc.Free)| >= 6 * n ==> ok
    ensures ok ==>
              && m.Valid() && m.lent == old(m.lent) && m.alloc.Free <= old(m.alloc.Free)
              && m.Spare() == old(m.Spare()) && SameOutside(old(m.ram), m.ram, m.Spare())
              && m.xlat == BothWindows(old(m.xlat), m.kernelRoot, CtxPtrs(old(m.xlat)[dstCtx], dst / 0x1000, n),
                                       CtxPtrs(old(m.xlat)[srcCtx], src / 0x1000, n))
  {
    hide Machine.Valid, MakeEntry, Mapped, WithRun, BothWindows, AddrOf, Flat, GetEntry, SameOutside, Machine.Spare;
    RamSame(m.ram, m.Spare());
    ghost var dptrs := CtxPtrs(m.xlat[dstCtx], dst / 0x1000, n);
    ghost var sptrs := CtxPtrs(m.xlat[srcCtx], src / 0x1000, n);
    BothStart(m.xlat, m.kernelRoot);
    var i, d, s, dv, sv := 0, dst, src, DST_WINDOW, SRC_WINDOW;
    while i < n
      invariant i <= n && d == dst + i * 0x1000 && s == src + i * 0x1000
      invariant dv == DST_WINDOW + i * 0x1000 && sv == SRC_WINDOW + i * 0x1000
      invariant m.Valid() && m.lent == old(m.lent) && m.alloc.Free <= old(m.alloc.Free)
      invariant m.Spare() == old(m.Spare()) && SameOutside(old(m.ram), m.ram, m.Spare())
      invariant m.xlat == BothWindows(old(m.xlat), m.kernelRoot, dptrs[..i], sptrs[..i])
      invariant |m.alloc.Free| + 6 * i >= |old(m.alloc.Free)|
    {
      BothElsewhere(old(m.xlat), m.kernelRoot, dptrs[..i], sptrs[..i], dstCtx, d / 0x1000);
      BothElsewhere(old(m.xlat), m.kernelRoot, dptrs[..i], sptrs[..i], srcCtx, s / 0x1000);
      ghost var ram1 := m.ram;
      ok := MapPair(m, dstCtx, d, dv, srcCtx, s, sv);
      if !ok { return; }
      OutsideTwice(old(m.ram), ram1, m.ram, m.Spare(), m.Spare());
      BothGrow(old(m.xlat), m.kernelRoot, dptrs, sptrs, i);
      i, d, s, dv, sv := i + 1, d + 0x1000, s + 0x1000, dv + 0x1000, sv + 0x1000;
    }
    assert dptrs[..n] == dptrs && sptrs[..n] == sptrs;
    ok := true;
  }

  lemma {:induction false} BothStart(xlat: map<nat, map<nat, nat>>, root: nat)
    requires root in xlat
    ensures BothWindows(xlat, root, [], []) == xlat
  {
    hide WithWindow;
    WindowStart(xlat, root, DST_WINDOW / 0x1000);
    WindowStart(xlat, root, SRC_WINDOW / 0x1000);
  }

  ghost function BothGone(xlat: map<nat, map<nat, nat>>, root: nat, n: nat): (x: map<nat, map<nat, nat>>)
    requires root in xlat
    ensures x.Keys == xlat.Keys
  {
    WithoutRun(WithoutRun(xlat, root, DST_WINDOW / 0x1000, n), root, SRC_WINDOW / 0x1000, n)
  }

  lemma {:induction false} BothShrink(xlat: map<nat, map<nat, nat>>, root: nat, i: nat)
    requires root in xlat && i < 0x8000_0000
    ensures BothGone(xlat, root, 0) == xlat
    ensures Unmapped(Unmapped(BothGone(xlat, root, i), root, DST_WINDOW / 0x1000 + i), root, SRC_WINDOW / 0x1000 + i)
         == BothGone(xlat, root, i + 1)
  {
    hide WithoutRun, Unmapped, Range;
    var d, s := DST_WINDOW / 0x1000, SRC_WINDOW / 0x1000;
    HoleGrows(xlat, root, d, i);
    HoleGrows(WithoutRun(xlat, root, d, 0), root, s, 0);
    HoleGrows(WithoutRun(xlat, root, d, i + 1), root, s, i);
    UnmappedCommutes(WithoutRun(xlat, root, d, i), root, d + i, s, i);
  }

  lemma {:induction false} UnmappedCommutes(xlat: map<nat, map<nat, nat>>, root: nat, p: nat, page: nat, n: nat)
    requires root in xlat
    ensures Unmapped(WithoutRun(xlat, root, page, n), root, p) == WithoutRun(Unmapped(xlat, root, p), root, page, n)
  {
    hide Range;
    assert (xlat[root] - Range(page, n)) - {p} == (xlat[root] - {p}) - Range(page, n);
  }

  lemma {:induction false} BothStill(xlat: map<nat, map<nat, nat>>, root: nat, i: nat)
    requires root in xlat && i < 0x8000_0000
    ensures DST_WINDOW / 0x1000 + i in xlat[root] ==> DST_WINDOW / 0x1000 + i in BothGone(xlat, root, i)[root]
    ensures SRC_WINDOW / 0x1000 + i in xlat[root] ==>
              SRC_WINDOW / 0x1000 + i in Unmapped(BothGone(xlat, root, i), root, DST_WINDOW / 0x1000 + i)[root]
  {
    hide Range;
  }

  /** The loop that takes both windows down. */
  method UnmapBoth(m: Machine, n: nat)
    requires m.Valid() && m.kernelRoot in m.xlat && n <= 0x8000_0000
    requires forall i: nat :: i < n ==> InBoth(m.xlat[m.kernelRoot], i)
    modifies m`tables, m`xlat
    ensures m.Valid() && m.Spare() == old(m.Spare()) && m.xlat == BothGone(old(m.xlat), m.kernelRoot, n)
  {
    hide Machine.Valid, WithoutRun, Unmapped, TableAt, BothGone, Range;
    var i, dv, sv := 0, DST_WINDOW, SRC_WINDOW;
    BothShrink(m.xlat, m.kernelRoot, 0);
    while i < n
      invariant i <= n && dv == DST_WINDOW + i * 0x1000 && sv == SRC_WINDOW + i * 0x1000
      invariant m.Valid() && m.Spare() == old(m.Spare()) && m.xlat == BothGone(old(m.xlat), m.kernelRoot, i)
    {
      assert InBoth(old(m.xlat)[m.kernelRoot], i);
      BothStill(old(m.xlat), m.kernelRoot, i);
      BothShrink(old(m.xlat), m.kernelRoot, i);
      UnmapOne(m, m.kernelRoot, dv);
      UnmapOne(m, m.kernelRoot, sv);
      i, dv, sv := i + 1, dv + 0x1000, sv + 0x1000;
    }
  }

  ghost predicate InBoth(x: map<nat, nat>, i: nat) {
    DST_WINDOW / 0x1000 + i in x && SRC_WINDOW / 0x1000 + i in x
  }

  /** vmm_unmap_pages of one page of a context that is mapped. */
  method UnmapOne(m: Machine, root: nat, virt: nat)
    requires m.Valid() && root in m.xlat && virt / 0x1000 < USER_PAGES && virt / 0x1000 in m.xlat[root]
    modifies m`tables, m`xlat
    ensures m.Valid() && m.Spare() == old(m.Spare()) && m.xlat == Unmapped(old(m.xlat), root, virt / 0x1000)
  {
    hide Machine.Valid, WithoutRun, Unmapped, TableAt;
    ghost var done;
    var ret;
    HoleGrows(m.xlat, root, virt / 0x1000, 0);
    ret, done := m.UnmapPages(root, virt, 1);
  }

  /** memcpy from the source window to the destination window, a byte at a time. */
  method CopyAcross(m: Machine, ghost dframes: seq<nat>, doff: nat, ghost sframes: seq<nat>, soff: nat, size: nat)
    returns (ghost data: seq<bv8>)
    requires m.Valid() && m.kernelRoot in m.xlat
    requires WindowHolds(m.xlat[m.kernelRoot], DST_WINDOW, dframes) && doff + size <= |dframes| * 0x1000
    requires WindowHolds(m.xlat[m.kernelRoot], SRC_WINDOW, sframes) && soff + size <= |sframes| * 0x1000
    requires forall i :: 0 <= i < |dframes| && Reaches(doff, size, i) ==> Bytes(m, dframes[i])
    requires forall i ::
             0 <= i < |sframes| && Reaches(soff, size, i) ==>
             Bytes(m, sframes[i]) && !Hit(dframes, doff, size, sframes[i])
    modifies m`ram
    ensures m.Valid()
    ensures |data| == size && Reads(old(m.ram), sframes, soff, data)
    ensures Written(old(m.ram), m.ram, {}, dframes, doff, data)
  {
    hide Machine.Valid, FrameOf, WindowHolds, Hit, Written;
    RamLimit(m);
    data := BytesOf(m.ram, sframes, soff, size);
    var k := 0;
    WrittenNone(m.ram, dframes, doff);
    assert data[..0] == [];
    while k < size
      invariant k <= size && |m.ram| == |old(m.ram)| && m.Valid()
      invariant Written(old(m.ram), m.ram, {}, dframes, doff, data[..k])
    {
      ReachesByte(soff, size, k);
      ReachesByte(doff, size, k);
      WindowByte(m.xlat[m.kernelRoot], SRC_WINDOW, sframes, soff + k);
      WindowByte(m.xlat[m.kernelRoot], DST_WINDOW, dframes, doff + k);
      var okS, f := Translate(m, SRC_WINDOW + (soff + k));
      HitLess(dframes, doff, k, size, f);
      WrittenElsewhere(old(m.ram), m.ram, {}, dframes, doff, data[..k], f);
      var b := m.ram[f][(SRC_WINDOW + (soff + k)) % 0x1000];
      assert b == data[k];
      ghost var cur := m.ram;
      var okD := Poke(m, DST_WINDOW + (doff + k), b);
      WriteByte(old(m.ram), cur, m.ram, dframes, doff, data, k);
      k := k + 1;
    }
    assert data[..size] == data;
  }

  lemma {:induction false} HitLess(frames: seq<nat>, offset: nat, k: nat, n: nat, f: nat)
    requires k <= n && !Hit(frames, offset, n, f)
    ensures !Hit(frames, offset, k, f)
  {
    assert forall i: nat :: Reaches(offset, k, i) ==> Reaches(offset, n, i);
  }

  ghost function BytesOf(ram: seq<Page>, frames: seq<nat>, offset: nat, n: nat): (data: seq<bv8>)
    requires offset + n <= |frames| * 0x1000
    requires forall i :: 0 <= i < |frames| && Reaches(offset, n, i) ==> frames[i] < |ram|
    ensures |data| == n && Reads(ram, frames, offset, data)
  {
    if n == 0 then []
    else
      ReachesByte(offset, n, n - 1);
      assert forall i: nat :: Reaches(offset, n - 1, i) ==> Reaches(offset, n, i);
      BytesOf(ram, frames, offset, n - 1) + [ram[frames[(offset + n - 1) / 0x1000]][(offset + n - 1) % 0x1000]]
  }

  /** Everything the copy needs of the frames it reaches. */
  ghost predicate Copyable(m: Machine, dframes: seq<nat>, doff: nat, sframes: seq<nat>, soff: nat, size: nat)
    reads m, m.alloc
  {
    && (forall i :: 0 <= i < |dframes| && Reaches(doff, size, i) ==> Plain(m, dframes[i]))
    && (forall i ::
       0 <= i < |sframes| && Reaches(soff, size, i) ==> Plain(m, sframes[i]) && !Hit(dframes, doff, size, sframes[i]))
  }

  /** The pages vmm_ctx_memcpy maps: enough for the larger of the two offsets. */
  function CopyPages(dst: nat, src: nat, size: nat): (n: nat)
    ensures dst % 0x1000 + size <= n * 0x1000 && src % 0x1000 + size <= n * 0x1000
  {
    var off := if dst % 0x1000 > src % 0x1000 then dst % 0x1000 else src % 0x1000;
    (size + off + 0xFFF) / 0x1000
  }

  lemma {:induction false} BothSet(xlat: map<nat, map<nat, nat>>, root: nat, dptrs: seq<nat>, sptrs: seq<nat>)
    requires root in xlat && |dptrs| == |sptrs| <= 0x8000_0000
    requires forall p :: p in xlat[root] ==> p < DST_WINDOW / 0x1000
    ensures var x := BothWindows(xlat, root, dptrs, sptrs);
            && WindowHolds(x[root], DST_WINDOW, Frames(dptrs)) && WindowHolds(x[root], SRC_WINDOW, Frames(sptrs))
            && (forall i: nat :: i < |dptrs| ==> InBoth(x[root], i))
            && BothGone(x, root, |dptrs|) == xlat
  {
    hide WithWindow, WindowHolds, Range, BothGone;
    var d, s := DST_WINDOW / 0x1000, SRC_WINDOW / 0x1000;
    var y := WithWindow(xlat, root, d, dptrs);
    WindowSet(xlat, root, DST_WINDOW, dptrs);
    WindowSet(y, root, SRC_WINDOW, sptrs);
    WindowKept(y, root, DST_WINDOW, Frames(dptrs), SRC_WINDOW, sptrs);
    BothBack(xlat, root, dptrs, sptrs);
  }

  /** Setting the second window up leaves the first as it is. */
  lemma {:induction false} WindowKept(xlat: map<nat, map<nat, nat>>, root: nat, window: nat, frames: seq<nat>,
                                      other: nat, ptrs: seq<nat>)
    requires root in xlat && WindowHolds(xlat[root], window, frames)
    requires window / 0x1000 + |frames| <= other / 0x1000
    ensures var x := WithWindow(xlat, root, other / 0x1000, ptrs)[root];
            && WindowHolds(x, window, frames)
            && forall p :: window / 0x1000 <= p < window / 0x1000 + |frames| ==> p in x
  {
    hide MakeEntry, FrameOf, Range, Wrap64;
    var x := WithWindow(xlat, root, other / 0x1000, ptrs)[root];
    forall p | window / 0x1000 <= p < window / 0x1000 + |frames| ensures p in x && x[p] == xlat[root][p] {
      assert p == window / 0x1000 + (p - window / 0x1000);
      var f := frames[p - window / 0x1000];
    }
  }

  lemma {:induction false} BothBack(xlat: map<nat, map<nat, nat>>, root: nat, dptrs: seq<nat>, sptrs: seq<nat>)
    requires root in xlat && |dptrs| == |sptrs|
    requires forall p :: p in xlat[root] ==> p < DST_WINDOW / 0x1000
    ensures BothGone(BothWindows(xlat, root, dptrs, sptrs), root, |dptrs|) == xlat
  {
    hide MakeEntry, Wrap64, Range;
    var d, s, n := Range(DST_WINDOW / 0x1000, |dptrs|), Range(SRC_WINDOW / 0x1000, |dptrs|), |dptrs|;
    var a, b := WindowMap(DST_WINDOW / 0x1000, dptrs), WindowMap(SRC_WINDOW / 0x1000, sptrs);
    assert (((xlat[root] + a) + b) - d) - s == xlat[root];
  }

  /**
   * vmm_ctx_memcpy: the bytes read through the source context's translation are written through
   * the destination context's translation, byte for byte, for every pair of page offsets; both
   * windows are empty again and no flat map has changed.
   */
  method CtxMemcpy(m: Machine, dstCtx: nat, dst: nat, srcCtx: nat, src: nat, size: nat)
    returns (ok: bool, ghost data: seq<bv8>)
    requires m.Valid() && WindowsClear(m) && CopyPages(dst, src, size) <= 0x8000_0000
    requires OutsideWindows(m, dstCtx, dst / 0x1000, CopyPages(dst, src, size))
    requires OutsideWindows(m, srcCtx, src / 0x1000, CopyPages(dst, src, size))
    requires Copyable(m, Frames(CtxPtrs(m.xlat[dstCtx], dst / 0x1000, CopyPages(dst, src, size))), dst % 0x1000,
                      Frames(CtxPtrs(m.xlat[srcCtx], src / 0x1000, CopyPages(dst, src, size))), src % 0x1000, size)
    modifies m, m.alloc, m.alloc.words
    ensures |old(m.alloc.Free)| >= 6 * CopyPages(dst, src, size) ==> ok
    ensures ok ==>
              var n := CopyPages(dst, src, size);
              var dframes, sframes := Frames(CtxPtrs(old(m.xlat)[dstCtx], dst / 0x1000, n)),
                  Frames(CtxPtrs(old(m.xlat)[srcCtx], src / 0x1000, n));
              && m.Valid() && m.lent == old(m.lent) && m.xlat == old(m.xlat)
              && |data| == size && Reads(old(m.ram), sframes, src % 0x1000, data)
              && m.Spare() == old(m.Spare()) && Written(old(m.ram), m.ram, m.Spare(), dframes, dst % 0x1000, data)
  {
    hide Machine.Valid, Frames, CtxPtrs, BothWindows, BothGone, WindowHolds, Reads, Written, Hit, Machine.Spare;
    var n := CopyPages(dst, src, size);
    ghost var dptrs, sptrs := CtxPtrs(m.xlat[dstCtx], dst / 0x1000, n), CtxPtrs(m.xlat[srcCtx], src / 0x1000, n);
    BothSet(m.xlat, m.kernelRoot, dptrs, sptrs);
    data := [];
    ok := MapBoth(m, dstCtx, dst - dst % 0x1000, srcCtx, src - src % 0x1000, n);
    if !ok { return; }
    ghost var ram1 := m.ram;
    PlainBytes(m);
    data := CopyAcross(m, Frames(dptrs), dst % 0x1000, Frames(sptrs), src % 0x1000, size);
    WrittenAfter(old(m.ram), ram1, m.ram, m.Spare(), Frames(dptrs), dst % 0x1000, data);
    ReadsBefore(old(m.ram), ram1, m.Spare(), Frames(sptrs), src % 0x1000, data);
    UnmapBoth(m, n);
  }

  lemma {:induction false} ReadsBefore(ram0: seq<Page>, ram1: seq<Page>, free: set<nat>, frames: seq<nat>, offset: nat,
                                       data: seq<bv8>)
    requires SameOutside(ram0, ram1, free) && Reads(ram1, frames, offset, data)
    requires forall i :: 0 <= i < |frames| && Reaches(offset, |data|, i) ==> frames[i] !in free
    ensures Reads(ram0, frames, offset, data)
  {
    forall k | 0 <= k < |data|
      ensures var i := (offset + k) / 0x1000;
              i < |frames| && frames[i] < |ram0| && data[k] == ram0[frames[i]][(offset + k) % 0x1000]
    {
      var b := data[k];
      ReachesByte(offset, |data|, k);
    }
  }
}
