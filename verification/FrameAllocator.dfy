/** The physical frame allocator of the x86_64 port: a bitmap of 64-bit words, one bit a frame. */
module FrameAllocation {
  import opened Bits

  const PAGE_SIZE: nat := 0x1000

  /** PMM_MEMORY_BASE as a frame number: no lower frame is ever handed out. */
  const FIRST_FRAME: nat := 0x2000

  /** Bit i of a bitmap: true when frame i is used. */
  predicate Used(words: seq<nat>, i: nat)
    requires i < 64 * |words|
  {
    Bit(words[i / 64], i % 64)
  }

  /** The frames whose bit is clear. */
  ghost function ClearBits(words: seq<nat>): set<nat> {
    set i: nat | i < 64 * |words| && !Used(words, i)
  }

  /** The frames start, ..., start + count - 1. */
  ghost function Range(start: nat, count: nat): (s: set<nat>)
    ensures |s| == count
    ensures forall i :: i in s <==> start <= i < start + count
  {
    if count == 0 then {} else Range(start, count - 1) + {start + count - 1}
  }

  ghost predicate RangeFree(free: set<nat>, start: nat, count: nat) {
    forall i :: start <= i < start + count ==> i in free
  }

  /** The k-th place a search with the given stride looks at. */
  function Candidate(k: nat, stride: nat): nat {
    FIRST_FRAME + k * stride
  }

  /** One word update changes one bit. */
  lemma {:induction false} SetBit(words: seq<nat>, idx: nat, value: nat, bit: bool)
    requires idx < 64 * |words|
    requires words[idx / 64] < Pow2(64)
    requires Pow2(idx % 64) < Pow2(64)
    requires value == if bit then Or(words[idx / 64], Pow2(idx % 64))
                             else And(words[idx / 64], Not(Pow2(idx % 64), 64))
    ensures value < Pow2(64)
    ensures forall i: nat :: i < 64 * |words| ==>
              Used(words[idx / 64 := value], i) == if i == idx then bit else Used(words, i)
  {
    var w, k := words[idx / 64], idx % 64;
    if bit { OrBelow(w, Pow2(k), 64); } else { AndBelow(w, Not(Pow2(k), 64)); }
    forall i: nat | i < 64 * |words|
      ensures Used(words[idx / 64 := value], i) == if i == idx then bit else Used(words, i)
    {
      if i / 64 == idx / 64 {
        BitOfPow2(k, i % 64);
        if bit {
          BitOfOr(w, Pow2(k), i % 64);
        } else {
          BitOfAnd(w, Not(Pow2(k), 64), i % 64);
          BitOfNot(Pow2(k), 64, i % 64);
        }
      }
    }
  }

  class FrameAllocator {
    const words: array<nat>    // pmm_bitmap
    const len: nat             // pmm_bitmap_len, in bits
    const totalPages: nat
    var freePages: nat
    ghost var Free: set<nat>   // the frames whose bit is clear

    /** The bitmap says what Free says, and the bits past the end read as used. */
    ghost predicate BitsValid()
      reads this, words
    {
      && totalPages > 0
      && len < 64 * words.Length
      && (forall w :: 0 <= w < words.Length ==> words[w] < Pow2(64))
      && Free == ClearBits(words[..])
      && (forall i :: i in Free ==> i < len)
    }

    /** The free counter is the number of clear bits. */
    ghost predicate CountExact()
      reads this
    {
      freePages == |Free|
    }

    ghost predicate Valid()
      reads this, words
    {
      BitsValid() && CountExact()
    }

    /** A bitmap and a counter as boot leaves them. */
    constructor (bitmap: array<nat>, frames: nat, total: nat, free: nat)
      requires total > 0 && frames < 64 * bitmap.Length
      requires forall w :: 0 <= w < bitmap.Length ==> bitmap[w] < Pow2(64)
      requires forall i :: i in ClearBits(bitmap[..]) ==> i < frames
      requires free == |ClearBits(bitmap[..])|
      ensures Valid() && words == bitmap && len == frames && Free == ClearBits(bitmap[..])
    {
      words := bitmap;
      len := frames;
      totalPages := total;
      freePages := free;
      Free := ClearBits(bitmap[..]);
    }

    method BitRead(idx: nat) returns (bit: bool)
      requires idx < 64 * words.Length
      ensures bit == Used(words[..], idx)
    {
      var off := idx / 64;
      var mask := Pow2(idx % 64);
      MaskTest(words[off], idx % 64);
      bit := And(words[off], mask) == mask;
    }

    /** One turn of the loop of pmm_bit_write. */
    method WriteBit(idx: nat, bit: bool)
      requires idx < 64 * words.Length
      requires forall w :: 0 <= w < words.Length ==> words[w] < Pow2(64)
      modifies words
      ensures forall w :: 0 <= w < words.Length ==> words[w] < Pow2(64)
      ensures forall i: nat :: i < 64 * words.Length ==>
                Used(words[..], i) == if i == idx then bit else old(Used(words[..], i))
    {
      hide Used, Bit, Or, And, Not, Pow2;
      var off := idx / 64;
      var mask := Pow2(idx % 64);
      Pow2Increases(idx % 64, 64);
      ghost var before := words[..];
      if bit {
        words[off] := Or(words[off], mask);
      } else {
        words[off] := And(words[off], Not(mask, 64));
      }
      assert words[..] == before[off := words[off]];
      SetBit(before, idx, words[off], bit);
    }

    method BitWrite(idx: nat, bit: bool, count: nat)
      requires idx + count <= 64 * words.Length
      requires forall w :: 0 <= w < words.Length ==> words[w] < Pow2(64)
      modifies words
      ensures forall w :: 0 <= w < words.Length ==> words[w] < Pow2(64)
      ensures forall i: nat :: i < 64 * words.Length ==>
                Used(words[..], i) == if idx <= i < idx + count then bit else old(Used(words[..], i))
    {
      hide Used;
      var i := idx;
      while i < idx + count
        invariant idx <= i <= idx + count
        invariant forall w :: 0 <= w < words.Length ==> words[w] < Pow2(64)
        invariant forall j: nat :: j < 64 * words.Length ==>
                    Used(words[..], j) == if idx <= j < i then bit else old(Used(words[..], j))
      {
        WriteBit(i, bit);
        i := i + 1;
      }
    }

    method IsFree(idx: nat, count: nat) returns (free: bool)
      requires BitsValid() && idx <= len
      ensures free == RangeFree(Free, idx, count)
    {
      var i := idx;
      while i < idx + count
        invariant idx <= i <= idx + count && i <= len
        invariant RangeFree(Free, idx, i - idx)
      {
        var used := BitRead(i);
        if used {
          assert i !in Free;
          return false;
        }
        assert i in Free;
        i := i + 1;
      }
      return true;
    }

    /** Marks a free range used. */
    method Take(idx: nat, count: nat)
      requires Valid() && RangeFree(Free, idx, count) && idx < len
      modifies this, words
      ensures Valid() && Free == old(Free) - Range(idx, count) && |Free| == |old(Free)| - count
    {
      TakeRange(Free, idx, count);
      assert idx + count <= len by {
        if count > 0 { assert idx + count - 1 in Free; }
      }
      BitWrite(idx, true, count);
      Free := Free - Range(idx, count);
      freePages := freePages - count;
      assert Free == ClearBits(words[..]);
    }

    /** The search loop of pmm_alloc_ex. */
    method FindRun(count: nat, alignment: nat, maxIdx: nat) returns (idx: nat, ghost k: nat)
      requires BitsValid() && 1 <= alignment && maxIdx <= len
      ensures idx == Candidate(k, alignment)
      ensures idx < maxIdx ==> RangeFree(Free, idx, count)
      ensures forall j: nat :: j < k ==> !RangeFree(Free, Candidate(j, alignment), count)
    {
      hide FrameAllocator.BitsValid;
      idx := FIRST_FRAME;
      k := 0;
      while idx < maxIdx
        invariant idx == Candidate(k, alignment)
        invariant forall j: nat :: j < k ==> !RangeFree(Free, Candidate(j, alignment), count)
        decreases maxIdx - idx
      {
        var free := IsFree(idx, count);
        if free { return; }
        assert Candidate(k + 1, alignment) == Candidate(k, alignment) + alignment;
        idx := idx + alignment;
        k := k + 1;
      }
    }

    /** pmm_alloc_ex: the address of the first candidate below the limit whose frames are all free. */
    method AllocEx(count: nat, alignment: nat, upper: nat) returns (addr: nat, ghost k: nat)
      requires Valid() && 1 <= alignment
      modifies this, words
      ensures Valid()
      ensures var limit := if upper == 0 || len < upper / PAGE_SIZE then len else upper / PAGE_SIZE;
              && (addr == 0 <==> forall j: nat :: Candidate(j, alignment) < limit ==>
                                   !RangeFree(old(Free), Candidate(j, alignment), count))
              && (addr != 0 ==>
                    && addr == Candidate(k, alignment) * PAGE_SIZE
                    && Candidate(k, alignment) < limit
                    && RangeFree(old(Free), Candidate(k, alignment), count)
                    && forall j: nat :: j < k ==> !RangeFree(old(Free), Candidate(j, alignment), count))
      ensures Free == if addr == 0 then old(Free) else old(Free) - Range(addr / PAGE_SIZE, count)
      ensures addr != 0 ==> |Free| == |old(Free)| - count
    {
      hide FrameAllocator.BitsValid;
      var maxIdx := if upper == 0 then len
                    else if len < upper / PAGE_SIZE then len else upper / PAGE_SIZE;
      var idx;
      idx, k := FindRun(count, alignment, maxIdx);
      if idx < maxIdx {
        Take(idx, count);
        addr := idx * PAGE_SIZE;
      } else {
        NoneLeft(Free, alignment, count, k, maxIdx);
        addr := 0;
      }
    }

    /** pmm_alloc for one frame: the lowest free frame at or above the base, or 0. */
    method Alloc() returns (addr: nat)
      requires Valid()
      modifies this, words
      ensures Valid()
      ensures addr == 0 <==> forall i :: i in old(Free) ==> i < FIRST_FRAME || len <= i
      ensures addr != 0 ==>
                && addr % PAGE_SIZE == 0
                && addr / PAGE_SIZE in old(Free) && addr / PAGE_SIZE >= FIRST_FRAME
                && (forall i :: i in old(Free) && i >= FIRST_FRAME ==> addr / PAGE_SIZE <= i)
                && Free == old(Free) - {addr / PAGE_SIZE}
                && |Free| == |old(Free)| - 1
      ensures addr == 0 ==> Free == old(Free)
    {
      hide FrameAllocator.BitsValid;
      ghost var k;
      addr, k := AllocEx(1, 1, 0);
      if addr == 0 {
        NoSingle(old(Free), len);
      } else {
        LowestSingle(old(Free), k);
        assert Range(addr / PAGE_SIZE, 1) == {addr / PAGE_SIZE};
      }
    }

    /**
     * pmm_free: clears the bits and adds count to the counter whatever the bits were, so the
     * counter stays exact if and only if no frame of the range was free already.
     */
    method Release(mem: nat, count: nat)
      requires Valid() && mem / PAGE_SIZE + count <= len
      modifies this, words
      ensures BitsValid()
      ensures Free == old(Free) + Range(mem / PAGE_SIZE, count)
      ensures freePages == old(freePages) + count
      ensures CountExact() <==> Range(mem / PAGE_SIZE, count) !! old(Free)
    {
      var idx := mem / PAGE_SIZE;
      GiveRange(Free, Range(idx, count));
      BitWrite(idx, false, count);
      ClearedBits(old(words[..]), words[..], idx, count);
      Free := Free + Range(idx, count);
      freePages := freePages + count;
    }
  }

  lemma {:induction false} ClearedBits(before: seq<nat>, after: seq<nat>, start: nat, count: nat)
    requires |after| == |before| && start + count <= 64 * |before|
    requires forall i: nat :: i < 64 * |after| ==> Used(after, i) == (!(start <= i < start + count) && Used(before, i))
    ensures ClearBits(after) == ClearBits(before) + Range(start, count)
  {}

  lemma {:induction false} NoSingle(free: set<nat>, len: nat)
    requires forall j: nat :: Candidate(j, 1) < len ==> !RangeFree(free, Candidate(j, 1), 1)
    ensures forall i :: i in free ==> i < FIRST_FRAME || len <= i
  {
    forall i | i in free && FIRST_FRAME <= i < len ensures false {
      assert Candidate(i - FIRST_FRAME, 1) == i;
      assert RangeFree(free, i, 1);
    }
  }

  lemma {:induction false} LowestSingle(free: set<nat>, k: nat)
    requires RangeFree(free, Candidate(k, 1), 1)
    requires forall j: nat :: j < k ==> !RangeFree(free, Candidate(j, 1), 1)
    ensures Candidate(k, 1) in free
    ensures forall i :: i in free && i >= FIRST_FRAME ==> Candidate(k, 1) <= i
  {
    forall i | i in free && FIRST_FRAME <= i < Candidate(k, 1) ensures false {
      assert Candidate(i - FIRST_FRAME, 1) == i;
      assert RangeFree(free, i, 1);
    }
  }

  lemma {:induction false} TakeRange(free: set<nat>, start: nat, count: nat)
    requires RangeFree(free, start, count)
    ensures |free - Range(start, count)| == |free| - count
  {
    var r := Range(start, count);
    assert free == (free - r) + r;
  }

  /** When the first k candidates fail and the next is past the limit, no candidate will do. */
  lemma {:induction false} NoneLeft(free: set<nat>, alignment: nat, count: nat, k: nat, limit: nat)
    requires forall j: nat :: j < k ==> !RangeFree(free, Candidate(j, alignment), count)
    requires limit <= Candidate(k, alignment)
    ensures forall j: nat :: Candidate(j, alignment) < limit ==>
              !RangeFree(free, Candidate(j, alignment), count)
  {
    forall j: nat | Candidate(j, alignment) < limit
      ensures !RangeFree(free, Candidate(j, alignment), count)
    {
      if j >= k { MulMono(k, j, alignment); }
    }
  }

  /** |a + b| is |a| + |b| exactly when they share nothing. */
  lemma {:induction false} GiveRange(a: set<nat>, b: set<nat>)
    ensures |a + b| == |a| + |b| <==> a !! b
  {
    assert a + b == (a - b) + b;
    assert |a + b| == |a - b| + |b|;
    assert a == (a - b) + (a * b);
    assert |a| == |a - b| + |a * b|;
  }
}
