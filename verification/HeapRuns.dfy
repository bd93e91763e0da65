/**
 * Whole runs of kmalloc, kfree and writes into payloads: what each call does to the heap, and what
 * no run of them can do.
 */
module HeapRuns {
  import opened Bits
  import opened FrameAllocation
  import opened Machines
  import opened AddressSpaces
  import opened Heaps

  datatype HeapCall = Malloc(bytes: nat) | Free(i: nat) | Store(i: nat, k: nat, v: nat)

  /** The blocks the callers hold, the heap, and the machine under it. */
  datatype HeapView = HeapView(blocks: seq<Block>, top: nat, words: map<nat, nat>, frames: map<nat, nat>, shot: Shot)

  ghost function Look(heap: Heap, blocks: seq<Block>): HeapView
    reads heap, heap.m, heap.m.alloc
  {
    HeapView(blocks, heap.top, heap.words, heap.frames, heap.Now())
  }

  /**
   * What the caller has to see to: no 64-bit wrap, room below the copy window, a block whose
   * start kfree finds, a word of the payload.
   */
  predicate Legal(c: HeapCall, top: nat, blocks: seq<Block>) {
    match c
    case Malloc(bytes) => bytes + 0x1017 < TWO64 && top / 0x1000 + PagesFor(Rounded(bytes)) < HEAP_LIMIT
    case Free(i) => i < |blocks| && Findable(blocks[i].size)
    case Store(i, k, _) => i < |blocks| && 8 * k < blocks[i].size
  }

  // ----- what one call does -----

  function Asked(top: nat, bytes: nat): Block {
    Block(top / 0x1000, PagesFor(Rounded(bytes)), Rounded(bytes))
  }

  /** The block at top, one frame to each of its pages, and the guard page; or nothing but pages lost. */
  ghost predicate MallocStep(b: Block, x: HeapView, y: HeapView) {
    if y.blocks == x.blocks then
      && |x.shot.free| < 4 * b.pages && y.shot.free == {} && y.words == x.words
      && Leaked(x.top, y.top, x.frames, y.frames, b.pages)
    else
      && y.blocks == x.blocks + [b] && y.top == x.top + (b.pages + 1) * 0x1000
      && b.size + 16 <= b.pages * 0x1000 && y.words == WithHeader(x.words, b)
      && Gains(x.frames, y.frames, Range(b.first, b.pages))
  }

  /** The pages of the block leave the context, and their frames go back. */
  ghost predicate FreeStep(kernel: nat, i: nat, x: HeapView, y: HeapView)
    requires i < |x.blocks|
  {
    var b := x.blocks[i];
    && y.blocks == x.blocks[..i] + x.blocks[i + 1..] && y.top == x.top && y.words == x.words
    && y.frames == Cut(x.frames, b.first, b.pages) && |FramesOf(x.frames, b.first, b.pages)| == b.pages
    && Returned(FramesOf(x.frames, b.first, b.pages), x.shot.own, y.shot.own, x.shot.lent, y.shot.lent, x.shot.free,
       y.shot.free)
    && kernel in x.shot.xlat && y.shot.xlat == WithoutRun(x.shot.xlat, kernel, b.first, b.pages)
    && y.shot.ram == x.shot.ram
  }

  /** A call; one that is not legal is left out. */
  ghost predicate HeapTurn(kernel: nat, c: HeapCall, x: HeapView, y: HeapView) {
    if !Legal(c, x.top, x.blocks) then y == x else
      && Isolated(kernel, x.shot, y.shot, {})
      && match c
         case Malloc(bytes) => MallocStep(Asked(x.top, bytes), x, y)
         case Free(i) => FreeStep(kernel, i, x, y)
         case Store(i, k, v) =>
           && x.blocks[i].size + 16 <= x.blocks[i].pages * 0x1000
           && y == x.(words := Put(x.words, PointerOf(x.blocks[i]) + 8 * k, v))
  }

  /** hs are the states of a run of the calls. */
  ghost predicate HeapRun(kernel: nat, calls: seq<HeapCall>, hs: seq<HeapView>) {
    |hs| == |calls| + 1 && forall i :: 0 <= i < |calls| ==> HeapTurn(kernel, calls[i], hs[i], hs[i + 1])
  }

  lemma {:induction false} HeapRunMore(kernel: nat, calls: seq<HeapCall>, hs: seq<HeapView>, i: nat, y: HeapView)
    requires i < |calls| && HeapRun(kernel, calls[..i], hs) && HeapTurn(kernel, calls[i], hs[i], y)
    ensures HeapRun(kernel, calls[..i + 1], hs + [y])
  {
    hide HeapTurn;
    forall j | 0 <= j < i + 1 ensures HeapTurn(kernel, calls[..i + 1][j], (hs + [y])[j], (hs + [y])[j + 1]) {
      assert j < i ==> calls[..i][j] == calls[..i + 1][j];
    }
  }

  // ----- what every state keeps -----

  ghost function LiveOf(blocks: seq<Block>): set<Block> {
    set b | b in blocks
  }

  /** The invariant of the heap, for the blocks the callers hold, none of them twice. */
  ghost predicate HeapIn(kernel: nat, x: HeapView) {
    && kernel in x.shot.xlat && x.top % 0x1000 == 0 && x.shot.own <= x.shot.lent
    && HeapOk(x.shot.xlat[kernel], x.frames, x.shot.own, LiveOf(x.blocks), x.words, x.top / 0x1000)
    && Once(x.blocks)
  }

  ghost predicate Once(blocks: seq<Block>) {
    forall i, j :: 0 <= i < j < |blocks| ==> blocks[i] != blocks[j]
  }

  lemma {:induction false} OnceMore(blocks: seq<Block>, b: Block)
    requires Once(blocks) && b !in LiveOf(blocks)
    ensures Once(blocks + [b]) && LiveOf(blocks + [b]) == LiveOf(blocks) + {b}
  {}

  lemma {:induction false} OnceLess(blocks: seq<Block>, i: nat)
    requires Once(blocks) && i < |blocks|
    ensures var r := blocks[..i] + blocks[i + 1..]; Once(r) && LiveOf(r) == LiveOf(blocks) - {blocks[i]}
  {
    var r := blocks[..i] + blocks[i + 1..];
    forall b | b in LiveOf(blocks) - {blocks[i]} ensures b in r {
      var j :| 0 <= j < |blocks| && blocks[j] == b;
      assert j < i ==> r[j] == b;
      assert j > i ==> r[j - 1] == b;
    }
  }

  /** Two live blocks: no page in common, and a guard page that neither block nor context has. */
  ghost predicate Separated(a: Block, b: Block, x: map<nat, nat>) {
    && (a != b ==> Range(a.first, a.pages) !! Range(b.first, b.pages))
    && a.first + a.pages !in Range(b.first, b.pages) && a.first + a.pages !in x
    && a.size + 16 <= a.pages * 0x1000 && PointerOf(a) + a.size == (a.first + a.pages) * 0x1000
  }

  lemma {:induction false} AllSeparated(kernel: nat, x: HeapView)
    requires HeapIn(kernel, x)
    ensures forall a, b :: a in x.blocks && b in x.blocks ==> Separated(a, b, x.shot.xlat[kernel])
  {
    hide HeapOk, Range, PointerOf, Once;
    forall a, b | a in x.blocks && b in x.blocks ensures Separated(a, b, x.shot.xlat[kernel]) {
      BlocksApart(x.shot.xlat[kernel], x.frames, x.shot.own, LiveOf(x.blocks), x.words, x.top / 0x1000, a, b);
    }
  }

  lemma {:induction false} InHeap(kernel: nat, x: HeapView, b: Block)
    requires HeapIn(kernel, x) && b in x.blocks
    ensures b.size + 16 <= b.pages * 0x1000
            && b.first * 0x1000 + 16 <= PointerOf(b) <= EndOf(b) == PointerOf(b) + b.size
    ensures b.first + b.pages < x.top / 0x1000 && forall a :: a in x.blocks && a != b ==> Apart(a, b)
  {
    hide FramesMapped, BlockOk, PagesFor, PointerOf, EndOf, Word, Once, Apart;
    BlockSize(x.shot.xlat[kernel], x.frames, x.shot.own, LiveOf(x.blocks), x.words, x.top / 0x1000, b);
    GuardBelow(b, x.frames, x.words, x.top / 0x1000);
    forall a | a in x.blocks && a != b ensures Apart(a, b) { assert a in LiveOf(x.blocks); }
  }

  lemma {:induction false} HeaderAbove(words: map<nat, nat>, b: Block, nb: Block, addr: nat)
    requires b.first + b.pages < nb.first && addr < EndOf(b) && nb.size + 16 <= nb.pages * 0x1000
    ensures Word(WithHeader(words, nb), addr) == Word(words, addr)
  {}

  // ----- what no run does -----

  ghost predicate InPayload(b: Block, addr: nat) {
    b.size + 16 <= b.pages * 0x1000 && PointerOf(b) <= addr < EndOf(b)
  }

  /** The call writes the word at addr by way of block b. */
  ghost predicate Writes(c: HeapCall, blocks: seq<Block>, b: Block, addr: nat)
    requires InPayload(b, addr)
  {
    c.Store? && c.i < |blocks| && blocks[c.i] == b && PointerOf(b) + 8 * c.k == addr
  }

  /** A word of a payload changes by a write to it through its own block only. */
  lemma {:induction false} TurnKeepsWord(kernel: nat, c: HeapCall, x: HeapView, y: HeapView, b: Block, addr: nat)
    requires HeapIn(kernel, x) && HeapTurn(kernel, c, x, y)
    requires b in x.blocks && InPayload(b, addr) && !Writes(c, x.blocks, b, addr)
    ensures Word(y.words, addr) == Word(x.words, addr)
  {
    hide HeapOk, Isolated, Once, PagesFor, Rounded, Findable, PointerOf, EndOf, Gains, Leaked, Returned, WithoutRun;
    InHeap(kernel, x, b);
    if Legal(c, x.top, x.blocks) {
      match c {
        case Malloc(bytes) => if y.blocks != x.blocks { HeaderAbove(x.words, b, Asked(x.top, bytes), addr); }
        case Free(i) =>
        case Store(i, k, v) =>
          var d := x.blocks[i];
          InHeap(kernel, x, d);
          if d != b { AddressesApart(b, d); }
      }
    }
  }

  /** Over a whole run a word of a block that stays allocated keeps its value until it is written. */
  lemma {:induction false} RunKeepsWord(kernel: nat, calls: seq<HeapCall>, hs: seq<HeapView>, n: nat, b: Block,
                                        addr: nat)
    requires n <= |calls| && HeapRun(kernel, calls, hs) && InPayload(b, addr)
    requires forall i :: 0 <= i <= n ==> HeapIn(kernel, hs[i]) && b in hs[i].blocks
    requires forall i :: 0 <= i < n ==> !Writes(calls[i], hs[i].blocks, b, addr)
    ensures Word(hs[n].words, addr) == Word(hs[0].words, addr)
  {
    hide HeapTurn, HeapIn, Writes, InPayload;
    if n > 0 {
      RunKeepsWord(kernel, calls, hs, n - 1, b, addr);
      TurnKeepsWord(kernel, calls[n - 1], hs[n - 1], hs[n], b, addr);
    }
  }

  /** top only moves up, and a page below it that has no frame never gets one. */
  ghost predicate NeverBack(x: HeapView, y: HeapView) {
    x.top <= y.top && forall p :: p in y.frames && p < x.top / 0x1000 ==> p in x.frames
  }

  lemma {:induction false} TurnNeverBack(kernel: nat, c: HeapCall, x: HeapView, y: HeapView)
    requires HeapTurn(kernel, c, x, y)
    ensures NeverBack(x, y)
  {
    hide Isolated, PagesFor, Rounded, Findable, PointerOf, WithHeader, Returned, WithoutRun, FramesOf, Put;
  }

  /**
   * A page given up, by kfree or as the guard page of a block, is not mapped again by any run, so
   * that a use after kfree, and a run over the end of any block there ever was, faults; and a
   * block kmalloc returns later lies above every one it returned before.
   */
  lemma {:induction false} NeverMappedAgain(kernel: nat, calls: seq<HeapCall>, hs: seq<HeapView>, i: nat, j: nat)
    requires i <= j <= |calls| && HeapRun(kernel, calls, hs)
    ensures NeverBack(hs[i], hs[j])
    decreases j - i
  {
    hide HeapTurn;
    if i < j {
      TurnNeverBack(kernel, calls[i], hs[i], hs[i + 1]);
      NeverMappedAgain(kernel, calls, hs, i + 1, j);
      assert hs[i].top / 0x1000 <= hs[i + 1].top / 0x1000;
    }
  }

  lemma {:induction false} FreedFaults(kernel: nat, calls: seq<HeapCall>, hs: seq<HeapView>, i: nat, j: nat, p: nat)
    requires i < j <= |calls| && HeapRun(kernel, calls, hs) && HeapIn(kernel, hs[i]) && HeapIn(kernel, hs[j])
    requires var c := calls[i];
             && c.Free? && Legal(c, hs[i].top, hs[i].blocks)
             && p in Range(hs[i].blocks[c.i].first, hs[i].blocks[c.i].pages)
    ensures p !in hs[j].shot.xlat[kernel]
  {
    hide HeapOk, Isolated, Once, PagesFor, Rounded, Findable, PointerOf, Returned, WithoutRun, FramesOf;
    var b := hs[i].blocks[calls[i].i];
    InHeap(kernel, hs[i], b);
    NeverMappedAgain(kernel, calls, hs, i + 1, j);
    HeapParts(hs[j].shot.xlat[kernel], hs[j].frames, hs[j].shot.own, LiveOf(hs[j].blocks), hs[j].words,
      hs[j].top / 0x1000);
  }

  /** Blocks of two successful calls of kmalloc, the first freed since or not, share no page. */
  lemma {:induction false} NeverHandedOutTwice(kernel: nat, calls: seq<HeapCall>, hs: seq<HeapView>, i: nat, j: nat)
    requires i < j < |calls| && HeapRun(kernel, calls, hs) && hs[i].top % 0x1000 == 0
    requires calls[i].Malloc? && calls[j].Malloc? && hs[i + 1].blocks != hs[i].blocks
             && hs[j + 1].blocks != hs[j].blocks
    ensures Apart(Asked(hs[i].top, calls[i].bytes), Asked(hs[j].top, calls[j].bytes))
  {
    hide Isolated, PagesFor, Rounded, WithHeader, Gains, Leaked;
    NeverMappedAgain(kernel, calls, hs, i + 1, j);
    assert HeapTurn(kernel, calls[i], hs[i], hs[i + 1]) && HeapTurn(kernel, calls[j], hs[j], hs[j + 1]);
  }

  /** No run changes another context, or a frame that is not the heap's. */
  lemma {:induction false} RunIsolated(kernel: nat, calls: seq<HeapCall>, hs: seq<HeapView>, n: nat)
    requires n <= |calls| && HeapRun(kernel, calls, hs)
    ensures Isolated(kernel, hs[0].shot, hs[n].shot, {})
  {
    hide Isolated, MallocStep, FreeStep, Legal;
    if n == 0 {
      NothingIsolated(kernel, hs[0].shot, {});
    } else {
      RunIsolated(kernel, calls, hs, n - 1);
      assert HeapTurn(kernel, calls[n - 1], hs[n - 1], hs[n]);
      NothingIsolated(kernel, hs[n].shot, {});
      IsolatedTwice(kernel, hs[0].shot, hs[n - 1].shot, hs[n].shot, {});
    }
  }

  // ----- the runs -----

  /** The frames a call may need: for kmalloc one a page, and three more for tables. */
  function Cost(c: HeapCall): nat {
    if c.Malloc? then 4 * PagesFor(Rounded(c.bytes)) else 0
  }

  function Budget(calls: seq<HeapCall>): nat {
    if calls == [] then 0 else Budget(calls[..|calls| - 1]) + Cost(calls[|calls| - 1])
  }

  lemma {:induction false} BudgetGrows(calls: seq<HeapCall>, i: nat, n: nat)
    requires i <= n <= |calls|
    ensures Budget(calls[..i]) <= Budget(calls[..n]) && Budget(calls[..0]) == 0
    ensures i < |calls| ==> Budget(calls[..i + 1]) == Budget(calls[..i]) + Cost(calls[i])
    decreases n - i
  {
    if i < |calls| { assert calls[..i + 1][..i] == calls[..i]; }
    if i < n { BudgetGrows(calls, i + 1, n); }
  }

  method HeapStep(heap: Heap, c: HeapCall, blocks: seq<Block>) returns (ok: bool, blocks': seq<Block>)
    requires heap.Valid() && heap.live == LiveOf(blocks) && Once(blocks)
    modifies heap, heap.m, heap.m.alloc, heap.m.alloc.words
    ensures |old(heap.m.alloc.Free)| >= Cost(c) ==> ok
    ensures ok ==> heap.Valid() && heap.live == LiveOf(blocks') && Once(blocks')
    ensures ok ==> |heap.m.alloc.Free| + Cost(c) >= |old(heap.m.alloc.Free)|
    ensures ok ==> HeapTurn(heap.m.kernelRoot, c, old(Look(heap, blocks)), Look(heap, blocks'))
  {
    hide Heap.Valid, Machine.Spare, PagesFor, Rounded, Isolated, PointerOf, EndOf, WithHeader, Returned, WithoutRun,
         Cut, FramesOf;
    hide Range, Findable, Once, Put, LiveOf, Gains, Leaked;
    ok, blocks' := true, blocks;
    if !Legal(c, heap.top, blocks) { return; }
    match c {
      case Malloc(bytes) =>
        var b := Asked(heap.top, bytes);
        var ptr;
        ghost var nb;
        ok, ptr, nb := heap.KMalloc(bytes);
        if ok && ptr != 0 {
          BlockSizes(heap, b);
          OnceMore(blocks, b);
          blocks' := blocks + [b];
        }
      case Free(i) =>
        HeldBlock(heap, blocks, i);
        OnceLess(blocks, i);
        heap.KFree(PointerOf(blocks[i]), blocks[i]);
        ReturnedCount(FramesOf(old(heap.frames), blocks[i].first, blocks[i].pages), old(heap.own), heap.own,
          old(heap.m.lent), heap.m.lent, old(heap.m.alloc.Free), heap.m.alloc.Free);
        blocks' := blocks[..i] + blocks[i + 1..];
      case Store(i, k, v) =>
        HeldBlock(heap, blocks, i);
        NothingIsolated(heap.m.kernelRoot, heap.Now(), {});
        heap.WriteWord(PointerOf(blocks[i]) + 8 * k, v, blocks[i]);
    }
  }

  lemma {:induction false} HeldBlock(heap: Heap, blocks: seq<Block>, i: nat)
    requires heap.Valid() && heap.live == LiveOf(blocks) && i < |blocks|
    ensures blocks[i] in heap.live && blocks[i].size + 16 <= blocks[i].pages * 0x1000
    ensures EndOf(blocks[i]) == PointerOf(blocks[i]) + blocks[i].size
  {
    hide Heap.Valid, PointerOf, EndOf;
    BlockSizes(heap, blocks[i]);
  }

  lemma {:induction false} ValidIn(heap: Heap, blocks: seq<Block>)
    requires heap.Valid() && heap.live == LiveOf(blocks) && Once(blocks)
    ensures HeapIn(heap.m.kernelRoot, Look(heap, blocks))
  {
    hide Machine.Valid, HeapOk, Once, LiveOf;
  }

  /**
   * Any run of kmalloc, kfree and writes into payloads. hs are its states: each follows from the
   * one before by the call, and in each the live blocks lie in disjoint page ranges, end at a
   * page end followed by a page that is not mapped, and have a frame of their own to each page.
   */
  method RunHeap(heap: Heap, calls: seq<HeapCall>, blocks0: seq<Block>)
    returns (ok: bool, blocks: seq<Block>, ghost hs: seq<HeapView>)
    requires heap.Valid() && heap.live == LiveOf(blocks0) && Once(blocks0)
    modifies heap, heap.m, heap.m.alloc, heap.m.alloc.words
    ensures |old(heap.m.alloc.Free)| >= Budget(calls) ==> ok
    ensures ok ==> heap.Valid() && heap.live == LiveOf(blocks)
    ensures ok ==> HeapRun(heap.m.kernelRoot, calls, hs)
    ensures ok ==> hs[0] == old(Look(heap, blocks0)) && hs[|calls|] == Look(heap, blocks)
    ensures ok ==> forall i :: 0 <= i < |hs| ==> HeapIn(heap.m.kernelRoot, hs[i])
  {
    hide Heap.Valid, Look, Once, LiveOf, HeapTurn, HeapIn, Legal, Budget, Cost;
    blocks, ok, hs := blocks0, true, [Look(heap, blocks0)];
    ghost var n := |heap.m.alloc.Free|;
    ValidIn(heap, blocks);
    BudgetGrows(calls, 0, |calls|);
    assert calls[..|calls|] == calls;
    var i := 0;
    while i < |calls|
      invariant i <= |calls| && heap.Valid() && heap.live == LiveOf(blocks) && Once(blocks)
      invariant HeapRun(heap.m.kernelRoot, calls[..i], hs)
      invariant hs[0] == old(Look(heap, blocks0)) && hs[i] == Look(heap, blocks)
      invariant forall j :: 0 <= j < |hs| ==> HeapIn(heap.m.kernelRoot, hs[j])
      invariant |heap.m.alloc.Free| + Budget(calls[..i]) >= n
    {
      BudgetGrows(calls, i, |calls|);
      BudgetGrows(calls, i + 1, |calls|);
      ok, blocks := HeapStep(heap, calls[i], blocks);
      if !ok { return; }
      ValidIn(heap, blocks);
      HeapRunMore(heap.m.kernelRoot, calls, hs, i, Look(heap, blocks));
      hs := hs + [Look(heap, blocks)];
      i := i + 1;
    }
    ok := true;
  }
}
