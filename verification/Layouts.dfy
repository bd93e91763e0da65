/**
 * What a run of calls does to the holes and regions of an address space, on spans alone: the
 * machine that a run of the address space goes through.
 */
module Layouts {
  import opened Spans
  import opened Binding

  /** A call on an address space. */
  datatype Call =
    | Allocate(size: nat, perms: nat, cache: nat)
    | Map(address: nat, size: nat, perms: nat, cache: nat)
    | AllocateAt(base: nat, size: nat, perms: nat, cache: nat)
    | MapAt(base: nat, address: nat, size: nat, perms: nat, cache: nat)
    | FaultHit(address: nat)
    | Touch(address: nat)
    | TouchAll(address: nat)
    | Load(address: nat, data: seq<bv8>)
    | Store(address: nat, n: nat)
    | Destroy(address: nat)

  predicate Binds(c: Call) {
    c.Allocate? || c.Map? || c.AllocateAt? || c.MapAt?
  }

  datatype Layout = Layout(holes: seq<Span>, spans: seq<Span>)

  /** What the source demands of the caller of a call that changes the layout. */
  predicate Allowed(c: Call, l: Layout) {
    match c
    case Allocate(size, _, _) => size > 0
    case Map(_, size, _, _) => size > 0
    case AllocateAt(base, size, _, _) => base > 0 && size > 0 && Clean(base, size)
    case MapAt(base, _, size, _, _) => base > 0 && size > 0 && Clean(base, size)
    case Destroy(address) => HasOwner(l.spans, address) || EndsAt(l.spans, address)
    case _ => true
  }

  /** The top of hole k has become a region, put at place j. */
  ghost predicate TopTurn(l: Layout, l': Layout, size: nat, base: nat, k: nat, j: nat) {
    && k < |l.holes| && l.holes[k].size >= size && Span(base, size) == TopPart(l.holes[k], size)
    && (forall i :: 0 <= i < |l.holes| && l.holes[i].size >= size ==> l.holes[i].base <= l.holes[k].base)
    && IsSucc(l.spans, Span(base, size), j)
    && l' == Layout(Replace(l.holes, k, TopRest(l.holes[k], size)), Insert(l.spans, j, Span(base, size)))
  }

  /** allocate and map: the top of the highest hole that is large enough, 0 if there is none. */
  ghost predicate TopStep(l: Layout, l': Layout, size: nat, base: nat) {
    if base == 0 then l' == l && forall i :: 0 <= i < |l.holes| ==> l.holes[i].size < size
    else exists k: nat, j: nat :: TopTurn(l, l', size, base, k, j)
  }

  /** The range has been carved out of merged hole k. */
  ghost predicate ExactTurn(l: Layout, l': Layout, base: nat, size: nat, k: nat, j: nat) {
    && k < |Merge(l.holes)| && Contains(Merge(l.holes)[k], base, size)
    && IsSucc(l.spans, Span(base, size), j)
    && l' == Layout(Replace(Merge(l.holes), k, Carve(Merge(l.holes)[k], base, size)),
       Insert(l.spans, j, Span(base, size)))
  }

  /** allocate_at and map_at: the range wanted, if one merged hole contains it, and 0 otherwise. */
  ghost predicate ExactStep(l: Layout, l': Layout, want: nat, size: nat, base: nat) {
    && base == (if Granted(Merge(l.holes), want, size) then want else 0)
    && if base == 0 then l' == Layout(Merge(l.holes), l.spans)
       else exists k: nat, j: nat :: ExactTurn(l, l', base, size, k, j)
  }

  ghost predicate DropTurn(l: Layout, l': Layout, address: nat, k: nat, h: nat) {
    && FoundAt(l.spans, address, k) && k < |l.spans| && IsSucc(l.holes, l.spans[k], h) && h <= |l.holes|
    && l' == Layout(Merge(PutHole(l.holes, l.spans[k], h)), Remove(l.spans, k))
  }

  /** destroy: the range of the region found becomes a hole again, and the holes are merged. */
  ghost predicate DropStep(l: Layout, l': Layout, address: nat) {
    exists k: nat, h: nat :: DropTurn(l, l', address, k, h)
  }

  /** What a call does to the layout; base is the address that a binding call returns. */
  ghost predicate LayoutStep(c: Call, l: Layout, l': Layout, base: nat) {
    match c
    case Allocate(size, _, _) => TopStep(l, l', size, base)
    case Map(_, size, _, _) => TopStep(l, l', size, base)
    case AllocateAt(want, size, _, _) => ExactStep(l, l', want, size, base)
    case MapAt(want, _, size, _, _) => ExactStep(l, l', want, size, base)
    case Destroy(address) => DropStep(l, l', address)
    case _ => l' == l
  }

  /** A call that is not allowed is left out. */
  ghost predicate LayoutTurn(c: Call, l: Layout, l': Layout, base: nat) {
    if Allowed(c, l) then LayoutStep(c, l, l', base) else l' == l
  }

  ghost predicate LayoutRun(calls: seq<Call>, ls: seq<Layout>, bases: seq<nat>) {
    && |ls| == |calls| + 1 && |bases| == |calls|
    && forall i :: 0 <= i < |calls| ==> LayoutTurn(calls[i], ls[i], ls[i + 1], bases[i])
  }

  /** A destroyed region lies below some hole, or there is none. */
  ghost predicate Below(c: Call, l: Layout) {
    c.Destroy? ==> forall k :: 0 <= k < |l.spans| && FoundAt(l.spans, c.address, k) ==>
                     l.holes == [] || exists i :: 0 <= i < |l.holes| && l.holes[i].base > l.spans[k].base
  }

  lemma {:induction false} TopSorted(l: Layout, l': Layout, size: nat, base: nat)
    requires LayoutOk(l.holes, l.spans) && size > 0 && TopStep(l, l', size, base)
    ensures LayoutOk(l'.holes, l'.spans) && (Sorted(l.holes) ==> Sorted(l'.holes))
  {
    hide LayoutOk, Sorted, IsSucc, Replace, Insert, Splits;
    if base != 0 {
      var k: nat, j: nat :| TopTurn(l, l', size, base, k, j);
      LayoutProper(l);
      TopSplits(l.holes[k], size);
      TopProper(l.holes[k], size);
      LayoutInsert(l.holes, l.spans, k, TopRest(l.holes[k], size), j, Span(base, size));
      if Sorted(l.holes) { TopKeepsSorted(l.holes, k, size); }
    }
  }

  lemma {:induction false} LayoutProper(l: Layout)
    requires LayoutOk(l.holes, l.spans)
    ensures AllProper(l.holes) && AllApart(l.holes) && forall i :: 0 <= i < |l.holes| ==> End(l.holes[i]) <= USER_END
    ensures forall a: nat :: Cover(l.holes, a) <= 1
  {
    hide Sorted;
    TiledApart(l.holes, l.spans);
  }

  lemma {:induction false} ExactSorted(l: Layout, l': Layout, want: nat, size: nat, base: nat)
    requires LayoutOk(l.holes, l.spans) && want > 0 && size > 0 && Clean(want, size)
             && ExactStep(l, l', want, size, base)
    ensures LayoutOk(l'.holes, l'.spans)
    ensures Sorted(l.holes) ==> Sorted(l'.holes) && (base == want <==> AllFree(l.holes, want, size))
  {
    hide LayoutOk, Sorted, IsSucc, Replace, Insert, Splits, Merge, Granted, AllFree, Carve, Clean, AllApart, NoneTouch,
         Cover;
    LayoutMerge(l.holes, l.spans);
    LayoutProper(l);
    var merged := Layout(Merge(l.holes), l.spans);
    LayoutProper(merged);
    if Sorted(l.holes) {
      SortedGrants(l.holes, want, size);
      MergeCoalesces(l.holes);
    }
    if base != 0 {
      var k: nat, j: nat :| ExactTurn(l, l', base, size, k, j);
      CarveSplits(merged.holes[k], want, size);
      LayoutInsert(merged.holes, l.spans, k, Carve(merged.holes[k], want, size), j, Span(want, size));
      if Sorted(l.holes) { CarveKeepsSorted(merged.holes, k, want, size); }
    }
  }

  lemma {:induction false} DropSorted(l: Layout, l': Layout, c: Call)
    requires LayoutOk(l.holes, l.spans) && c.Destroy? && DropStep(l, l', c.address)
    ensures LayoutOk(l'.holes, l'.spans) && (Sorted(l.holes) && Below(c, l) ==> Sorted(l'.holes))
  {
    hide LayoutOk, Sorted, IsSucc, PutHole, Merge, FoundAt;
    var k: nat, h: nat :| DropTurn(l, l', c.address, k, h);
    LayoutRemove(l.holes, l.spans, k, h);
    if Sorted(l.holes) && Below(c, l) { DestroyCoalesces(l.holes, l.spans, k, h); }
  }

  lemma {:induction false} TurnSorted(c: Call, l: Layout, l': Layout, base: nat)
    requires LayoutOk(l.holes, l.spans) && LayoutTurn(c, l, l', base)
    ensures LayoutOk(l'.holes, l'.spans) && (Sorted(l.holes) && Below(c, l) ==> Sorted(l'.holes))
    ensures Sorted(l.holes) && Allowed(c, l) && (c.AllocateAt? || c.MapAt?) ==>
            (base == c.base <==> AllFree(l.holes, c.base, c.size))
  {
    hide LayoutOk, Sorted, TopStep, ExactStep, DropStep, Below, AllFree, Clean, HasOwner, EndsAt;
    if Allowed(c, l) {
      match c {
        case Allocate(size, _, _) => TopSorted(l, l', size, base);
        case Map(_, size, _, _) => TopSorted(l, l', size, base);
        case AllocateAt(want, size, _, _) => ExactSorted(l, l', want, size, base);
        case MapAt(want, _, size, _, _) => ExactSorted(l, l', want, size, base);
        case Destroy(_) => DropSorted(l, l', c);
        case _ =>
      }
    }
  }

  /**
   * Over every run in which no destroyed region lies above all holes the hole list stays sorted,
   * so every exact request in it is granted if and only if all its pages are free.
   */
  lemma {:induction false} SortedRun(calls: seq<Call>, ls: seq<Layout>, bases: seq<nat>, n: nat)
    requires LayoutRun(calls, ls, bases) && LayoutOk(ls[0].holes, ls[0].spans) && Sorted(ls[0].holes) && n <= |calls|
    requires forall i :: 0 <= i < |calls| ==> Below(calls[i], ls[i])
    ensures LayoutOk(ls[n].holes, ls[n].spans) && Sorted(ls[n].holes)
    ensures n < |calls| && Allowed(calls[n], ls[n]) && (calls[n].AllocateAt? || calls[n].MapAt?) ==>
              (bases[n] == calls[n].base <==> AllFree(ls[n].holes, calls[n].base, calls[n].size))
  {
    hide LayoutOk, Sorted, LayoutTurn, Below, AllFree, Allowed;
    if n > 0 {
      SortedRun(calls, ls, bases, n - 1);
      TurnSorted(calls[n - 1], ls[n - 1], ls[n], bases[n - 1]);
    }
    if n < |calls| { TurnSorted(calls[n], ls[n], ls[n + 1], bases[n]); }
  }

  /** Every run keeps the partition of the user range and the order of the regions. */
  lemma {:induction false} TiledRun(calls: seq<Call>, ls: seq<Layout>, bases: seq<nat>, n: nat)
    requires LayoutRun(calls, ls, bases) && LayoutOk(ls[0].holes, ls[0].spans) && n <= |calls|
    ensures LayoutOk(ls[n].holes, ls[n].spans)
  {
    hide LayoutOk, Sorted, LayoutTurn, Below, AllFree, Allowed;
    if n > 0 {
      TiledRun(calls, ls, bases, n - 1);
      TurnSorted(calls[n - 1], ls[n - 1], ls[n], bases[n - 1]);
    }
  }
}
