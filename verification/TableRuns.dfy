/** Whole runs of the page-table code: any sequence of maps, unmaps and new contexts. */
module TableRuns {
  import opened FrameAllocation
  import opened PageTree
  import opened Machines

  datatype TableCall =
    | MapRun(root: nat, virt: nat, phys: nat, count: nat, perms: nat)
    | UnmapRun(root: nat, virt: nat, count: nat)
    | Create

  type Flats = map<nat, map<nat, nat>>

  /** The call names a context the caller has and stays in the user half. */
  predicate Allowed(c: TableCall, roots: set<nat>) {
    match c
    case MapRun(root, virt, _, count, _) => root in roots && virt / 0x1000 + count <= USER_PAGES
    case UnmapRun(root, virt, count) => root in roots && virt / 0x1000 + count <= USER_PAGES
    case Create => true
  }

  /**
   * The call on flat maps. An unmap may stop early, at a page that is not mapped; a new context
   * has nothing in its user half.
   */
  ghost predicate FlatStep(c: TableCall, x: Flats, x': Flats) {
    match c
    case MapRun(root, virt, phys, count, perms) => root in x
      && x' == WithRun(x, root, virt / 0x1000, phys, count, perms)
    case UnmapRun(root, virt, count) =>
      root in x && exists done :: 0 <= done <= count && FlatUnmap(x, x', root, virt / 0x1000, done)
                                  && (done < count ==> virt / 0x1000 + done !in x[root])
    case Create => exists root :: root !in x && FlatCreate(x, x', root)
  }

  ghost predicate FlatUnmap(x: Flats, x': Flats, root: nat, page: nat, done: nat) {
    root in x && x' == WithoutRun(x, root, page, done)
  }

  ghost predicate FlatCreate(x: Flats, x': Flats, root: nat) {
    x' == x + map[root := map[]]
  }

  /** A run of the flat machine: a call that is not allowed is left out. */
  ghost predicate FlatRun(calls: seq<TableCall>, xs: seq<Flats>) {
    |xs| == |calls| + 1 && forall i :: 0 <= i < |calls| ==> FlatTurn(calls[i], xs[i], xs[i + 1])
  }

  ghost predicate FlatTurn(c: TableCall, x: Flats, x': Flats) {
    if Allowed(c, x.Keys) then FlatStep(c, x, x') else x' == x
  }

  /** Every context keeps what no call names. */
  lemma {:induction false} FlatRunKeeps(calls: seq<TableCall>, xs: seq<Flats>, root: nat, n: nat)
    requires FlatRun(calls, xs) && root in xs[0] && n <= |calls|
    requires forall i :: 0 <= i < n ==> !Names(calls[i], root)
    ensures root in xs[n] && xs[n][root] == xs[0][root]
  {
    if n > 0 {
      FlatRunKeeps(calls, xs, root, n - 1);
      assert FlatTurn(calls[n - 1], xs[n - 1], xs[n]);
      TurnKeeps(calls[n - 1], xs[n - 1], xs[n], root);
    }
  }

  predicate Names(c: TableCall, root: nat) {
    (c.MapRun? || c.UnmapRun?) && c.root == root
  }

  lemma {:induction false} TurnKeeps(c: TableCall, x: Flats, x': Flats, root: nat)
    requires FlatTurn(c, x, x') && root in x && !Names(c, root)
    ensures root in x' && x'[root] == x[root]
  {}

  /** The frames a call may need for tables. */
  function TableCost(c: TableCall): nat {
    match c
    case MapRun(_, _, _, count, _) => 3 * count
    case UnmapRun(_, _, _) => 0
    case Create => 1
  }

  function Budget(calls: seq<TableCall>): nat {
    if calls == [] then 0 else Budget(calls[..|calls| - 1]) + TableCost(calls[|calls| - 1])
  }

  lemma {:induction false} BudgetGrows(calls: seq<TableCall>, i: nat, n: nat)
    requires i <= n <= |calls|
    ensures Budget(calls[..i]) <= Budget(calls[..n]) && Budget(calls[..0]) == 0
    ensures i < |calls| ==> Budget(calls[..i + 1]) == Budget(calls[..i]) + TableCost(calls[i])
    decreases n - i
  {
    if i < |calls| { assert calls[..i + 1][..i] == calls[..i]; }
    if i < n { BudgetGrows(calls, i + 1, n); }
  }

  /** One call on the machine is one step of the flat machine; it fails only for want of frames. */
  method TableStep(m: Machine, c: TableCall, roots: set<nat>) returns (ok: bool, roots': set<nat>)
    requires m.Valid() && roots == m.xlat.Keys && Allowed(c, roots)
    modifies m, m.alloc, m.alloc.words
    ensures ok ==> m.Valid() && FlatStep(c, old(m.xlat), m.xlat) && m.lent == old(m.lent) && roots' == m.xlat.Keys
    ensures |old(m.alloc.Free)| >= TableCost(c) ==> ok
    ensures c.Create? ==> (ok <==> old(m.alloc.Free) != {})
    ensures ok ==> |m.alloc.Free| + TableCost(c) >= |old(m.alloc.Free)|
  {
    hide Machine.Valid, WithRun, WithoutRun, Mapped, MakeEntry, TableAt;
    roots' := roots;
    match c {
      case MapRun(root, virt, phys, count, perms) =>
        ok := m.MapPages(root, virt, phys, count, perms);
      case UnmapRun(root, virt, count) =>
        ghost var done;
        var ret;
        ret, done := m.UnmapPages(root, virt, count);
        assert FlatUnmap(old(m.xlat), m.xlat, root, virt / 0x1000, done);
        ok := true;
      case Create =>
        CountIsFree(m);
        ok := m.alloc.freePages > 0;
        if ok {
          var root := m.NewContext();
          assert FlatCreate(old(m.xlat), m.xlat, root);
          roots' := roots + {root};
        }
    }
  }

  lemma {:induction false} CountIsFree(m: Machine)
    requires m.Valid()
    ensures m.alloc.freePages == |m.alloc.Free|
  {
    hide FrameAllocator.BitsValid, FramesOk, TablesOk;
  }

  /**
   * Any sequence of maps, unmaps and new contexts: the four-level tables go through a run of the
   * flat machine, and at its end every user address of every context has in the tables the entry
   * that the flat map gives it. It runs to its end if there are frames for all the tables.
   */
  method RunTables(m: Machine, calls: seq<TableCall>, roots0: set<nat>) returns (ok: bool, ghost xs: seq<Flats>)
    requires m.Valid() && roots0 == m.xlat.Keys
    modifies m, m.alloc, m.alloc.words
    ensures |old(m.alloc.Free)| >= Budget(calls) ==> ok
    ensures ok ==> m.Valid() && m.lent == old(m.lent)
    ensures ok ==> FlatRun(calls, xs) && xs[0] == old(m.xlat) && xs[|calls|] == m.xlat
    ensures ok ==> forall root, virt: nat :: root in m.xlat && virt / 0x1000 < USER_PAGES ==>
                                        GetEntry(m.tables, root, virt) == Flat(m.xlat[root], virt / 0x1000)
  {
    hide Machine.Valid, FlatStep, GetEntry, Allowed, Budget, TableCost;
    var i, roots := 0, roots0;
    ghost var n := |m.alloc.Free|;
    BudgetGrows(calls, 0, |calls|);
    assert calls[..|calls|] == calls;
    xs := [m.xlat];
    ok := true;
    while i < |calls|
      invariant i <= |calls| && m.Valid() && roots == m.xlat.Keys && m.lent == old(m.lent)
      invariant FlatRun(calls[..i], xs) && xs[0] == old(m.xlat) && xs[i] == m.xlat
      invariant |m.alloc.Free| + Budget(calls[..i]) >= n
    {
      BudgetGrows(calls, i, |calls|);
      BudgetGrows(calls, i + 1, |calls|);
      ghost var x := m.xlat;
      if Allowed(calls[i], roots) {
        ok, roots := TableStep(m, calls[i], roots);
        if !ok { return; }
      }
      FlatRunMore(calls, i, xs, m.xlat);
      xs := xs + [m.xlat];
      i := i + 1;
    }
    ok := true;
    assert calls[..i] == calls;
    forall root, virt: nat | root in m.xlat && virt / 0x1000 < USER_PAGES
      ensures GetEntry(m.tables, root, virt) == Flat(m.xlat[root], virt / 0x1000)
    {
      m.EntryIsFlat(root, virt);
    }
  }

  lemma {:induction false} FlatRunMore(calls: seq<TableCall>, i: nat, xs: seq<Flats>, x: Flats)
    requires i < |calls| && FlatRun(calls[..i], xs) && FlatTurn(calls[i], xs[i], x)
    ensures FlatRun(calls[..i + 1], xs + [x])
  {
    hide FlatTurn;
    var c, ys := calls[..i + 1], xs + [x];
    forall k | 0 <= k < |c| ensures FlatTurn(c[k], ys[k], ys[k + 1]) {
      if k < i { assert FlatTurn(calls[..i][k], xs[k], xs[k + 1]); }
    }
  }
}
