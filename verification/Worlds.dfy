/** Several address spaces on one machine, and calls on them in any order. */
module Worlds {
  import opened Machines
  import opened Mappings
  import opened Copying
  import opened Regions
  import opened AddressSpaces
  import opened Calls
  import opened Layouts
  import opened Runs

  /** A call on one of the address spaces. */
  datatype Turn = Turn(who: nat, call: Call)

  // ----- states and steps

  /** Address spaces with contexts of their own and frames of their own on one machine, each with its invariant. */
  ghost predicate Coexist(roots: seq<nat>, ws: seq<View>) {
    && |ws| == |roots|
    && (forall i :: 0 <= i < |ws| ==> SpaceIn(roots[i], ws[i]) && ws[i].shot.lent !! ws[i].shot.spare)
    && (forall i, j :: 0 <= i < |ws| && 0 <= j < |ws| && i != j ==> Apart(roots[i], ws[i].shot, roots[j], ws[j].shot))
  }

  ghost predicate Apart(root: nat, a: Shot, root': nat, b: Shot) {
    root != root' && a.own !! b.own && b == a.(own := b.own)
  }

  /** One address space makes a call; of the others nothing changes but the machine they are on. */
  ghost predicate WorldTurn(roots: seq<nat>, t: Turn, ws: seq<View>, ws': seq<View>, o: Out) {
    && |ws| == |ws'| == |roots| && t.who < |ws| && CallTurn(roots[t.who], t.call, ws[t.who], ws'[t.who], o)
    && forall j :: 0 <= j < |ws| && j != t.who ==> ws'[j] == Beside(ws[j], ws'[t.who].shot)
  }

  /** An address space that has not moved, on the machine as it is now. */
  function Beside(v: View, now: Shot): View {
    View(v.holes, v.regions, now.(own := v.shot.own))
  }

  ghost predicate WorldRun(roots: seq<nat>, turns: seq<Turn>, states: seq<seq<View>>, outs: seq<Out>) {
    && |states| == |turns| + 1 && |outs| == |turns|
    && forall i :: 0 <= i < |turns| ==> WorldTurn(roots, turns[i], states[i], states[i + 1], outs[i])
  }

  lemma {:induction false} WorldRunMore(roots: seq<nat>, turns: seq<Turn>, i: nat, states: seq<seq<View>>,
                                        outs: seq<Out>, ws: seq<View>, o: Out)
    requires i < |turns| && WorldRun(roots, turns[..i], states, outs) && WorldTurn(roots, turns[i], states[i], ws, o)
    ensures WorldRun(roots, turns[..i + 1], states + [ws], outs + [o])
  {
    hide WorldTurn;
    var ts, ss, os := turns[..i + 1], states + [ws], outs + [o];
    forall k | 0 <= k < |ts| ensures WorldTurn(roots, ts[k], ss[k], ss[k + 1], os[k]) {
      if k < i { assert WorldTurn(roots, turns[..i][k], states[k], states[k + 1], outs[k]); }
    }
  }

  /** A run of these turns, whose every state satisfies all the invariants. */
  ghost predicate CoexistingRun(roots: seq<nat>, turns: seq<Turn>, states: seq<seq<View>>, outs: seq<Out>)
    ensures CoexistingRun(roots, turns, states, outs) ==> |states| == |turns| + 1
  {
    WorldRun(roots, turns, states, outs) && forall i :: 0 <= i < |states| ==> Coexist(roots, states[i])
  }

  lemma {:induction false} RunBegins(roots: seq<nat>, turns: seq<Turn>, ws: seq<View>)
    requires Coexist(roots, ws)
    ensures CoexistingRun(roots, turns[..0], [ws], [])
  {
    hide Coexist, WorldTurn;
  }

  lemma {:induction false} RunGoesOn(roots: seq<nat>, turns: seq<Turn>, i: nat, states: seq<seq<View>>, outs: seq<Out>,
                                     ws: seq<View>, o: Out)
    requires i < |turns| && CoexistingRun(roots, turns[..i], states, outs)
             && WorldTurn(roots, turns[i], states[i], ws, o) && Coexist(roots, ws)
    ensures CoexistingRun(roots, turns[..i + 1], states + [ws], outs + [o])
  {
    hide Coexist, WorldTurn;
    WorldRunMore(roots, turns, i, states, outs, ws, o);
  }

  // ----- what a turn leaves alone

  /** The frames that a turn may write to besides the caller's own and the spare ones. */
  ghost function SpillAt(t: Turn, ws: seq<View>, ws': seq<View>, o: Out): set<nat> {
    if t.who < |ws| == |ws'| && Legal(t.call, ws[t.who]) then SpillBy(t.call, ws'[t.who], o) else {}
  }

  lemma {:induction false} TurnIsolated(roots: seq<nat>, t: Turn, ws: seq<View>, ws': seq<View>, o: Out)
    requires WorldTurn(roots, t, ws, ws', o)
    ensures Isolated(roots[t.who], ws[t.who].shot, ws'[t.who].shot, SpillAt(t, ws, ws', o))
  {
    hide Isolated, CallStep, Legal, Survivable, SpillBy;
    if Legal(t.call, ws[t.who]) && Survivable(t.call, SpansOf(ws[t.who].regions)) {
      CallIsolated(roots[t.who], t.call, ws[t.who], ws'[t.who], o);
    } else {
      NothingIsolated(roots[t.who], ws[t.who].shot, SpillAt(t, ws, ws', o));
    }
  }

  /**
   * Another address space than the caller's keeps its invariant and its frames, and each of its
   * regions reads as before, but for pages pointed at frames that were spare, the caller's, or
   * reached by a copy through a region of the caller that is pointed at them.
   */
  lemma {:induction false} OtherKept(roots: seq<nat>, t: Turn, ws: seq<View>, ws': seq<View>, o: Out, j: nat)
    requires Coexist(roots, ws) && WorldTurn(roots, t, ws, ws', o) && j < |ws| && j != t.who
    ensures SpaceIn(roots[j], ws'[j]) && ws'[j].shot.own <= ws'[t.who].shot.lent - ws'[t.who].shot.own
    ensures var spill := SpillAt(t, ws, ws', o);
            ws[j].shot.own !! spill ==>
              AllSameBytes(ws[j].regions, ws[j].shot.ram, ws'[j].regions, ws'[j].shot.ram,
                ws[j].shot.spare + ws[t.who].shot.own + spill)
  {
    hide Isolated, CallTurn, SpaceOk, AllSameBytes, SpillAt;
    assert Apart(roots[t.who], ws[t.who].shot, roots[j], ws[j].shot);
    TurnIsolated(roots, t, ws, ws', o);
    OtherSpaceKept(roots[t.who], ws[t.who].shot, ws'[t.who].shot, SpillAt(t, ws, ws', o), ws[j].holes, ws[j].regions,
      roots[j], ws[j].shot.own);
  }

  lemma {:induction false} TurnCoexists(roots: seq<nat>, t: Turn, ws: seq<View>, ws': seq<View>, o: Out)
    requires Coexist(roots, ws) && WorldTurn(roots, t, ws, ws', o)
    requires SpaceIn(roots[t.who], ws'[t.who]) && ws'[t.who].shot.lent !! ws'[t.who].shot.spare
    ensures Coexist(roots, ws')
  {
    hide CallTurn, SpaceIn, AllSameBytes, SpillAt;
    forall i | 0 <= i < |ws| ensures SpaceIn(roots[i], ws'[i]) && ws'[i].shot.lent !! ws'[i].shot.spare {
      if i != t.who { OtherKept(roots, t, ws, ws', o, i); }
    }
    forall i, j | 0 <= i < |ws| && 0 <= j < |ws| && i != j ensures Apart(roots[i], ws'[i].shot, roots[j], ws'[j].shot) {
      assert Apart(roots[i], ws[i].shot, roots[j], ws[j].shot);
      if i != t.who { OtherKept(roots, t, ws, ws', o, i); }
      if j != t.who { OtherKept(roots, t, ws, ws', o, j); }
    }
  }

  /** No turn of the first n is j's, and none copies into a frame of j's through a region pointed at it. */
  ghost predicate Bystander(turns: seq<Turn>, states: seq<seq<View>>, outs: seq<Out>, j: nat, n: nat)
    requires n <= |turns| && |states| == |turns| + 1 && |outs| == |turns|
  {
    forall i :: 0 <= i < n ==>
      turns[i].who != j && j < |states[i]|
        && states[i][j].shot.own !! SpillAt(turns[i], states[i], states[i + 1], outs[i])
  }

  /** Holes, regions, context and frames are the same, and so is all that is in the frames. */
  ghost predicate Untouched(root: nat, a: View, b: View) {
    && b.holes == a.holes && b.regions == a.regions && b.shot.own == a.shot.own
    && root in a.shot.xlat && root in b.shot.xlat && b.shot.xlat[root] == a.shot.xlat[root]
    && |b.shot.ram| == |a.shot.ram|
    && forall f :: f in a.shot.own && f < |a.shot.ram| ==> b.shot.ram[f] == a.shot.ram[f]
  }

  /** An address space that makes no call finds its holes, regions, frames and their bytes as it left them. */
  lemma {:induction false} BystanderKept(roots: seq<nat>, turns: seq<Turn>, states: seq<seq<View>>, outs: seq<Out>,
                                         j: nat, n: nat)
    requires WorldRun(roots, turns, states, outs) && n <= |turns| && j < |roots|
    requires Bystander(turns, states, outs, j, n) && forall i :: 0 <= i <= n ==> Coexist(roots, states[i])
    ensures j < |states[0]| && j < |states[n]| && Untouched(roots[j], states[0][j], states[n][j])
  {
    hide CallTurn, SpaceOk, SpillAt;
    if n > 0 {
      BystanderKept(roots, turns, states, outs, j, n - 1);
      var t, ws, ws', o := turns[n - 1], states[n - 1], states[n], outs[n - 1];
      assert WorldTurn(roots, t, ws, ws', o) && Coexist(roots, ws);
      assert Apart(roots[t.who], ws[t.who].shot, roots[j], ws[j].shot);
      TurnIsolated(roots, t, ws, ws', o);
    }
  }

  // ----- the runs

  ghost function AllRegions(spaces: seq<AddressSpace>): (rs: set<MemoryMapping>)
    reads spaces
    ensures forall i :: 0 <= i < |spaces| ==> forall r :: r in spaces[i].regions ==> r in rs
  {
    set s, r | s in spaces && r in s.regions :: r
  }

  lemma {:induction false} RegionOf(spaces: seq<AddressSpace>, r: MemoryMapping) returns (i: nat)
    requires r in AllRegions(spaces)
    ensures i < |spaces| && r in spaces[i].regions
  {
    i :| i < |spaces| && r in spaces[i].regions;
  }

  predicate OnMachine(m: Machine, spaces: seq<AddressSpace>) {
    forall i :: 0 <= i < |spaces| ==> spaces[i].m == m
  }

  /** The two share no context, no frame and no object. */
  ghost predicate Strangers(a: AddressSpace, b: AddressSpace)
    reads a, b
  {
    NoneShared(a, b) && a.root != b.root && a.own !! b.own
  }

  ghost predicate Together(m: Machine, spaces: seq<AddressSpace>)
    reads spaces, AllRegions(spaces), m, m.alloc, m.alloc.words
  {
    && OnMachine(m, spaces) && (forall i :: 0 <= i < |spaces| ==> spaces[i].Valid())
    && forall i, j :: 0 <= i < |spaces| && 0 <= j < |spaces| && i != j ==> Strangers(spaces[i], spaces[j])
  }

  function RootsOf(spaces: seq<AddressSpace>): (roots: seq<nat>)
    ensures |roots| == |spaces| && forall i :: 0 <= i < |spaces| ==> roots[i] == spaces[i].root
  {
    if spaces == [] then [] else RootsOf(spaces[..|spaces| - 1]) + [spaces[|spaces| - 1].root]
  }

  ghost function LookAll(m: Machine, spaces: seq<AddressSpace>): (ws: seq<View>)
    requires OnMachine(m, spaces)
    reads spaces, AllRegions(spaces), m, m.alloc
    ensures |ws| == |spaces| && forall i :: 0 <= i < |spaces| ==> ws[i] == spaces[i].Look()
  {
    if spaces == [] then [] else LookAll(m, spaces[..|spaces| - 1]) + [spaces[|spaces| - 1].Look()]
  }

  lemma {:induction false} TogetherCoexist(m: Machine, spaces: seq<AddressSpace>)
    requires Together(m, spaces)
    ensures Coexist(RootsOf(spaces), LookAll(m, spaces))
  {
    hide AddressSpace.Valid, SpaceIn, Snaps, Machine.Spare;
    forall i | 0 <= i < |spaces| ensures SpaceIn(spaces[i].root, spaces[i].Look()) && m.lent !! m.Spare() {
      ValidIn(spaces[i]);
      LentNotSpare(spaces[i]);
    }
    forall i, j | 0 <= i < |spaces| && 0 <= j < |spaces| && i != j
      ensures Apart(spaces[i].root, spaces[i].Now(), spaces[j].root, spaces[j].Now())
    {
      assert Strangers(spaces[i], spaces[j]);
    }
  }

  /** v shows the space; the machine has no part in this. */
  ghost predicate Shown(space: AddressSpace, v: View)
    reads space, space.regions
  {
    && space.root != space.m.kernelRoot && AllDifferent(space.regions)
    && v.holes == space.holes && v.shot.own == space.own && |v.regions| == |space.regions|
    && forall i :: 0 <= i < |space.regions| ==> ShownRegion(space.regions[i], v.regions[i])
  }

  ghost predicate ShownRegion(r: MemoryMapping, v: Region)
    reads r
  {
    r.mapped && v == Value(r)
  }

  lemma {:induction false} ValidShown(space: AddressSpace)
    requires space.Valid()
    ensures Shown(space, space.Look()) && space.m.Valid()
  {
    hide Machine.Valid, SpaceOk, AllDifferent, Snaps;
  }

  /** A space that has not moved is valid on the machine as it is now. */
  lemma {:induction false} ValidBeside(space: AddressSpace, v: View, other: AddressSpace)
    requires Shown(space, v) && space.m == other.m && other.m.Valid()
    ensures space.Look() == Beside(v, other.Look().shot)
    ensures SpaceIn(space.root, space.Look()) ==> space.Valid()
  {
    hide Machine.Valid, SpaceOk, AllDifferent, Snaps, Machine.Spare;
    assert v.regions == Snaps(space.regions);
  }

  lemma {:induction false} StillTogether(m: Machine, spaces: seq<AddressSpace>, t: Turn, ws: seq<View>, o: Out)
    requires OnMachine(m, spaces) && t.who < |spaces| && Coexist(RootsOf(spaces), ws) && spaces[t.who].Valid()
    requires CallTurn(spaces[t.who].root, t.call, ws[t.who], spaces[t.who].Look(), o)
    requires AllShown(spaces, ws, t.who)
    ensures Together(m, spaces) && WorldTurn(RootsOf(spaces), t, ws, LookAll(m, spaces), o)
  {
    hide AddressSpace.Valid, AddressSpace.Look, AllRegions, CallTurn, SpaceIn, Shown, NoneShared, AllSameBytes, SpillAt;
    var ws' := LookAll(m, spaces);
    ValidShown(spaces[t.who]);
    forall j | 0 <= j < |spaces| && j != t.who ensures ws'[j] == Beside(ws[j], ws'[t.who].shot) {
      ValidBeside(spaces[j], ws[j], spaces[t.who]);
    }
    assert WorldTurn(RootsOf(spaces), t, ws, ws', o);
    ValidIn(spaces[t.who]);
    LentNotSpare(spaces[t.who]);
    TurnCoexists(RootsOf(spaces), t, ws, ws', o);
    forall j | 0 <= j < |spaces| ensures spaces[j].Valid() {
      if j != t.who { ValidBeside(spaces[j], ws[j], spaces[t.who]); }
    }
    forall i, j | 0 <= i < |spaces| && 0 <= j < |spaces| && i != j ensures Strangers(spaces[i], spaces[j]) {
      assert Apart(RootsOf(spaces)[i], ws'[i].shot, RootsOf(spaces)[j], ws'[j].shot)
             && NoneShared(spaces[i], spaces[j]);
      NoneSharedStrangers(spaces[i], spaces[j]);
    }
  }

  ghost predicate NoneShared(a: AddressSpace, b: AddressSpace)
    reads a`regions, b`regions
  {
    a != b && forall r :: r in a.regions ==> r !in b.regions
  }

  lemma {:induction false} NoneSharedStrangers(a: AddressSpace, b: AddressSpace)
    requires NoneShared(a, b) && a.root != b.root && a.Look().shot.own !! b.Look().shot.own
    ensures Strangers(a, b)
  {
    hide Snaps, Machine.Spare;
  }

  lemma {:induction false} LentNotSpare(space: AddressSpace)
    requires space.Valid()
    ensures space.Look().shot.lent !! space.Look().shot.spare
  {
    hide Machine.Spare, Machine.Valid, SpaceOk, AllMapped, AllDifferent, Snaps;
    space.m.SpareFrames();
  }

  ghost predicate AllWithin(spaces: seq<AddressSpace>, cap: nat)
    reads spaces
  {
    forall i :: 0 <= i < |spaces| ==> SizesWithin(spaces[i].regions, cap)
  }

  /** One space makes the call; nothing is written in the others, and the regions it gets are new. */
  method TurnOfOne(spaces: seq<AddressSpace>, t: Turn, ghost ws: seq<View>, ghost cap: nat)
    returns (ok: bool, ghost o: Out)
    requires t.who < |spaces| == |ws| && spaces[t.who].Valid() && WindowsClear(spaces[t.who].m)
             && AllShown(spaces, ws, |spaces|)
    modifies spaces[t.who], spaces[t.who].regions, spaces[t.who].m, spaces[t.who].m.alloc, spaces[t.who].m.alloc.words
    ensures old(AllWithin(spaces, cap)) && |old(spaces[t.who].m.alloc.Free)| >= Cost(t.call, cap) ==> ok
    ensures ok ==> spaces[t.who].Valid() && WindowsClear(spaces[t.who].m) && AllShown(spaces, ws, t.who)
    ensures ok ==> CallTurn(spaces[t.who].root, t.call, old(spaces[t.who].Look()), spaces[t.who].Look(), o)
    ensures ok ==> forall r :: r in spaces[t.who].regions ==> r in old(spaces[t.who].regions) || fresh(r)
    ensures ok && old(AllWithin(spaces, cap)) ==>
            |spaces[t.who].m.alloc.Free| + Cost(t.call, cap) >= |old(spaces[t.who].m.alloc.Free)|
    ensures ok && old(AllWithin(spaces, cap)) && SizeOf(t.call) <= cap ==> AllWithin(spaces, cap)
  {
    hide AddressSpace.Valid, AddressSpace.Look, CallTurn, WindowsClear, Cost, SizeOf, SizesWithin, AllDifferent, Value;
    var space := spaces[t.who];
    ok, o := TakeTurn(space, t.call, cap);
    if !ok { return; }
    forall i, j | 0 <= i < |spaces| && 0 <= j < |spaces| && i != j ensures NoneShared(spaces[i], spaces[j]) {
      assert old(NoneShared(spaces[i], spaces[j]));
    }
    forall j | 0 <= j < |spaces| && j != t.who ensures Shown(spaces[j], ws[j]) {
      assert old(Shown(spaces[j], ws[j])) && old(NoneShared(spaces[j], space));
      forall i | 0 <= i < |spaces[j].regions| ensures ShownRegion(spaces[j].regions[i], ws[j].regions[i]) {
        assert spaces[j].regions[i] in old(spaces[j].regions);
      }
    }
  }

  /** All but one of the spaces are as the views show them, and no two share a region. */
  ghost predicate AllShown(spaces: seq<AddressSpace>, ws: seq<View>, but: nat)
    reads spaces, AllRegions(spaces)
  {
    && |ws| == |spaces|
    && (forall j :: 0 <= j < |spaces| && j != but ==> Shown(spaces[j], ws[j]))
    && forall i, j :: 0 <= i < |spaces| && 0 <= j < |spaces| && i != j ==> NoneShared(spaces[i], spaces[j])
  }

  lemma {:induction false} TogetherShown(m: Machine, spaces: seq<AddressSpace>)
    requires Together(m, spaces)
    ensures AllShown(spaces, LookAll(m, spaces), |spaces|)
  {
    hide AddressSpace.Valid, AddressSpace.Look, Shown, NoneShared;
    forall j | 0 <= j < |spaces| ensures Shown(spaces[j], spaces[j].Look()) { ValidShown(spaces[j]); }
    forall i, j | 0 <= i < |spaces| && 0 <= j < |spaces| && i != j ensures NoneShared(spaces[i], spaces[j]) {
      assert Strangers(spaces[i], spaces[j]);
    }
  }

  method WorldStep(m: Machine, spaces: seq<AddressSpace>, t: Turn, ghost cap: nat) returns (ok: bool, ghost o: Out)
    requires Together(m, spaces) && WindowsClear(m) && t.who < |spaces|
    modifies spaces, AllRegions(spaces), m, m.alloc, m.alloc.words
    ensures old(AllWithin(spaces, cap)) && |old(m.alloc.Free)| >= Cost(t.call, cap) ==> ok
    ensures ok ==> Together(m, spaces) && WindowsClear(m)
    ensures ok ==> WorldTurn(RootsOf(spaces), t, old(LookAll(m, spaces)), LookAll(m, spaces), o)
    ensures ok ==> forall r :: r in AllRegions(spaces) ==> r in old(AllRegions(spaces)) || fresh(r)
    ensures ok && old(AllWithin(spaces, cap)) ==> |m.alloc.Free| + Cost(t.call, cap) >= |old(m.alloc.Free)|
    ensures ok && old(AllWithin(spaces, cap)) && SizeOf(t.call) <= cap ==> AllWithin(spaces, cap)
  {
    hide AllRegions, AllWithin, AddressSpace.Valid, AddressSpace.Look, CallTurn, WindowsClear, Cost, SizeOf, Coexist,
         WorldTurn, AllShown, Strangers;
    ghost var ws := LookAll(m, spaces);
    TogetherCoexist(m, spaces);
    TogetherShown(m, spaces);
    ok, o := TurnOfOne(spaces, t, ws, cap);
    if !ok { return; }
    forall r | r in AllRegions(spaces) ensures r in old(AllRegions(spaces)) || fresh(r) {
      var i := RegionOf(spaces, r);
    }
    StillTogether(m, spaces, t, ws, o);
  }

  /** A new address space beside the others. */
  method Join(m: Machine, spaces: seq<AddressSpace>) returns (space: AddressSpace)
    requires Together(m, spaces) && WindowsClear(m) && m.Valid() && m.alloc.Free != {}
    modifies m, m.alloc, m.alloc.words
    ensures fresh(space) && Together(m, spaces + [space]) && WindowsClear(m)
    ensures space.holes == [USER_SPAN] && space.regions == []
  {
    hide AllRegions, AddressSpace.Valid, AddressSpace.Look, Coexist, AllDifferent, Value, Machine.Valid;
    ghost var ws, x, lent := LookAll(m, spaces), m.xlat, m.lent;
    TogetherCoexist(m, spaces);
    forall j | 0 <= j < |spaces|
      ensures Shown(spaces[j], ws[j]) && ws[j].shot.xlat == x && ws[j].shot.lent == lent && spaces[j].root in x
    {
      ValidShown(spaces[j]);
      LookMachine(spaces[j]);
      ValidIn(spaces[j]);
    }
    space := new AddressSpace(m);
    forall j | 0 <= j < |spaces|
      ensures Shown(spaces[j], ws[j]) && NoneShared(spaces[j], space) && NoneShared(space, spaces[j])
    {
      assert forall i ::
             0 <= i < |spaces[j].regions| ==>
             spaces[j].regions[i] in spaces[j].regions && unchanged(spaces[j].regions[i]);
    }
    Joined(m, spaces, x, ws, space);
  }

  lemma {:induction false} LookMachine(space: AddressSpace)
    ensures var now := space.Look().shot; now.xlat == space.m.xlat && now.lent == space.m.lent && now.own == space.own
  {
    hide Snaps, Machine.Spare;
  }

  lemma {:induction false} Joined(m: Machine, spaces: seq<AddressSpace>, x: map<nat, map<nat, nat>>, ws: seq<View>,
                                  space: AddressSpace)
    requires OnMachine(m, spaces) && space.m == m && space.Valid() && Coexist(RootsOf(spaces), ws)
    requires space.own == {} && space.root !in x && m.xlat == x[space.root := map[]]
    requires forall j ::
             0 <= j < |spaces| ==>
             Shown(spaces[j], ws[j]) && NoneShared(spaces[j], space) && NoneShared(space, spaces[j])
    requires forall j :: 0 <= j < |spaces| ==> ws[j].shot.xlat == x && ws[j].shot.lent == m.lent && spaces[j].root in x
    requires forall i, j :: 0 <= i < |spaces| && 0 <= j < |spaces| && i != j ==> Strangers(spaces[i], spaces[j])
    ensures Together(m, spaces + [space])
  {
    hide AddressSpace.Valid, AddressSpace.Look, AllRegions, Shown, NoneShared, SpaceIn;
    forall j | 0 <= j < |spaces|
      ensures spaces[j].Valid() && Strangers(spaces[j], space) && Strangers(space, spaces[j])
    {
      StaysValid(spaces[j], ws[j], x, space);
    }
  }

  lemma {:induction false} StaysValid(first: AddressSpace, v: View, x: map<nat, map<nat, nat>>, space: AddressSpace)
    requires Shown(first, v) && SpaceIn(first.root, v) && first.m == space.m && space.Valid() && v.shot.xlat == x
             && v.shot.lent == first.m.lent
    requires space.root !in x && space.m.xlat == x[space.root := map[]]
    ensures first.Valid() && first.root != space.root
  {
    hide AddressSpace.Valid, AddressSpace.Look, Shown, SpaceOk;
    ValidShown(space);
    LookMachine(space);
    ValidBeside(first, v, space);
  }

  function CallsOf(turns: seq<Turn>): (calls: seq<Call>)
    ensures |calls| == |turns| && forall i :: 0 <= i < |turns| ==> calls[i] == turns[i].call
  {
    if turns == [] then [] else CallsOf(turns[..|turns| - 1]) + [turns[|turns| - 1].call]
  }

  /**
   * Calls on several address spaces in any order. Each is a turn of one of them, and in every
   * state on the way each address space has its invariant, and no two share a context or a frame.
   */
  method RunAll(m: Machine, spaces: seq<AddressSpace>, turns: seq<Turn>, ghost cap: nat)
    returns (ok: bool, ghost states: seq<seq<View>>, ghost outs: seq<Out>)
    requires Together(m, spaces) && WindowsClear(m) && forall i :: 0 <= i < |turns| ==> turns[i].who < |spaces|
    modifies spaces, AllRegions(spaces), m, m.alloc, m.alloc.words
    ensures (old(AllWithin(spaces, cap)) && CallsWithin(CallsOf(turns), cap)
             && |old(m.alloc.Free)| >= Budget(CallsOf(turns), cap)) ==> ok
    ensures ok ==> Together(m, spaces) && WindowsClear(m)
    ensures ok ==> CoexistingRun(RootsOf(spaces), turns, states, outs)
    ensures ok ==> states[0] == old(LookAll(m, spaces)) && states[|turns|] == LookAll(m, spaces)
  {
    hide Together, OnMachine, WindowsClear, AllRegions, AllWithin, CallsWithin, CallsOf, Budget, Cost, SizeOf,
         CoexistingRun, WorldTurn, Coexist, LookAll, RootsOf;
    ghost var calls, n := CallsOf(turns), |m.alloc.Free|;
    assert OnMachine(m, spaces) by { TogetherOn(m, spaces); }
    TogetherCoexist(m, spaces);
    RunBegins(RootsOf(spaces), turns, LookAll(m, spaces));
    BudgetGrows(calls, cap, 0, |calls|);
    states, outs, ok := [LookAll(m, spaces)], [], true;
    var i := 0;
    while i < |turns|
      invariant i <= |turns| && Together(m, spaces) && WindowsClear(m)
      invariant |states| == i + 1 && CoexistingRun(RootsOf(spaces), turns[..i], states, outs)
      invariant states[0] == old(LookAll(m, spaces)) && states[i] == LookAll(m, spaces)
      invariant old(AllWithin(spaces, cap)) && CallsWithin(calls, cap) ==>
                AllWithin(spaces, cap) && |m.alloc.Free| + Budget(calls[..i], cap) >= n
      invariant forall r :: r in AllRegions(spaces) ==> r in old(AllRegions(spaces)) || fresh(r)
    {
      RunTurn(calls, i, cap);
      ghost var o;
      ok, o := WorldStep(m, spaces, turns[i], cap);
      if !ok { return; }
      TogetherCoexist(m, spaces);
      RunGoesOn(RootsOf(spaces), turns, i, states, outs, LookAll(m, spaces), o);
      states, outs := states + [LookAll(m, spaces)], outs + [o];
      i := i + 1;
    }
    ok := true;
    assert turns[..i] == turns;
  }

  lemma {:induction false} TogetherOn(m: Machine, spaces: seq<AddressSpace>)
    requires Together(m, spaces)
    ensures OnMachine(m, spaces)
  {
    hide AddressSpace.Valid, Strangers;
  }
}
