/** What the ancestor walk computes, stated over chains of parent edges.  A
    chain climbs from a file through recorded parent sets; its time is the
    latest modification time along it.  The walk ends with exactly the roots
    that chains from the start reach, each carrying the time of one such
    chain.  Overwriting a pending time (as the walk is written) can leave a
    root with the time of an older chain when two chains meet; keeping the
    larger time (`merge`) gives every root the latest time over all its
    chains. */
module Chains {
  import opened Paths
  import opened Fs
  import opened Handlers
  import opened Ancestry

  /** Every step of `c` goes from a recorded file to one of its recorded parents. */
  ghost predicate IsChain(g: Graph, c: seq<string>) {
    && |c| > 0
    && (forall i :: 0 <= i < |c| ==> c[i] in g.parents)
    && (forall i :: 0 <= i < |c| - 1 ==> c[i + 1] in g.parents[c[i]].members)
  }

  /** The latest recorded time along the chain. */
  function ChainTime(g: Graph, c: seq<string>): int
    requires |c| > 0 && forall i :: 0 <= i < |c| ==> c[i] in g.parents
  {
    if |c| == 1 then g.parents[c[0]].updated
    else Max(ChainTime(g, c[..|c| - 1]), g.parents[c[|c| - 1]].updated)
  }

  /** A chain from `start` that ends at a root. */
  ghost predicate Complete(g: Graph, start: string, c: seq<string>) {
    IsChain(g, c) && c[0] == start && Root(g, c[|c| - 1])
  }

  /** Every pending key carries the time of some chain from `start` to it. */
  ghost predicate Reachable(g: Graph, start: string, ps: Pending) {
    forall y :: y in ps.time ==> exists c ::
      IsChain(g, c) && c[0] == start && c[|c| - 1] == y && ChainTime(g, c) == ps.time[y]
  }

  /** Every complete chain from `start` still has a pending key on it, and with
      `merge` that key's time covers the chain up to it. */
  ghost predicate Covered(g: Graph, start: string, ps: Pending, merge: bool) {
    forall c :: Complete(g, start, c) ==> exists k ::
      0 <= k < |c| && c[k] in ps.time && (merge ==> ps.time[c[k]] >= ChainTime(g, c[..k + 1]))
  }

  lemma ChainExtend(g: Graph, c: seq<string>, y: string)
    requires IsChain(g, c) && y in g.parents[c[|c| - 1]].members && y in g.parents
    ensures IsChain(g, c + [y])
    ensures ChainTime(g, c + [y]) == Max(ChainTime(g, c), g.parents[y].updated)
  {
    assert (c + [y])[..|c|] == c;
  }

  lemma ChainPrefix(g: Graph, c: seq<string>, k: nat)
    requires IsChain(g, c) && k < |c| - 1
    ensures c[..k + 2][..k + 1] == c[..k + 1]
    ensures IsChain(g, c[..k + 1]) && c[k + 1] in g.parents[c[..k + 1][k]].members
    ensures ChainTime(g, c[..k + 2]) == Max(ChainTime(g, c[..k + 1]), g.parents[c[k + 1]].updated)
  {
    assert c[..k + 2][..k + 1] == c[..k + 1];
  }

  lemma StartFacts(g: Graph, start: string, merge: bool)
    requires start in g.parents
    ensures Reachable(g, start, Start(g, start))
    ensures Covered(g, start, Start(g, start), merge)
  {
    var ps := Start(g, start);
    assert IsChain(g, [start]) && ChainTime(g, [start]) == ps.time[start];
    forall c | Complete(g, start, c)
      ensures exists k :: 0 <= k < |c| && c[k] in ps.time && (merge ==> ps.time[c[k]] >= ChainTime(g, c[..k + 1]))
    {
      assert c[..1] == [start];
    }
  }

  /** Putting the parents of `x` with times that extend a chain to `x` keeps
      every pending time the time of a chain. */
  lemma ReachableAfter(g: Graph, start: string, p: Pending, x: string, tx: int, t: Pending)
    requires Reachable(g, start, p) && x in g.parents
    requires exists c :: IsChain(g, c) && c[0] == start && c[|c| - 1] == x && ChainTime(g, c) == tx
    requires forall z :: z in t.time ==>
      (z in p.time && t.time[z] == p.time[z])
      || (z in g.parents[x].members && z in g.parents && t.time[z] == Max(tx, g.parents[z].updated))
    ensures Reachable(g, start, t)
  {
    var cx :| IsChain(g, cx) && cx[0] == start && cx[|cx| - 1] == x && ChainTime(g, cx) == tx;
    forall y | y in t.time
      ensures exists c :: IsChain(g, c) && c[0] == start && c[|c| - 1] == y && ChainTime(g, c) == t.time[y]
    {
      if y in p.time && t.time[y] == p.time[y] {
        var c :| IsChain(g, c) && c[0] == start && c[|c| - 1] == y && ChainTime(g, c) == p.time[y];
      } else {
        ChainExtend(g, cx, y);
        assert (cx + [y])[0] == start && (cx + [y])[|cx + [y]| - 1] == y;
      }
    }
  }

  /** One step keeps every pending time the time of a chain. */
  lemma StepReachable(g: Graph, start: string, ps: Pending, i: nat, merge: bool)
    requires Acyclic(g) && WellFormed(ps) && Known(g, ps) && Reachable(g, start, ps)
    requires i < |ps.order|
    ensures var x := ps.order[i];
      var s := Spread(g, Pop(ps, i), ps.time[x], g.parents[x].members, merge);
      s.Ok() ==> Reachable(g, start, s.state)
  {
    var x := ps.order[i];
    var p := Pop(ps, i);
    var s := Spread(g, p, ps.time[x], g.parents[x].members, merge);
    if s.Ok() {
      assert Reachable(g, start, p);
      ReachableAfter(g, start, p, x, ps.time[x], s.state);
    }
  }

  /** Putting every parent of a popped key that is not a root keeps every
      complete chain covered, provided no time decreases under `merge`. */
  lemma CoveredAfter(g: Graph, start: string, ps: Pending, x: string, t: Pending, merge: bool)
    requires Covered(g, start, ps, merge) && x in ps.time && x in g.parents && !Root(g, x)
    requires forall z :: z in ps.time && z != x ==> z in t.time && (merge ==> t.time[z] >= ps.time[z])
    requires forall z :: z in g.parents[x].members && z in g.parents ==>
      z in t.time && (merge ==> t.time[z] >= Max(ps.time[x], g.parents[z].updated))
    ensures Covered(g, start, t, merge)
  {
    forall c | Complete(g, start, c)
      ensures exists k :: 0 <= k < |c| && c[k] in t.time && (merge ==> t.time[c[k]] >= ChainTime(g, c[..k + 1]))
    {
      var k :| 0 <= k < |c| && c[k] in ps.time && (merge ==> ps.time[c[k]] >= ChainTime(g, c[..k + 1]));
      if c[k] == x {
        assert k < |c| - 1;
        ChainPrefix(g, c, k);
        assert c[k + 1] in t.time;
      }
    }
  }

  /** One step keeps every complete chain covered. */
  lemma StepCovered(g: Graph, start: string, ps: Pending, i: nat, merge: bool)
    requires Acyclic(g) && WellFormed(ps) && Known(g, ps) && Covered(g, start, ps, merge)
    requires i < |ps.order| && !Root(g, ps.order[i])
    ensures var x := ps.order[i];
      var s := Spread(g, Pop(ps, i), ps.time[x], g.parents[x].members, merge);
      s.Ok() ==> Covered(g, start, s.state, merge)
  {
    var x := ps.order[i];
    var p := Pop(ps, i);
    var s := Spread(g, p, ps.time[x], g.parents[x].members, merge);
    if s.Ok() {
      CoveredAfter(g, start, ps, x, s.state, merge);
    }
  }

  lemma {:induction false} WalkKeeps(g: Graph, start: string, ps: Pending, merge: bool)
    requires Acyclic(g) && WellFormed(ps) && Known(g, ps)
    requires Reachable(g, start, ps) && Covered(g, start, ps, merge)
    ensures Walk(g, ps, merge).Ok() ==>
      Reachable(g, start, Walk(g, ps, merge).state) && Covered(g, start, Walk(g, ps, merge).state, merge)
    decreases Weight(g, ps.order)
  {
    match FirstNested(g, ps.order)
    case None =>
    case Some(i) =>
      var x := ps.order[i];
      var s := Spread(g, Pop(ps, i), ps.time[x], g.parents[x].members, merge);
      if s.Ok() {
        StepReachable(g, start, ps, i, merge);
        StepCovered(g, start, ps, i, merge);
        StepWeight(g, ps, i, merge);
        WalkKeeps(g, start, s.state, merge);
      }
  }

  /** Every file of a chain but the last has a parent on it. */
  lemma NestedOnChain(g: Graph, c: seq<string>, k: nat)
    requires IsChain(g, c) && k < |c|
    ensures k < |c| - 1 ==> !Root(g, c[k])
  {
    if k < |c| - 1 {
      assert c[k + 1] in g.parents[c[k]].members;
    }
  }

  /** The pending key that covers a complete chain, once every key is a root,
      is the chain's own end. */
  lemma CoveredAtRoots(g: Graph, start: string, ps: Pending, merge: bool, c: seq<string>)
    requires Known(g, ps) && WellFormed(ps) && (forall y :: y in ps.order ==> Root(g, y))
    requires Covered(g, start, ps, merge) && Complete(g, start, c)
    ensures c[|c| - 1] in ps.time
    ensures merge ==> ps.time[c[|c| - 1]] >= ChainTime(g, c)
  {
    var k :| 0 <= k < |c| && c[k] in ps.time && (merge ==> ps.time[c[k]] >= ChainTime(g, c[..k + 1]));
    NestedOnChain(g, c, k);
    assert c[..k + 1] == c;
  }

  // ---------------------------------------------------------------------------
  // What the walk ends with

  /** Every key the walk ends with is a root reached from `path`, carrying the
      time of one chain to it. */
  lemma WalkEndsAtReachedRoots(g: Graph, path: string, merge: bool)
    requires Acyclic(g) && path in g.parents
    ensures var r := Walk(g, Start(g, path), merge);
      r.Ok() ==> forall y :: y in r.state.time ==>
        y in g.parents && Root(g, y) &&
        exists c :: IsChain(g, c) && c[0] == path && c[|c| - 1] == y && ChainTime(g, c) == r.state.time[y]
  {
    StartFacts(g, path, merge);
    WalkKeeps(g, path, Start(g, path), merge);
  }

  /** Every root that a chain from `path` reaches is among the keys the walk
      ends with, whichever way pending times are put. */
  lemma WalkFindsEveryRoot(g: Graph, path: string, merge: bool, c: seq<string>)
    requires Acyclic(g) && path in g.parents && Complete(g, path, c)
    ensures var r := Walk(g, Start(g, path), merge);
      r.Ok() ==> c[|c| - 1] in r.state.time
  {
    StartFacts(g, path, merge);
    WalkKeeps(g, path, Start(g, path), merge);
    var r := Walk(g, Start(g, path), merge);
    if r.Ok() {
      CoveredAtRoots(g, path, r.state, merge, c);
    }
  }

  /** Keeping the larger pending time, each root ends with the latest time of
      every chain that reaches it. */
  lemma MergedWalkKeepsLatest(g: Graph, path: string, c: seq<string>)
    requires Acyclic(g) && path in g.parents && Complete(g, path, c)
    ensures var r := Walk(g, Start(g, path), true);
      r.Ok() ==> c[|c| - 1] in r.state.time && r.state.time[c[|c| - 1]] >= ChainTime(g, c)
  {
    StartFacts(g, path, true);
    WalkKeeps(g, path, Start(g, path), true);
    var r := Walk(g, Start(g, path), true);
    if r.Ok() {
      CoveredAtRoots(g, path, r.state, true, c);
    }
  }

  // ---------------------------------------------------------------------------
  // Two chains that meet

  /** `d` references `b` and `c`, both of which reference `a`; `b` changed last. */
  function Diamond(): Graph {
    Graph(
      map["d" := TimedSet(0, ["b", "c"]), "b" := TimedSet(5, ["a"]),
          "c" := TimedSet(1, ["a"]), "a" := TimedSet(0, [])],
      map["b" := {"d"}, "c" := {"d"}, "a" := {"b", "c"}])
  }

  /** The parent sets the walk from `d` looks up. */
  predicate DiamondShape(g: Graph) {
    && "d" in g.parents && g.parents["d"] == TimedSet(0, ["b", "c"])
    && "b" in g.parents && g.parents["b"] == TimedSet(5, ["a"])
    && "c" in g.parents && g.parents["c"] == TimedSet(1, ["a"])
    && "a" in g.parents && g.parents["a"] == TimedSet(0, [])
  }

  lemma DiamondHasShape()
    ensures DiamondShape(Diamond())
  {
  }

  lemma DiamondAcyclic()
    ensures Acyclic(Diamond())
  {
    var g := Diamond();
    var h := map["a" := 0, "b" := 1, "c" := 1, "d" := 2];
    forall y | y in g.parents
      ensures y in h && forall p :: p in g.parents[y].members && p in g.parents ==> p in h && h[p] < h[y]
    {
      assert y == "a" || y == "b" || y == "c" || y == "d";
    }
    assert Ranked(g, h);
  }

  /** One step of the walk, for stepping through a concrete graph. */
  lemma WalkStep(g: Graph, ps: Pending, i: nat, q: Pending, merge: bool)
    requires Acyclic(g) && WellFormed(ps) && Known(g, ps)
    requires FirstNested(g, ps.order) == Some(i)
    requires Spread(g, Pop(ps, i), ps.time[ps.order[i]], g.parents[ps.order[i]].members, merge) == Done(q)
    ensures Known(g, q) && WellFormed(q)
    ensures Walk(g, ps, merge) == Walk(g, q, merge)
  {
  }

  /** A walk whose one key is a root has nothing to do. */
  lemma WalkAtRoot(g: Graph, ps: Pending, y: string, merge: bool)
    requires Acyclic(g) && WellFormed(ps) && ps.order == [y] && y in g.parents && Root(g, y)
    ensures Walk(g, ps, merge) == Done(ps)
  {
    assert FirstNested(g, ps.order) == None;
  }

  /** The spread over a single parent. */
  lemma SpreadOne(g: Graph, ps: Pending, tx: int, m: string, merge: bool)
    requires WellFormed(ps) && m in g.parents
    ensures Spread(g, ps, tx, [m], merge) == Done(Put(ps, m, Max(tx, g.parents[m].updated), merge))
  {
    assert [m][1..] == [];
  }

  /** From `d`: pop it and put `b` with time 5 and `c` with time 1. */
  lemma DiamondFromD(g: Graph, merge: bool)
    requires Acyclic(g) && DiamondShape(g)
    ensures var r := Walk(g, Start(g, "d"), merge);
      r.Ok() && r.state.order == ["a"] && r.state.time["a"] == if merge then 5 else 1
  {
    var p0 := Start(g, "d");
    assert FirstNested(g, p0.order) == Some(0);
    var q := DiamondSpreadD(g, p0, merge);
    WalkStep(g, p0, 0, q, merge);
    DiamondFromB(g, q, merge);
  }

  function DiamondSpreadD(g: Graph, p0: Pending, merge: bool): (q: Pending)
    requires DiamondShape(g) && p0 == Start(g, "d")
    ensures WellFormed(q) && q.order == ["b", "c"] && q.time["b"] == 5 && q.time["c"] == 1
    ensures Spread(g, Pop(p0, 0), 0, ["b", "c"], merge) == Done(q)
  {
    var p := Pop(p0, 0);
    assert p.order == [] && p.time == map[];
    var q := Put(p, "b", 5, merge);
    assert q.order == ["b"] && q.time["b"] == 5 && "c" !in q.time;
    var q2 := Put(q, "c", 1, merge);
    SpreadHead(g, p, 0, ["b", "c"], merge);
    SpreadOne(g, q, 0, "c", merge);
    q2
  }

  /** The spread puts its first parent, then spreads over the rest. */
  lemma SpreadHead(g: Graph, ps: Pending, tx: int, ms: seq<string>, merge: bool)
    requires WellFormed(ps) && |ms| > 0 && ms[0] in g.parents
    ensures Spread(g, ps, tx, ms, merge) == Spread(g, Put(ps, ms[0], Max(tx, g.parents[ms[0]].updated), merge), tx, ms[1..], merge)
  {
  }

  /** Pop `b` and put `a` with time 5. */
  lemma DiamondFromB(g: Graph, p1: Pending, merge: bool)
    requires Acyclic(g) && DiamondShape(g) && WellFormed(p1)
    requires p1.order == ["b", "c"] && p1.time["b"] == 5 && p1.time["c"] == 1
    ensures var r := Walk(g, p1, merge);
      r.Ok() && r.state.order == ["a"] && r.state.time["a"] == if merge then 5 else 1
  {
    assert FirstNested(g, p1.order) == Some(0);
    var q := DiamondSpreadB(g, p1, merge);
    WalkStep(g, p1, 0, q, merge);
    DiamondFromC(g, q, merge);
  }

  function DiamondSpreadB(g: Graph, p1: Pending, merge: bool): (q: Pending)
    requires DiamondShape(g) && WellFormed(p1)
    requires p1.order == ["b", "c"] && p1.time["b"] == 5 && p1.time["c"] == 1
    ensures WellFormed(q) && q.order == ["c", "a"] && q.time["c"] == 1 && q.time["a"] == 5
    ensures Spread(g, Pop(p1, 0), 5, ["a"], merge) == Done(q)
  {
    var p := Pop(p1, 0);
    assert p.order == ["c"] && p.time["c"] == 1 && "a" !in p.time by {
      assert p1.order[1..] == ["c"];
    }
    SpreadOne(g, p, 5, "a", merge);
    Put(p, "a", 5, merge)
  }

  /** Pop `c` and put `a` again, now with time 1. */
  lemma DiamondFromC(g: Graph, p2: Pending, merge: bool)
    requires Acyclic(g) && DiamondShape(g) && WellFormed(p2)
    requires p2.order == ["c", "a"] && p2.time["c"] == 1 && p2.time["a"] == 5
    ensures var r := Walk(g, p2, merge);
      r.Ok() && r.state.order == ["a"] && r.state.time["a"] == if merge then 5 else 1
  {
    var q := DiamondSpreadC(g, p2, merge);
    assert Walk(g, p2, merge) == Walk(g, q, merge) by {
      assert FirstNested(g, p2.order) == Some(0);
      WalkStep(g, p2, 0, q, merge);
    }
    WalkAtRoot(g, q, "a", merge);
  }

  function DiamondSpreadC(g: Graph, p2: Pending, merge: bool): (q: Pending)
    requires DiamondShape(g) && WellFormed(p2)
    requires p2.order == ["c", "a"] && p2.time["c"] == 1 && p2.time["a"] == 5
    ensures WellFormed(q) && q.order == ["a"] && q.time["a"] == if merge then 5 else 1
    ensures Spread(g, Pop(p2, 0), 1, ["a"], merge) == Done(q)
  {
    var p := Pop(p2, 0);
    assert p.order == ["a"] && p.time["a"] == 5 by {
      assert p2.order[1..] == ["a"];
    }
    SpreadOne(g, p, 1, "a", merge);
    Put(p, "a", 1, merge)
  }

  lemma DiamondChain(g: Graph)
    requires DiamondShape(g)
    ensures Complete(g, "d", ["d", "b", "a"]) && ChainTime(g, ["d", "b", "a"]) == 5
  {
    var c := ["d", "b", "a"];
    assert IsChain(g, c);
    assert c[..2] == ["d", "b"] && c[..2][..1] == ["d"];
    assert ChainTime(g, ["d"]) == 0;
    assert ChainTime(g, ["d", "b"]) == 5;
  }

  /** As written, the walk from `d` puts `a` with time 5 through `b`, then
      overwrites it with time 1 through `c`: the root ends with the time of
      the chain through `c`, older than the chain through `b`.  `Diamond()` is
      one such graph. */
  lemma DiamondOverwrites(g: Graph)
    requires Acyclic(g) && DiamondShape(g)
    ensures var r := Walk(g, Start(g, "d"), false);
      r.Ok() && r.state.order == ["a"] && r.state.time["a"] == 1
    ensures Complete(g, "d", ["d", "b", "a"]) && ChainTime(g, ["d", "b", "a"]) == 5
  {
    DiamondFromD(g, false);
    DiamondChain(g);
  }

  /** Keeping the larger time, the same walk ends with `a` at time 5. */
  lemma DiamondMerged(g: Graph)
    requires Acyclic(g) && DiamondShape(g)
    ensures var r := Walk(g, Start(g, "d"), true);
      r.Ok() && r.state.order == ["a"] && r.state.time["a"] == 5
  {
    DiamondFromD(g, true);
  }
}
