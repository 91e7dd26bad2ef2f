/** The ancestor walk of `TreeHandler.build`.  Starting from one file, the
    walk keeps a dictionary from file to time; it repeatedly pops the first
    key that has parents and puts each parent with the larger of the popped
    time and the parent's own recorded time, until every key is a root.  The
    walk only ends on an acyclic graph; the measure that shows it is the
    number of parent chains that leave the pending keys. */
module Ancestry {
  import opened Paths
  import opened Fs
  import opened Handlers

  /** The dictionary `paths`: its keys in insertion order and their times. */
  datatype Pending = Pending(order: seq<string>, time: map<string, int>)

  ghost predicate WellFormed(ps: Pending) {
    NoDup(ps.order) && forall y :: y in ps.time <==> y in ps.order
  }

  /** Every pending key has a recorded parent set. */
  predicate Known(g: Graph, ps: Pending) {
    forall y :: y in ps.order ==> y in g.parents
  }

  /** A file with an empty parent set. */
  predicate Root(g: Graph, y: string)
    requires y in g.parents
  {
    |g.parents[y].members| == 0
  }

  /** The walk's dictionary when it starts from `path`. */
  function Start(g: Graph, path: string): (ps: Pending)
    requires path in g.parents
    ensures WellFormed(ps) && Known(g, ps)
  {
    Pending([path], map[path := g.parents[path].updated])
  }

  /** `paths[y] = t`: a new key goes last, an existing key keeps its place and
      takes the new time; with `merge` it keeps the larger of the two. */
  function Put(ps: Pending, y: string, t: int, merge: bool): (r: Pending)
    requires WellFormed(ps)
    ensures WellFormed(r)
    ensures r.order == if y in ps.time then ps.order else ps.order + [y]
    ensures forall z :: z in r.time <==> z in ps.time || z == y
    ensures forall z :: z in ps.time && z != y ==> r.time[z] == ps.time[z]
    ensures r.time[y] >= t && (!merge ==> r.time[y] == t)
    ensures merge && y in ps.time ==> r.time[y] >= ps.time[y]
  {
    if y in ps.time then
      ps.(time := ps.time[y := if merge then Max(ps.time[y], t) else t])
    else
      AppendNoDup(ps.order, y);
      Pending(ps.order + [y], ps.time[y := t])
  }

  lemma NoDupRemove(s: seq<string>, i: nat)
    requires NoDup(s) && i < |s|
    ensures NoDup(s[..i] + s[i + 1..])
    ensures forall y :: y in s[..i] + s[i + 1..] <==> y in s && y != s[i]
  {
    var r := s[..i] + s[i + 1..];
    forall a, b | 0 <= a < b < |r| ensures r[a] != r[b] {
      var a' := if a < i then a else a + 1;
      var b' := if b < i then b else b + 1;
      assert r[a] == s[a'] && r[b] == s[b'];
    }
    forall y ensures y in r <==> y in s && y != s[i] {
      if y in r {
        var k :| 0 <= k < |r| && r[k] == y;
        var k' := if k < i then k else k + 1;
        assert s[k'] == y;
      }
      if y in s && y != s[i] {
        var k :| 0 <= k < |s| && s[k] == y;
        assert r[if k < i then k else k - 1] == y;
      }
    }
  }

  /** `paths.pop(x)` for the key at position `i`. */
  function Pop(ps: Pending, i: nat): (r: Pending)
    requires WellFormed(ps) && i < |ps.order|
    ensures WellFormed(r)
    ensures r.time == ps.time - {ps.order[i]}
  {
    NoDupRemove(ps.order, i);
    Pending(ps.order[..i] + ps.order[i + 1..], ps.time - {ps.order[i]})
  }

  /** The loop over the popped key's parent set: each parent is put with the
      larger of the popped time and its own recorded time; a parent without a
      recorded set raises KeyError. */
  function Spread(g: Graph, ps: Pending, tx: int, ms: seq<string>, merge: bool): (r: Outcome<Pending>)
    requires WellFormed(ps)
    ensures WellFormed(r.state)
    ensures r.Ok() <==> forall m :: m in ms ==> m in g.parents
    ensures r.fault.Some? ==> r.fault.value.MissingKey?
    ensures r.Ok() ==> forall z :: z in r.state.time <==> z in ps.time || z in ms
    ensures r.Ok() ==> forall z :: z in r.state.time ==>
      (z in ps.time && r.state.time[z] == ps.time[z])
      || (z in ms && z in g.parents && r.state.time[z] == Max(tx, g.parents[z].updated))
    ensures r.Ok() && merge ==> forall z :: z in ps.time ==> r.state.time[z] >= ps.time[z]
    ensures r.Ok() && merge ==> forall z :: z in ms && z in g.parents ==>
      r.state.time[z] >= Max(tx, g.parents[z].updated)
    decreases |ms|
  {
    if |ms| == 0 then Done(ps)
    else if ms[0] !in g.parents then Raise(ps, MissingKey(ms[0]))
    else
      var m := ms[0];
      var next := Put(ps, m, Max(tx, g.parents[m].updated), merge);
      var r := Spread(g, next, tx, ms[1..], merge);
      assert forall z :: z in ms <==> z == m || z in ms[1..];
      r
  }

  /** The position of the first pending key that has parents, if any. */
  function FirstNested(g: Graph, order: seq<string>): (r: Option<nat>)
    requires forall y :: y in order ==> y in g.parents
    ensures r.None? <==> forall y :: y in order ==> Root(g, y)
    ensures r.Some? ==> r.value < |order| && !Root(g, order[r.value])
  {
    if |order| == 0 then None
    else if !Root(g, order[0]) then Some(0)
    else
      var r := FirstNested(g, order[1..]);
      assert forall y :: y in order <==> y == order[0] || y in order[1..];
      match r
      case None => None
      case Some(i) => Some(i + 1)
  }

  // ---------------------------------------------------------------------------
  // Termination

  /** `h` ranks every recorded file above its recorded parents. */
  ghost predicate Ranked(g: Graph, h: map<string, nat>) {
    forall y :: y in g.parents ==> y in h && forall p :: p in g.parents[y].members && p in g.parents ==>
      p in h && h[p] < h[y]
  }

  /** No file is its own ancestor. */
  ghost predicate Acyclic(g: Graph) {
    exists h :: Ranked(g, h)
  }

  ghost function Heights(g: Graph): (h: map<string, nat>)
    requires Acyclic(g)
    ensures Ranked(g, h)
  {
    var h :| Ranked(g, h); h
  }

  /** The number of chains of recorded parents that start at `x`. */
  ghost function NPaths(g: Graph, x: string): nat
    requires Acyclic(g) && x in g.parents
    decreases Heights(g)[x], 1
  {
    1 + SumPaths(g, x, g.parents[x].members)
  }

  ghost function SumPaths(g: Graph, x: string, ms: seq<string>): nat
    requires Acyclic(g) && x in g.parents
    requires forall m :: m in ms ==> m in g.parents[x].members
    decreases Heights(g)[x], 0, |ms|
  {
    if |ms| == 0 then 0
    else (if ms[0] in g.parents then NPaths(g, ms[0]) else 0) + SumPaths(g, x, ms[1..])
  }

  ghost function W(g: Graph, y: string): nat
    requires Acyclic(g)
  {
    if y in g.parents then NPaths(g, y) else 0
  }

  /** The chains that leave the pending keys, counted with repetition. */
  ghost function Weight(g: Graph, order: seq<string>): nat
    requires Acyclic(g)
  {
    if |order| == 0 then 0 else W(g, order[0]) + Weight(g, order[1..])
  }

  lemma {:induction false} WeightConcat(g: Graph, a: seq<string>, b: seq<string>)
    requires Acyclic(g)
    ensures Weight(g, a + b) == Weight(g, a) + Weight(g, b)
  {
    if |a| == 0 {
      assert a + b == b;
    } else {
      assert (a + b)[0] == a[0] && (a + b)[1..] == a[1..] + b;
      WeightConcat(g, a[1..], b);
    }
  }

  lemma PopWeight(g: Graph, ps: Pending, i: nat)
    requires Acyclic(g) && WellFormed(ps) && i < |ps.order|
    ensures Weight(g, Pop(ps, i).order) + W(g, ps.order[i]) == Weight(g, ps.order)
  {
    var s := ps.order;
    assert s == s[..i] + ([s[i]] + s[i + 1..]);
    WeightConcat(g, s[..i], [s[i]] + s[i + 1..]);
    WeightConcat(g, [s[i]], s[i + 1..]);
    WeightConcat(g, s[..i], s[i + 1..]);
    assert Weight(g, [s[i]]) == W(g, s[i]) by {
      assert [s[i]][1..] == [];
    }
  }

  lemma PutWeight(g: Graph, ps: Pending, y: string, t: int, merge: bool)
    requires Acyclic(g) && WellFormed(ps)
    ensures Weight(g, Put(ps, y, t, merge).order) <= Weight(g, ps.order) + W(g, y)
  {
    if y !in ps.time {
      WeightConcat(g, ps.order, [y]);
      assert Weight(g, [y]) == W(g, y) by {
        assert [y][1..] == [];
      }
    }
  }

  lemma {:induction false} SpreadWeight(g: Graph, x: string, ps: Pending, tx: int, ms: seq<string>, merge: bool)
    requires Acyclic(g) && x in g.parents && WellFormed(ps)
    requires forall m :: m in ms ==> m in g.parents[x].members
    ensures Spread(g, ps, tx, ms, merge).Ok() ==>
      Weight(g, Spread(g, ps, tx, ms, merge).state.order) <= Weight(g, ps.order) + SumPaths(g, x, ms)
    decreases |ms|
  {
    if |ms| > 0 && ms[0] in g.parents {
      var m := ms[0];
      var next := Put(ps, m, Max(tx, g.parents[m].updated), merge);
      PutWeight(g, ps, m, Max(tx, g.parents[m].updated), merge);
      assert forall z :: z in ms[1..] ==> z in ms;
      SpreadWeight(g, x, next, tx, ms[1..], merge);
    }
  }

  /** One step of the walk removes at least one chain. */
  lemma StepWeight(g: Graph, ps: Pending, i: nat, merge: bool)
    requires Acyclic(g) && WellFormed(ps) && i < |ps.order| && ps.order[i] in g.parents
    ensures var x := ps.order[i];
      var s := Spread(g, Pop(ps, i), ps.time[x], g.parents[x].members, merge);
      s.Ok() ==> Weight(g, s.state.order) < Weight(g, ps.order)
  {
    var x := ps.order[i];
    PopWeight(g, ps, i);
    SpreadWeight(g, x, Pop(ps, i), ps.time[x], g.parents[x].members, merge);
  }

  // ---------------------------------------------------------------------------
  // The walk

  /** The `while True` loop: pop the first key that has parents and spread its
      time to them, until every key is a root; a KeyError ends the walk. */
  function Walk(g: Graph, ps: Pending, merge: bool): (r: Outcome<Pending>)
    requires Acyclic(g) && WellFormed(ps) && Known(g, ps)
    ensures WellFormed(r.state)
    ensures r.fault.Some? ==> r.fault.value.MissingKey?
    ensures r.Ok() ==> Known(g, r.state) && forall y :: y in r.state.order ==> Root(g, y)
    decreases Weight(g, ps.order)
  {
    match FirstNested(g, ps.order)
    case None => Done(ps)
    case Some(i) =>
      var x := ps.order[i];
      var s := Spread(g, Pop(ps, i), ps.time[x], g.parents[x].members, merge);
      if !s.Ok() then s
      else
        StepWeight(g, ps, i, merge);
        Walk(g, s.state, merge)
  }
}
