/** `TreeHandler.build`: walk from the changed file up to its root ancestors,
    then rebuild each root one of whose outputs is older than the time the
    walk carried to it.  `merge` chooses the walk: without it a pending time
    is overwritten where two chains meet, as the code is written; with it the
    larger time is kept (see `Chains`). */
module TreeBuild {
  import opened Paths
  import opened Fs
  import opened Handlers
  import opened Ancestry
  import opened Chains

  /** `os.path.getmtime(output) < t`; a directory output is never older. */
  predicate Older(dest: Tree, o: string, t: int) {
    match Lookup(dest, o)
    case Some(File(m, _)) => m < t
    case _ => false
  }

  /** `getmtime` of a missing output raises. */
  predicate Missing(dest: Tree, o: string) {
    Lookup(dest, o).None?
  }

  /** The loop over one root's outputs: the first output older than `t`
      triggers the rebuild and ends the loop; a missing output met before
      that raises. */
  function Stale(dest: Tree, outs: seq<string>, t: int): (r: Outcome<bool>)
    ensures (forall o :: o in outs ==> !Missing(dest, o)) ==>
      r.Ok() && (r.state <==> exists o :: o in outs && Older(dest, o, t))
    ensures (forall o :: o in outs ==> !Older(dest, o, t)) ==>
      (!r.state && (r.Ok() <==> forall o :: o in outs ==> !Missing(dest, o)))
    ensures r.Ok() && r.state ==> exists o :: o in outs && Older(dest, o, t)
    ensures r.fault.Some? ==>
      (r.fault.value.NotFound? && Missing(dest, r.fault.value.path) && r.fault.value.path in outs)
  {
    if |outs| == 0 then Done(false)
    else
      assert outs[0] in outs;
      assert forall o :: o in outs <==> o == outs[0] || o in outs[1..];
      match Lookup(dest, outs[0])
      case None => Raise(false, NotFound(outs[0]))
      case Some(File(m, _)) => if m < t then Done(true) else Stale(dest, outs[1..], t)
      case Some(Dir) => Stale(dest, outs[1..], t)
  }

  /** Some output of `x` is older than `t`. */
  ghost predicate OutdatedAt(suffixes: seq<string>, dest: Tree, x: string, t: int) {
    exists o :: o in Outputs(suffixes, x) && Older(dest, o, t)
  }

  /** The loop over the walk's roots, in the walk's order: the roots handed to
      the build step.  A missing output stops the loop. */
  function Rebuilds(suffixes: seq<string>, dest: Tree, ps: Pending, roots: seq<string>): (r: Outcome<seq<string>>)
    requires forall x :: x in roots ==> x in ps.time
    ensures r.fault.Some? ==> r.fault.value.NotFound?
    ensures forall x :: x in r.state ==> x in roots && OutdatedAt(suffixes, dest, x, ps.time[x])
    ensures (forall x, o :: x in roots && o in Outputs(suffixes, x) ==> !Missing(dest, o)) ==>
      r.Ok() && forall x :: x in roots ==> (x in r.state <==> OutdatedAt(suffixes, dest, x, ps.time[x]))
  {
    if |roots| == 0 then Done([])
    else
      var x := roots[0];
      var s := Stale(dest, Outputs(suffixes, x), ps.time[x]);
      if !s.Ok() then Outcome([], s.fault)
      else
        var rest := Rebuilds(suffixes, dest, ps, roots[1..]);
        assert forall y :: y in roots <==> y == x || y in roots[1..];
        Outcome((if s.state then [x] else []) + rest.state, rest.fault)
  }

  /** `x` is a root reached from `path` one of whose outputs is older than
      some chain that reaches it. */
  ghost predicate Due(g: Graph, suffixes: seq<string>, dest: Tree, path: string, x: string) {
    exists c :: Complete(g, path, c) && c[|c| - 1] == x && OutdatedAt(suffixes, dest, x, ChainTime(g, c))
  }

  /** Every root reached from `path` has all its outputs in the destination. */
  ghost predicate OutputsPresent(g: Graph, suffixes: seq<string>, dest: Tree, path: string) {
    forall c, o :: Complete(g, path, c) && o in Outputs(suffixes, c[|c| - 1]) ==> !Missing(dest, o)
  }

  /** `build(src, path, dest, outputs)`: the roots whose outputs are rebuilt,
      or the exception that stopped the build.  The code as written is
      `merge == false`. */
  function Build(h: TreeHandler, dest: Tree, path: string, merge: bool): (r: Outcome<seq<string>>)
    requires Acyclic(h.graph)
    ensures path !in h.graph.parents ==> r == Raise([], MissingKey(path))
    ensures r.fault.Some? ==> r.fault.value.MissingKey? || r.fault.value.NotFound?
  {
    var g := h.graph;
    if path !in g.parents then Raise([], MissingKey(path))
    else
      var w := Walk(g, Start(g, path), merge);
      if !w.Ok() then Outcome([], w.fault)
      else Rebuilds(h.base.suffixes, dest, w.state, w.state.order)
  }

  /** Only due roots are rebuilt, by the build as written and by the
      corrected one alike. */
  lemma BuildOnlyDue(h: TreeHandler, dest: Tree, path: string, merge: bool)
    requires Acyclic(h.graph)
    ensures forall x :: x in Build(h, dest, path, merge).state ==> Due(h.graph, h.base.suffixes, dest, path, x)
  {
    var g := h.graph;
    if path in g.parents {
      var w := Walk(g, Start(g, path), merge);
      if w.Ok() {
        WalkEndsAtReachedRoots(g, path, merge);
        forall x | x in Build(h, dest, path, merge).state ensures Due(g, h.base.suffixes, dest, path, x) {
          var c :| IsChain(g, c) && c[0] == path && c[|c| - 1] == x && ChainTime(g, c) == w.state.time[x];
          assert Complete(g, path, c);
        }
      }
    }
  }

  /** The corrected build rebuilds every due root, when the walk finds every
      parent recorded and no output is missing.  The build as written does
      not (`DiamondMissedRebuild`). */
  lemma BuildEveryDue(h: TreeHandler, dest: Tree, path: string, x: string)
    requires Acyclic(h.graph)
    requires OutputsPresent(h.graph, h.base.suffixes, dest, path)
    requires Build(h, dest, path, true).Ok()
    requires Due(h.graph, h.base.suffixes, dest, path, x)
    ensures x in Build(h, dest, path, true).state
  {
    var g := h.graph;
    var c :| Complete(g, path, c) && c[|c| - 1] == x && OutdatedAt(h.base.suffixes, dest, x, ChainTime(g, c));
    var w := Walk(g, Start(g, path), true);
    MergedWalkKeepsLatest(g, path, c);
    WalkEndsAtReachedRoots(g, path, true);
    forall y, o | y in w.state.order && o in Outputs(h.base.suffixes, y)
      ensures !Missing(dest, o)
    {
      var cy :| IsChain(g, cy) && cy[0] == path && cy[|cy| - 1] == y && ChainTime(g, cy) == w.state.time[y];
      assert Complete(g, path, cy);
    }
    var o :| o in Outputs(h.base.suffixes, x) && Older(dest, o, ChainTime(g, c));
    assert Older(dest, o, w.state.time[x]);
  }

  /** The single default output of `a`, last written at time `m`. */
  lemma SingleOutput(ps: Pending, m: int)
    requires "a" in ps.time
    ensures Rebuilds([""], map["a" := File(m, [])], ps, ["a"])
      == Done(if m < ps.time["a"] then ["a"] else [])
  {
    var dest := map["a" := File(m, [])];
    assert "a" + "" == "a";
    assert Outputs([""], "a") == ["a"];
    assert ["a"][1..] == [];
    assert !EndsWithSep("a") && Name("a") == "a";
    assert Lookup(dest, "a") == Some(File(m, []));
    assert Stale(dest, [], ps.time["a"]) == Done(false);
    assert Stale(dest, ["a"], ps.time["a"]) == Done(m < ps.time["a"]);
    assert Rebuilds([""], dest, ps, []) == Done([]);
    var built: seq<string> := if m < ps.time["a"] then ["a"] else [];
    assert built + [] == built;
    assert Rebuilds([""], dest, ps, ["a"]) == Outcome(built + [], None);
  }

  /** In the diamond of `Chains`, with the single output of `a` last written
      at time 3: the build as written carries time 1 to `a`, so nothing is
      rebuilt although `b` changed at time 5, and `a` is due. */
  lemma DiamondMissedRebuild(g: Graph)
    requires Acyclic(g) && DiamondShape(g)
    ensures Build(TreeHandler(Handler(_ => true, [""]), g), map["a" := File(3, [])], "d", false) == Done([])
    ensures Due(g, [""], map["a" := File(3, [])], "d", "a")
  {
    DiamondBuiltAsWritten(g);
    DiamondDue(g);
  }

  lemma DiamondBuiltAsWritten(g: Graph)
    requires Acyclic(g) && DiamondShape(g)
    ensures Build(TreeHandler(Handler(_ => true, [""]), g), map["a" := File(3, [])], "d", false) == Done([])
  {
    DiamondOverwrites(g);
    SingleOutput(Walk(g, Start(g, "d"), false).state, 3);
  }

  /** The chain through `b` makes `a` due. */
  lemma DiamondDue(g: Graph)
    requires DiamondShape(g)
    ensures Due(g, [""], map["a" := File(3, [])], "d", "a")
  {
    var dest := map["a" := File(3, [])];
    DiamondChain(g);
    assert "a" + "" == "a";
    assert Outputs([""], "a") == ["a"];
    assert !EndsWithSep("a") && Name("a") == "a";
    assert Lookup(dest, "a") == Some(File(3, []));
    assert Older(dest, "a", ChainTime(g, ["d", "b", "a"]));
    assert OutdatedAt([""], dest, "a", ChainTime(g, ["d", "b", "a"]));
  }

  /** The corrected build rebuilds `a` in the same case. */
  lemma DiamondRebuilt(g: Graph)
    requires Acyclic(g) && DiamondShape(g)
    ensures Build(TreeHandler(Handler(_ => true, [""]), g), map["a" := File(3, [])], "d", true) == Done(["a"])
  {
    DiamondMerged(g);
    SingleOutput(Walk(g, Start(g, "d"), true).state, 3);
  }
}
