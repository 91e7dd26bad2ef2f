/** The two reference checks of `rebuild_references` and what they let
    through.  The escape test looks only for a leading "..", so a rooted
    reference passes it.  The circular-reference test looks only at the files
    visited by the current rebuild, so a reference to a file met as a cache
    hit can close a cycle in the recorded graph, and the ancestor walk of
    `build` then never ends.  Each check is given here as written and as its
    error message states it, with the property the stated check keeps. */
module RefChecks {
  import opened Paths
  import opened Fs
  import opened Handlers
  import opened Rebuild
  import opened Ancestry
  import opened Chains

  // ---------------------------------------------------------------------------
  // The escape test

  /** A file at the top of the tree refers to `/p`: the reference joins to
      itself, passes the `startswith("..")` test and is recorded as a parent,
      although it names a file outside the watched folder. */
  lemma AbsoluteReferenceAccepted()
    ensures Target("x", "/p") == "/p"
    ensures Accepted("x", "/p", {"x"})
    ensures Collect("x", ["/p"], {"x"}, []) == Scan(["/p"], None)
  {
    assert "x"[..0] == "";
    assert HeadLength("x") == 0;
    assert Dirname("x") == "";
    assert StartsWith("/p", [Sep]);
    assert Join("", "/p") == "/p";
    assert "/p"[..2] == "/p" && "/p"[1] != Sep;
    assert !StartsWith("/p", [Sep, Sep]);
    SplitNoSep("p");
    assert "/p"[1..] == "p";
    assert Split("/p") == ["", "p"];
    assert ["", "p"][1..] == ["p"] && ["p"][1..] == [];
    assert Collapse(["", "p"], [], true) == ["p"];
    assert JoinSep(["p"]) == "p";
    assert Repeat(Sep, 1) == "/";
    assert NormPath("/p") == "/" + "p";
    assert "/p"[..2] != "..";
    assert Collect("x", [], {"x"}, ["/p"]) == Scan(["/p"], None);
    assert [] + ["/p"] == ["/p"];
  }

  /** The escape test as its error message states it: a reference is inside
      the watched folder unless it climbs out with ".." or is rooted. */
  predicate Inside(path: string, ref: string) {
    var t := Target(path, ref);
    !StartsWith(t, "..") && !StartsWith(t, [Sep])
  }

  /** For a file of the tree, the stated test refuses exactly the references
      the written one refuses plus the rooted ones, and what it lets through
      names the tree root or a relative path inside the tree. */
  lemma InsideTargets(path: RelPath, ref: string)
    ensures Inside(path, ref) <==> !StartsWith(Target(path, ref), "..") && !StartsWith(ref, [Sep])
    ensures Inside(path, ref) ==> Target(path, ref) == "." || ValidRel(Target(path, ref))
  {
    var dir := Dirname(path);
    DirnameOfValid(path);
    if Sep in path {
      ValidRelCut(path, HeadLength(path) - 1);
    }
    assert dir == "" || ValidRel(dir);
    if !StartsWith(Target(path, ref), "..") {
      AcceptedReferenceInside(dir, ref);
    }
  }

  /** The rooted reference of `AbsoluteReferenceAccepted` fails the stated test. */
  lemma AbsoluteReferenceRefused()
    ensures !Inside("x", "/p")
  {
    AbsoluteReferenceAccepted();
    assert StartsWith("/p", [Sep]);
  }

  // ---------------------------------------------------------------------------
  // The circular-reference test

  /** `a` references `b`, which references nothing yet. */
  function Before(): (fs: Tree)
    ensures fs.Keys == {"a", "b"}
  {
    map["a" := File(1, ["b"]), "b" := File(1, [])]
  }

  /** Later `b` is rewritten, at time 2, to reference `a`. */
  function After(): (fs: Tree)
    ensures fs.Keys == {"a", "b"}
  {
    map["a" := File(1, ["b"]), "b" := File(2, ["a"])]
  }

  /** The graph the second rebuild leaves: `a` and `b` are each other's parent. */
  function ClosedGraph(): Graph {
    Graph(map["a" := TimedSet(1, ["b"]), "b" := TimedSet(2, ["a"])], map["b" := {"a"}, "a" := {"b"}])
  }

  /** A file read again after its time changed: its old edges are deleted and
      its new parent set is linked. */
  lemma ResolveRescanned(g: Graph, fs: Tree, path: string, reject: set<string>, m: int, refs: seq<string>)
    requires Settled(g, fs, reject)
    requires Lookup(fs, path) == Some(File(m, refs)) && path in g.parents && g.parents[path].updated != m
    requires Deleted(g, path).Ok()
    requires Collect(path, refs, reject + {path}, []).error.None?
    ensures var d := Deleted(g, path).state;
      var s := Collect(path, refs, reject + {path}, []);
      Resolve(g, fs, path, reject)
        == Link(d.(parents := d.parents[path := TimedSet(m, s.members)]), fs, path, s.members, reject + {path})
  {
  }

  /** The first rebuild, of `a`, records `a -> b` and `b` as a root, and logs nothing. */
  lemma FirstRebuild()
    ensures RebuildReferences(Empty(), Before(), "a") == Done(Resolution(CycleGraph(), {"a", "b"}, []))
  {
    var fs := Before();
    CycleTargets();
    var g1 := Graph(map["a" := TimedSet(1, ["b"])], map[]);
    var g2 := Graph(map["a" := TimedSet(1, ["b"])], map["b" := {"a"}]);
    assert Lookup(fs, "a") == Some(File(1, ["b"]));
    assert Lookup(fs, "b") == Some(File(1, []));
    assert {} + {"a"} == {"a"} && {"a"} + {"b"} == {"a", "b"};
    assert Collect("a", ["b"], {"a"}, []) == Scan(["b"], None) by {
      assert Collect("a", [], {"a"}, ["b"]) == Scan(["b"], None);
    }
    ResolveScanned(Empty(), fs, "a", {}, 1, ["b"]);
    assert Empty().(parents := Empty().parents["a" := TimedSet(1, ["b"])]) == g1;
    AddChildNew(g1, "b", "a");
    assert g1.children["b" := {"a"}] == map["b" := {"a"}];
    assert Settled(g2, fs, {"a"});
    ResolveLeaf(g2, fs, "b", {"a"}, 1);
    assert g2.(parents := g2.parents["b" := TimedSet(1, [])]) == CycleGraph();
    LinkSingle(g1, fs, "a", "b", {"a"});
  }

  /** `b`'s old, empty parent set goes without touching the child map. */
  lemma DeleteSecond()
    ensures Deleted(CycleGraph(), "b") == Done(Graph(map["a" := TimedSet(1, ["b"])], map["b" := {"a"}]))
  {
    var g := CycleGraph();
    assert Detach(g.children, "b", []) == Done(g.children);
    assert g.parents - {"b"} == map["a" := TimedSet(1, ["b"])];
  }

  /** `b`'s new reference to `a` is accepted: only `b` is in the reject set. */
  lemma ScanSecond()
    ensures Collect("b", ["a"], {"b"}, []) == Scan(["a"], None)
  {
    CycleTargets();
    assert Collect("b", [], {"b"}, ["a"]) == Scan(["a"], None);
    assert [] + ["a"] == ["a"];
  }

  /** The second rebuild, of `b`, links `a` as its parent; `a` is then a cache
      hit, so its own reference to `b` is never scanned against the reject
      set, and nothing is logged. */
  lemma SecondRebuild()
    ensures RebuildReferences(CycleGraph(), After(), "b") == Done(Resolution(ClosedGraph(), {"a", "b"}, []))
  {
    var fs := After();
    var g := CycleGraph();
    var d := Graph(map["a" := TimedSet(1, ["b"])], map["b" := {"a"}]);
    var g1 := Graph(map["a" := TimedSet(1, ["b"]), "b" := TimedSet(2, ["a"])], map["b" := {"a"}]);
    assert Lookup(fs, "a") == Some(File(1, ["b"]));
    assert Lookup(fs, "b") == Some(File(2, ["a"]));
    assert {} + {"b"} == {"b"} && {"b"} + {"a"} == {"a", "b"};
    DeleteSecond();
    ScanSecond();
    ResolveRescanned(g, fs, "b", {}, 2, ["a"]);
    assert d.(parents := d.parents["b" := TimedSet(2, ["a"])]) == g1;
    AddChildNew(g1, "a", "b");
    assert g1.children["a" := {"b"}] == ClosedGraph().children;
    assert Settled(g1, fs, {"b"});
    assert Settled(ClosedGraph(), fs, {"b"});
    assert Resolve(ClosedGraph(), fs, "a", {"b"}) == Done(Resolution(ClosedGraph(), {"a", "b"}, []));
    LinkSingle(g1, fs, "b", "a", {"b"});
  }

  /** Two files that are each other's parent admit no ranking. */
  lemma MutualNotAcyclic(g: Graph, x: string, y: string)
    requires x in g.parents && y in g.parents
    requires y in g.parents[x].members && x in g.parents[y].members
    ensures !Acyclic(g)
  {
  }

  /** As written, two rebuilds that each log nothing leave a two-file cycle in
      the recorded graph: the second one meets `a` as a cache hit, so the
      reference back to `b` goes unchecked. */
  lemma CacheHitClosesCycle()
    ensures RebuildReferences(Empty(), Before(), "a") == Done(Resolution(CycleGraph(), {"a", "b"}, []))
    ensures RebuildReferences(CycleGraph(), After(), "b") == Done(Resolution(ClosedGraph(), {"a", "b"}, []))
    ensures !Acyclic(ClosedGraph())
  {
    FirstRebuild();
    SecondRebuild();
    MutualNotAcyclic(ClosedGraph(), "a", "b");
  }

  /** On that graph the ancestor walk from `b` comes back to where it
      started: `b` at time 2 gives way to `a` at time 2 and back, and neither
      is ever a root, so the `while True` loop of `build` never ends. */
  lemma ClosedWalkReturns()
    ensures Start(ClosedGraph(), "b") == Pending(["b"], map["b" := 2])
    ensures FirstNested(ClosedGraph(), ["b"]) == Some(0) && FirstNested(ClosedGraph(), ["a"]) == Some(0)
    ensures Spread(ClosedGraph(), Pop(Pending(["b"], map["b" := 2]), 0), 2, ["a"], false)
      == Done(Pending(["a"], map["a" := 2]))
    ensures Spread(ClosedGraph(), Pop(Pending(["a"], map["a" := 2]), 0), 2, ["b"], false)
      == Done(Pending(["b"], map["b" := 2]))
  {
    var g := ClosedGraph();
    var e := Pending([], map[]);
    assert ["b"][..0] + ["b"][1..] == [] && map["b" := 2] - {"b"} == map[];
    assert ["a"][..0] + ["a"][1..] == [] && map["a" := 2] - {"a"} == map[];
    assert Pop(Pending(["b"], map["b" := 2]), 0) == e;
    assert Pop(Pending(["a"], map["a" := 2]), 0) == e;
    SpreadHead(g, e, 2, ["a"], false);
    SpreadHead(g, e, 2, ["b"], false);
    assert Max(2, 1) == 2 && Max(2, 2) == 2;
    assert Put(e, "a", 2, false) == Pending(["a"], map["a" := 2]);
    assert Put(e, "b", 2, false) == Pending(["b"], map["b" := 2]);
    assert ["a"][1..] == [] && ["b"][1..] == [];
  }

  /** `x` reaches `y` through recorded parent edges. */
  ghost predicate Reaches(g: Graph, x: string, y: string) {
    x == y || exists c :: IsChain(g, c) && c[0] == x && c[|c| - 1] == y
  }

  /** `parents.add(p)` on the recorded parent set of `child`. */
  function AddParent(g: Graph, child: string, p: string): (r: Graph)
    requires child in g.parents
    ensures r.children == g.children && r.parents.Keys == g.parents.Keys
    ensures p in r.parents[child].members
    ensures forall y, q :: y in g.parents && q in g.parents[y].members ==> q in r.parents[y].members
    ensures forall y, q :: y in r.parents && q in r.parents[y].members ==>
      q in g.parents[y].members || (y == child && q == p)
  {
    var t := g.parents[child];
    g.(parents := g.parents[child := TimedSet(t.updated, if p in t.members then t.members else t.members + [p])])
  }

  /** The circular-reference test as its error message states it, made
      against the recorded graph: a parent that already reaches the
      referencing file is refused (`None`, to be logged as circular); any
      other is added.  The graph stays acyclic. */
  ghost function CheckedLink(g: Graph, child: string, p: string): (r: Option<Graph>)
    requires child in g.parents
    ensures r.None? <==> Reaches(g, p, child)
    ensures r.Some? ==> r.value == AddParent(g, child, p)
    ensures Acyclic(g) && r.Some? ==> Acyclic(r.value)
  {
    if Reaches(g, p, child) then None
    else
      AddParentKeepsAcyclic(g, child, p);
      Some(AddParent(g, child, p))
  }

  /** A chain can be entered from a file that has its first member as a parent. */
  lemma ReachesThrough(g: Graph, y: string, q: string, x: string)
    requires y in g.parents && q in g.parents[y].members && x in g.parents
    requires Reaches(g, q, x)
    ensures Reaches(g, y, x)
  {
    if q == x {
      assert IsChain(g, [y, x]);
    } else {
      var c :| IsChain(g, c) && c[0] == q && c[|c| - 1] == x;
      var c' := [y] + c;
      forall i | 0 <= i < |c'| - 1 ensures c'[i + 1] in g.parents[c'[i]].members {
        if i > 0 {
          assert c'[i] == c[i - 1] && c'[i + 1] == c[i];
        }
      }
      assert IsChain(g, c');
      assert c'[|c'| - 1] == x;
    }
  }

  /** An edge that does not close a cycle keeps the graph acyclic: the files
      that reach `child` are lifted above `p`. */
  lemma AddParentKeepsAcyclic(g: Graph, child: string, p: string)
    requires child in g.parents && !Reaches(g, p, child)
    ensures Acyclic(g) ==> Acyclic(AddParent(g, child, p))
  {
    if Acyclic(g) {
      LiftedRanks(g, child, p);
    }
  }

  lemma LiftedRanks(g: Graph, child: string, p: string)
    requires Acyclic(g) && child in g.parents && !Reaches(g, p, child)
    ensures Acyclic(AddParent(g, child, p))
  {
    var h := Heights(g);
    var k: nat := (if p in h then h[p] else 0) + 1;
    var h' := map y | y in h :: if Reaches(g, y, child) then h[y] + k else h[y];
    var g' := AddParent(g, child, p);
    assert Reaches(g, child, child);
    forall y | y in g'.parents
      ensures y in h' && forall q :: q in g'.parents[y].members && q in g'.parents ==> q in h' && h'[q] < h'[y]
    {
      forall q | q in g'.parents[y].members && q in g'.parents ensures q in h' && h'[q] < h'[y] {
        if q in g.parents[y].members {
          if Reaches(g, q, child) {
            ReachesThrough(g, y, q, child);
          }
        } else {
          assert y == child && q == p;
        }
      }
    }
    assert Ranked(g', h');
  }

  /** Ranks fall along every chain of a graph whose edges a ranked graph keeps. */
  lemma {:induction false} ChainRanks(g: Graph, g': Graph, h: map<string, nat>, c: seq<string>)
    requires IsChain(g, c) && Ranked(g', h)
    requires forall y, q :: y in g.parents && q in g.parents[y].members ==> y in g'.parents && q in g'.parents[y].members
    requires forall y :: y in g.parents ==> y in g'.parents
    ensures c[0] in h && c[|c| - 1] in h && h[c[|c| - 1]] <= h[c[0]]
    decreases |c|
  {
    if |c| > 1 {
      var c0 := c[..|c| - 1];
      assert IsChain(g, c0) by {
        forall i | 0 <= i < |c0| - 1 ensures c0[i + 1] in g.parents[c0[i]].members {
          assert c0[i] == c[i] && c0[i + 1] == c[i + 1];
        }
      }
      ChainRanks(g, g', h, c0);
      assert c[|c| - 1] in g.parents[c[|c| - 2]].members;
    }
  }

  /** An edge to a file that already reaches `child` closes a cycle. */
  lemma AddParentClosesCycle(g: Graph, child: string, p: string)
    requires child in g.parents && Reaches(g, p, child)
    ensures !Acyclic(AddParent(g, child, p))
  {
    var g' := AddParent(g, child, p);
    if p != child {
      var c :| IsChain(g, c) && c[0] == p && c[|c| - 1] == child;
      if Acyclic(g') {
        var h := Heights(g');
        ChainRanks(g, g', h, c);
        assert false;
      }
    }
  }

  /** With the stated test, the second rebuild refuses `a` as a parent of
      `b`: `a` already reaches `b`, so the reference is logged as circular
      instead of closing the cycle. */
  lemma CheckedLinkRefusesCycle()
    ensures CheckedLink(Graph(map["a" := TimedSet(1, ["b"]), "b" := TimedSet(2, [])], map["b" := {"a"}]), "b", "a")
      == None
    ensures !Acyclic(AddParent(Graph(map["a" := TimedSet(1, ["b"]), "b" := TimedSet(2, [])], map["b" := {"a"}]), "b", "a"))
  {
    var g := Graph(map["a" := TimedSet(1, ["b"]), "b" := TimedSet(2, [])], map["b" := {"a"}]);
    assert IsChain(g, ["a", "b"]);
    assert Reaches(g, "a", "b");
    AddParentClosesCycle(g, "b", "a");
  }
}
