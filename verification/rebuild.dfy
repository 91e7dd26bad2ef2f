/** What a rebuild of the reference graph preserves.  The graph stays kept
    (every child edge matched) on every path, failed ones included; the
    entries of files already in the reject set are never touched; and a graph
    whose two maps are inverses stays so, except at the files whose scan
    logged an error and so kept a partial parent set without child edges. */
module Rebuild {
  import opened Paths
  import opened Fs
  import opened Handlers

  /** `h` keeps the parent sets of the files in `reject` and every child edge
      that names one of them. */
  ghost predicate Framed(g: Graph, h: Graph, reject: set<string>) {
    && (forall y :: y in reject ==> (y in g.parents <==> y in h.parents))
    && (forall y :: y in reject && y in g.parents ==> h.parents[y] == g.parents[y])
    && (forall p, c :: c in reject && p in g.children && c in g.children[p] ==>
          p in h.children && c in h.children[p])
  }

  lemma FramedTrans(g: Graph, h: Graph, k: Graph, r: set<string>, r': set<string>)
    requires r <= r' && Framed(g, h, r) && Framed(h, k, r')
    ensures Framed(g, k, r)
  {
  }

  lemma DeletedFramed(g: Graph, path: string, reject: set<string>)
    requires path !in reject
    ensures Framed(g, Deleted(g, path).state, reject)
  {
  }

  lemma StampFramed(g: Graph, path: string, t: TimedSet, reject: set<string>)
    requires path !in reject
    ensures Framed(g, g.(parents := g.parents[path := t]), reject)
  {
  }

  lemma AddChildFramed(g: Graph, p: string, owner: string, reject: set<string>)
    ensures Framed(g, AddChild(g, p, owner), reject)
  {
  }

  /** The files whose scan logged an error and kept a partial parent set. */
  function Broken(log: seq<RefError>): set<string> {
    if |log| == 0 then {}
    else (if log[0].Unreadable? then {} else {log[0].path}) + Broken(log[1..])
  }

  lemma {:induction false} BrokenConcat(a: seq<RefError>, b: seq<RefError>)
    ensures Broken(a + b) == Broken(a) + Broken(b)
  {
    if |a| == 0 {
      assert a + b == b;
    } else {
      assert (a + b)[0] == a[0] && (a + b)[1..] == a[1..] + b;
      BrokenConcat(a[1..], b);
    }
  }

  // ---------------------------------------------------------------------------
  // The frame

  lemma {:induction false} ResolveFrame(g: Graph, fs: Tree, path: string, reject: set<string>)
    requires Settled(g, fs, reject)
    ensures Framed(g, Resolve(g, fs, path, reject).state.graph, reject)
    decreases |fs.Keys - reject|, 2, 0
  {
    match Lookup(fs, path)
    case Some(File(mtime, refs)) =>
      if !(path in g.parents && g.parents[path].updated == mtime) {
        RescanFrame(g, fs, path, reject, mtime, refs);
      }
    case _ =>
  }

  /** The frame of a rescan: the file is out of date, so its entry is
      deleted, restamped and linked again. */
  lemma {:induction false} RescanFrame(g: Graph, fs: Tree, path: string, reject: set<string>, mtime: int, refs: seq<string>)
    requires Settled(g, fs, reject)
    requires Lookup(fs, path) == Some(File(mtime, refs))
    requires !(path in g.parents && g.parents[path].updated == mtime)
    ensures Framed(g, Resolve(g, fs, path, reject).state.graph, reject)
    decreases |fs.Keys - reject|, 1, 0
  {
    var rj := reject + {path};
    var d := Deleted(g, path);
    if d.Ok() {
      var s := Collect(path, refs, rj, []);
      var t := TimedSet(mtime, s.members);
      var g1 := d.state.(parents := d.state.parents[path := t]);
      assert Framed(g, g1, reject) by {
        DeletedFramed(g, path, reject);
        StampFramed(d.state, path, t, reject);
        FramedTrans(g, d.state, g1, reject, reject);
      }
      if s.error.None? {
        assert rj - {path} == reject;
        RelinkFrame(g, g1, fs, path, reject, s.members);
        assert Resolve(g, fs, path, reject) == Link(g1, fs, path, s.members, rj);
      } else {
        assert Resolve(g, fs, path, reject).state.graph == g1;
      }
    } else {
      DeletedFramed(g, path, reject);
      assert Resolve(g, fs, path, reject).state.graph == d.state;
    }
  }

  /** Linking the new parent set of a restamped file keeps the frame. */
  lemma {:induction false} RelinkFrame(g: Graph, g1: Graph, fs: Tree, path: string, reject: set<string>, ps: seq<string>)
    requires path in fs && path !in reject && Settled(g1, fs, reject + {path}) && Framed(g, g1, reject)
    ensures Framed(g, Link(g1, fs, path, ps, reject + {path}).state.graph, reject)
    decreases |fs.Keys - reject|, 0, |ps| + 1
  {
    var rj := reject + {path};
    assert rj - {path} == reject;
    LinkFrame(g1, fs, path, ps, rj);
    FramedTrans(g, g1, Link(g1, fs, path, ps, rj).state.graph, reject, rj);
  }

  lemma {:induction false} LinkFrame(g: Graph, fs: Tree, owner: string, ps: seq<string>, reject: set<string>)
    requires owner in reject && owner in fs
    requires Settled(g, fs, reject)
    ensures Framed(g, Link(g, fs, owner, ps, reject).state.graph, reject)
    decreases |fs.Keys - (reject - {owner})|, 0, |ps|
  {
    if |ps| > 0 {
      var p := ps[0];
      var g1 := AddChild(g, p, owner);
      AddChildFramed(g, p, owner, reject);
      CardDrop(fs.Keys, reject, owner);
      ResolveFrame(g1, fs, p, reject);
      var a := Resolve(g1, fs, p, reject);
      FramedTrans(g, g1, a.state.graph, reject, reject);
      if a.Ok() {
        CardGrow(fs.Keys, reject - {owner}, a.state.reject - {owner});
        LinkFrame(a.state.graph, fs, owner, ps[1..], a.state.reject);
        FramedTrans(g, a.state.graph, Link(a.state.graph, fs, owner, ps[1..], a.state.reject).state.graph,
          reject, a.state.reject);
      }
    }
  }

  // ---------------------------------------------------------------------------
  // Kept on every path

  lemma {:induction false} ResolveKept(g: Graph, fs: Tree, path: string, reject: set<string>)
    requires Settled(g, fs, reject) && Kept(g)
    ensures Kept(Resolve(g, fs, path, reject).state.graph)
    decreases |fs.Keys - reject|, 2, 0, 0
  {
    match Lookup(fs, path)
    case Some(File(mtime, refs)) =>
      if !(path in g.parents && g.parents[path].updated == mtime) {
        RescanKept(g, fs, path, reject, mtime, refs);
      }
    case _ =>
  }

  lemma {:induction false} RescanKept(g: Graph, fs: Tree, path: string, reject: set<string>, mtime: int, refs: seq<string>)
    requires Settled(g, fs, reject) && Kept(g)
    requires Lookup(fs, path) == Some(File(mtime, refs))
    requires !(path in g.parents && g.parents[path].updated == mtime)
    ensures Kept(Resolve(g, fs, path, reject).state.graph)
    decreases |fs.Keys - reject|, 1, 0, 0
  {
    var rj := reject + {path};
    var d := Deleted(g, path);
    if d.Ok() {
      var s := Collect(path, refs, rj, []);
      var t := TimedSet(mtime, s.members);
      var g1 := d.state.(parents := d.state.parents[path := t]);
      KeptRestamped(d.state, path, t);
      if s.error.None? {
        assert rj - {path} == reject;
        LinkKept(g1, fs, path, s.members, rj);
        assert Resolve(g, fs, path, reject) == Link(g1, fs, path, s.members, rj);
      } else {
        assert Resolve(g, fs, path, reject).state.graph == g1;
      }
    } else {
      assert Resolve(g, fs, path, reject).state.graph == d.state;
    }
  }

  /** A file without a parent set may get one without breaking the invariant. */
  lemma KeptRestamped(g: Graph, path: string, t: TimedSet)
    requires Kept(g) && path !in g.parents && NoDup(t.members)
    ensures Kept(g.(parents := g.parents[path := t]))
  {
  }

  lemma {:induction false} LinkKept(g: Graph, fs: Tree, owner: string, ps: seq<string>, reject: set<string>)
    requires owner in reject && owner in fs
    requires Settled(g, fs, reject) && Kept(g)
    requires owner in g.parents && forall p :: p in ps ==> p in g.parents[owner].members
    ensures Kept(Link(g, fs, owner, ps, reject).state.graph)
    decreases |fs.Keys - (reject - {owner})|, 0, |ps|, 1
  {
    if |ps| > 0 {
      var a := Resolve(AddChild(g, ps[0], owner), fs, ps[0], reject);
      LinkHeadKept(g, fs, owner, ps, reject);
      if a.Ok() {
        CardDrop(fs.Keys, reject, owner);
        CardGrow(fs.Keys, reject - {owner}, a.state.reject - {owner});
        LinkKept(a.state.graph, fs, owner, ps[1..], a.state.reject);
        assert Link(g, fs, owner, ps, reject).state.graph
          == Link(a.state.graph, fs, owner, ps[1..], a.state.reject).state.graph;
      } else {
        assert Link(g, fs, owner, ps, reject) == a;
      }
    }
  }

  /** The first step of the loop keeps the invariant and the rest of the
      owner's parent set. */
  lemma {:induction false} LinkHeadKept(g: Graph, fs: Tree, owner: string, ps: seq<string>, reject: set<string>)
    requires |ps| > 0 && owner in reject && owner in fs
    requires Settled(g, fs, reject) && Kept(g)
    requires owner in g.parents && forall p :: p in ps ==> p in g.parents[owner].members
    ensures var a := Resolve(AddChild(g, ps[0], owner), fs, ps[0], reject);
      && Kept(a.state.graph)
      && (a.Ok() ==> (owner in a.state.graph.parents
                      && forall q :: q in ps[1..] ==> q in a.state.graph.parents[owner].members))
    decreases |fs.Keys - (reject - {owner})|, 0, |ps|, 0
  {
    var p := ps[0];
    var g1 := AddChild(g, p, owner);
    CardDrop(fs.Keys, reject, owner);
    ResolveKept(g1, fs, p, reject);
    ResolveFrame(g1, fs, p, reject);
    assert forall q :: q in ps[1..] ==> q in ps;
  }

  // ---------------------------------------------------------------------------
  // Inverse maps, outside the files still open or broken

  /** Every file outside `open` has all its child edges. */
  ghost predicate OpenLinked(g: Graph, open: set<string>) {
    Kept(g) && forall y :: y in g.parents && y !in open ==> LinkedAt(g, y)
  }

  /** Deleting a file that is not open succeeds and keeps the others linked. */
  lemma DeletedOpen(g: Graph, path: string, open: set<string>)
    requires OpenLinked(g, open) && path !in open
    ensures Deleted(g, path).Ok() && OpenLinked(Deleted(g, path).state, open)
  {
  }

  /** A new parent set opens its file until its child edges are added. */
  lemma StampOpen(g: Graph, path: string, t: TimedSet, open: set<string>)
    requires OpenLinked(g, open) && path !in g.parents && NoDup(t.members)
    ensures OpenLinked(g.(parents := g.parents[path := t]), open + {path})
  {
    var h := g.(parents := g.parents[path := t]);
    KeptRestamped(g, path, t);
    forall y | y in h.parents && y !in open + {path} ensures LinkedAt(h, y) {
      assert LinkedAt(g, y);
    }
  }

  /** Adding the child edge of a recorded parent edge keeps the graph open-linked. */
  lemma AddChildOpen(g: Graph, p: string, owner: string, open: set<string>)
    requires OpenLinked(g, open) && owner in g.parents && p in g.parents[owner].members
    ensures OpenLinked(AddChild(g, p, owner), open)
  {
    var h := AddChild(g, p, owner);
    forall y | y in h.parents && y !in open ensures LinkedAt(h, y) {
      assert LinkedAt(g, y);
    }
  }

  lemma {:induction false} ResolveLinked(g: Graph, fs: Tree, path: string, reject: set<string>, open: set<string>)
    requires Settled(g, fs, reject) && open <= reject && OpenLinked(g, open)
    ensures var r := Resolve(g, fs, path, reject);
      && r.Ok()
      && OpenLinked(r.state.graph, open + Broken(r.state.log))
      && Broken(r.state.log) <= r.state.reject
    decreases |fs.Keys - reject|, 2, 0, 0
  {
    var rj := reject + {path};
    match Lookup(fs, path)
    case Some(File(mtime, refs)) =>
      if path in g.parents && g.parents[path].updated == mtime {
        assert Resolve(g, fs, path, reject) == Done(Resolution(g, rj, []));
      } else {
        RescanLinked(g, fs, path, reject, open, mtime, refs);
      }
    case _ =>
      assert Resolve(g, fs, path, reject) == Done(Resolution(g, rj, [Unreadable(path)]));
      assert Broken([Unreadable(path)]) == {};
  }

  /** A rescan of a file that is not open: its parent set is rebuilt, and
      either its scan logged an error and it stays open, or all its child
      edges are added. */
  lemma {:induction false} RescanLinked(g: Graph, fs: Tree, path: string, reject: set<string>, open: set<string>,
                                        mtime: int, refs: seq<string>)
    requires Settled(g, fs, reject) && open <= reject && OpenLinked(g, open)
    requires Lookup(fs, path) == Some(File(mtime, refs))
    requires !(path in g.parents && g.parents[path].updated == mtime)
    ensures var r := Resolve(g, fs, path, reject);
      && r.Ok()
      && OpenLinked(r.state.graph, open + Broken(r.state.log))
      && Broken(r.state.log) <= r.state.reject
    decreases |fs.Keys - reject|, 1, 0, 0
  {
    var rj := reject + {path};
    var d := Deleted(g, path);
    DeletedOpen(g, path, open);
    var s := Collect(path, refs, rj, []);
    var t := TimedSet(mtime, s.members);
    var g1 := d.state.(parents := d.state.parents[path := t]);
    StampOpen(d.state, path, t, open);
    if s.error.Some? {
      assert Resolve(g, fs, path, reject) == Done(Resolution(g1, rj, [s.error.value]));
      assert Broken([s.error.value]) == {path};
    } else {
      assert rj - {path} == reject;
      LinkLinked(g1, fs, path, s.members, rj, open);
      assert Resolve(g, fs, path, reject) == Link(g1, fs, path, s.members, rj);
    }
  }

  lemma {:induction false} LinkLinked(g: Graph, fs: Tree, owner: string, ps: seq<string>,
                                      reject: set<string>, open: set<string>)
    requires owner in reject && owner in fs
    requires Settled(g, fs, reject) && open <= reject && OpenLinked(g, open + {owner})
    requires owner in g.parents && forall p :: p in ps ==> p in g.parents[owner].members
    requires forall p :: p in g.parents[owner].members ==>
      p in ps || (p in g.children && owner in g.children[p])
    ensures var r := Link(g, fs, owner, ps, reject);
      && r.Ok()
      && OpenLinked(r.state.graph, open + Broken(r.state.log))
      && Broken(r.state.log) <= r.state.reject
    decreases |fs.Keys - (reject - {owner})|, 0, |ps|, 1
  {
    if |ps| == 0 {
      assert LinkedAt(g, owner);
      assert Link(g, fs, owner, ps, reject) == Done(Resolution(g, reject, []));
    } else {
      var p := ps[0];
      var g1 := AddChild(g, p, owner);
      var a := Resolve(g1, fs, p, reject);
      var h := a.state.graph;
      var open' := open + Broken(a.state.log);
      LinkHeadLinked(g, fs, owner, ps, reject, open);
      LinkProgress(g, g1, h, owner, ps, reject);
      CardDrop(fs.Keys, reject, owner);
      CardGrow(fs.Keys, reject - {owner}, a.state.reject - {owner});
      LinkLinked(h, fs, owner, ps[1..], a.state.reject, open');
      var b := Link(h, fs, owner, ps[1..], a.state.reject);
      assert Link(g, fs, owner, ps, reject)
        == Outcome(Resolution(b.state.graph, b.state.reject, a.state.log + b.state.log), b.fault);
      BrokenConcat(a.state.log, b.state.log);
    }
  }

  /** The first step of the loop: the added child edge and the rebuilt parent
      leave the graph linked outside the open files and the new broken ones. */
  lemma {:induction false} LinkHeadLinked(g: Graph, fs: Tree, owner: string, ps: seq<string>,
                                          reject: set<string>, open: set<string>)
    requires |ps| > 0 && owner in reject && owner in fs
    requires Settled(g, fs, reject) && open <= reject && OpenLinked(g, open + {owner})
    requires owner in g.parents && forall p :: p in ps ==> p in g.parents[owner].members
    ensures var g1 := AddChild(g, ps[0], owner);
      var a := Resolve(g1, fs, ps[0], reject);
      && a.Ok() && OpenLinked(a.state.graph, open + Broken(a.state.log) + {owner})
      && Broken(a.state.log) <= a.state.reject
      && Framed(g1, a.state.graph, reject)
    decreases |fs.Keys - (reject - {owner})|, 0, |ps|, 0
  {
    var p := ps[0];
    var g1 := AddChild(g, p, owner);
    var a := Resolve(g1, fs, p, reject);
    AddChildOpen(g, p, owner, open + {owner});
    CardDrop(fs.Keys, reject, owner);
    ResolveLinked(g1, fs, p, reject, open + {owner});
    ResolveFrame(g1, fs, p, reject);
    assert open + {owner} + Broken(a.state.log) == open + Broken(a.state.log) + {owner};
  }

  /** After one parent of `owner` is linked and rebuilt, the rest of the loop
      still covers every parent edge of `owner` that lacks its child edge. */
  lemma LinkProgress(g: Graph, g1: Graph, h: Graph, owner: string, ps: seq<string>, reject: set<string>)
    requires |ps| > 0 && owner in reject && owner in g.parents
    requires g1 == AddChild(g, ps[0], owner) && Framed(g1, h, reject)
    requires forall p :: p in ps ==> p in g.parents[owner].members
    requires forall p :: p in g.parents[owner].members ==>
      p in ps || (p in g.children && owner in g.children[p])
    ensures owner in h.parents && h.parents[owner] == g.parents[owner]
    ensures forall p :: p in ps[1..] ==> p in h.parents[owner].members
    ensures forall p :: p in h.parents[owner].members ==>
      p in ps[1..] || (p in h.children && owner in h.children[p])
  {
    assert forall q :: q in ps <==> q == ps[0] || q in ps[1..];
    forall q | q in h.parents[owner].members
      ensures q in ps[1..] || (q in h.children && owner in h.children[q])
    {
      if q !in ps[1..] {
        assert q in g1.children && owner in g1.children[q];
      }
    }
  }

  /** The rebuild of one file never stops on an error when the graph's maps
      are inverses, and leaves them inverses everywhere except at the files
      whose scan logged an escaping or circular reference. */
  lemma RebuildKeepsInverse(g: Graph, fs: Tree, path: string)
    requires Linked(g)
    ensures var r := RebuildReferences(g, fs, path);
      && r.Ok()
      && Kept(r.state.graph)
      && forall y :: y in r.state.graph.parents && y !in Broken(r.state.log) ==> LinkedAt(r.state.graph, y)
  {
    ResolveLinked(g, fs, path, {}, {});
  }

  /** With no escaping or circular reference met, the rebuilt maps are exact inverses. */
  lemma CleanRebuildLinked(g: Graph, fs: Tree, path: string)
    requires Linked(g)
    requires Broken(RebuildReferences(g, fs, path).state.log) == {}
    ensures RebuildReferences(g, fs, path).Ok()
    ensures Linked(RebuildReferences(g, fs, path).state.graph)
  {
    ResolveLinked(g, fs, path, {}, {});
  }

  /** Any rebuild, completed or stopped by a KeyError, keeps every child edge
      matched by a parent edge. */
  lemma RebuildKept(g: Graph, fs: Tree, path: string)
    requires Kept(g)
    ensures Kept(RebuildReferences(g, fs, path).state.graph)
  {
    ResolveKept(g, fs, path, {});
  }

  /** Asking the tree handler about a file keeps every child edge matched
      by a parent edge, and on inverse maps it never raises. */
  lemma TreeHandlesKept(h: TreeHandler, fs: Tree, path: string)
    ensures Kept(h.graph) ==> Kept(TreeHandles(h, fs, path).state.h.graph)
    ensures Linked(h.graph) ==> TreeHandles(h, fs, path).Ok()
  {
    if Kept(h.graph) {
      RebuildKept(h.graph, fs, path);
    }
    if Linked(h.graph) {
      RebuildKeepsInverse(h.graph, fs, path);
    }
  }

  // ---------------------------------------------------------------------------
  // A two-file cycle

  /** `a` references `b` and `b` references `a`, both written at time 1. */
  function Cycle(): (fs: Tree)
    ensures fs.Keys == {"a", "b"}
  {
    map["a" := File(1, ["b"]), "b" := File(1, ["a"])]
  }

  /** A one-letter reference from a one-letter file at the top designates itself. */
  lemma TopTarget(path: string, ref: string)
    requires |path| == 1 && path[0] != Sep
    requires |ref| == 1 && ref[0] != Sep && ref != "."
    ensures Target(path, ref) == ref
  {
    assert path[..0] == "";
    assert HeadLength(path) == 0;
    assert Dirname(path) == "";
    assert Join("", ref) == ref;
    SplitNoSep(ref);
    assert ref != "..";
    assert Collapse([ref], [], false) == [ref];
    assert JoinSep([ref]) == ref;
    assert Repeat(Sep, 0) + ref == ref;
  }

  lemma CycleTargets()
    ensures Target("a", "b") == "b" && Target("b", "a") == "a"
  {
    TopTarget("a", "b");
    TopTarget("b", "a");
  }

  /** The graph the rebuild of `a` leaves. */
  function CycleGraph(): Graph {
    Graph(map["a" := TimedSet(1, ["b"]), "b" := TimedSet(1, [])], map["b" := {"a"}])
  }

  /** A first reading whose scan stops on an error records the partial parent set. */
  lemma ResolveStopped(g: Graph, fs: Tree, path: string, reject: set<string>, m: int, refs: seq<string>)
    requires Settled(g, fs, reject)
    requires Lookup(fs, path) == Some(File(m, refs)) && path !in g.parents
    requires Collect(path, refs, reject + {path}, []).error.Some?
    ensures var s := Collect(path, refs, reject + {path}, []);
      Resolve(g, fs, path, reject)
        == Done(Resolution(g.(parents := g.parents[path := TimedSet(m, s.members)]), reject + {path}, [s.error.value]))
  {
    assert Deleted(g, path) == Done(g);
  }

  /** `b` is reached with `a` rejected: its scan stops at the reference back to `a`. */
  lemma CycleSecond()
    ensures Resolve(Graph(map["a" := TimedSet(1, ["b"])], map["b" := {"a"}]), Cycle(), "b", {"a"})
      == Done(Resolution(CycleGraph(), {"a", "b"}, [Circular("b", "a")]))
  {
    var g := Graph(map["a" := TimedSet(1, ["b"])], map["b" := {"a"}]);
    CycleTargets();
    assert Lookup(Cycle(), "a") == Some(File(1, ["b"]));
    assert Lookup(Cycle(), "b") == Some(File(1, ["a"]));
    assert {"a"} + {"b"} == {"a", "b"};
    assert Collect("b", ["a"], {"a", "b"}, []) == Scan([], Some(Circular("b", "a")));
    ResolveStopped(g, Cycle(), "b", {"a"}, 1, ["a"]);
    assert g.(parents := g.parents["b" := TimedSet(1, [])]) == CycleGraph();
  }

  /** A first reading whose scan accepts every reference links the parents. */
  lemma ResolveScanned(g: Graph, fs: Tree, path: string, reject: set<string>, m: int, refs: seq<string>)
    requires Settled(g, fs, reject)
    requires Lookup(fs, path) == Some(File(m, refs)) && path !in g.parents
    requires Collect(path, refs, reject + {path}, []).error.None?
    ensures var s := Collect(path, refs, reject + {path}, []);
      Resolve(g, fs, path, reject)
        == Link(g.(parents := g.parents[path := TimedSet(m, s.members)]), fs, path, s.members, reject + {path})
  {
    assert Deleted(g, path) == Done(g);
  }

  /** The link loop over a single parent. */
  lemma LinkSingle(g: Graph, fs: Tree, owner: string, p: string, reject: set<string>)
    requires owner in reject && owner in fs
    requires Settled(g, fs, reject)
    ensures var a := Resolve(AddChild(g, p, owner), fs, p, reject);
      a.Ok() ==> Link(g, fs, owner, [p], reject) == Done(Resolution(a.state.graph, a.state.reject, a.state.log))
  {
    var a := Resolve(AddChild(g, p, owner), fs, p, reject);
    if a.Ok() {
      assert a.state.log + [] == a.state.log;
      assert [p][1..] == [];
    }
  }

  /** `a` is read with nothing rejected: its one reference is accepted and linked. */
  lemma CycleFirst()
    ensures Resolve(Empty(), Cycle(), "a", {})
      == Done(Resolution(CycleGraph(), {"a", "b"}, [Circular("b", "a")]))
  {
    var fs := Cycle();
    CycleTargets();
    var g1 := Graph(map["a" := TimedSet(1, ["b"])], map[]);
    assert Lookup(fs, "a") == Some(File(1, ["b"]));
    assert {} + {"a"} == {"a"};
    assert Collect("a", ["b"], {"a"}, []) == Scan(["b"], None) by {
      assert Collect("a", [], {"a"}, ["b"]) == Scan(["b"], None);
    }
    ResolveScanned(Empty(), fs, "a", {}, 1, ["b"]);
    assert Empty().(parents := Empty().parents["a" := TimedSet(1, ["b"])]) == g1;
    assert AddChild(g1, "b", "a") == Graph(map["a" := TimedSet(1, ["b"])], map["b" := {"a"}]);
    CycleSecond();
    LinkSingle(g1, fs, "a", "b", {"a"});
  }

  /** Asked about `b` afterwards, the tree handler finds its parent set
      current, so `b` is a root and claims its output. */
  lemma CycleRootClaims()
    ensures TreeHandles(TreeHandler(Handler(_ => true, [""]), CycleGraph()), Cycle(), "b").state.outputs
      == Some(["b"])
  {
    var g := CycleGraph();
    var h := TreeHandler(Handler(_ => true, [""]), g);
    assert Lookup(Cycle(), "b") == Some(File(1, ["a"]));
    assert "b" in g.parents && g.parents["b"].updated == 1;
    assert {} + {"b"} == {"b"};
    var b := RebuildReferences(g, Cycle(), "b");
    assert b == Done(Resolution(g, {"b"}, []));
    assert h.base.matches("b");
    assert |g.parents["b"].members| == 0;
    assert "b" + "" == "b";
    assert Outputs([""], "b") == ["b"];
  }

  /** Rebuilding `a` logs the circular reference found in `b` only: `a` keeps
      `b` as its parent, while `b` keeps the empty parent set its scan had
      started, so `b` is afterwards taken for a root and claims its own
      output. */
  lemma CycleLeavesRoot()
    ensures RebuildReferences(Empty(), Cycle(), "a")
      == Done(Resolution(CycleGraph(), {"a", "b"}, [Circular("b", "a")]))
    ensures TreeHandles(TreeHandler(Handler(_ => true, [""]), CycleGraph()), Cycle(), "b").state.outputs
      == Some(["b"])
  {
    CycleFirst();
    CycleRootClaims();
  }

  // ---------------------------------------------------------------------------
  // Two references that meet

  /** `d` references `b` and `c`, both of which reference `a`: no cycle. */
  function Fork(): (fs: Tree)
    ensures fs.Keys == {"a", "b", "c", "d"}
  {
    map["d" := File(1, ["b", "c"]), "b" := File(1, ["a"]), "c" := File(1, ["a"]), "a" := File(1, [])]
  }

  /** The link loop over two parents. */
  lemma LinkPair(g: Graph, fs: Tree, owner: string, p: string, q: string, reject: set<string>)
    requires owner in reject && owner in fs
    requires Settled(g, fs, reject)
    ensures var a := Resolve(AddChild(g, p, owner), fs, p, reject);
      a.Ok() ==>
        var b := Resolve(AddChild(a.state.graph, q, owner), fs, q, a.state.reject);
        (b.Ok() ==> Link(g, fs, owner, [p, q], reject)
                    == Done(Resolution(b.state.graph, b.state.reject, a.state.log + b.state.log)))
  {
    var a := Resolve(AddChild(g, p, owner), fs, p, reject);
    if a.Ok() {
      assert [p, q][1..] == [q];
      LinkSingle(a.state.graph, fs, owner, q, a.state.reject);
    }
  }

  /** The first child edge of a parent. */
  lemma AddChildNew(g: Graph, p: string, owner: string)
    requires p !in g.children
    ensures AddChild(g, p, owner) == g.(children := g.children[p := {owner}])
  {
    assert {} + {owner} == {owner};
  }

  /** A first reading of a file without references records an empty parent set. */
  lemma ResolveLeaf(g: Graph, fs: Tree, path: string, reject: set<string>, m: int)
    requires Settled(g, fs, reject)
    requires Lookup(fs, path) == Some(File(m, [])) && path !in g.parents
    ensures Resolve(g, fs, path, reject)
      == Done(Resolution(g.(parents := g.parents[path := TimedSet(m, [])]), reject + {path}, []))
  {
    ResolveScanned(g, fs, path, reject, m, []);
  }

  /** `a` is read after `d` and `b`: it has no references. */
  lemma ForkTop()
    ensures Resolve(Graph(map["d" := TimedSet(1, ["b", "c"]), "b" := TimedSet(1, ["a"])], map["b" := {"d"}, "a" := {"b"}]),
                    Fork(), "a", {"b", "d"})
      == Done(Resolution(Graph(map["d" := TimedSet(1, ["b", "c"]), "b" := TimedSet(1, ["a"]), "a" := TimedSet(1, [])],
                               map["b" := {"d"}, "a" := {"b"}]),
                         {"a", "b", "d"}, []))
  {
    var fs := Fork();
    var g := Graph(map["d" := TimedSet(1, ["b", "c"]), "b" := TimedSet(1, ["a"])], map["b" := {"d"}, "a" := {"b"}]);
    assert Lookup(fs, "d") == Some(File(1, ["b", "c"]));
    assert Lookup(fs, "b") == Some(File(1, ["a"]));
    assert Lookup(fs, "a") == Some(File(1, []));
    assert {"b", "d"} + {"a"} == {"a", "b", "d"};
    ResolveLeaf(g, fs, "a", {"b", "d"}, 1);
  }

  /** `b` is read after `d`: it records `a`, which is read in turn. */
  lemma ForkLeft()
    ensures Resolve(Graph(map["d" := TimedSet(1, ["b", "c"])], map["b" := {"d"}]), Fork(), "b", {"d"})
      == Done(Resolution(Graph(map["d" := TimedSet(1, ["b", "c"]), "b" := TimedSet(1, ["a"]), "a" := TimedSet(1, [])],
                               map["b" := {"d"}, "a" := {"b"}]),
                         {"a", "b", "d"}, []))
  {
    var fs := Fork();
    var g := Graph(map["d" := TimedSet(1, ["b", "c"])], map["b" := {"d"}]);
    var g1 := Graph(map["d" := TimedSet(1, ["b", "c"]), "b" := TimedSet(1, ["a"])], map["b" := {"d"}]);
    TopTarget("b", "a");
    assert Lookup(fs, "d") == Some(File(1, ["b", "c"]));
    assert Lookup(fs, "b") == Some(File(1, ["a"]));
    assert {"d"} + {"b"} == {"b", "d"};
    assert Collect("b", ["a"], {"b", "d"}, []) == Scan(["a"], None) by {
      assert Collect("b", [], {"b", "d"}, ["a"]) == Scan(["a"], None);
    }
    ResolveScanned(g, fs, "b", {"d"}, 1, ["a"]);
    assert g.(parents := g.parents["b" := TimedSet(1, ["a"])]) == g1;
    AddChildNew(g1, "a", "b");
    assert g1.children["a" := {"b"}] == map["b" := {"d"}, "a" := {"b"}];
    ForkTop();
    LinkSingle(g1, fs, "b", "a", {"b", "d"});
  }

  /** The files `d`, `b` and `a` carry their current times in `g`. */
  lemma ForkSettled(g: Graph)
    requires "d" in g.parents && "b" in g.parents && "a" in g.parents
    requires g.parents["d"].updated == 1 && g.parents["b"].updated == 1 && g.parents["a"].updated == 1
    ensures Settled(g, Fork(), {"a", "b", "d"})
  {
    var fs := Fork();
    assert Lookup(fs, "d") == Some(File(1, ["b", "c"]));
    assert Lookup(fs, "b") == Some(File(1, ["a"]));
    assert Lookup(fs, "a") == Some(File(1, []));
  }

  /** `c` is read after `d`, `b` and `a`: its reference to `a` meets the
      shared reject set. */
  lemma ForkRight()
    ensures Resolve(Graph(map["d" := TimedSet(1, ["b", "c"]), "b" := TimedSet(1, ["a"]), "a" := TimedSet(1, [])],
                          map["b" := {"d"}, "a" := {"b"}, "c" := {"d"}]), Fork(), "c", {"a", "b", "d"})
      == Done(Resolution(ForkGraph(), {"a", "b", "c", "d"}, [Circular("c", "a")]))
  {
    var g := Graph(map["d" := TimedSet(1, ["b", "c"]), "b" := TimedSet(1, ["a"]), "a" := TimedSet(1, [])],
                   map["b" := {"d"}, "a" := {"b"}, "c" := {"d"}]);
    ForkSettled(g);
    assert Lookup(Fork(), "c") == Some(File(1, ["a"]));
    assert {"a", "b", "d"} + {"c"} == {"a", "b", "c", "d"};
    assert Collect("c", ["a"], {"a", "b", "c", "d"}, []) == Scan([], Some(Circular("c", "a"))) by {
      TopTarget("c", "a");
    }
    ResolveStopped(g, Fork(), "c", {"a", "b", "d"}, 1, ["a"]);
    assert g.(parents := g.parents["c" := TimedSet(1, [])]) == ForkGraph();
  }

  /** The graph the rebuild of `d` leaves. */
  function ForkGraph(): Graph {
    Graph(map["d" := TimedSet(1, ["b", "c"]), "b" := TimedSet(1, ["a"]), "a" := TimedSet(1, []),
              "c" := TimedSet(1, [])],
          map["b" := {"d"}, "a" := {"b"}, "c" := {"d"}])
  }

  lemma ForkScanTail()
    ensures Collect("d", ["c"], {"d"}, ["b"]) == Scan(["b", "c"], None)
  {
    TopTarget("d", "c");
    assert ["b"] + ["c"] == ["b", "c"] && ["c"][1..] == [];
    assert Collect("d", [], {"d"}, ["b", "c"]) == Scan(["b", "c"], None);
  }

  lemma ForkScan()
    ensures Collect("d", ["b", "c"], {"d"}, []) == Scan(["b", "c"], None)
  {
    TopTarget("d", "b");
    ForkScanTail();
    assert [] + ["b"] == ["b"] && ["b", "c"][1..] == ["c"];
  }

  /** `d` is read first: both its references are accepted. */
  lemma ForkRoot()
    ensures Resolve(Empty(), Fork(), "d", {})
      == Link(Graph(map["d" := TimedSet(1, ["b", "c"])], map[]), Fork(), "d", ["b", "c"], {"d"})
  {
    var fs := Fork();
    assert Lookup(fs, "d") == Some(File(1, ["b", "c"]));
    assert {} + {"d"} == {"d"};
    ForkScan();
    ResolveScanned(Empty(), fs, "d", {}, 1, ["b", "c"]);
    assert Empty().(parents := Empty().parents["d" := TimedSet(1, ["b", "c"])])
      == Graph(map["d" := TimedSet(1, ["b", "c"])], map[]);
  }

  /** The reject set is shared by the two branches under `d`, so when `c`
      reaches `a` after `b` has, the reference is logged as circular although
      the references form no cycle: `c` is left with an empty parent set, a
      root, and `a` never learns that `c` references it. */
  lemma SharedRejectFlagsFork()
    ensures RebuildReferences(Empty(), Fork(), "d")
      == Done(Resolution(ForkGraph(), {"a", "b", "c", "d"}, [Circular("c", "a")]))
    ensures "c" !in ForkGraph().children["a"] && ForkGraph().parents["c"].members == []
  {
    var fs := Fork();
    ForkRoot();
    var g1 := Graph(map["d" := TimedSet(1, ["b", "c"])], map[]);
    AddChildNew(g1, "b", "d");
    assert g1.children["b" := {"d"}] == map["b" := {"d"}];
    ForkLeft();
    var g2 := Graph(map["d" := TimedSet(1, ["b", "c"]), "b" := TimedSet(1, ["a"]), "a" := TimedSet(1, [])],
                    map["b" := {"d"}, "a" := {"b"}]);
    AddChildNew(g2, "c", "d");
    assert g2.children["c" := {"d"}] == map["b" := {"d"}, "a" := {"b"}, "c" := {"d"}];
    ForkRight();
    assert Lookup(fs, "d") == Some(File(1, ["b", "c"]));
    assert Settled(g1, fs, {"d"});
    LinkPair(g1, fs, "d", "b", "c", {"d"});
    assert [] + [Circular("c", "a")] == [Circular("c", "a")];
  }
}
