/** File handlers: the plain handler, which claims the files its patterns
    match and names one output per suffix, and the tree handler, which keeps a
    graph of `<base path="..."/>` references between source files so that a
    file referenced by others produces no output of its own and is built
    through the files that reference it. */
module Handlers {
  import opened Paths
  import opened Fs

  // ---------------------------------------------------------------------------
  // The plain handler

  /** `matches` is the include/ignore pattern test, which is not modelled; the
      suffixes default to a single empty one, so the output is the input path. */
  datatype Handler = Handler(matches: string -> bool, suffixes: seq<string>)

  /** `_outputs`: one output per suffix, the input path with the suffix appended. */
  function Outputs(suffixes: seq<string>, path: string): (r: seq<string>)
    ensures |r| == |suffixes|
    ensures forall i :: 0 <= i < |r| ==> r[i] == path + suffixes[i]
  {
    if |suffixes| == 0 then []
    else [path + suffixes[0]] + Outputs(suffixes[1..], path)
  }

  /** `Handler.handles`: unclaimed when the patterns reject the path, otherwise
      the outputs. */
  function Handles(h: Handler, path: string): (r: Option<seq<string>>)
    ensures r.None? <==> !h.matches(path)
    ensures r.Some? ==> r.value == Outputs(h.suffixes, path)
  {
    if !h.matches(path) then None else Some(Outputs(h.suffixes, path))
  }

  // ---------------------------------------------------------------------------
  // The reference graph

  /** A parent set with the modification time of the file it was read from.
      The set is kept as a sequence without repeats whose order stands for
      the set's iteration order; the model takes it to be insertion order,
      where Python's set follows its hash table instead. */
  datatype TimedSet = TimedSet(updated: int, members: seq<string>)

  /** `parents` maps a file to its referenced parents; `children` maps a parent
      to the files that reference it. */
  datatype Graph = Graph(parents: map<string, TimedSet>, children: map<string, set<string>>)

  datatype TreeHandler = TreeHandler(base: Handler, graph: Graph)

  function Empty(): (g: Graph)
    ensures Linked(g)
  {
    Graph(map[], map[])
  }

  /** Every child edge has its parent edge, no parent set repeats a member and
      no child set is empty.  This holds after every step, failed ones included. */
  ghost predicate Kept(g: Graph) {
    && (forall y :: y in g.parents ==> NoDup(g.parents[y].members))
    && (forall p :: p in g.children ==> g.children[p] != {})
    && (forall p, c :: p in g.children && c in g.children[p] ==>
          c in g.parents && p in g.parents[c].members)
  }

  /** Every parent edge of `y` has its child edge. */
  ghost predicate LinkedAt(g: Graph, y: string)
    requires y in g.parents
  {
    forall p :: p in g.parents[y].members ==> p in g.children && y in g.children[p]
  }

  /** The two maps are exact inverses of each other. */
  ghost predicate Linked(g: Graph) {
    Kept(g) && forall y :: y in g.parents ==> LinkedAt(g, y)
  }

  // ---------------------------------------------------------------------------
  // deleted

  /** The child map once `path` has left the child set of every parent in
      `ps`, a set that becomes empty being dropped. */
  function Unlinked(children: map<string, set<string>>, path: string, ps: seq<string>)
    : map<string, set<string>>
  {
    map p | p in children && (p !in ps || children[p] - {path} != {})
      :: if p in ps then children[p] - {path} else children[p]
  }

  /** The loop of `deleted`: `children[p].remove(path)` for each old parent,
      dropping emptied sets; a missing entry raises KeyError and keeps the
      removals made before it. */
  function Detach(children: map<string, set<string>>, path: string, ps: seq<string>)
    : (r: Outcome<map<string, set<string>>>)
    ensures r.Ok() <==> NoDup(ps) && forall p :: p in ps ==> p in children && path in children[p]
    ensures r.Ok() ==> r.state == Unlinked(children, path, ps)
    ensures r.Ok() ==> forall p :: p in ps && p in r.state ==> path !in r.state[p]
    ensures r.fault.Some? ==> r.fault.value.MissingKey?
    ensures forall p :: p in r.state ==> p in children && r.state[p] <= children[p]
    ensures (forall p :: p in children ==> children[p] != {}) ==>
      forall p :: p in r.state ==> r.state[p] != {}
    ensures forall p, c :: p in children && c in children[p] && c != path ==>
      p in r.state && c in r.state[p]
  {
    if |ps| == 0 then Done(children)
    else
      var p := ps[0];
      if p !in children then Raise(children, MissingKey(p))
      else if path !in children[p] then Raise(children, MissingKey(path))
      else
        var left := children[p] - {path};
        var next := if left == {} then children - {p} else children[p := left];
        assert forall q, c :: q in children && c in children[q] && c != path ==> q in next && c in next[q] by {
          forall q, c | q in children && c in children[q] && c != path ensures q in next && c in next[q] {
            if q == p {
              assert c in left;
            }
          }
        }
        var r := Detach(next, path, ps[1..]);
        DetachStep(children, path, ps, next, r);
        r
  }

  lemma DetachStep(children: map<string, set<string>>, path: string, ps: seq<string>,
                   next: map<string, set<string>>, r: Outcome<map<string, set<string>>>)
    requires |ps| > 0 && ps[0] in children && path in children[ps[0]]
    requires next == (if children[ps[0]] - {path} == {} then children - {ps[0]}
                      else children[ps[0] := children[ps[0]] - {path}])
    requires r.Ok() <==> NoDup(ps[1..]) && forall p :: p in ps[1..] ==> p in next && path in next[p]
    requires r.Ok() ==> r.state == Unlinked(next, path, ps[1..])
    ensures r.Ok() <==> NoDup(ps) && forall p :: p in ps ==> p in children && path in children[p]
    ensures r.Ok() ==> r.state == Unlinked(children, path, ps)
  {
    var p := ps[0];
    assert forall q :: q in ps <==> q == p || q in ps[1..];
    assert NoDup(ps) <==> NoDup(ps[1..]) && p !in ps[1..] by {
      if NoDup(ps) {
        forall i, j | 0 <= i < j < |ps[1..]| ensures ps[1..][i] != ps[1..][j] {
          assert ps[1..][i] == ps[i + 1] && ps[1..][j] == ps[j + 1];
        }
      }
      if NoDup(ps[1..]) && p !in ps[1..] {
        forall i, j | 0 <= i < j < |ps| ensures ps[i] != ps[j] {
          if i == 0 {
            assert ps[j] == ps[1..][j - 1];
          } else {
            assert ps[i] == ps[1..][i - 1] && ps[j] == ps[1..][j - 1];
          }
        }
      }
    }
    if r.Ok() {
      assert p !in ps[1..];
      var u, v := Unlinked(next, path, ps[1..]), Unlinked(children, path, ps);
      forall q ensures q in u <==> q in v {
      }
      forall q | q in u ensures u[q] == v[q] {
      }
      assert u == v;
    }
  }

  /** `deleted`: the file's parent edges go, together with the child edges that
      mirror them; an unknown file is left alone. */
  function Deleted(g: Graph, path: string): (r: Outcome<Graph>)
    ensures path !in g.parents ==> r == Done(g)
    ensures Kept(g) ==> (r.Ok() <==> path !in g.parents || LinkedAt(g, path))
    ensures r.Ok() ==> r.state.parents == g.parents - {path}
    ensures r.Ok() && path in g.parents ==>
      r.state.children == Unlinked(g.children, path, g.parents[path].members)
    ensures !r.Ok() ==> r.state.parents == g.parents && r.fault.value.MissingKey?
    ensures forall p, c :: p in g.children && c in g.children[p] && c != path ==>
      p in r.state.children && c in r.state.children[p]
    ensures Kept(g) ==> Kept(r.state)
    ensures forall y :: y in g.parents && y != path && LinkedAt(g, y) ==>
      y in r.state.parents && LinkedAt(r.state, y)
    ensures Linked(g) ==> r.Ok() && Linked(r.state)
  {
    if path !in g.parents then Done(g)
    else
      var d := Detach(g.children, path, g.parents[path].members);
      var r := if !d.Ok() then Outcome(g.(children := d.state), d.fault)
               else Done(Graph(g.parents - {path}, d.state));
      DeletedKeepsOthers(g, path, r);
      DeletedKept(g, path, r);
      r
  }

  /** A deletion leaves every other file's edges in place. */
  lemma DeletedKeepsOthers(g: Graph, path: string, r: Outcome<Graph>)
    requires path in g.parents
    requires var d := Detach(g.children, path, g.parents[path].members);
      r == if !d.Ok() then Outcome(g.(children := d.state), d.fault)
           else Done(Graph(g.parents - {path}, d.state))
    ensures forall y :: y in g.parents && y != path && LinkedAt(g, y) ==>
      y in r.state.parents && LinkedAt(r.state, y)
  {
    forall y | y in g.parents && y != path && LinkedAt(g, y)
      ensures y in r.state.parents && LinkedAt(r.state, y)
    {
      assert r.state.parents[y] == g.parents[y];
    }
  }

  /** A deletion, finished or cut short, keeps every child edge matched. */
  lemma DeletedKept(g: Graph, path: string, r: Outcome<Graph>)
    requires path in g.parents
    requires var d := Detach(g.children, path, g.parents[path].members);
      r == if !d.Ok() then Outcome(g.(children := d.state), d.fault)
           else Done(Graph(g.parents - {path}, d.state))
    ensures Kept(g) ==> Kept(r.state)
  {
    var d := Detach(g.children, path, g.parents[path].members);
    if Kept(g) {
      if d.Ok() {
        KeptWithout(g, path, d.state);
      } else {
        KeptShrunk(g, d.state);
      }
    }
  }

  /** Dropping child edges keeps the graph kept. */
  lemma KeptShrunk(g: Graph, c: map<string, set<string>>)
    requires Kept(g)
    requires forall p :: p in c ==> p in g.children && c[p] <= g.children[p] && c[p] != {}
    ensures Kept(g.(children := c))
  {
  }

  /** Dropping a file together with every child edge naming it keeps the graph kept. */
  lemma KeptWithout(g: Graph, path: string, c: map<string, set<string>>)
    requires Kept(g) && path in g.parents
    requires forall p :: p in c ==> p in g.children && c[p] <= g.children[p] && c[p] != {}
    requires forall p :: p in g.parents[path].members && p in c ==> path !in c[p]
    ensures Kept(Graph(g.parents - {path}, c))
  {
    var h := Graph(g.parents - {path}, c);
    forall p, x | p in c && x in c[p] ensures x in h.parents && p in h.parents[x].members {
      assert x in g.children[p];
    }
  }

  // ---------------------------------------------------------------------------
  // rebuild_references

  /** The errors the rebuild catches and logs: an unreadable file, a
      reference that leaves the root, a reference back into the files already
      visited. */
  datatype RefError =
    | Unreadable(path: string)
    | Escapes(path: string, ref: string)
    | Circular(path: string, parent: string)

  /** The file a reference in `path` designates: joined to the directory of
      `path`, then normalised. */
  function Target(path: string, ref: string): string {
    NormPath(Join(Dirname(path), ref))
  }

  /** Whether the scan accepts a reference. */
  predicate Accepted(path: string, ref: string, reject: set<string>) {
    !StartsWith(Target(path, ref), "..") && Target(path, ref) !in reject
  }

  /** `q` is the target of a reference that the scan reaches and accepts:
      every reference up to and including it is accepted. */
  ghost predicate Reached(path: string, refs: seq<string>, reject: set<string>, q: string) {
    exists i :: 0 <= i < |refs| && Target(path, refs[i]) == q && AcceptedUpTo(path, refs, reject, i)
  }

  predicate AcceptedUpTo(path: string, refs: seq<string>, reject: set<string>, i: int) {
    forall j :: 0 <= j <= i && j < |refs| ==> Accepted(path, refs[j], reject)
  }

  /** The outcome of scanning a file's references. */
  datatype Scan = Scan(members: seq<string>, error: Option<RefError>)

  /** The scan loop: each reference is resolved and added to the parent set;
      the first one that escapes the root or is already rejected stops the
      scan with its error, leaving the parents added before it. */
  function Collect(path: string, refs: seq<string>, reject: set<string>, acc: seq<string>)
    : (r: Scan)
    ensures NoDup(acc) ==> NoDup(r.members)
    ensures r.error.None? <==> forall ref :: ref in refs ==> Accepted(path, ref, reject)
    ensures r.error.Some? ==> !r.error.value.Unreadable? && r.error.value.path == path
    ensures forall q :: q in r.members <==> q in acc || Reached(path, refs, reject, q)
    ensures (forall q :: q in acc ==> q !in reject) ==> forall q :: q in r.members ==> q !in reject
  {
    if |refs| == 0 then Scan(acc, None)
    else
      assert refs[0] in refs;
      var rel := Target(path, refs[0]);
      if StartsWith(rel, "..") then Scan(acc, Some(Escapes(path, refs[0])))
      else if rel in reject then Scan(acc, Some(Circular(path, rel)))
      else
        var r := Collect(path, refs[1..], reject, if rel in acc then acc else acc + [rel]);
        CollectStep(path, refs, reject, acc, r);
        r
  }

  lemma CollectStep(path: string, refs: seq<string>, reject: set<string>, acc: seq<string>, r: Scan)
    requires |refs| > 0 && Accepted(path, refs[0], reject)
    requires var rel := Target(path, refs[0]);
      var acc' := if rel in acc then acc else acc + [rel];
      && (NoDup(acc') ==> NoDup(r.members))
      && (r.error.None? <==> forall ref :: ref in refs[1..] ==> Accepted(path, ref, reject))
      && (forall q :: q in r.members <==> q in acc' || Reached(path, refs[1..], reject, q))
    ensures NoDup(acc) ==> NoDup(r.members)
    ensures r.error.None? <==> forall ref :: ref in refs ==> Accepted(path, ref, reject)
    ensures forall q :: q in r.members <==> q in acc || Reached(path, refs, reject, q)
  {
    var rel := Target(path, refs[0]);
    assert forall ref :: ref in refs <==> ref == refs[0] || ref in refs[1..];
    if NoDup(acc) && rel !in acc {
      AppendNoDup(acc, rel);
    }
    forall q ensures Reached(path, refs, reject, q) <==> q == rel || Reached(path, refs[1..], reject, q) {
      ReachedStep(path, refs, reject, q);
    }
  }

  lemma ReachedStep(path: string, refs: seq<string>, reject: set<string>, q: string)
    requires |refs| > 0 && Accepted(path, refs[0], reject)
    ensures Reached(path, refs, reject, q) <==> q == Target(path, refs[0]) || Reached(path, refs[1..], reject, q)
  {
    if q == Target(path, refs[0]) {
      assert AcceptedUpTo(path, refs, reject, 0);
    }
    if Reached(path, refs[1..], reject, q) {
      ReachedFromTail(path, refs, reject, q);
    }
    if Reached(path, refs, reject, q) && q != Target(path, refs[0]) {
      ReachedInTail(path, refs, reject, q);
    }
  }

  lemma ReachedFromTail(path: string, refs: seq<string>, reject: set<string>, q: string)
    requires |refs| > 0 && Accepted(path, refs[0], reject) && Reached(path, refs[1..], reject, q)
    ensures Reached(path, refs, reject, q)
  {
    var i :| 0 <= i < |refs[1..]| && Target(path, refs[1..][i]) == q && AcceptedUpTo(path, refs[1..], reject, i);
    assert Target(path, refs[i + 1]) == q;
    forall j | 0 <= j <= i + 1 && j < |refs| ensures Accepted(path, refs[j], reject) {
      if j > 0 {
        assert refs[j] == refs[1..][j - 1];
      }
    }
    assert AcceptedUpTo(path, refs, reject, i + 1);
  }

  lemma ReachedInTail(path: string, refs: seq<string>, reject: set<string>, q: string)
    requires |refs| > 0 && Reached(path, refs, reject, q) && q != Target(path, refs[0])
    ensures Reached(path, refs[1..], reject, q)
  {
    var i :| 0 <= i < |refs| && Target(path, refs[i]) == q && AcceptedUpTo(path, refs, reject, i);
    assert i > 0;
    assert Target(path, refs[1..][i - 1]) == q;
    forall j | 0 <= j <= i - 1 && j < |refs[1..]| ensures Accepted(path, refs[1..][j], reject) {
      assert refs[1..][j] == refs[j + 1];
    }
    assert AcceptedUpTo(path, refs[1..], reject, i - 1);
  }

  /** Every rejected file that is readable has a parent set stamped with its
      current time: so a file met again is a cache hit and is not re-read. */
  ghost predicate Settled(g: Graph, fs: Tree, reject: set<string>) {
    forall x :: x in reject && Lookup(fs, x).Some? && Lookup(fs, x).value.File? ==>
      x in g.parents && g.parents[x].updated == Lookup(fs, x).value.mtime
  }

  /** The state a rebuild carries: the graph, the shared reject set and the
      errors logged so far. */
  datatype Resolution = Resolution(graph: Graph, reject: set<string>, log: seq<RefError>)

  lemma CardDrop(a: set<string>, r: set<string>, o: string)
    requires o in a && o in r
    ensures |a - (r - {o})| == |a - r| + 1
  {
    assert a - (r - {o}) == (a - r) + {o};
  }

  lemma CardGrow(a: set<string>, r: set<string>, r': set<string>)
    requires r <= r'
    ensures |a - r'| <= |a - r|
  {
    assert a - r' <= a - r;
    SubsetCard(a - r', a - r);
  }

  lemma {:induction false} SubsetCard(x: set<string>, y: set<string>)
    requires x <= y
    ensures |x| <= |y|
    decreases |y|
  {
    if x != {} {
      var e :| e in x;
      SubsetCard(x - {e}, y - {e});
    }
  }

  /** `rebuild_references(src, path, reject)`.  `path` joins the reject set;
      a file that cannot be read is logged; a file whose time matches its
      parent set is a cache hit; otherwise its old edges are deleted, its
      references are scanned into a new parent set, and each accepted parent
      gets the child edge and is rebuilt in turn with the same reject set.  A
      logged error ends the work on this file only; a KeyError from `deleted`
      escapes to the caller. */
  function Resolve(g: Graph, fs: Tree, path: string, reject: set<string>): (r: Outcome<Resolution>)
    requires Settled(g, fs, reject)
    ensures reject + {path} <= r.state.reject
    ensures r.Ok() ==> Settled(r.state.graph, fs, r.state.reject)
    ensures r.fault.Some? ==> r.fault.value.MissingKey?
    ensures (match Lookup(fs, path)
             case Some(File(m, _)) => path in g.parents && g.parents[path].updated == m
             case _ => false)
      ==> r == Done(Resolution(g, reject + {path}, []))
    decreases |fs.Keys - reject|, 1, 0
  {
    var rj := reject + {path};
    match Lookup(fs, path)
    case Some(File(mtime, refs)) =>
      if path in g.parents && g.parents[path].updated == mtime then Done(Resolution(g, rj, []))
      else
        var d := Deleted(g, path);
        if !d.Ok() then Outcome(Resolution(d.state, rj, []), d.fault)
        else
          var s := Collect(path, refs, rj, []);
          var g1 := d.state.(parents := d.state.parents[path := TimedSet(mtime, s.members)]);
          if s.error.Some? then Done(Resolution(g1, rj, [s.error.value]))
          else
            assert rj - {path} == reject;
            Link(g1, fs, path, s.members, rj)
    case _ => Done(Resolution(g, rj, [Unreadable(path)]))
  }

  /** The loop over the new parent set: add the child edge, rebuild the
      parent; stop only when a KeyError escapes. */
  function Link(g: Graph, fs: Tree, owner: string, ps: seq<string>, reject: set<string>)
    : (r: Outcome<Resolution>)
    requires owner in reject && owner in fs
    requires Settled(g, fs, reject)
    ensures reject <= r.state.reject
    ensures r.Ok() ==> Settled(r.state.graph, fs, r.state.reject)
    ensures r.fault.Some? ==> r.fault.value.MissingKey?
    decreases |fs.Keys - (reject - {owner})|, 0, |ps|
  {
    if |ps| == 0 then Done(Resolution(g, reject, []))
    else
      var p := ps[0];
      var g1 := AddChild(g, p, owner);
      CardDrop(fs.Keys, reject, owner);
      var a := Resolve(g1, fs, p, reject);
      if !a.Ok() then a
      else
        CardGrow(fs.Keys, reject - {owner}, a.state.reject - {owner});
        var b := Link(a.state.graph, fs, owner, ps[1..], a.state.reject);
        Outcome(Resolution(b.state.graph, b.state.reject, a.state.log + b.state.log), b.fault)
  }

  /** `children.setdefault(p, set()).add(owner)`: adds one child edge and nothing else. */
  function AddChild(g: Graph, p: string, owner: string): (h: Graph)
    ensures h.parents == g.parents
    ensures p in h.children && owner in h.children[p]
    ensures forall q, c :: q in h.children && c in h.children[q] <==>
      (q == p && c == owner) || (q in g.children && c in g.children[q])
  {
    g.(children := g.children[p := (if p in g.children then g.children[p] else {}) + {owner}])
  }

  /** `rebuild_references(src, path)`: a fresh reject set. */
  function RebuildReferences(g: Graph, fs: Tree, path: string): (r: Outcome<Resolution>)
    ensures path in r.state.reject
    ensures r.fault.Some? ==> r.fault.value.MissingKey?
  {
    Resolve(g, fs, path, {})
  }

  // ---------------------------------------------------------------------------
  // TreeHandler.handles

  /** What `handles` leaves: the updated handler, its answer and the errors
      the rebuild logged. */
  datatype Handled = Handled(h: TreeHandler, outputs: Option<seq<string>>, log: seq<RefError>)

  /** `TreeHandler.handles`: a file the patterns reject is still taken when
      some file references it; the references are rebuilt; a file the rebuild
      could not record is unclaimed, one with parents is nested (no outputs of
      its own) and a root produces its outputs. */
  function TreeHandles(h: TreeHandler, fs: Tree, path: string): (r: Outcome<Handled>)
    ensures !h.base.matches(path) && path !in h.graph.children ==> r == Done(Handled(h, None, []))
    ensures r.state.h.base == h.base
    ensures (h.base.matches(path) || path in h.graph.children) ==>
      var b := RebuildReferences(h.graph, fs, path);
      r.state.h.graph == b.state.graph && r.state.log == b.state.log && r.fault == b.fault
    ensures r.fault.Some? ==> r.fault.value.MissingKey?
    ensures r.Ok() && r.state.outputs.Some? ==> path in r.state.h.graph.parents
    ensures r.Ok() && (h.base.matches(path) || path in h.graph.children) && path in r.state.h.graph.parents ==>
      r.state.outputs.Some?
    ensures r.Ok() && r.state.outputs.Some? ==>
      (r.state.outputs.value == [] <==>
        |r.state.h.graph.parents[path].members| > 0 || |h.base.suffixes| == 0)
    ensures r.Ok() && r.state.outputs.Some? && r.state.outputs.value != [] ==>
      r.state.outputs.value == Outputs(h.base.suffixes, path)
  {
    if !h.base.matches(path) && path !in h.graph.children then Done(Handled(h, None, []))
    else
      var b := RebuildReferences(h.graph, fs, path);
      var h' := h.(graph := b.state.graph);
      if !b.Ok() then Outcome(Handled(h', None, b.state.log), b.fault)
      else if path !in h'.graph.parents then Done(Handled(h', None, b.state.log))
      else if |h'.graph.parents[path].members| > 0 then Done(Handled(h', Some([]), b.state.log))
      else Done(Handled(h', Some(Outputs(h.base.suffixes, path)), b.state.log))
  }
}
