/** The reactor's output registry: the destination tree together with the set
    `_outputs` of destination paths the reactor manages.  A file output is
    registered under its own path, a directory under its path plus a trailing
    separator.  `_prepare_output` makes the folders an output needs and
    registers them; `_clean_output` removes an output and, nearest first, the
    folders it leaves empty. */
module OutputTree {
  import opened Paths
  import opened Fs

  datatype Registry = Registry(tree: Tree, outputs: set<string>)

  // ---------------------------------------------------------------------------
  // `_parents`

  /** `q` names a directory that strictly contains `p`. */
  predicate Ancestor(q: string, p: string) {
    |q| < |p| && p[|q|] == Sep && q == p[..|q|]
  }

  /** `dirname` has reached the top: "" or the separator alone. */
  predicate Stop(d: string) {
    d == "" || d == [Sep]
  }

  /** The `while True` loop of `_parents`: `dirname` again and again, yielding
      each result until it is "" or the separator alone. */
  function Ups(p: string): seq<string>
    requires !StartsWith(p, [Sep, Sep])
    decreases |p|
  {
    var d := Dirname(p);
    if Stop(d) then []
    else
      DirnameShrinks(p);
      [d] + Ups(d)
  }

  lemma PrefixTrans(q: string, d: string, p: string)
    requires |q| <= |d| <= |p| && q == d[..|q|] && d == p[..|d|]
    ensures q == p[..|q|]
  {
  }

  /** One step of `Ups`. */
  lemma UpsStep(p: string)
    requires !StartsWith(p, [Sep, Sep]) && !Stop(Dirname(p))
    ensures var d := Dirname(p);
      |d| < |p| && d == p[..|d|] && !StartsWith(d, [Sep, Sep]) && Ups(p) == [d] + Ups(d)
  {
    DirnameShrinks(p);
  }

  lemma {:induction false} UpsShape(p: string)
    requires !StartsWith(p, [Sep, Sep])
    ensures forall q :: q in Ups(p) ==> !Stop(q) && |q| < |p| && q == p[..|q|]
    decreases |p|
  {
    var d := Dirname(p);
    if !Stop(d) {
      UpsStep(p);
      var rest := Ups(d);
      UpsShape(d);
      forall q | q in Ups(p) ensures !Stop(q) && |q| < |p| && q == p[..|q|] {
        if q != d {
          assert q in rest;
          PrefixTrans(q, d, p);
        }
      }
    }
  }

  lemma {:induction false} UpsOrdered(p: string)
    requires !StartsWith(p, [Sep, Sep])
    ensures forall i, j :: 0 <= i < j < |Ups(p)| ==> |Ups(p)[j]| < |Ups(p)[i]|
    decreases |p|
  {
    var d := Dirname(p);
    if !Stop(d) {
      UpsStep(p);
      var rest := Ups(d);
      UpsOrdered(d);
      UpsShape(d);
      var r := Ups(p);
      forall i, j | 0 <= i < j < |r| ensures |r[j]| < |r[i]| {
        assert r[j] == rest[j - 1];
        if i > 0 {
          assert r[i] == rest[i - 1];
        } else {
          assert rest[j - 1] in rest;
        }
      }
    }
  }

  /** `_parents(path)`, nearest ancestor first: every value is a proper prefix
      of `path`, never "" or the separator, and each is shorter than the one
      before.  A path that starts with exactly two separators makes the
      generator yield "//" forever, so the callers never pass one. */
  function Parents(path: string): (r: seq<string>)
    requires !StartsWith(path, [Sep, Sep])
    ensures forall q :: q in r ==> !Stop(q) && |q| < |path| && q == path[..|q|]
    ensures forall i, j :: 0 <= i < j < |r| ==> |r[j]| < |r[i]|
  {
    var p := if EndsWithSep(path) then Dirname(path) else path;
    DirnameShrinks(path);
    UpsShape(p);
    UpsOrdered(p);
    assert forall q :: q in Ups(p) ==> q == path[..|q|] by {
      forall q | q in Ups(p) ensures q == path[..|q|] {
        PrefixTrans(q, p, path);
      }
    }
    Ups(p)
  }

  /** Cutting at the last separator: the ancestors of `p` are the cut and
      the ancestors of the cut. */
  lemma AncestorStep(p: string, n: nat)
    requires 2 <= n <= |p| && p[n - 1] == Sep
    requires forall j :: n <= j < |p| ==> p[j] != Sep
    ensures forall q :: Ancestor(q, p) <==> q == p[..n - 1] || Ancestor(q, p[..n - 1])
  {
    var d := p[..n - 1];
    forall q ensures Ancestor(q, p) <==> q == d || Ancestor(q, d) {
      if Ancestor(q, p) && q != d {
        assert |q| < n;
        assert |q| == n - 1 ==> q == d;
        assert d[|q|] == p[|q|];
        assert d[..|q|] == p[..|q|];
      }
      if Ancestor(q, d) {
        assert p[|q|] == d[|q|];
        assert p[..|q|] == d[..|q|];
      }
    }
  }

  lemma NoAncestor(p: string)
    requires Sep !in p
    ensures forall q :: !Ancestor(q, p)
  {
    forall q ensures !Ancestor(q, p) {
      if |q| < |p| {
        assert p[|q|] in p;
      }
    }
  }

  /** A valid path with a separator: what `Dirname` leaves is again a valid
      path, and not the top. */
  lemma ValidCut(p: string)
    requires ValidRel(p) && Sep in p
    ensures ValidRel(Dirname(p)) && !Stop(Dirname(p))
  {
    DirnameOfValid(p);
    ValidRelCut(p, HeadLength(p) - 1);
    ValidNotStop(Dirname(p));
  }

  lemma ValidNotStop(d: string)
    requires ValidRel(d)
    ensures !Stop(d)
  {
    ValidRelShape(d);
  }

  /** The ancestors of a valid relative path are exactly its proper prefixes
      that end just before a separator, each itself a valid relative path. */
  lemma {:induction false} UpsAncestors(p: string)
    requires ValidRel(p)
    ensures !StartsWith(p, [Sep, Sep])
    ensures forall q :: q in Ups(p) <==> Ancestor(q, p)
    ensures forall q :: q in Ups(p) ==> ValidRel(q)
    decreases |p|
  {
    ValidRelShape(p);
    if Sep in p {
      ValidCut(p);
      DirnameOfValid(p);
      var n := HeadLength(p);
      var d := p[..n - 1];
      UpsStep(p);
      UpsAncestors(d);
      AncestorStep(p, n);
      assert Ups(p) == [d] + Ups(d);
      forall q ensures q in Ups(p) <==> q == d || q in Ups(d) {
      }
    } else {
      DirnameOfValid(p);
      assert Ups(p) == [];
      NoAncestor(p);
    }
  }

  lemma ParentsAncestors(p: string)
    requires ValidRel(p)
    ensures !StartsWith(p, [Sep, Sep])
    ensures forall q :: q in Parents(p) <==> Ancestor(q, p)
    ensures forall q :: q in Parents(p) ==> ValidRel(q)
  {
    ValidRelShape(p);
    UpsAncestors(p);
  }

  lemma DirnameOfDirKey(p: string)
    requires ValidRel(p)
    ensures Dirname(p + [Sep]) == p
  {
    ValidRelShape(p);
    var k := p + [Sep];
    assert k[..|p|] == p;
    assert HeadLength(k) == |k|;
    assert !AllSep(k) by {
      assert k[0] == p[0];
    }
    assert RStripSep(k) == RStripSep(k[..|k| - 1]);
  }

  /** `_parents` strips one trailing separator: a directory key has the
      ancestors of its directory. */
  lemma ParentsOfDirKey(p: string)
    requires ValidRel(p)
    ensures !StartsWith(p, [Sep, Sep]) && !StartsWith(p + [Sep], [Sep, Sep])
    ensures Parents(p + [Sep]) == Parents(p)
  {
    ValidRelShape(p);
    DirnameOfDirKey(p);
    assert (p + [Sep])[0] == p[0];
  }

  lemma AncestorTrans(a: string, s: string, p: string)
    requires Ancestor(a, s) && Ancestor(s, p)
    ensures Ancestor(a, p)
  {
    assert p[..|s|][|a|] == p[|a|];
    assert p[..|s|][..|a|] == p[..|a|];
  }

  // ---------------------------------------------------------------------------
  // `_prepare_output`

  /** A registered output that is a file where a folder is needed: the
      structure `_prepare_output` refuses. */
  predicate Clash(reg: Registry, s: string) {
    s in reg.outputs && s in reg.tree && reg.tree[s].File?
  }

  /** The registry key of directory `k[..|k| - 1]` when `k` ends with a
      separator and that directory is one of `ps`. */
  predicate DirKeyIn(k: string, ps: seq<string>) {
    EndsWithSep(k) && k[..|k| - 1] in ps
  }

  lemma DirKeyOf(k: string, s: string)
    ensures EndsWithSep(k) && k[..|k| - 1] == s <==> k == s + [Sep]
  {
    if k == s + [Sep] {
      assert k[..|k| - 1] == s;
    }
    if EndsWithSep(k) && k[..|k| - 1] == s {
      assert k == k[..|k| - 1] + [k[|k| - 1]];
    }
  }

  /** One segment of the loop: a file in the way is unlinked unless it is
      registered, which raises; a missing folder is made; the folder is
      registered. */
  function MakeSegment(reg: Registry, s: string): (r: Outcome<Registry>)
    requires ValidRel(s) && ParentReady(reg.tree, s)
    ensures r.Ok() <==> !Clash(reg, s)
    ensures !r.Ok() ==> r == Raise(reg, Conflict(s))
    ensures r.Ok() ==> r.state == Registry(reg.tree[s := Dir], reg.outputs + {s + [Sep]})
  {
    ValidRelShape(s);
    var t := reg.tree;
    if Exists(t, s) && !IsDir(t, s) && s in reg.outputs then Raise(reg, Conflict(s))
    else
      // the unlink meets an existing file and the mkdir a missing name under
      // a ready folder, so neither raises
      var u := if Exists(t, s) && !IsDir(t, s) then Unlink(t, s).state else t;
      var m := if !Exists(u, s) then Mkdir(u, s).state else u;
      Done(Registry(m, reg.outputs + {s + [Sep]}))
  }

  /** `ps` lists valid folders, deepest first, together with every folder
      above each of them. */
  ghost predicate FolderChain(ps: seq<string>) {
    (forall s :: s in ps ==> ValidRel(s))
    && (forall i, j :: 0 <= i < j < |ps| ==> |ps[j]| < |ps[i]|)
    && (forall s, a :: s in ps && Ancestor(a, s) ==> a in ps)
  }

  lemma FolderChainTail(ps: seq<string>)
    requires FolderChain(ps) && |ps| > 0
    ensures FolderChain(ps[1..])
    ensures forall s :: s in ps <==> s == ps[0] || s in ps[1..]
    ensures ps[0] !in ps[1..]
  {
    forall s, a | s in ps[1..] && Ancestor(a, s) ensures a in ps[1..] {
      var i :| 0 <= i < |ps[1..]| && ps[1..][i] == s;
      assert |s| < |ps[0]|;
      assert a in ps;
    }
  }

  /** The folder above `s` is ready once every folder of the chain shorter
      than `s` is a directory. */
  lemma ReadyUnder(t: Tree, ps: seq<string>)
    requires FolderChain(ps) && |ps| > 0
    requires forall s :: s in ps[1..] ==> s in t && t[s] == Dir
    ensures ParentReady(t, ps[0])
  {
    var s := ps[0];
    if Sep in s {
      ValidCut(s);
      DirnameOfValid(s);
      var d := Dirname(s);
      assert Ancestor(d, s);
      FolderChainTail(ps);
    } else {
      DirnameOfValid(s);
    }
  }

  /** Outside `ps` the tree is untouched. */
  ghost predicate TreeFramed(before: Tree, after: Tree, ps: seq<string>) {
    forall q :: q !in ps ==>
      (q in after <==> q in before) && (q in before ==> after[q] == before[q])
  }

  /** Every folder of `ps` is a directory. */
  ghost predicate Folders(t: Tree, ps: seq<string>) {
    forall s :: s in ps ==> s in t && t[s] == Dir
  }

  /** What `Prep` promises about `r`. */
  ghost predicate Prepared(reg: Registry, ps: seq<string>, r: Outcome<Registry>) {
    (r.Ok() <==> forall s :: s in ps ==> !Clash(reg, s))
    && (r.fault.Some? ==>
      r.fault.value.Conflict? && r.fault.value.path in ps && Clash(reg, r.fault.value.path))
    && TreeFramed(reg.tree, r.state.tree, ps)
    && reg.outputs <= r.state.outputs
    && (forall k :: k in r.state.outputs ==> k in reg.outputs || DirKeyIn(k, ps))
    && (r.Ok() ==> (forall k :: DirKeyIn(k, ps) ==> k in r.state.outputs) && Folders(r.state.tree, ps))
  }

  /** The last segment handled, the deepest folder, after the others. */
  lemma PrepStep(reg: Registry, ps: seq<string>, r: Outcome<Registry>)
    requires FolderChain(ps) && |ps| > 0
    requires r.Ok() && Prepared(reg, ps[1..], r)
    ensures ValidRel(ps[0]) && ParentReady(r.state.tree, ps[0])
    ensures Prepared(reg, ps, MakeSegment(r.state, ps[0]))
  {
    FolderChainTail(ps);
    ReadyUnder(r.state.tree, ps);
    var s := ps[0];
    ValidRelShape(s);
    assert Clash(r.state, s) == Clash(reg, s) by {
      assert s + [Sep] != s;
      assert !DirKeyIn(s, ps[1..]);
    }
    var m := MakeSegment(r.state, s);
    forall k ensures DirKeyIn(k, ps) <==> DirKeyIn(k, ps[1..]) || k == s + [Sep] {
      DirKeyOf(k, s);
    }
  }

  /** A chain whose deepest folder is refused: the others' failure or this one. */
  lemma PrepFailed(reg: Registry, ps: seq<string>, r: Outcome<Registry>)
    requires FolderChain(ps) && |ps| > 0
    requires !r.Ok() && Prepared(reg, ps[1..], r)
    ensures Prepared(reg, ps, r)
  {
    FolderChainTail(ps);
  }

  /** The loop over `reversed(list(_parents(path)))`: the chain's folders are
      handled from the top down, so each one's parent is ready before it. */
  function Prep(reg: Registry, ps: seq<string>): (r: Outcome<Registry>)
    requires FolderChain(ps)
    ensures Prepared(reg, ps, r)
    decreases |ps|
  {
    if |ps| == 0 then Done(reg)
    else
      FolderChainTail(ps);
      var r := Prep(reg, ps[1..]);
      if !r.Ok() then
        PrepFailed(reg, ps, r);
        r
      else
        PrepStep(reg, ps, r);
        MakeSegment(r.state, ps[0])
  }

  /** `Prepared` for the ancestors of `path`, stated through `Ancestor`, with
      `path` registered after the loop. */
  lemma PreparedAncestry(reg: Registry, path: RelPath, r: Outcome<Registry>)
    requires !StartsWith(path, [Sep, Sep]) && Prepared(reg, Parents(path), r)
    ensures var f := if r.Ok() then Done(r.state.(outputs := r.state.outputs + {path})) else r;
      (f.Ok() <==> forall s :: Ancestor(s, path) ==> !Clash(reg, s))
      && (f.fault.Some? ==>
        f.fault.value.Conflict? && Ancestor(f.fault.value.path, path) && Clash(reg, f.fault.value.path))
      && (forall q :: !Ancestor(q, path) ==>
        (q in f.state.tree <==> q in reg.tree) && (q in reg.tree ==> f.state.tree[q] == reg.tree[q]))
      && reg.outputs <= f.state.outputs
      && (forall k :: k in f.state.outputs ==>
        k in reg.outputs || (f.Ok() && k == path) || (EndsWithSep(k) && Ancestor(k[..|k| - 1], path)))
      && (f.Ok() ==> path in f.state.outputs && forall s :: Ancestor(s, path) ==> s + [Sep] in f.state.outputs)
      && (f.Ok() ==> forall s :: Ancestor(s, path) ==> s in f.state.tree && f.state.tree[s] == Dir)
  {
    ParentsAncestors(path);
    forall s | Ancestor(s, path) ensures DirKeyIn(s + [Sep], Parents(path)) {
      DirKeyOf(s + [Sep], s);
    }
  }

  /** `_prepare_output(path)`: every folder above `path` becomes a directory
      and is registered with a trailing separator, and `path` itself is
      registered; a registered file where a folder is needed raises, keeping
      the folders made above it. */
  function PrepareOutput(reg: Registry, path: RelPath): (r: Outcome<Registry>)
    ensures r.Ok() <==> forall s :: Ancestor(s, path) ==> !Clash(reg, s)
    ensures r.fault.Some? ==>
      r.fault.value.Conflict? && Ancestor(r.fault.value.path, path) && Clash(reg, r.fault.value.path)
    ensures forall q :: !Ancestor(q, path) ==>
      (q in r.state.tree <==> q in reg.tree) && (q in reg.tree ==> r.state.tree[q] == reg.tree[q])
    ensures reg.outputs <= r.state.outputs
    ensures forall k :: k in r.state.outputs ==>
      k in reg.outputs || (r.Ok() && k == path) || (EndsWithSep(k) && Ancestor(k[..|k| - 1], path))
    ensures r.Ok() ==> path in r.state.outputs && forall s :: Ancestor(s, path) ==> s + [Sep] in r.state.outputs
    ensures r.Ok() ==> forall s :: Ancestor(s, path) ==> s in r.state.tree && r.state.tree[s] == Dir
  {
    ParentsAncestors(path);
    var ps := Parents(path);
    assert FolderChain(ps) by {
      forall s, a | s in ps && Ancestor(a, s) ensures a in ps {
        AncestorTrans(a, s, path);
      }
    }
    var r := Prep(reg, ps);
    PreparedAncestry(reg, path, r);
    if !r.Ok() then r else Done(r.state.(outputs := r.state.outputs + {path}))
  }

  // ---------------------------------------------------------------------------
  // `_clean_output`

  /** Only removals, and only of directories left without entries. */
  ghost predicate OnlyEmptied(before: Tree, after: Tree, ps: seq<string>) {
    TreeFramed(before, after, ps)
    && (forall s :: s in ps && s in after ==> s in before && after[s] == before[s])
    && (forall s :: s in ps && s in before && s !in after ==> before[s] == Dir && !HasEntries(after, s))
  }

  /** Nearest first: once a folder goes, every deeper one has gone.  Depth is
      given by length, so the order of the list does not matter. */
  ghost predicate DeepestGoFirst(before: Tree, after: Tree, ps: seq<string>) {
    forall a, s :: a in ps && s in ps && |a| < |s| && a in before && a !in after ==> s !in after
  }

  /** The first folder still standing, all deeper ones gone, is one `rmdir`
      refused: a file, or a directory with entries. */
  ghost predicate StoppedAtFailure(after: Tree, ps: seq<string>) {
    forall s :: s in ps && s in after && (forall b :: b in ps && |s| < |b| ==> b !in after) ==>
      (after[s].File? || HasEntries(after, s))
  }

  /** A folder key is unregistered exactly when its directory went. */
  ghost predicate KeysFollow(reg: Registry, ps: seq<string>, r: Registry) {
    (forall k :: !DirKeyIn(k, ps) ==> (k in r.outputs <==> k in reg.outputs))
    && (forall s :: s in ps ==>
      (s + [Sep] in r.outputs <==> s + [Sep] in reg.outputs && (s !in reg.tree || s in r.tree)))
  }

  /** The only exception: a removed folder that was never registered. */
  ghost predicate UnregisteredFolder(reg: Registry, ps: seq<string>, r: Outcome<Registry>) {
    r.fault.Some? ==> r.fault.value.MissingKey? && exists s :: (s in ps
      && r.fault.value.key == s + [Sep] && s + [Sep] !in reg.outputs && s in reg.tree && s !in r.state.tree)
  }

  /** What `Prune` promises. */
  ghost predicate Pruned(reg: Registry, ps: seq<string>, r: Outcome<Registry>) {
    OnlyEmptied(reg.tree, r.state.tree, ps)
    && DeepestGoFirst(reg.tree, r.state.tree, ps)
    && (r.Ok() ==> StoppedAtFailure(r.state.tree, ps))
    && KeysFollow(reg, ps, r.state)
    && UnregisteredFolder(reg, ps, r)
  }

  /** Valid folders, deepest first. */
  ghost predicate Deepest(ps: seq<string>) {
    (forall s :: s in ps ==> ValidRel(s))
    && (forall i, j :: 0 <= i < j < |ps| ==> |ps[j]| < |ps[i]|)
  }

  lemma DeepestTail(ps: seq<string>)
    requires Deepest(ps) && |ps| > 0
    ensures Deepest(ps[1..])
    ensures forall s :: s in ps <==> s == ps[0] || s in ps[1..]
    ensures forall s :: s in ps[1..] ==> |s| < |ps[0]|
    ensures !EndsWithSep(ps[0]) && Name(ps[0]) == ps[0]
  {
    assert ps[0] in ps;
    ValidRelShape(ps[0]);
    forall s | s in ps[1..] ensures |s| < |ps[0]| {
      var i :| 0 <= i < |ps[1..]| && ps[1..][i] == s;
    }
  }

  /** The loop over `_parents(path)`: an existing folder is removed and
      unregistered; an `rmdir` that fails ends the loop quietly; a missing
      folder is skipped. */
  function Prune(reg: Registry, ps: seq<string>): (r: Outcome<Registry>)
    requires Deepest(ps)
    ensures Pruned(reg, ps, r)
    decreases |ps|
  {
    if |ps| == 0 then Done(reg)
    else
      DeepestTail(ps);
      var s := ps[0];
      if !Exists(reg.tree, s) then
        var r := Prune(reg, ps[1..]);
        PruneSkip(reg, ps, r);
        r
      else
        var d := Rmdir(reg.tree, s);
        if !d.Ok() then
          PruneStop(reg, ps);
          Done(reg)
        else if s + [Sep] !in reg.outputs then
          PruneMissing(reg, ps);
          Raise(Registry(d.state, reg.outputs), MissingKey(s + [Sep]))
        else
          var r := Prune(Registry(d.state, reg.outputs - {s + [Sep]}), ps[1..]);
          PruneRemove(reg, ps, r);
          r
  }

  lemma PruneSkip(reg: Registry, ps: seq<string>, r: Outcome<Registry>)
    requires Deepest(ps) && |ps| > 0 && ps[0] !in reg.tree
    requires Pruned(reg, ps[1..], r)
    ensures Pruned(reg, ps, r)
  {
    DeepestTail(ps);
    var s := ps[0];
    assert OnlyEmptied(reg.tree, r.state.tree, ps);
    assert DeepestGoFirst(reg.tree, r.state.tree, ps);
    assert r.Ok() ==> StoppedAtFailure(r.state.tree, ps);
    assert KeysFollow(reg, ps, r.state) by {
      forall k | !DirKeyIn(k, ps) ensures k in r.state.outputs <==> k in reg.outputs {
        assert !DirKeyIn(k, ps[1..]);
      }
      DirKeyOf(s + [Sep], s);
      assert !DirKeyIn(s + [Sep], ps[1..]);
    }
  }

  lemma PruneStop(reg: Registry, ps: seq<string>)
    requires Deepest(ps) && |ps| > 0 && ps[0] in reg.tree
    requires !(reg.tree[ps[0]] == Dir && !HasEntries(reg.tree, ps[0]))
    ensures Pruned(reg, ps, Done(reg))
  {
  }

  lemma PruneMissing(reg: Registry, ps: seq<string>)
    requires Deepest(ps) && |ps| > 0 && ps[0] in reg.tree
    requires reg.tree[ps[0]] == Dir && !HasEntries(reg.tree, ps[0])
    requires ps[0] + [Sep] !in reg.outputs
    ensures Pruned(reg, ps, Raise(Registry(reg.tree - {ps[0]}, reg.outputs), MissingKey(ps[0] + [Sep])))
  {
    DeepestTail(ps);
    var s := ps[0];
    var t := reg.tree - {s};
    var r := Raise(Registry(t, reg.outputs), MissingKey(s + [Sep]));
    assert !HasEntries(t, s);
    assert OnlyEmptied(reg.tree, t, ps);
    assert DeepestGoFirst(reg.tree, t, ps);
    assert KeysFollow(reg, ps, r.state);
    assert UnregisteredFolder(reg, ps, r) by {
      assert s in ps;
    }
  }

  /** Removing the deepest folder and then the rest. */
  lemma PruneRemoveTree(reg: Registry, ps: seq<string>, r: Outcome<Registry>)
    requires Deepest(ps) && |ps| > 0 && ps[0] in reg.tree
    requires reg.tree[ps[0]] == Dir && !HasEntries(reg.tree, ps[0])
    requires var t := reg.tree - {ps[0]};
      OnlyEmptied(t, r.state.tree, ps[1..]) && DeepestGoFirst(t, r.state.tree, ps[1..])
    ensures OnlyEmptied(reg.tree, r.state.tree, ps) && DeepestGoFirst(reg.tree, r.state.tree, ps)
  {
    DeepestTail(ps);
    var s := ps[0];
    assert forall q :: q in r.state.tree ==> q in reg.tree - {s};
    assert !HasEntries(r.state.tree, s);
  }

  lemma PruneRemoveKeys(reg: Registry, ps: seq<string>, r: Outcome<Registry>)
    requires Deepest(ps) && |ps| > 0 && ps[0] in reg.tree && ps[0] + [Sep] in reg.outputs
    requires ps[0] !in r.state.tree
    requires var s := ps[0];
      KeysFollow(Registry(reg.tree - {s}, reg.outputs - {s + [Sep]}), ps[1..], r.state)
      && UnregisteredFolder(Registry(reg.tree - {s}, reg.outputs - {s + [Sep]}), ps[1..], r)
      && TreeFramed(reg.tree - {s}, r.state.tree, ps[1..])
    ensures KeysFollow(reg, ps, r.state) && UnregisteredFolder(reg, ps, r)
  {
    DeepestTail(ps);
    var s := ps[0];
    forall k | !DirKeyIn(k, ps) ensures k in r.state.outputs <==> k in reg.outputs {
      assert !DirKeyIn(k, ps[1..]);
      DirKeyOf(k, s);
    }
    forall x | x in ps[1..] ensures s + [Sep] != x + [Sep] {
      assert |x| < |s|;
    }
    assert !DirKeyIn(s + [Sep], ps[1..]) by {
      DirKeyOf(s + [Sep], s);
    }
  }

  lemma PruneRemove(reg: Registry, ps: seq<string>, r: Outcome<Registry>)
    requires Deepest(ps) && |ps| > 0 && ps[0] in reg.tree
    requires reg.tree[ps[0]] == Dir && !HasEntries(reg.tree, ps[0])
    requires ps[0] + [Sep] in reg.outputs
    requires Pruned(Registry(reg.tree - {ps[0]}, reg.outputs - {ps[0] + [Sep]}), ps[1..], r)
    ensures Pruned(reg, ps, r)
  {
    DeepestTail(ps);
    PruneRemoveTree(reg, ps, r);
    PruneRemoveKeys(reg, ps, r);
    assert r.Ok() ==> StoppedAtFailure(r.state.tree, ps);
  }

  /** Two folders above the same path: the shorter is above the longer. */
  lemma AncestorsNest(a: string, s: string, p: string)
    requires Ancestor(a, p) && Ancestor(s, p)
    ensures |a| < |s| <==> Ancestor(a, s)
  {
    if |a| < |s| {
      assert s[|a|] == p[|a|];
      assert s[..|a|] == p[..|a|];
    }
  }

  /** `Pruned` for the folders above `path`, after the unlink of `path`,
      stated through `Ancestor`. */
  lemma CleanedAncestry(reg: Registry, path: RelPath, t: Tree, r: Outcome<Registry>)
    requires !StartsWith(path, [Sep, Sep]) && ValidRel(path) && !EndsWithSep(path)
    requires path !in t && forall q :: q != path ==> (q in t <==> q in reg.tree) && (q in t ==> t[q] == reg.tree[q])
    requires forall q :: q in Parents(path) <==> Ancestor(q, path)
    requires Deepest(Parents(path)) && Pruned(Registry(t, reg.outputs), Parents(path), r)
    ensures r.fault.Some? ==>
      (r.fault.value.MissingKey? && exists s :: (Ancestor(s, path) && r.fault.value.key == s + [Sep]
        && s + [Sep] !in reg.outputs && s in reg.tree && s !in r.state.tree))
    ensures path !in r.state.tree
    ensures forall q :: q != path && !Ancestor(q, path) ==>
      (q in r.state.tree <==> q in reg.tree) && (q in reg.tree ==> r.state.tree[q] == reg.tree[q])
    ensures forall s :: Ancestor(s, path) && s in r.state.tree ==> s in reg.tree && r.state.tree[s] == reg.tree[s]
    ensures forall s :: Ancestor(s, path) && s in reg.tree && s !in r.state.tree ==>
      reg.tree[s] == Dir && !HasEntries(r.state.tree, s)
    ensures forall s :: Ancestor(s, path) ==>
      (s + [Sep] in r.state.outputs <==> s + [Sep] in reg.outputs && (s !in reg.tree || s in r.state.tree))
    ensures forall k :: !(EndsWithSep(k) && Ancestor(k[..|k| - 1], path)) ==>
      (k in r.state.outputs <==> k in reg.outputs)
    ensures forall a, s :: Ancestor(a, s) && Ancestor(s, path) && a in reg.tree && a !in r.state.tree ==>
      s !in r.state.tree
    ensures r.Ok() ==> forall s :: (Ancestor(s, path) && s in r.state.tree
      && forall b :: Ancestor(b, path) && Ancestor(s, b) ==> b !in r.state.tree) ==>
      (r.state.tree[s].File? || HasEntries(r.state.tree, s))
  {
    var ps := Parents(path);
    forall s | Ancestor(s, path) ensures s != path {}
    forall a, s | Ancestor(a, s) && Ancestor(s, path) && a in reg.tree && a !in r.state.tree
      ensures s !in r.state.tree
    {
      AncestorTrans(a, s, path);
    }
    if r.Ok() {
      forall s | Ancestor(s, path) && s in r.state.tree
        && (forall b :: Ancestor(b, path) && Ancestor(s, b) ==> b !in r.state.tree)
        ensures r.state.tree[s].File? || HasEntries(r.state.tree, s)
      {
        forall b | b in ps && |s| < |b| ensures b !in r.state.tree {
          AncestorsNest(s, b, path);
        }
      }
    }
  }

  /** `_clean_output(path)`: the output file is unlinked if it exists, then
      the folders above it are removed nearest first while `rmdir` succeeds,
      each one unregistered as it goes.  `path` itself stays registered.  An
      existing directory at `path` makes the unlink raise; a removed folder
      that was never registered makes the `del` raise. */
  function CleanOutput(reg: Registry, path: RelPath): (r: Outcome<Registry>)
    ensures r.fault.Some? ==>
      (r.fault.value == IsADirectory(path) && IsDir(reg.tree, path) && r.state == reg)
      || (r.fault.value.MissingKey? && exists s :: (Ancestor(s, path) && r.fault.value.key == s + [Sep]
        && s + [Sep] !in reg.outputs && s in reg.tree && s !in r.state.tree))
    ensures r.Ok() ==> path !in r.state.tree
    ensures path in r.state.tree ==> r.state == reg
    ensures forall q :: q != path && !Ancestor(q, path) ==>
      (q in r.state.tree <==> q in reg.tree) && (q in reg.tree ==> r.state.tree[q] == reg.tree[q])
    ensures forall s :: Ancestor(s, path) && s in r.state.tree ==> s in reg.tree && r.state.tree[s] == reg.tree[s]
    ensures forall s :: Ancestor(s, path) && s in reg.tree && s !in r.state.tree ==>
      reg.tree[s] == Dir && !HasEntries(r.state.tree, s)
    ensures forall s :: Ancestor(s, path) ==>
      (s + [Sep] in r.state.outputs <==> s + [Sep] in reg.outputs && (s !in reg.tree || s in r.state.tree))
    ensures forall k :: !(EndsWithSep(k) && Ancestor(k[..|k| - 1], path)) ==>
      (k in r.state.outputs <==> k in reg.outputs)
    ensures forall a, s :: Ancestor(a, s) && Ancestor(s, path) && a in reg.tree && a !in r.state.tree ==>
      s !in r.state.tree
    ensures r.Ok() ==> forall s :: (Ancestor(s, path) && s in r.state.tree
      && forall b :: Ancestor(b, path) && Ancestor(s, b) ==> b !in r.state.tree) ==>
      (r.state.tree[s].File? || HasEntries(r.state.tree, s))
  {
    ParentsAncestors(path);
    ValidRelShape(path);
    var ps := Parents(path);
    var t := reg.tree;
    var u := if Exists(t, path) then Unlink(t, path) else Done(t);
    if !u.Ok() then Outcome(reg, u.fault)
    else
      var r := Prune(Registry(u.state, reg.outputs), ps);
      CleanedAncestry(reg, path, u.state, r);
      r
  }

  // ---------------------------------------------------------------------------
  // Partners

  /** The promise of `PrepareOutput(reg, path)` about `r`. */
  ghost predicate PreparedFor(reg: Registry, path: RelPath, r: Outcome<Registry>) {
    (r.Ok() <==> forall s :: Ancestor(s, path) ==> !Clash(reg, s))
    && (forall q :: !Ancestor(q, path) ==>
      (q in r.state.tree <==> q in reg.tree) && (q in reg.tree ==> r.state.tree[q] == reg.tree[q]))
    && reg.outputs <= r.state.outputs
    && (forall k :: k in r.state.outputs ==>
      k in reg.outputs || (r.Ok() && k == path) || (EndsWithSep(k) && Ancestor(k[..|k| - 1], path)))
    && (r.Ok() ==> path in r.state.outputs && forall s :: Ancestor(s, path) ==> s + [Sep] in r.state.outputs)
    && (r.Ok() ==> forall s :: Ancestor(s, path) ==> s in r.state.tree && r.state.tree[s] == Dir)
  }

  lemma PreparedTwice(reg: Registry, path: RelPath, once: Registry, twice: Outcome<Registry>)
    requires PreparedFor(reg, path, Done(once)) && PreparedFor(once, path, twice)
    ensures twice == Done(once)
  {
    forall s | Ancestor(s, path) ensures !Clash(once, s) {
      assert s in once.tree && once.tree[s] == Dir;
    }
    assert twice.Ok();
    forall q ensures (q in twice.state.tree <==> q in once.tree) && (q in once.tree ==> twice.state.tree[q] == once.tree[q]) {
      if Ancestor(q, path) {
        assert q in once.tree && once.tree[q] == Dir;
      }
    }
    assert twice.state.tree == once.tree;
    forall k ensures k in twice.state.outputs <==> k in once.outputs {
      if k in twice.state.outputs && k !in once.outputs {
        if k != path {
          var s := k[..|k| - 1];
          assert Ancestor(s, path);
          DirKeyOf(k, s);
        }
      }
    }
    assert twice.state.outputs == once.outputs;
  }

  /** Preparing an output twice changes nothing the first time did not. */
  lemma PrepareIdempotent(reg: Registry, path: RelPath)
    requires PrepareOutput(reg, path).Ok()
    ensures var once := PrepareOutput(reg, path).state;
      PrepareOutput(once, path) == Done(once)
  {
    var p := PrepareOutput(reg, path);
    assert PreparedFor(reg, path, p);
    var twice := PrepareOutput(p.state, path);
    assert PreparedFor(p.state, path, twice);
    PreparedTwice(reg, path, p.state, twice);
  }

  /** The promise of `CleanOutput(reg, path)` about `r`. */
  ghost predicate CleanedFor(reg: Registry, path: RelPath, r: Outcome<Registry>) {
    (r.fault.Some? ==>
      (r.fault.value == IsADirectory(path) && IsDir(reg.tree, path) && r.state == reg)
      || (r.fault.value.MissingKey? && exists s :: (Ancestor(s, path) && r.fault.value.key == s + [Sep]
        && s + [Sep] !in reg.outputs && s in reg.tree && s !in r.state.tree)))
    && (r.Ok() ==> path !in r.state.tree)
    && (forall q :: q != path && !Ancestor(q, path) ==>
      (q in r.state.tree <==> q in reg.tree) && (q in reg.tree ==> r.state.tree[q] == reg.tree[q]))
    && (forall s :: Ancestor(s, path) && s in r.state.tree ==> s in reg.tree && r.state.tree[s] == reg.tree[s])
    && (forall s :: Ancestor(s, path) ==>
      (s + [Sep] in r.state.outputs <==> s + [Sep] in reg.outputs && (s !in reg.tree || s in r.state.tree)))
    && (forall k :: !(EndsWithSep(k) && Ancestor(k[..|k| - 1], path)) ==>
      (k in r.state.outputs <==> k in reg.outputs))
    && (r.Ok() ==> forall s :: (Ancestor(s, path) && s in r.state.tree
      && forall b :: Ancestor(b, path) && Ancestor(s, b) ==> b !in r.state.tree) ==>
      (r.state.tree[s].File? || HasEntries(r.state.tree, s)))
  }

  lemma StartsWithDir(q: string, x: string)
    ensures StartsWith(q, x + [Sep]) ==> Ancestor(x, q)
  {
    if StartsWith(q, x + [Sep]) {
      assert q[..|x| + 1] == x + [Sep];
      assert q[..|x|] == q[..|x| + 1][..|x|];
    }
  }

  /** A folder above `path` whose deeper folders are gone holds nothing. */
  lemma NothingUnder(reg: Registry, path: RelPath, t: Tree, x: string)
    requires forall s, q :: Ancestor(s, path) && q in reg.tree ==> q != s && !StartsWith(q, s + [Sep])
    requires path !in t
    requires forall q :: q in t && q != path && !Ancestor(q, path) ==> q in reg.tree
    requires Ancestor(x, path)
    requires forall b :: Ancestor(b, path) && Ancestor(x, b) ==> b !in t
    ensures !HasEntries(t, x)
  {
    forall q | q in t ensures !StartsWith(q, x + [Sep]) {
      StartsWithDir(q, x);
    }
  }

  /** Cleaning a freshly prepared output removes every folder above it, by
      induction from the deepest: each is reached with every deeper folder
      gone and holds nothing else, so its `rmdir` succeeds. */
  lemma {:induction false} Gone(reg: Registry, path: RelPath, t: Tree, x: string)
    requires forall s, q :: Ancestor(s, path) && q in reg.tree ==> q != s && !StartsWith(q, s + [Sep])
    requires path !in t
    requires forall q :: q in t && q != path && !Ancestor(q, path) ==> q in reg.tree
    requires forall s :: Ancestor(s, path) && s in t ==> t[s] == Dir
    requires forall s :: (Ancestor(s, path) && s in t
      && forall b :: Ancestor(b, path) && Ancestor(s, b) ==> b !in t) ==> (t[s].File? || HasEntries(t, s))
    requires Ancestor(x, path)
    ensures x !in t
    decreases |path| - |x|
  {
    forall b | Ancestor(b, path) && Ancestor(x, b) ensures b !in t {
      Gone(reg, path, t, b);
    }
    NothingUnder(reg, path, t, x);
  }

  lemma CleanAfterPrepareOk(reg: Registry, path: RelPath, mid: Registry, r: Outcome<Registry>)
    requires path !in reg.tree
    requires PreparedFor(reg, path, Done(mid)) && CleanedFor(mid, path, r)
    ensures path !in mid.tree && r.Ok()
  {
    ValidRelShape(path);
    assert !Ancestor(path, path);
    assert !IsDir(mid.tree, path);
    assert forall s :: Ancestor(s, path) ==> s + [Sep] in mid.outputs;
  }

  lemma CleanAfterPrepareGone(reg: Registry, path: RelPath, mid: Registry, r: Outcome<Registry>)
    requires forall s, q :: Ancestor(s, path) && q in reg.tree ==> q != s && !StartsWith(q, s + [Sep])
    requires path !in mid.tree && r.Ok()
    requires PreparedFor(reg, path, Done(mid)) && CleanedFor(mid, path, r)
    ensures forall s :: Ancestor(s, path) ==> s !in r.state.tree
  {
    var t := r.state.tree;
    assert forall q :: q in t && q != path && !Ancestor(q, path) ==> q in reg.tree;
    assert forall s :: Ancestor(s, path) && s in t ==> t[s] == Dir;
    forall s | Ancestor(s, path) ensures s !in t {
      Gone(reg, path, t, s);
    }
  }

  lemma CleanAfterPrepareTree(reg: Registry, path: RelPath, mid: Registry, r: Outcome<Registry>)
    requires path !in reg.tree
    requires forall s, q :: Ancestor(s, path) && q in reg.tree ==> q != s && !StartsWith(q, s + [Sep])
    requires PreparedFor(reg, path, Done(mid)) && CleanedFor(mid, path, r)
    ensures r.Ok() && r.state.tree == reg.tree
  {
    CleanAfterPrepareOk(reg, path, mid, r);
    CleanAfterPrepareGone(reg, path, mid, r);
    assert !Ancestor(path, path);
  }

  lemma CleanAfterPrepareKeys(reg: Registry, path: RelPath, mid: Registry, r: Outcome<Registry>)
    requires forall s :: Ancestor(s, path) ==> s + [Sep] !in reg.outputs && s !in r.state.tree
    requires PreparedFor(reg, path, Done(mid)) && CleanedFor(mid, path, r)
    ensures r.state.outputs == reg.outputs + {path}
  {
    forall k ensures k in r.state.outputs <==> k in reg.outputs + {path} {
      if EndsWithSep(k) && Ancestor(k[..|k| - 1], path) {
        var s := k[..|k| - 1];
        DirKeyOf(k, s);
        assert s in mid.tree;
        assert k !in r.state.outputs;
        ValidRelShape(path);
        assert k != path;
      } else {
        assert k in r.state.outputs <==> k in mid.outputs;
      }
    }
  }

  lemma CleanedAfterPrepared(reg: Registry, path: RelPath, mid: Registry, r: Outcome<Registry>)
    requires path !in reg.tree
    requires forall s, q :: Ancestor(s, path) && q in reg.tree ==> q != s && !StartsWith(q, s + [Sep])
    requires forall s :: Ancestor(s, path) ==> s + [Sep] !in reg.outputs
    requires PreparedFor(reg, path, Done(mid)) && CleanedFor(mid, path, r)
    ensures r == Done(Registry(reg.tree, reg.outputs + {path}))
  {
    CleanAfterPrepareTree(reg, path, mid, r);
    CleanAfterPrepareGone(reg, path, mid, r);
    CleanAfterPrepareKeys(reg, path, mid, r);
  }

  /** Preparing an output in a part of the tree that holds nothing, then
      cleaning it, leaves the tree as it was and only `path` registered. */
  lemma CleanUndoesPrepare(reg: Registry, path: RelPath)
    requires path !in reg.tree
    requires forall s, q :: Ancestor(s, path) && q in reg.tree ==> q != s && !StartsWith(q, s + [Sep])
    requires forall s :: Ancestor(s, path) ==> s + [Sep] !in reg.outputs
    ensures PrepareOutput(reg, path).Ok()
    ensures CleanOutput(PrepareOutput(reg, path).state, path) == Done(Registry(reg.tree, reg.outputs + {path}))
  {
    var p := PrepareOutput(reg, path);
    assert PreparedFor(reg, path, p);
    var r := CleanOutput(p.state, path);
    assert CleanedFor(p.state, path, r);
    CleanedAfterPrepared(reg, path, p.state, r);
  }
}
