/** The reactor's batch step.  One batch receives the keys the two change
    detectors reported, the source side's and the destination side's.  The
    source side asks every handler whether it takes each changed file,
    prepares the outputs it announces and lets it build them; a deleted file
    has its outputs cleaned.  The destination side removes what nobody
    registered and re-creates registered folders that disappeared.  Handlers
    are opaque: their state type is a parameter and their three calls are
    functions of it. */
module Reactor {
  import opened Paths
  import opened Fs
  import opened LengthSort
  import opened OutputTree

  /** One entry of `_inputs[path]`: the handler, by its position in the
      handler list, and the outputs it announced for the file. */
  datatype Claim = Claim(handler: nat, outputs: seq<RelPath>)

  /** What `handles` returns: the handler afterwards and its answer, `None`
      when it does not take the file. */
  datatype Answer<S> = Answer(handler: S, outputs: Option<seq<RelPath>>)

  /** What `changed` returns: the handler afterwards and the destination tree
      it wrote. */
  datatype Built<S> = Built(handler: S, dest: Tree)

  /** The three handler calls, each given the handler's state and the source
      tree; a fault is an exception escaping from the handler. */
  datatype Api<!S> = Api(
    handles: (S, Tree, string) -> Outcome<Answer<S>>,
    deleted: (S, Tree, string) -> Outcome<S>,
    changed: (S, Tree, string, Tree) -> Outcome<Built<S>>)

  /** The reactor's data: the handlers, the destination tree with `_outputs`,
      and `_inputs`. */
  datatype Sys<S> = Sys(handlers: seq<S>, reg: Registry, inputs: map<string, seq<Claim>>)

  /** The reactor: its data and the three flags `_batch` reads and writes. */
  datatype Reactor<S> = Reactor(sys: Sys<S>, initial: bool, once: bool, running: bool)

  // ---------------------------------------------------------------------------
  // Invariants

  /** Every claim names a handler of the list. */
  ghost predicate Indexed<S>(sys: Sys<S>) {
    forall p, c :: p in sys.inputs && c in sys.inputs[p] ==> c.handler < |sys.handlers|
  }

  /** Claims from distinct handlers, in the order of the handler list. */
  predicate Increasing(cs: seq<Claim>) {
    forall i, j :: 0 <= i < j < |cs| ==> cs[i].handler < cs[j].handler
  }

  /** Every announced output is a key of `_outputs`. */
  predicate Registered(cs: seq<Claim>, outputs: set<string>) {
    forall c, o :: c in cs && o in c.outputs ==> o in outputs
  }

  /** What a completed batch keeps: every handled file has at least one claim,
      its claims come from distinct handlers in list order, and every output
      they announce is registered. */
  ghost predicate Consistent<S>(sys: Sys<S>) {
    && Indexed(sys)
    && forall p :: p in sys.inputs ==>
      |sys.inputs[p]| > 0 && Increasing(sys.inputs[p]) && Registered(sys.inputs[p], sys.reg.outputs)
  }

  /** A key without a trailing separator, which only `_prepare_output` adds
      and nothing removes. */
  ghost predicate FileKeysKept(a: set<string>, b: set<string>) {
    forall k :: k in a && !EndsWithSep(k) ==> k in b
  }

  /** `b` is `a` with some entries and some folder keys removed, nothing added. */
  ghost predicate Shrunk(a: Registry, b: Registry) {
    && (forall q :: q in b.tree ==> q in a.tree && b.tree[q] == a.tree[q])
    && b.outputs <= a.outputs
    && FileKeysKept(a.outputs, b.outputs)
  }

  lemma ShrunkTrans(a: Registry, b: Registry, c: Registry)
    requires Shrunk(a, b) && Shrunk(b, c)
    ensures Shrunk(a, c)
  {
  }

  /** `o` is registered and every folder above it is a directory. */
  ghost predicate Ready(reg: Registry, o: string) {
    o in reg.outputs && forall s :: Ancestor(s, o) ==> s in reg.tree && reg.tree[s] == Dir
  }

  // ---------------------------------------------------------------------------
  // Output loops

  /** Cleaning an output removes entries and folder keys and adds nothing. */
  lemma CleanShrinks(reg: Registry, path: RelPath)
    ensures Shrunk(reg, CleanOutput(reg, path).state)
  {
    var r := CleanOutput(reg, path);
    forall k | k in r.state.outputs ensures k in reg.outputs {
      if EndsWithSep(k) && Ancestor(k[..|k| - 1], path) {
        DirKeyOf(k, k[..|k| - 1]);
      }
    }
  }

  /** `for out_path in outputs: self._clean_output(out_path)`. */
  function CleanAll(reg: Registry, outs: seq<RelPath>): (r: Outcome<Registry>)
    ensures Shrunk(reg, r.state)
    ensures r.Ok() ==> forall o :: o in outs ==> o !in r.state.tree
    ensures r.fault.Some? ==> r.fault.value.IsADirectory? || r.fault.value.MissingKey?
    decreases |outs|
  {
    if |outs| == 0 then Done(reg)
    else
      var c := CleanOutput(reg, outs[0]);
      CleanShrinks(reg, outs[0]);
      if !c.Ok() then c
      else
        var r := CleanAll(c.state, outs[1..]);
        ShrunkTrans(reg, c.state, r.state);
        assert forall o :: o in outs <==> o == outs[0] || o in outs[1..];
        r
  }

  /** A prepared output leaves every output that was ready still ready. */
  lemma PrepareKeepsReady(reg: Registry, path: RelPath, o: string)
    requires PrepareOutput(reg, path).Ok() && Ready(reg, o)
    ensures Ready(PrepareOutput(reg, path).state, o)
  {
  }

  /** `for out_path in outputs: self._prepare_output(out_path)`. */
  function PrepareAll(reg: Registry, outs: seq<RelPath>): (r: Outcome<Registry>)
    ensures reg.outputs <= r.state.outputs
    ensures r.Ok() ==> forall o :: o in outs ==> Ready(r.state, o)
    ensures r.Ok() ==> forall o :: Ready(reg, o) ==> Ready(r.state, o)
    ensures r.fault.Some? ==> r.fault.value.Conflict?
    decreases |outs|
  {
    if |outs| == 0 then Done(reg)
    else
      var p := PrepareOutput(reg, outs[0]);
      if !p.Ok() then p
      else
        var r := PrepareAll(p.state, outs[1..]);
        assert Ready(p.state, outs[0]);
        forall o | Ready(reg, o) ensures Ready(p.state, o) {
          PrepareKeepsReady(reg, outs[0], o);
        }
        assert forall o :: o in outs <==> o == outs[0] || o in outs[1..];
        r
  }

  // ---------------------------------------------------------------------------
  // Handler loops

  /** The handlers after a loop over them, the destination and the claims
      gathered. */
  datatype Asked<S> = Asked(handlers: seq<S>, reg: Registry, claims: seq<Claim>)

  /** The handler states after the loop over a file's claims and the
      destination tree the handlers wrote. */
  datatype Run<S> = Run(handlers: seq<S>, dest: Tree)

  /** The promise of the loop over the handlers from position `i`: the
      handlers before `i` are untouched, the claims come in list order from
      handlers at `i` or later, and no key is dropped; when no exception
      escapes, every handler from `i` on has been asked exactly once, the
      claims are exactly the handlers that answered with a list, with that
      list, and every claimed output is ready. */
  ghost predicate AskedFor<S>(api: Api<S>, src: Tree, hs: seq<S>, reg: Registry, path: string, i: nat,
                              r: Outcome<Asked<S>>)
    requires i <= |hs|
  {
    && |r.state.handlers| == |hs|
    && (forall j :: 0 <= j < i ==> r.state.handlers[j] == hs[j])
    && Increasing(r.state.claims)
    && (forall c :: c in r.state.claims ==> i <= c.handler < |hs|)
    && reg.outputs <= r.state.reg.outputs
    && (r.Ok() ==> forall j :: i <= j < |hs| ==>
      api.handles(hs[j], src, path).Ok() && r.state.handlers[j] == api.handles(hs[j], src, path).state.handler)
    && (r.Ok() ==> forall c :: c in r.state.claims ==>
      api.handles(hs[c.handler], src, path).state.outputs == Some(c.outputs))
    && (r.Ok() ==> forall j :: i <= j < |hs| && api.handles(hs[j], src, path).state.outputs.Some? ==>
      exists c :: c in r.state.claims && c.handler == j)
    && (r.Ok() ==> forall c, o :: c in r.state.claims && o in c.outputs ==> Ready(r.state.reg, o))
    && (r.Ok() ==> forall o :: Ready(reg, o) ==> Ready(r.state.reg, o))
  }

  /** A handler that does not take the file: the rest of the loop decides. */
  lemma AskSkip<S>(api: Api<S>, src: Tree, hs: seq<S>, reg: Registry, path: string, i: nat, r: Outcome<Asked<S>>)
    requires i < |hs|
    requires var a := api.handles(hs[i], src, path);
      a.Ok() && a.state.outputs.None? && AskedFor(api, src, hs[i := a.state.handler], reg, path, i + 1, r)
    ensures AskedFor(api, src, hs, reg, path, i, r)
  {
    var a := api.handles(hs[i], src, path);
    var hs1 := hs[i := a.state.handler];
    assert forall j :: i < j < |hs| ==> hs1[j] == hs[j];
  }

  /** A handler that takes the file and whose outputs were prepared: its claim
      goes first, the rest of the loop supplies the others. */
  lemma AskClaim<S>(api: Api<S>, src: Tree, hs: seq<S>, reg: Registry, path: string, i: nat,
                    mid: Registry, rest: Outcome<Asked<S>>)
    requires i < |hs|
    requires var a := api.handles(hs[i], src, path);
      && a.Ok() && a.state.outputs.Some?
      && reg.outputs <= mid.outputs
      && (forall o :: o in a.state.outputs.value ==> Ready(mid, o))
      && (forall o :: Ready(reg, o) ==> Ready(mid, o))
      && AskedFor(api, src, hs[i := a.state.handler], mid, path, i + 1, rest)
    ensures var outs := api.handles(hs[i], src, path).state.outputs.value;
      AskedFor(api, src, hs, reg, path, i,
        Outcome(Asked(rest.state.handlers, rest.state.reg, [Claim(i, outs)] + rest.state.claims), rest.fault))
  {
    var a := api.handles(hs[i], src, path);
    var hs1 := hs[i := a.state.handler];
    var outs := a.state.outputs.value;
    var cs := [Claim(i, outs)] + rest.state.claims;
    assert forall j :: i < j < |hs| ==> hs1[j] == hs[j];
    assert forall c :: c in cs <==> c == Claim(i, outs) || c in rest.state.claims;
    assert cs[0] == Claim(i, outs);
  }

  /** The loop over `self._handlers`, from position `i` on: each handler is
      asked whether it takes `path`; one that does is recorded with its
      outputs, which are then prepared.  The claim is recorded before its
      outputs are prepared, so a conflict leaves it recorded. */
  function Ask<S>(api: Api<S>, src: Tree, hs: seq<S>, reg: Registry, path: string, i: nat): (r: Outcome<Asked<S>>)
    requires i <= |hs|
    ensures AskedFor(api, src, hs, reg, path, i, r)
    decreases |hs| - i
  {
    if i == |hs| then Done(Asked(hs, reg, []))
    else
      var a := api.handles(hs[i], src, path);
      var hs1 := hs[i := a.state.handler];
      if !a.Ok() then Outcome(Asked(hs1, reg, []), a.fault)
      else
        match a.state.outputs
        case None =>
          var r := Ask(api, src, hs1, reg, path, i + 1);
          AskSkip(api, src, hs, reg, path, i, r);
          r
        case Some(outs) =>
          var p := PrepareAll(reg, outs);
          if !p.Ok() then Outcome(Asked(hs1, p.state, [Claim(i, outs)]), p.fault)
          else
            var rest := Ask(api, src, hs1, p.state, path, i + 1);
            AskClaim(api, src, hs, reg, path, i, p.state, rest);
            Outcome(Asked(rest.state.handlers, rest.state.reg, [Claim(i, outs)] + rest.state.claims), rest.fault)
  }

  /** Every claiming handler, called from its state in `hs`, built the file
      into some destination without raising and was left in the state that
      call returned. */
  ghost predicate BuiltFor<S>(api: Api<S>, src: Tree, hs: seq<S>, path: string, claims: seq<Claim>, after: seq<S>) {
    forall c :: c in claims ==>
      (c.handler < |hs| && c.handler < |after| &&
       exists d :: api.changed(hs[c.handler], src, path, d).Ok()
         && after[c.handler] == api.changed(hs[c.handler], src, path, d).state.handler)
  }

  /** Every claiming handler, called from its state in `hs`, was told of the
      deletion without raising and was left in the state that call returned. */
  ghost predicate ToldFor<S>(api: Api<S>, src: Tree, hs: seq<S>, path: string, claims: seq<Claim>, after: seq<S>) {
    forall c :: c in claims ==>
      (c.handler < |hs| && c.handler < |after| &&
       api.deleted(hs[c.handler], src, path).Ok() && after[c.handler] == api.deleted(hs[c.handler], src, path).state)
  }

  /** Claims after the first name handlers after the first's. */
  lemma IncreasingTail(claims: seq<Claim>)
    requires |claims| > 0 && Increasing(claims)
    ensures Increasing(claims[1..])
    ensures forall c :: c in claims[1..] ==> claims[0].handler < c.handler
    ensures forall c :: c in claims ==> c == claims[0] || c in claims[1..]
  {
    forall c | c in claims[1..] ensures claims[0].handler < c.handler {
      var i :| 0 <= i < |claims[1..]| && claims[1..][i] == c;
      assert claims[i + 1] == c;
    }
  }

  /** `for handler, outputs in self._inputs[path]: handler.changed(...)`: each
      claiming handler builds its outputs into the destination. */
  function Notify<S>(api: Api<S>, src: Tree, hs: seq<S>, dest: Tree, path: string, claims: seq<Claim>)
    : (r: Outcome<Run<S>>)
    requires forall c :: c in claims ==> c.handler < |hs|
    ensures |r.state.handlers| == |hs|
    ensures forall j :: 0 <= j < |hs| && (forall c :: c in claims ==> c.handler != j) ==>
      r.state.handlers[j] == hs[j]
    ensures r.Ok() && Increasing(claims) ==> BuiltFor(api, src, hs, path, claims, r.state.handlers)
    decreases |claims|
  {
    if |claims| == 0 then Done(Run(hs, dest))
    else
      var k := claims[0].handler;
      var b := api.changed(hs[k], src, path, dest);
      var hs1 := hs[k := b.state.handler];
      if !b.Ok() then Outcome(Run(hs1, b.state.dest), b.fault)
      else
        assert forall c :: c in claims[1..] ==> c in claims;
        var r := Notify(api, src, hs1, b.state.dest, path, claims[1..]);
        NotifyStep(api, src, hs, dest, path, claims, r);
        r
  }

  lemma NotifyStep<S>(api: Api<S>, src: Tree, hs: seq<S>, dest: Tree, path: string, claims: seq<Claim>,
                      r: Outcome<Run<S>>)
    requires |claims| > 0 && forall c :: c in claims ==> c.handler < |hs|
    requires var b := api.changed(hs[claims[0].handler], src, path, dest);
      var hs1 := hs[claims[0].handler := b.state.handler];
      && b.Ok()
      && |r.state.handlers| == |hs|
      && (forall j :: 0 <= j < |hs| && (forall c :: c in claims[1..] ==> c.handler != j) ==>
            r.state.handlers[j] == hs1[j])
      && (r.Ok() && Increasing(claims[1..]) ==> BuiltFor(api, src, hs1, path, claims[1..], r.state.handlers))
    ensures r.Ok() && Increasing(claims) ==> BuiltFor(api, src, hs, path, claims, r.state.handlers)
  {
    var k := claims[0].handler;
    var b := api.changed(hs[k], src, path, dest);
    var hs1 := hs[k := b.state.handler];
    if r.Ok() && Increasing(claims) {
      IncreasingTail(claims);
      forall c | c in claims
        ensures c.handler < |hs| && c.handler < |r.state.handlers| &&
          exists d :: api.changed(hs[c.handler], src, path, d).Ok()
            && r.state.handlers[c.handler] == api.changed(hs[c.handler], src, path, d).state.handler
      {
        if c == claims[0] {
          assert r.state.handlers[k] == hs1[k];
          assert api.changed(hs[c.handler], src, path, dest).Ok();
        } else {
          assert hs1[c.handler] == hs[c.handler];
          var d :| api.changed(hs1[c.handler], src, path, d).Ok()
            && r.state.handlers[c.handler] == api.changed(hs1[c.handler], src, path, d).state.handler;
          assert api.changed(hs[c.handler], src, path, d).Ok();
        }
      }
    }
  }

  /** The loop over a deleted file's claims: each handler is told, then the
      outputs it announced are cleaned. */
  function Retire<S>(api: Api<S>, src: Tree, hs: seq<S>, reg: Registry, path: string, claims: seq<Claim>)
    : (r: Outcome<Asked<S>>)
    requires forall c :: c in claims ==> c.handler < |hs|
    ensures |r.state.handlers| == |hs|
    ensures forall j :: 0 <= j < |hs| && (forall c :: c in claims ==> c.handler != j) ==>
      r.state.handlers[j] == hs[j]
    ensures Shrunk(reg, r.state.reg)
    ensures r.Ok() ==> forall c, o :: c in claims && o in c.outputs ==> o !in r.state.reg.tree
    ensures r.Ok() && Increasing(claims) ==> ToldFor(api, src, hs, path, claims, r.state.handlers)
    decreases |claims|
  {
    if |claims| == 0 then Done(Asked(hs, reg, []))
    else
      var k := claims[0].handler;
      var d := api.deleted(hs[k], src, path);
      var hs1 := hs[k := d.state];
      if !d.Ok() then Outcome(Asked(hs1, reg, []), d.fault)
      else
        var c := CleanAll(reg, claims[0].outputs);
        if !c.Ok() then Outcome(Asked(hs1, c.state, []), c.fault)
        else
          assert forall x :: x in claims <==> x == claims[0] || x in claims[1..];
          var r := Retire(api, src, hs1, c.state, path, claims[1..]);
          ShrunkTrans(reg, c.state, r.state.reg);
          RetireStep(api, src, hs, path, claims, r.state.handlers, r.Ok());
          r
  }

  lemma RetireStep<S>(api: Api<S>, src: Tree, hs: seq<S>, path: string, claims: seq<Claim>, after: seq<S>, ok: bool)
    requires |claims| > 0 && forall c :: c in claims ==> c.handler < |hs|
    requires var d := api.deleted(hs[claims[0].handler], src, path);
      var hs1 := hs[claims[0].handler := d.state];
      && d.Ok()
      && |after| == |hs|
      && (forall j :: 0 <= j < |hs| && (forall c :: c in claims[1..] ==> c.handler != j) ==> after[j] == hs1[j])
      && (ok && Increasing(claims[1..]) ==> ToldFor(api, src, hs1, path, claims[1..], after))
    ensures ok && Increasing(claims) ==> ToldFor(api, src, hs, path, claims, after)
  {
    var k := claims[0].handler;
    var hs1 := hs[k := api.deleted(hs[k], src, path).state];
    if ok && Increasing(claims) {
      IncreasingTail(claims);
      forall c | c in claims
        ensures c.handler < |hs| && c.handler < |after| &&
          api.deleted(hs[c.handler], src, path).Ok() && after[c.handler] == api.deleted(hs[c.handler], src, path).state
      {
        if c == claims[0] {
          assert after[k] == hs1[k];
        } else {
          assert hs1[c.handler] == hs[c.handler];
        }
      }
    }
  }

  /** The outputs of a file's previous claims, cleaned one after the other. */
  function CleanClaims(reg: Registry, claims: seq<Claim>): (r: Outcome<Registry>)
    ensures Shrunk(reg, r.state)
    ensures r.Ok() ==> forall c, o :: c in claims && o in c.outputs ==> o !in r.state.tree
    decreases |claims|
  {
    if |claims| == 0 then Done(reg)
    else
      var c := CleanAll(reg, claims[0].outputs);
      if !c.Ok() then c
      else
        var r := CleanClaims(c.state, claims[1..]);
        ShrunkTrans(reg, c.state, r.state);
        assert forall x :: x in claims <==> x == claims[0] || x in claims[1..];
        r
  }

  // ---------------------------------------------------------------------------
  // The source side

  lemma RelPathNotDirKey(o: RelPath)
    ensures !EndsWithSep(o)
  {
    ValidRelShape(o);
  }

  /** Claims whose outputs were registered stay registered while no file key
      is dropped. */
  lemma RegisteredKept(cs: seq<Claim>, a: set<string>, b: set<string>)
    requires Registered(cs, a) && FileKeysKept(a, b)
    ensures Registered(cs, b)
  {
    forall c, o | c in cs && o in c.outputs ensures o in b {
      RelPathNotDirKey(o);
    }
  }

  /** `_inputs` agrees with `b` everywhere except at `path`. */
  ghost predicate SameElsewhere(a: map<string, seq<Claim>>, b: map<string, seq<Claim>>, path: string) {
    forall p :: p != path ==> (p in a <==> p in b) && (p in a ==> a[p] == b[p])
  }

  /** Some handler, asked in its state `hs[j]`, takes `path`. */
  ghost predicate Taken<S>(api: Api<S>, src: Tree, hs: seq<S>, path: string) {
    exists j :: 0 <= j < |hs| && api.handles(hs[j], src, path).state.outputs.Some?
  }

  /** The claims of `path` are those the handlers in states `hs` answer with. */
  ghost predicate Answered<S>(api: Api<S>, src: Tree, hs: seq<S>, path: string, claims: seq<Claim>) {
    forall c :: c in claims ==>
      c.handler < |hs| && api.handles(hs[c.handler], src, path).state.outputs == Some(c.outputs)
  }

  /** The promise of `SrcUpdate(api, src, sys, path)` about `r`. */
  ghost predicate UpdatedFor<S>(api: Api<S>, src: Tree, sys: Sys<S>, path: string, r: Outcome<Sys<S>>) {
    && Indexed(r.state) && |r.state.handlers| == |sys.handlers|
    && SameElsewhere(sys.inputs, r.state.inputs, path)
    && FileKeysKept(sys.reg.outputs, r.state.reg.outputs)
    && (r.Ok() ==> (path in r.state.inputs <==> Taken(api, src, sys.handlers, path)))
    && (r.Ok() && path in r.state.inputs ==>
      && |r.state.inputs[path]| > 0
      && Increasing(r.state.inputs[path])
      && Registered(r.state.inputs[path], r.state.reg.outputs)
      && Answered(api, src, sys.handlers, path, r.state.inputs[path]))
  }

  /** What the full loop over the handlers gives `SrcUpdate`. */
  lemma AskedAll<S>(api: Api<S>, src: Tree, hs: seq<S>, reg: Registry, path: string, a: Outcome<Asked<S>>)
    requires AskedFor(api, src, hs, reg, path, 0, a)
    ensures forall c :: c in a.state.claims ==> c.handler < |a.state.handlers|
    ensures reg.outputs <= a.state.reg.outputs
    ensures a.Ok() ==> Registered(a.state.claims, a.state.reg.outputs)
    ensures a.Ok() ==> Answered(api, src, hs, path, a.state.claims)
    ensures a.Ok() ==> (|a.state.claims| > 0 <==> Taken(api, src, hs, path))
  {
    if a.Ok() {
      AskedTaken(api, src, hs, path, a.state.claims);
      forall c, o | c in a.state.claims && o in c.outputs ensures o in a.state.reg.outputs {
        assert Ready(a.state.reg, o);
      }
    }
  }

  /** A handler took the file exactly when some claim was recorded. */
  lemma AskedTaken<S>(api: Api<S>, src: Tree, hs: seq<S>, path: string, claims: seq<Claim>)
    requires Answered(api, src, hs, path, claims)
    requires forall j :: 0 <= j < |hs| && api.handles(hs[j], src, path).state.outputs.Some? ==>
      exists c :: c in claims && c.handler == j
    ensures |claims| > 0 <==> Taken(api, src, hs, path)
  {
    if |claims| > 0 {
      var c := claims[0];
      assert c in claims;
      assert api.handles(hs[c.handler], src, path).state.outputs.Some?;
    }
    if Taken(api, src, hs, path) {
      var j :| 0 <= j < |hs| && api.handles(hs[j], src, path).state.outputs.Some?;
      var c :| c in claims && c.handler == j;
      assert |claims| > 0;
    }
  }

  /** The claims recorded for `path` when no exception escaped. */
  lemma UpdateRecorded<S>(api: Api<S>, src: Tree, sys: Sys<S>, path: string, a: Outcome<Asked<S>>,
                          r: Outcome<Sys<S>>)
    requires Indexed(sys) && |a.state.handlers| == |sys.handlers|
    requires FileKeysKept(sys.reg.outputs, a.state.reg.outputs)
    requires a.Ok() && (|a.state.claims| > 0 <==> Taken(api, src, sys.handlers, path))
    requires Increasing(a.state.claims) && Registered(a.state.claims, a.state.reg.outputs)
    requires Answered(api, src, sys.handlers, path, a.state.claims)
    requires |r.state.handlers| == |sys.handlers| && r.state.reg.outputs == a.state.reg.outputs
    requires r.state.inputs == if |a.state.claims| > 0 then sys.inputs[path := a.state.claims] else sys.inputs - {path}
    requires r.Ok() || |a.state.claims| > 0
    ensures UpdatedFor(api, src, sys, path, r)
  {
  }

  /** An update cut short by an exception. */
  lemma UpdateStopped<S>(api: Api<S>, src: Tree, sys: Sys<S>, path: string, claims: seq<Claim>,
                         r: Outcome<Sys<S>>)
    requires Indexed(sys) && !r.Ok() && |r.state.handlers| == |sys.handlers|
    requires FileKeysKept(sys.reg.outputs, r.state.reg.outputs)
    requires forall c :: c in claims ==> c.handler < |sys.handlers|
    requires r.state.inputs == sys.inputs || r.state.inputs == sys.inputs[path := claims]
    ensures UpdatedFor(api, src, sys, path, r)
  {
  }

  /** The body of the first loop of `_batch_src` for one changed file: the
      outputs of its previous claims are cleaned, every handler is asked
      about it, and the handlers that take it build it; a file no handler
      takes is forgotten. */
  function SrcUpdate<S>(api: Api<S>, src: Tree, sys: Sys<S>, path: string): (r: Outcome<Sys<S>>)
    requires Indexed(sys)
    ensures UpdatedFor(api, src, sys, path, r)
    ensures r.Ok() ==> forall j :: 0 <= j < |sys.handlers| && !ClaimedBy(r.state.inputs, path, j) ==>
      r.state.handlers[j] == AskedStates(api, src, sys.handlers, path)[j]
    ensures r.Ok() && path in r.state.inputs ==>
      BuiltFor(api, src, AskedStates(api, src, sys.handlers, path), path, r.state.inputs[path], r.state.handlers)
  {
    var previous := if path in sys.inputs then sys.inputs[path] else [];
    var c := CleanClaims(sys.reg, previous);
    if !c.Ok() then
      var r := Outcome(sys.(reg := c.state), c.fault);
      UpdateStopped(api, src, sys, path, [], r);
      r
    else
      var a := Ask(api, src, sys.handlers, c.state, path, 0);
      AskedAll(api, src, sys.handlers, c.state, path, a);
      var inputs := sys.inputs[path := a.state.claims];
      if !a.Ok() then
        var r := Outcome(Sys(a.state.handlers, a.state.reg, inputs), a.fault);
        UpdateStopped(api, src, sys, path, a.state.claims, r);
        r
      else if |a.state.claims| == 0 then
        var r := Done(Sys(a.state.handlers, a.state.reg, sys.inputs - {path}));
        UpdateRecorded(api, src, sys, path, a, r);
        AskedStatesAre(api, src, sys.handlers, c.state, path, a);
        r
      else
        var n := Notify(api, src, a.state.handlers, a.state.reg.tree, path, a.state.claims);
        var r := Outcome(Sys(n.state.handlers, a.state.reg.(tree := n.state.dest), inputs), n.fault);
        UpdateRecorded(api, src, sys, path, a, r);
        AskedStatesAre(api, src, sys.handlers, c.state, path, a);
        r
  }

  /** The states the handlers are left in once each, from its state in `hs`,
      has answered whether it handles `path`. */
  ghost function AskedStates<S>(api: Api<S>, src: Tree, hs: seq<S>, path: string): (r: seq<S>)
    ensures |r| == |hs|
    ensures forall j :: 0 <= j < |hs| ==> r[j] == api.handles(hs[j], src, path).state.handler
  {
    seq(|hs|, j requires 0 <= j < |hs| => api.handles(hs[j], src, path).state.handler)
  }

  /** Handler `j` holds a claim on `path`. */
  ghost predicate ClaimedBy(inputs: map<string, seq<Claim>>, path: string, j: nat) {
    path in inputs && exists c :: c in inputs[path] && c.handler == j
  }

  lemma AskedStatesAre<S>(api: Api<S>, src: Tree, hs: seq<S>, reg: Registry, path: string, a: Outcome<Asked<S>>)
    requires AskedFor(api, src, hs, reg, path, 0, a) && a.Ok()
    ensures a.state.handlers == AskedStates(api, src, hs, path)
  {
  }

  /** The body of the second loop of `_batch_src` for one deleted file: each
      claiming handler is told and its outputs cleaned, then the file is
      forgotten. */
  function SrcDelete<S>(api: Api<S>, src: Tree, sys: Sys<S>, path: string): (r: Outcome<Sys<S>>)
    requires Indexed(sys)
    ensures Indexed(r.state) && |r.state.handlers| == |sys.handlers|
    ensures Shrunk(sys.reg, r.state.reg)
    ensures r.Ok() ==> r.state.inputs == sys.inputs - {path}
    ensures !r.Ok() ==> r.state.inputs == sys.inputs
    ensures r.Ok() && path in sys.inputs ==>
      forall c, o :: c in sys.inputs[path] && o in c.outputs ==> o !in r.state.reg.tree
    ensures r.Ok() && path in sys.inputs && Increasing(sys.inputs[path]) ==>
      ToldFor(api, src, sys.handlers, path, sys.inputs[path], r.state.handlers)
    ensures forall j :: 0 <= j < |sys.handlers| && !ClaimedBy(sys.inputs, path, j) ==>
      r.state.handlers[j] == sys.handlers[j]
  {
    if path !in sys.inputs then Done(sys)
    else
      var d := Retire(api, src, sys.handlers, sys.reg, path, sys.inputs[path]);
      if !d.Ok() then Outcome(Sys(d.state.handlers, d.state.reg, sys.inputs), d.fault)
      else Done(Sys(d.state.handlers, d.state.reg, sys.inputs - {path}))
  }

  /** `_inputs` holds the same claims for `p` in `a` and `b`. */
  ghost predicate Untouched(a: map<string, seq<Claim>>, b: map<string, seq<Claim>>, p: string) {
    (p in a <==> p in b) && (p in a ==> a[p] == b[p])
  }

  /** A completed update keeps the reactor consistent. */
  lemma UpdateConsistent<S>(api: Api<S>, src: Tree, sys: Sys<S>, path: string, r: Outcome<Sys<S>>)
    requires UpdatedFor(api, src, sys, path, r) && r.Ok()
    ensures Consistent(sys) ==> Consistent(r.state)
  {
    if Consistent(sys) {
      forall p | p in r.state.inputs && p != path
      ensures Registered(r.state.inputs[p], r.state.reg.outputs)
    {
        RegisteredKept(sys.inputs[p], sys.reg.outputs, r.state.reg.outputs);
      }
    }
  }

  /** A completed deletion keeps the reactor consistent. */
  lemma DeleteConsistent<S>(sys: Sys<S>, path: string, r: Outcome<Sys<S>>)
    requires Indexed(r.state) && |r.state.handlers| == |sys.handlers|
    requires Shrunk(sys.reg, r.state.reg) && r.state.inputs == sys.inputs - {path}
    ensures Consistent(sys) ==> Consistent(r.state)
  {
    if Consistent(sys) {
      forall p | p in r.state.inputs ensures Registered(r.state.inputs[p], r.state.reg.outputs) {
        RegisteredKept(sys.inputs[p], sys.reg.outputs, r.state.reg.outputs);
      }
    }
  }

  /** The first loop of `_batch_src`, over the changed keys in the order
      given; a directory's key is passed over. */
  function UpdateAll<S(!new)>(api: Api<S>, src: Tree, sys: Sys<S>, paths: seq<string>): (r: Outcome<Sys<S>>)
    requires Indexed(sys)
    ensures Indexed(r.state) && |r.state.handlers| == |sys.handlers|
    ensures forall p :: p !in paths || EndsWithSep(p) ==> Untouched(sys.inputs, r.state.inputs, p)
    ensures FileKeysKept(sys.reg.outputs, r.state.reg.outputs)
    ensures r.Ok() && Consistent(sys) ==> Consistent(r.state)
    ensures r.Ok() ==> forall p :: p in paths && !EndsWithSep(p) ==> Recorded(api, src, |sys.handlers|, r.state, p)
    decreases |paths|
  {
    if |paths| == 0 then Done(sys)
    else
      assert forall p :: p in paths <==> p == paths[0] || p in paths[1..];
      if EndsWithSep(paths[0]) then UpdateAll(api, src, sys, paths[1..])
      else
        var u := SrcUpdate(api, src, sys, paths[0]);
        if !u.Ok() then u
        else
          UpdateConsistent(api, src, sys, paths[0], u);
          UpdateLeavesRecorded(api, src, sys, paths[0], u);
          var r := UpdateAll(api, src, u.state, paths[1..]);
          UpdateAllStep(api, src, |sys.handlers|, paths, u.state, r);
          r
  }

  /** What an update leaves for a changed file `p`, for some states of the `n`
      handlers: either no entry, when none of them takes the file, or at least
      one claim, from distinct handlers in list order, each the answer of its
      handler, every output registered. */
  ghost predicate Recorded<S(!new)>(api: Api<S>, src: Tree, n: nat, sys: Sys<S>, p: string) {
    exists hs :: |hs| == n && RecordedFrom(api, src, hs, sys, p)
  }

  ghost predicate RecordedFrom<S(!new)>(api: Api<S>, src: Tree, hs: seq<S>, sys: Sys<S>, p: string) {
    && (p in sys.inputs <==> Taken(api, src, hs, p))
    && (p in sys.inputs ==>
      && |sys.inputs[p]| > 0
      && Increasing(sys.inputs[p])
      && Registered(sys.inputs[p], sys.reg.outputs)
      && Answered(api, src, hs, p, sys.inputs[p]))
  }

  lemma UpdateLeavesRecorded<S(!new)>(api: Api<S>, src: Tree, sys: Sys<S>, path: string, r: Outcome<Sys<S>>)
    requires UpdatedFor(api, src, sys, path, r) && r.Ok()
    ensures Recorded(api, src, |sys.handlers|, r.state, path)
  {
    assert RecordedFrom(api, src, sys.handlers, r.state, path);
  }

  /** The record of `p` survives steps that leave its entry alone and keep
      every registered file. */
  lemma RecordedKept<S(!new)>(api: Api<S>, src: Tree, n: nat, a: Sys<S>, b: Sys<S>, p: string)
    requires Untouched(a.inputs, b.inputs, p) && FileKeysKept(a.reg.outputs, b.reg.outputs)
    ensures Recorded(api, src, n, a, p) ==> Recorded(api, src, n, b, p)
  {
    if Recorded(api, src, n, a, p) {
      var hs :| |hs| == n && RecordedFrom(api, src, hs, a, p);
      if p in a.inputs {
        RegisteredKept(a.inputs[p], a.reg.outputs, b.reg.outputs);
      }
      assert RecordedFrom(api, src, hs, b, p);
    }
  }

  lemma UpdateAllStep<S(!new)>(api: Api<S>, src: Tree, n: nat, paths: seq<string>, u: Sys<S>, r: Outcome<Sys<S>>)
    requires |paths| > 0 && Recorded(api, src, n, u, paths[0])
    requires forall p :: p !in paths[1..] || EndsWithSep(p) ==> Untouched(u.inputs, r.state.inputs, p)
    requires FileKeysKept(u.reg.outputs, r.state.reg.outputs)
    requires r.Ok() ==> forall p :: p in paths[1..] && !EndsWithSep(p) ==> Recorded(api, src, n, r.state, p)
    ensures r.Ok() ==> forall p :: p in paths && !EndsWithSep(p) ==> Recorded(api, src, n, r.state, p)
  {
    if r.Ok() {
      forall p | p in paths && !EndsWithSep(p) ensures Recorded(api, src, n, r.state, p) {
        if p !in paths[1..] {
          assert p == paths[0];
          RecordedKept(api, src, n, u, r.state, p);
        }
      }
    }
  }

  /** The second loop of `_batch_src`, over the deleted keys in the order given. */
  function DeleteAll<S>(api: Api<S>, src: Tree, sys: Sys<S>, paths: seq<string>): (r: Outcome<Sys<S>>)
    requires Indexed(sys)
    ensures Indexed(r.state) && |r.state.handlers| == |sys.handlers|
    ensures Shrunk(sys.reg, r.state.reg)
    ensures forall p :: p !in paths ==> Untouched(sys.inputs, r.state.inputs, p)
    ensures forall p :: p in r.state.inputs ==> Untouched(sys.inputs, r.state.inputs, p)
    ensures r.Ok() ==> forall p :: p in paths ==> p !in r.state.inputs
    ensures r.Ok() && Consistent(sys) ==> Consistent(r.state)
    ensures forall j :: 0 <= j < |sys.handlers| && (forall p :: p in paths ==> !ClaimedBy(sys.inputs, p, j)) ==>
      r.state.handlers[j] == sys.handlers[j]
    ensures r.Ok() ==> OutputsGone(sys.inputs, paths, r.state.reg.tree)
    decreases |paths|
  {
    if |paths| == 0 then Done(sys)
    else
      assert forall p :: p in paths <==> p == paths[0] || p in paths[1..];
      var d := SrcDelete(api, src, sys, paths[0]);
      if !d.Ok() then d
      else
        DeleteConsistent(sys, paths[0], d);
        var r := DeleteAll(api, src, d.state, paths[1..]);
        ShrunkTrans(sys.reg, d.state.reg, r.state.reg);
        DeleteAllStep(sys.inputs, paths, d.state.inputs, d.state.reg.tree, r.state.reg.tree, r.Ok());
        r
  }

  /** Every output announced by a claim on one of `paths` is absent from `t`. */
  ghost predicate OutputsGone(inputs: map<string, seq<Claim>>, paths: seq<string>, t: Tree) {
    forall p, c, o :: p in paths && p in inputs && c in inputs[p] && o in c.outputs ==> o !in t
  }

  /** The outputs of the first deleted file are gone after its own step and
      stay gone while entries are only removed; the rest come from the later
      steps, which see the same claims. */
  lemma DeleteAllStep(inputs: map<string, seq<Claim>>, paths: seq<string>, mid: map<string, seq<Claim>>,
                      t: Tree, u: Tree, ok: bool)
    requires |paths| > 0 && mid == inputs - {paths[0]}
    requires paths[0] in inputs ==> forall c, o :: c in inputs[paths[0]] && o in c.outputs ==> o !in t
    requires forall q :: q in u ==> q in t
    requires ok ==> OutputsGone(mid, paths[1..], u)
    ensures ok ==> OutputsGone(inputs, paths, u)
  {
    if ok {
      forall p, c, o | p in paths && p in inputs && c in inputs[p] && o in c.outputs ensures o !in u {
        if p != paths[0] {
          assert p in paths[1..];
          assert p in mid && mid[p] == inputs[p];
        }
      }
    }
  }

  /** Sorting by length keeps the same keys. */
  lemma SortedMembers(s: seq<string>, longestFirst: bool)
    ensures forall p :: p in SortByLength(s, longestFirst) <==> p in s
  {
    var r := SortByLength(s, longestFirst);
    assert forall p :: p in r <==> p in multiset(r);
    assert forall p :: p in s <==> p in multiset(s);
  }

  /** `_batch_src`: the changed keys shortest first, then the deleted keys
      longest first. */
  function BatchSrc<S(!new)>(api: Api<S>, src: Tree, sys: Sys<S>, updated: seq<string>, deleted: seq<string>)
    : (r: Outcome<Sys<S>>)
    requires Indexed(sys)
    ensures Indexed(r.state) && |r.state.handlers| == |sys.handlers|
    ensures forall p :: (p !in updated || EndsWithSep(p)) && p !in deleted ==>
      Untouched(sys.inputs, r.state.inputs, p)
    ensures FileKeysKept(sys.reg.outputs, r.state.reg.outputs)
    ensures r.Ok() ==> forall p :: p in deleted ==> p !in r.state.inputs
    ensures r.Ok() && Consistent(sys) ==> Consistent(r.state)
    ensures r.Ok() ==> forall p :: p in updated && !EndsWithSep(p) && p !in deleted ==>
      Recorded(api, src, |sys.handlers|, r.state, p)
    ensures r.Ok() ==> forall p, c, o ::
      (p in deleted && (p !in updated || EndsWithSep(p)) && p in sys.inputs && c in sys.inputs[p] && o in c.outputs)
      ==> o !in r.state.reg.tree
  {
    var ups := SortByLength(updated, false);
    var dels := SortByLength(deleted, true);
    SortedMembers(updated, false);
    SortedMembers(deleted, true);
    var u := UpdateAll(api, src, sys, ups);
    if !u.Ok() then u
    else
      var r := DeleteAll(api, src, u.state, dels);
      BatchRecorded(api, src, |sys.handlers|, updated, deleted, u.state, r.state);
      BatchCleared(sys.inputs, updated, deleted, u.state.inputs, dels, r.state.reg.tree, r.Ok());
      r
  }

  /** A deleted key the update loop did not touch still holds its old claims
      when the delete loop reaches it. */
  lemma BatchCleared(inputs: map<string, seq<Claim>>, updated: seq<string>, deleted: seq<string>,
                     mid: map<string, seq<Claim>>, dels: seq<string>, t: Tree, ok: bool)
    requires forall p :: p !in updated || EndsWithSep(p) ==> Untouched(inputs, mid, p)
    requires forall p :: p in dels <==> p in deleted
    requires ok ==> OutputsGone(mid, dels, t)
    ensures ok ==> forall p, c, o ::
      (p in deleted && (p !in updated || EndsWithSep(p)) && p in inputs && c in inputs[p] && o in c.outputs)
      ==> o !in t
  {
    if ok {
      forall p, c, o | p in deleted && (p !in updated || EndsWithSep(p)) && p in inputs && c in inputs[p] && o in c.outputs
        ensures o !in t
      {
        assert p in dels && p in mid && mid[p] == inputs[p];
      }
    }
  }

  lemma BatchRecorded<S(!new)>(api: Api<S>, src: Tree, n: nat, updated: seq<string>, deleted: seq<string>, a: Sys<S>, b: Sys<S>)
    requires forall p :: p in updated && !EndsWithSep(p) ==> Recorded(api, src, n, a, p)
    requires forall p :: p !in deleted ==> Untouched(a.inputs, b.inputs, p)
    requires FileKeysKept(a.reg.outputs, b.reg.outputs)
    ensures forall p :: p in updated && !EndsWithSep(p) && p !in deleted ==> Recorded(api, src, n, b, p)
  {
    forall p | p in updated && !EndsWithSep(p) && p !in deleted ensures Recorded(api, src, n, b, p) {
      RecordedKept(api, src, n, a, b, p);
    }
  }

  // ---------------------------------------------------------------------------
  // The destination side

  /** A registered folder key. */
  predicate Managed(outputs: set<string>, p: string) {
    p in outputs && EndsWithSep(p)
  }

  /** A path that has gone stays gone while entries are only removed. */
  lemma GoneStaysGone(t: Tree, u: Tree, p: string)
    requires forall q :: q in u ==> q in t && u[q] == t[q]
    requires !Exists(t, p)
    ensures !Exists(u, p)
  {
  }

  /** `u` is `t` less some entries, each named by an unregistered key of
      `paths`; a key with a trailing separator only names a directory. */
  ghost predicate Removed(t: Tree, u: Tree, outputs: set<string>, paths: seq<string>) {
    && (forall q :: q in u ==> q in t && u[q] == t[q])
    && (forall q :: q in t && q !in u ==>
      exists p :: p in paths && p !in outputs && Name(p) == q && (EndsWithSep(p) ==> t[q] == Dir))
  }

  /** `u` is `t` plus some directories, each named by a registered folder key
      of `paths`. */
  ghost predicate Added(t: Tree, u: Tree, outputs: set<string>, paths: seq<string>) {
    && (forall q :: q in t ==> q in u && u[q] == t[q])
    && (forall q :: q in u && q !in t ==>
      u[q] == Dir && exists p :: p in paths && Managed(outputs, p) && Name(p) == q)
  }

  /** The first loop of `_batch_dest`, over the changed keys in the order
      given: a key nobody registered is removed, with `rmdir` when it is a
      directory and `unlink` otherwise. */
  function Sweep(t: Tree, outputs: set<string>, paths: seq<string>): (r: Outcome<Tree>)
    ensures Removed(t, r.state, outputs, paths)
    ensures r.Ok() ==> forall p :: p in paths && p !in outputs ==> !Exists(r.state, p)
    ensures r.fault.Some? ==> exists p :: (p in paths && p !in outputs && r.fault.value in
      {NotFound(p), IsADirectory(p), NotADirectory(p), NotEmpty(p)})
    decreases |paths|
  {
    if |paths| == 0 then Done(t)
    else
      var p := paths[0];
      assert forall x :: x in paths <==> x == p || x in paths[1..];
      if p in outputs then Sweep(t, outputs, paths[1..])
      else
        var d := if IsDir(t, p) then Rmdir(t, p) else Unlink(t, p);
        if !d.Ok() then Outcome(t, d.fault)
        else
          var r := Sweep(d.state, outputs, paths[1..]);
          GoneStaysGone(d.state, r.state, p);
          assert forall q :: q in t && q !in r.state ==> q == Name(p) || (q in d.state && q !in r.state);
          r
  }

  /** The second loop of `_batch_dest`, over the deleted keys in the order
      given: a registered folder is created again. */
  function Restore(t: Tree, outputs: set<string>, paths: seq<string>): (r: Outcome<Tree>)
    ensures Added(t, r.state, outputs, paths)
    ensures r.Ok() ==> forall p :: p in paths && Managed(outputs, p) ==> IsDir(r.state, p)
    ensures r.fault.Some? ==> exists p :: (p in paths && Managed(outputs, p) && r.fault.value in
      {AlreadyExists(p), NotFound(p), NotADirectory(p)})
    decreases |paths|
  {
    if |paths| == 0 then Done(t)
    else
      var p := paths[0];
      assert forall x :: x in paths <==> x == p || x in paths[1..];
      if !Managed(outputs, p) then Restore(t, outputs, paths[1..])
      else
        var m := Mkdir(t, p);
        if !m.Ok() then m
        else Restore(m.state, outputs, paths[1..])
  }

  /** A registered output that is a file is never swept: the only other key
      naming it carries a separator, and that key only reaches a directory. */
  lemma SweepSpares(t: Tree, outputs: set<string>, paths: seq<string>, u: Tree, o: string)
    requires Removed(t, u, outputs, paths)
    requires o in outputs && o in t && t[o].File?
    ensures o in u
  {
    forall p | p in paths && p !in outputs && Name(p) == o ensures !(EndsWithSep(p) ==> t[o] == Dir) {
      assert p != o;
    }
  }

  /** The promise of `BatchDest(reg, updated, deleted)` about the tree `t`
      it leaves, `ok` telling whether it completed. */
  ghost predicate DestFor(reg: Registry, updated: seq<string>, deleted: seq<string>, t: Tree, ok: bool) {
    && (forall q :: q in reg.tree && q !in t ==>
      exists p :: p in updated && p !in reg.outputs && Name(p) == q)
    && (forall q :: q in t && (q !in reg.tree || t[q] != reg.tree[q]) ==>
      t[q] == Dir && exists p :: p in deleted && Managed(reg.outputs, p) && Name(p) == q)
    && (forall o :: o in reg.outputs && o in reg.tree && reg.tree[o].File? ==> o in t)
    && (ok ==> forall p :: p in deleted && Managed(reg.outputs, p) ==> IsDir(t, p))
    && (ok ==> forall p :: p in updated && p !in reg.outputs ==>
      !Exists(t, p) || exists k :: k in deleted && Managed(reg.outputs, k) && Name(k) == Name(p))
  }

  /** The destination side stopped by the sweep. */
  lemma DestSwept(reg: Registry, updated: seq<string>, deleted: seq<string>, ups: seq<string>, u: Tree)
    requires forall p :: p in ups <==> p in updated
    requires Removed(reg.tree, u, reg.outputs, ups)
    ensures DestFor(reg, updated, deleted, u, false)
  {
    forall o | o in reg.outputs && o in reg.tree && reg.tree[o].File? ensures o in u {
      SweepSpares(reg.tree, reg.outputs, ups, u, o);
    }
  }

  /** The destination side after a complete sweep. */
  lemma DestRestored(reg: Registry, updated: seq<string>, deleted: seq<string>, ups: seq<string>,
                     dels: seq<string>, u: Tree, m: Outcome<Tree>)
    requires forall p :: p in ups <==> p in updated
    requires forall p :: p in dels <==> p in deleted
    requires Removed(reg.tree, u, reg.outputs, ups)
    requires forall p :: p in ups && p !in reg.outputs ==> !Exists(u, p)
    requires Added(u, m.state, reg.outputs, dels)
    requires m.Ok() ==> forall p :: p in dels && Managed(reg.outputs, p) ==> IsDir(m.state, p)
    ensures DestFor(reg, updated, deleted, m.state, m.Ok())
  {
    DestRestoredFrame(reg, updated, deleted, ups, dels, u, m.state);
    DestRestoredSwept(reg, updated, deleted, ups, dels, u, m.state);
  }

  lemma DestRestoredFrame(reg: Registry, updated: seq<string>, deleted: seq<string>, ups: seq<string>,
                          dels: seq<string>, u: Tree, t: Tree)
    requires forall p :: p in ups <==> p in updated
    requires forall p :: p in dels <==> p in deleted
    requires Removed(reg.tree, u, reg.outputs, ups)
    requires Added(u, t, reg.outputs, dels)
    ensures forall q :: q in reg.tree && q !in t ==> exists p :: p in updated && p !in reg.outputs && Name(p) == q
    ensures forall q :: q in t && (q !in reg.tree || t[q] != reg.tree[q]) ==>
      t[q] == Dir && exists p :: p in deleted && Managed(reg.outputs, p) && Name(p) == q
    ensures forall o :: o in reg.outputs && o in reg.tree && reg.tree[o].File? ==> o in t
  {
    forall o | o in reg.outputs && o in reg.tree && reg.tree[o].File? ensures o in u {
      SweepSpares(reg.tree, reg.outputs, ups, u, o);
    }
  }

  lemma DestRestoredSwept(reg: Registry, updated: seq<string>, deleted: seq<string>, ups: seq<string>,
                          dels: seq<string>, u: Tree, t: Tree)
    requires forall p :: p in ups <==> p in updated
    requires forall p :: p in dels <==> p in deleted
    requires forall p :: p in ups && p !in reg.outputs ==> !Exists(u, p)
    requires Added(u, t, reg.outputs, dels)
    ensures forall p :: p in updated && p !in reg.outputs ==>
      !Exists(t, p) || exists k :: k in deleted && Managed(reg.outputs, k) && Name(k) == Name(p)
  {
    forall p | p in updated && p !in reg.outputs && Exists(t, p)
      ensures exists k :: k in deleted && Managed(reg.outputs, k) && Name(k) == Name(p)
    {
      assert !Exists(u, p);
      assert Name(p) in t && Name(p) !in u;
    }
  }

  /** `_batch_dest`: the changed keys longest first, then the deleted keys
      shortest first.  `_outputs` is only read. */
  function BatchDest(reg: Registry, updated: seq<string>, deleted: seq<string>): (r: Outcome<Registry>)
    ensures r.state.outputs == reg.outputs
    ensures DestFor(reg, updated, deleted, r.state.tree, r.Ok())
  {
    var ups := SortByLength(updated, true);
    SortedMembers(updated, true);
    var s := Sweep(reg.tree, reg.outputs, ups);
    if !s.Ok() then
      DestSwept(reg, updated, deleted, ups, s.state);
      Outcome(reg.(tree := s.state), s.fault)
    else
      var dels := SortByLength(deleted, false);
      SortedMembers(deleted, false);
      var m := Restore(s.state, reg.outputs, dels);
      DestRestored(reg, updated, deleted, ups, dels, s.state, m);
      Outcome(reg.(tree := m.state), m.fault)
  }

  // ---------------------------------------------------------------------------
  // Why the two destination loops run in opposite orders

  /** Two different keys with a trailing separator name different folders. */
  lemma FolderKeyName(a: string, b: string)
    requires EndsWithSep(a) && EndsWithSep(b) && a != b
    ensures Name(a) != Name(b)
  {
    assert a == a[..|a| - 1] + [Sep];
    assert b == b[..|b| - 1] + [Sep];
  }

  /** The folder key of the directory holding a folder key is shorter. */
  lemma HolderKeyShorter(p: string)
    requires EndsWithSep(p) && ValidKey(p) && Dirname(Name(p)) != ""
    ensures |Dirname(Name(p)) + [Sep]| < |p|
  {
    if ValidRel(p) {
      ValidRelShape(p);
    }
    DirnameOfValid(Name(p));
  }

  /** Every entry strictly below the directory `p` names has a longer path. */
  lemma BelowIsLonger(p: string, q: string)
    requires ValidRel(q) && StartsWith(q, Name(p) + [Sep])
    ensures |q| > |p|
  {
    ValidRelShape(q);
  }

  /** Each registered folder key of `paths` names a missing directory, no two
      of them name the same one, and the directory that would hold each one
      exists or is named by an earlier registered folder key. */
  ghost predicate Restorable(t: Tree, outputs: set<string>, paths: seq<string>) {
    && (forall i :: 0 <= i < |paths| && Managed(outputs, paths[i]) ==>
      && Name(paths[i]) !in t
      && (ParentReady(t, Name(paths[i]))
          || exists j :: 0 <= j < i && Managed(outputs, paths[j]) && Name(paths[j]) == Dirname(Name(paths[i]))))
    && (forall i, j :: 0 <= i < j < |paths| && Managed(outputs, paths[i]) && Managed(outputs, paths[j]) ==>
      Name(paths[i]) != Name(paths[j]))
  }

  lemma RestorableTail(t: Tree, outputs: set<string>, paths: seq<string>)
    requires |paths| > 0 && Restorable(t, outputs, paths)
    ensures var p := paths[0];
      Restorable(if Managed(outputs, p) then t[Name(p) := Dir] else t, outputs, paths[1..])
  {
    var p := paths[0];
    var u := if Managed(outputs, p) then t[Name(p) := Dir] else t;
    var s := paths[1..];
    forall i | 0 <= i < |s| && Managed(outputs, s[i])
      ensures Name(s[i]) !in u
      ensures ParentReady(u, Name(s[i]))
        || exists j :: 0 <= j < i && Managed(outputs, s[j]) && Name(s[j]) == Dirname(Name(s[i]))
    {
      assert s[i] == paths[i + 1];
      if !ParentReady(t, Name(s[i])) {
        var j :| 0 <= j < i + 1 && Managed(outputs, paths[j]) && Name(paths[j]) == Dirname(Name(paths[i + 1]));
        if j > 0 {
          assert s[j - 1] == paths[j];
        }
      }
    }
    forall i, j | 0 <= i < j < |s| && Managed(outputs, s[i]) && Managed(outputs, s[j])
      ensures Name(s[i]) != Name(s[j])
    {
      assert s[i] == paths[i + 1] && s[j] == paths[j + 1];
    }
  }

  /** The restore loop completes when its keys are restorable in the order
      given. */
  lemma {:induction false} RestoreSucceeds(t: Tree, outputs: set<string>, paths: seq<string>)
    requires Restorable(t, outputs, paths)
    ensures Restore(t, outputs, paths).Ok()
    decreases |paths|
  {
    if |paths| > 0 {
      var p := paths[0];
      RestorableTail(t, outputs, paths);
      RestoreSucceeds(if Managed(outputs, p) then t[Name(p) := Dir] else t, outputs, paths[1..]);
    }
  }

  /** Shortest first: when every deleted registered folder is missing and
      its holder either exists or was itself a deleted registered folder,
      re-creating them in `_batch_dest`'s order never meets a missing holder. */
  lemma RestoreShortestFirst(t: Tree, outputs: set<string>, deleted: seq<string>)
    requires NoDup(deleted)
    requires forall p :: p in deleted && Managed(outputs, p) ==> ValidKey(p) && Name(p) !in t
    requires forall p :: p in deleted && Managed(outputs, p) && !ParentReady(t, Name(p)) ==>
      Dirname(Name(p)) + [Sep] in deleted && Managed(outputs, Dirname(Name(p)) + [Sep])
    ensures Restore(t, outputs, SortByLength(deleted, false)).Ok()
  {
    var s := SortByLength(deleted, false);
    SortedMembers(deleted, false);
    SortNoRepeat(deleted, false);
    forall i | 0 <= i < |s| && Managed(outputs, s[i]) && !ParentReady(t, Name(s[i]))
      ensures exists j :: 0 <= j < i && Managed(outputs, s[j]) && Name(s[j]) == Dirname(Name(s[i]))
    {
      assert s[i] in deleted;
      HolderEarlier(s, outputs, i);
    }
    forall i, j | 0 <= i < j < |s| && Managed(outputs, s[i]) && Managed(outputs, s[j])
      ensures Name(s[i]) != Name(s[j])
    {
      assert s[i] != s[j];
      FolderKeyName(s[i], s[j]);
    }
    RestoreSucceeds(t, outputs, s);
  }

  /** In a shortest-first order, the folder key of the directory holding a
      registered folder key comes before it. */
  lemma HolderEarlier(s: seq<string>, outputs: set<string>, i: nat)
    requires Ordered(s, false) && i < |s| && Managed(outputs, s[i]) && ValidKey(s[i])
    requires Dirname(Name(s[i])) != ""
    requires Dirname(Name(s[i])) + [Sep] in s && Managed(outputs, Dirname(Name(s[i])) + [Sep])
    ensures exists j :: 0 <= j < i && Managed(outputs, s[j]) && Name(s[j]) == Dirname(Name(s[i]))
  {
    var k := Dirname(Name(s[i])) + [Sep];
    var j :| 0 <= j < |s| && s[j] == k;
    HolderKeyShorter(s[i]);
    assert Name(k) == Dirname(Name(s[i]));
    assert j < i;
  }

  /** Each unregistered key of `paths` exists, no two of them name the same
      entry, and every entry below one that is a directory is named by an
      earlier unregistered key. */
  ghost predicate Sweepable(t: Tree, outputs: set<string>, paths: seq<string>) {
    && (forall i :: 0 <= i < |paths| && paths[i] !in outputs ==> Exists(t, paths[i]))
    && (forall i, j :: 0 <= i < j < |paths| && paths[i] !in outputs && paths[j] !in outputs ==>
      Name(paths[i]) != Name(paths[j]))
    && (forall i, q :: (0 <= i < |paths| && paths[i] !in outputs && IsDir(t, paths[i]) && q in t
                        && StartsWith(q, Name(paths[i]) + [Sep])) ==>
        exists j :: 0 <= j < i && paths[j] !in outputs && Name(paths[j]) == q)
  }

  /** Removing an entry leaves what every other name finds. */
  lemma LookupElsewhere(t: Tree, n: string, x: string)
    requires Name(x) != n
    ensures Lookup(t - {n}, x) == Lookup(t, x)
  {
  }

  lemma SweepableTail(t: Tree, outputs: set<string>, paths: seq<string>)
    requires |paths| > 0 && Sweepable(t, outputs, paths)
    ensures var p := paths[0];
      Sweepable(if p in outputs then t else t - {Name(p)}, outputs, paths[1..])
  {
    var p := paths[0];
    var u := if p in outputs then t else t - {Name(p)};
    var s := paths[1..];
    forall i | 0 <= i < |s| && s[i] !in outputs ensures Exists(u, s[i]) {
      assert s[i] == paths[i + 1];
      if p !in outputs {
        LookupElsewhere(t, Name(p), s[i]);
      }
    }
    forall i, j | 0 <= i < j < |s| && s[i] !in outputs && s[j] !in outputs
      ensures Name(s[i]) != Name(s[j])
    {
      assert s[i] == paths[i + 1] && s[j] == paths[j + 1];
    }
    forall i, q | 0 <= i < |s| && s[i] !in outputs && IsDir(u, s[i]) && q in u && StartsWith(q, Name(s[i]) + [Sep])
      ensures exists j :: 0 <= j < i && s[j] !in outputs && Name(s[j]) == q
    {
      assert s[i] == paths[i + 1];
      if p !in outputs {
        LookupElsewhere(t, Name(p), s[i]);
      }
      var j :| 0 <= j < i + 1 && paths[j] !in outputs && Name(paths[j]) == q;
      assert j > 0;
      assert s[j - 1] == paths[j];
    }
  }

  /** The sweep completes when its keys are sweepable in the order given. */
  lemma {:induction false} SweepSucceeds(t: Tree, outputs: set<string>, paths: seq<string>)
    requires Sweepable(t, outputs, paths)
    ensures Sweep(t, outputs, paths).Ok()
    decreases |paths|
  {
    if |paths| > 0 {
      var p := paths[0];
      if p !in outputs && IsDir(t, p) {
        assert !HasEntries(t, Name(p));
      }
      SweepableTail(t, outputs, paths);
      SweepSucceeds(if p in outputs then t else t - {Name(p)}, outputs, paths[1..]);
    }
  }

  /** Longest first: when every changed unregistered key exists, names its
      own entry, and everything below one that is a directory was itself
      reported, removing them in `_batch_dest`'s order never meets a
      directory that is not yet empty. */
  lemma SweepLongestFirst(t: Tree, outputs: set<string>, updated: seq<string>)
    requires Normal(t) && NoDup(updated)
    requires forall p :: p in updated && p !in outputs ==> Exists(t, p)
    requires forall p, p' :: (p in updated && p' in updated && p !in outputs && p' !in outputs
                              && Name(p) == Name(p')) ==> p == p'
    requires forall p, q :: p in updated && p !in outputs && IsDir(t, p) && q in t && StartsWith(q, Name(p) + [Sep]) ==>
      exists p' :: p' in updated && p' !in outputs && Name(p') == q
    ensures Sweep(t, outputs, SortByLength(updated, true)).Ok()
  {
    var s := SortByLength(updated, true);
    SortedMembers(updated, true);
    SortNoRepeat(updated, true);
    SortedNamesDistinct(outputs, updated, s);
    SortedContentsFirst(t, outputs, updated, s);
    SweepSucceeds(t, outputs, s);
  }

  /** Distinct unregistered keys of the sorted list name distinct entries. */
  lemma SortedNamesDistinct(outputs: set<string>, updated: seq<string>, s: seq<string>)
    requires NoDup(s) && forall p :: p in s <==> p in updated
    requires forall p, p' :: (p in updated && p' in updated && p !in outputs && p' !in outputs
                              && Name(p) == Name(p')) ==> p == p'
    ensures forall i, j :: 0 <= i < j < |s| && s[i] !in outputs && s[j] !in outputs ==> Name(s[i]) != Name(s[j])
  {
    forall i, j | 0 <= i < j < |s| && s[i] !in outputs && s[j] !in outputs
      ensures Name(s[i]) != Name(s[j])
    {
      assert s[i] != s[j];
      assert s[i] in updated && s[j] in updated;
    }
  }

  /** Longest first, every entry below an unregistered directory is named
      before it. */
  lemma SortedContentsFirst(t: Tree, outputs: set<string>, updated: seq<string>, s: seq<string>)
    requires Normal(t) && Ordered(s, true) && forall p :: p in s <==> p in updated
    requires forall p, q :: p in updated && p !in outputs && IsDir(t, p) && q in t && StartsWith(q, Name(p) + [Sep]) ==>
      exists p' :: p' in updated && p' !in outputs && Name(p') == q
    ensures forall i, q :: 0 <= i < |s| && s[i] !in outputs && IsDir(t, s[i]) && q in t && StartsWith(q, Name(s[i]) + [Sep]) ==>
      exists j :: 0 <= j < i && s[j] !in outputs && Name(s[j]) == q
  {
    forall i, q | 0 <= i < |s| && s[i] !in outputs && IsDir(t, s[i]) && q in t && StartsWith(q, Name(s[i]) + [Sep])
      ensures exists j :: 0 <= j < i && s[j] !in outputs && Name(s[j]) == q
    {
      assert s[i] in updated;
      var p' :| p' in updated && p' !in outputs && Name(p') == q;
      var j :| 0 <= j < |s| && s[j] == p';
      BelowIsLonger(s[i], q);
      assert j < i;
    }
  }

  /** The reason for the first batch's order: an output already in the
      destination is swept away while nobody has registered it, and is
      spared once the source side has registered it. */
  lemma RegisterBeforeSweep(m: int)
    ensures Sweep(map["a" := File(m, [])], {}, ["a"]) == Done(map[])
    ensures Sweep(map["a" := File(m, [])], {"a"}, ["a"]) == Done(map["a" := File(m, [])])
  {
    var t := map["a" := File(m, [])];
    assert !EndsWithSep("a") && Name("a") == "a";
    assert Lookup(t, "a") == Some(File(m, []));
    assert ["a"][1..] == [];
    assert t - {"a"} == map[];
  }

  // ---------------------------------------------------------------------------
  // The batch

  /** `_batch`: on the first batch the source side runs first, so that the
      outputs the handlers claim are registered before the destination is
      swept; afterwards the destination side runs first.  An exception is
      logged and stops the reactor; `_initial` is cleared only by a first
      batch that completes, and a run with `once` stops after it. */
  function Batch<S(!new)>(api: Api<S>, src: Tree, st: Reactor<S>, srcUpdated: seq<string>, srcDeleted: seq<string>,
                    destUpdated: seq<string>, destDeleted: seq<string>): (r: Outcome<Reactor<S>>)
    requires Indexed(st.sys)
    ensures Indexed(r.state.sys) && |r.state.sys.handlers| == |st.sys.handlers|
    ensures r.state.once == st.once
    ensures r.state.initial <==> st.initial && !r.Ok()
    ensures !r.Ok() ==> !r.state.running
    ensures r.Ok() ==> (r.state.running <==> st.running && !(st.initial && st.once))
    ensures FileKeysKept(st.sys.reg.outputs, r.state.sys.reg.outputs)
    ensures r.Ok() ==> forall p :: p in srcDeleted ==> p !in r.state.sys.inputs
    ensures r.Ok() && Consistent(st.sys) ==> Consistent(r.state.sys)
  {
    if st.initial then
      var s := BatchSrc(api, src, st.sys, srcUpdated, srcDeleted);
      if !s.Ok() then Outcome(st.(sys := s.state, running := false), s.fault)
      else
        var d := BatchDest(s.state.reg, destUpdated, destDeleted);
        var sys := s.state.(reg := d.state);
        if !d.Ok() then Outcome(st.(sys := sys, running := false), d.fault)
        else Done(st.(sys := sys, initial := false, running := st.running && !st.once))
    else
      var d := BatchDest(st.sys.reg, destUpdated, destDeleted);
      var sys := st.sys.(reg := d.state);
      if !d.Ok() then Outcome(st.(sys := sys, running := false), d.fault)
      else
        var s := BatchSrc(api, src, sys, srcUpdated, srcDeleted);
        Outcome(st.(sys := s.state, running := s.Ok() && st.running), s.fault)
  }
}
