/** The change detector of one watched root: a snapshot of the tree under the
    root, a dirty flag that file-system events set, and the diff pass that
    brings the snapshot up to date and reports what changed. */
module Proxy {
  import opened Paths
  import opened Fs

  /** The snapshot.  `files` maps a key to the last modification time seen; a
      directory's key ends with the separator and maps to 0.  `order` lists the
      keys in insertion order, the order in which the dictionary yields them.
      `updated` is the dirty flag; `notify` tells whether a wake-up callback
      was given. */
  datatype Watched = Watched(files: map<string, int>, order: seq<string>, updated: bool, notify: bool)

  /** A diff: the new snapshot, the keys reported changed and those reported deleted. */
  datatype Diff = Diff(w: Watched, changed: seq<string>, deleted: seq<string>)

  /** What a fired event does: the flag is raised and the callback, if any, runs. */
  datatype Event = Event(w: Watched, wake: bool)

  /** The time stored for `k`, or the 0 a new key is seeded with. */
  function Prev(files: map<string, int>, k: string): int {
    if k in files then files[k] else 0
  }

  ghost predicate Listed(files: map<string, int>, order: seq<string>) {
    && NoDup(order)
    && (forall k :: k in order <==> k in files)
    && (forall k :: k in files && EndsWithSep(k) ==> files[k] == 0)
  }

  ghost predicate Valid(w: Watched) {
    Listed(w.files, w.order)
  }

  /** A fresh detector: empty snapshot, dirty so that the first poll diffs. */
  function Start(notify: bool): (w: Watched)
    ensures Valid(w) && w.updated && |w.files| == 0
  {
    Watched(map[], [], true, notify)
  }

  /** `on_any_event`: whatever the event, the flag goes up and the callback runs. */
  function OnAnyEvent(w: Watched): (e: Event)
    ensures e.w.updated && e.wake == w.notify
    ensures e.w.files == w.files && e.w.order == w.order && e.w.notify == w.notify
  {
    Event(w.(updated := true), w.notify)
  }

  // ---------------------------------------------------------------------------
  // Keys and liveness

  /** The snapshot key of entry `p`: directories carry a trailing separator. */
  function KeyOf(p: string, e: Entry): string {
    if e.Dir? then p + [Sep] else p
  }

  /** The deletion test of the first pass, negated: `k` still exists and is a
      directory exactly when it ends with the separator. */
  predicate Live(tree: Tree, k: string) {
    Exists(tree, k) && IsDir(tree, k) == EndsWithSep(k)
  }

  /** The time the diff leaves for a key of the walk: directories keep what
      they had (0), files keep the larger of the stored and the current time. */
  function Next(files: map<string, int>, tree: Tree, k: string): int {
    match Lookup(tree, k)
    case Some(File(m, _)) => Max(Prev(files, k), m)
    case _ => Prev(files, k)
  }

  /** Whether the walk reports key `k`: a directory the snapshot did not hold,
      or a file whose time is newer than the stored one (0 for a new file). */
  predicate Fires(files: map<string, int>, tree: Tree, k: string) {
    match Lookup(tree, k)
    case Some(File(m, _)) => m > Prev(files, k)
    case Some(Dir) => k !in files
    case None => false
  }

  predicate Reported(files: map<string, int>, tree: Tree, k: string) {
    Live(tree, k) && Fires(files, tree, k)
  }

  lemma KeyOfEntry(tree: Tree, p: string)
    requires Normal(tree) && p in tree
    ensures Name(KeyOf(p, tree[p])) == p
    ensures Lookup(tree, KeyOf(p, tree[p])) == Some(tree[p])
    ensures Live(tree, KeyOf(p, tree[p]))
    ensures EndsWithSep(KeyOf(p, tree[p])) <==> tree[p].Dir?
  {
    ValidRelShape(p);
    var k := KeyOf(p, tree[p]);
    if tree[p].Dir? {
      assert k[..|k| - 1] == p;
    }
  }

  /** A live key is the key of the entry it names. */
  lemma LiveKey(tree: Tree, k: string)
    requires Live(tree, k)
    ensures Name(k) in tree && k == KeyOf(Name(k), tree[Name(k)])
  {
    if EndsWithSep(k) {
      assert k == k[..|k| - 1] + [Sep];
    }
  }

  // ---------------------------------------------------------------------------
  // The first pass: drop what vanished

  /** The keys of `order` whose liveness is `live`, in order. */
  function Filtered(order: seq<string>, tree: Tree, live: bool): (r: seq<string>)
    ensures forall k :: k in r <==> k in order && Live(tree, k) == live
    ensures NoDup(order) ==> NoDup(r)
  {
    if |order| == 0 then []
    else
      var rest := Filtered(order[1..], tree, live);
      assert forall k :: k in order <==> k == order[0] || k in order[1..];
      if Live(tree, order[0]) == live then [order[0]] + rest else rest
  }

  // ---------------------------------------------------------------------------
  // The second pass: walk the tree

  /** The state of the second pass: the snapshot so far and the keys reported. */
  datatype Pass = Pass(files: map<string, int>, order: seq<string>, changed: seq<string>)

  /** The keys of the walked entries, in walk order. */
  function Keys(tree: Tree, walk: seq<string>): seq<string>
    requires forall p :: p in walk ==> p in tree
  {
    if |walk| == 0 then [] else [KeyOf(walk[0], tree[walk[0]])] + Keys(tree, walk[1..])
  }

  lemma {:induction false} InKeys(tree: Tree, walk: seq<string>, k: string)
    requires Normal(tree) && forall p :: p in walk ==> p in tree
    ensures k in Keys(tree, walk) <==> Name(k) in walk && k == KeyOf(Name(k), tree[Name(k)])
  {
    if |walk| > 0 {
      InKeys(tree, walk[1..], k);
      KeyOfEntry(tree, walk[0]);
      assert forall p :: p in walk <==> p == walk[0] || p in walk[1..];
    }
  }

  /** One entry of the walk: a directory key is added once with time 0; a file
      key is seeded with 0 when new and reported when its time is newer. */
  function Visit(a: Pass, tree: Tree, p: string): (r: Pass)
    requires p in tree
  {
    match tree[p]
    case Dir =>
      var k := p + [Sep];
      if k in a.files then a else Pass(a.files[k := 0], a.order + [k], a.changed + [k])
    case File(m, _) =>
      var seeded := if p in a.files then a else Pass(a.files[p := 0], a.order + [p], a.changed);
      if m > seeded.files[p] then Pass(seeded.files[p := m], seeded.order, seeded.changed + [p])
      else seeded
  }

  lemma VisitEffect(a: Pass, tree: Tree, p: string)
    requires Normal(tree) && p in tree
    ensures var r, k := Visit(a, tree, p), KeyOf(p, tree[p]);
      && r.files.Keys == a.files.Keys + {k}
      && r.files[k] == Next(a.files, tree, k)
      && (forall j :: j in a.files && j != k ==> r.files[j] == a.files[j])
      && r.changed == a.changed + (if Fires(a.files, tree, k) then [k] else [])
      && r.order == a.order + (if k in a.files then [] else [k])
  {
    KeyOfEntry(tree, p);
  }

  function Scan(a: Pass, tree: Tree, walk: seq<string>): Pass
    requires forall p :: p in walk ==> p in tree
    decreases |walk|
  {
    if |walk| == 0 then a else Scan(Visit(a, tree, walk[0]), tree, walk[1..])
  }

  /** The walk keeps the snapshot listed and reports no key twice. */
  lemma {:induction false} ScanListed(a: Pass, tree: Tree, walk: seq<string>)
    requires Normal(tree) && NoDup(walk) && forall p :: p in walk ==> p in tree
    requires Listed(a.files, a.order) && NoDup(a.changed)
    requires forall k :: k in a.changed ==> k !in Keys(tree, walk)
    ensures Listed(Scan(a, tree, walk).files, Scan(a, tree, walk).order)
    ensures NoDup(Scan(a, tree, walk).changed)
    decreases |walk|
  {
    if |walk| > 0 {
      var p := walk[0];
      KeyOfEntry(tree, p);
      assert Keys(tree, walk) == [KeyOf(p, tree[p])] + Keys(tree, walk[1..]);
      WalkTail(tree, walk);
      VisitListed(a, tree, p);
      VisitEffect(a, tree, p);
      ScanListed(Visit(a, tree, p), tree, walk[1..]);
    }
  }

  /** The walk adds the walked keys and drops none. */
  lemma {:induction false} ScanKeys(a: Pass, tree: Tree, walk: seq<string>)
    requires Normal(tree) && forall p :: p in walk ==> p in tree
    ensures forall k :: k in Scan(a, tree, walk).files <==> k in a.files || k in Keys(tree, walk)
    decreases |walk|
  {
    if |walk| > 0 {
      var p := walk[0];
      VisitEffect(a, tree, p);
      ScanKeys(Visit(a, tree, p), tree, walk[1..]);
    }
  }

  /** A walked key gets its next time; a key the walk does not reach keeps its own. */
  lemma {:induction false} ScanTimes(a: Pass, tree: Tree, walk: seq<string>)
    requires Normal(tree) && NoDup(walk) && forall p :: p in walk ==> p in tree
    ensures var r, ks := Scan(a, tree, walk), Keys(tree, walk);
      && (forall k :: k in ks ==> k in r.files && r.files[k] == Next(a.files, tree, k))
      && (forall k :: k in a.files && k !in ks ==> k in r.files && r.files[k] == a.files[k])
    decreases |walk|
  {
    if |walk| > 0 {
      var p := walk[0];
      var b := Visit(a, tree, p);
      KeyOfEntry(tree, p);
      assert Keys(tree, walk) == [KeyOf(p, tree[p])] + Keys(tree, walk[1..]);
      WalkTail(tree, walk);
      VisitEffect(a, tree, p);
      VisitElsewhere(a, tree, p);
      ScanTimes(b, tree, walk[1..]);
    }
  }

  /** A key is reported when the walk reaches it and it fires. */
  lemma {:induction false} ScanReports(a: Pass, tree: Tree, walk: seq<string>)
    requires Normal(tree) && NoDup(walk) && forall p :: p in walk ==> p in tree
    ensures forall k :: k in Scan(a, tree, walk).changed <==>
      k in a.changed || (k in Keys(tree, walk) && Fires(a.files, tree, k))
    decreases |walk|
  {
    if |walk| > 0 {
      var p := walk[0];
      var b := Visit(a, tree, p);
      KeyOfEntry(tree, p);
      assert Keys(tree, walk) == [KeyOf(p, tree[p])] + Keys(tree, walk[1..]);
      WalkTail(tree, walk);
      VisitEffect(a, tree, p);
      VisitElsewhere(a, tree, p);
      ScanReports(b, tree, walk[1..]);
    }
  }

  /** A walk that meets no new key leaves the key order alone. */
  lemma {:induction false} ScanOrder(a: Pass, tree: Tree, walk: seq<string>)
    requires Normal(tree) && forall p :: p in walk ==> p in tree
    requires forall k :: k in Keys(tree, walk) ==> k in a.files
    ensures Scan(a, tree, walk).order == a.order
    decreases |walk|
  {
    if |walk| > 0 {
      var p := walk[0];
      assert Keys(tree, walk) == [KeyOf(p, tree[p])] + Keys(tree, walk[1..]);
      VisitEffect(a, tree, p);
      ScanOrder(Visit(a, tree, p), tree, walk[1..]);
    }
  }

  /** The rest of a walk holds no duplicate and not the key of its head. */
  lemma WalkTail(tree: Tree, walk: seq<string>)
    requires Normal(tree) && NoDup(walk) && |walk| > 0 && forall p :: p in walk ==> p in tree
    ensures NoDup(walk[1..])
    ensures KeyOf(walk[0], tree[walk[0]]) !in Keys(tree, walk[1..])
  {
    var p, rest := walk[0], walk[1..];
    KeyOfEntry(tree, p);
    InKeys(tree, rest, KeyOf(p, tree[p]));
    forall i, j | 0 <= i < j < |rest| ensures rest[i] != rest[j] {
      assert rest[i] == walk[i + 1] && rest[j] == walk[j + 1];
    }
  }

  /** A visit keeps the snapshot listed and reports no key twice. */
  lemma VisitListed(a: Pass, tree: Tree, p: string)
    requires Normal(tree) && p in tree
    requires Listed(a.files, a.order) && NoDup(a.changed)
    requires KeyOf(p, tree[p]) !in a.changed
    ensures Listed(Visit(a, tree, p).files, Visit(a, tree, p).order)
    ensures NoDup(Visit(a, tree, p).changed)
  {
    var b, k0 := Visit(a, tree, p), KeyOf(p, tree[p]);
    VisitEffect(a, tree, p);
    KeyOfEntry(tree, p);
    if k0 !in a.files {
      forall i, j | 0 <= i < j < |b.order| ensures b.order[i] != b.order[j] {
        if j == |a.order| {
          assert b.order[i] == a.order[i];
          assert a.order[i] in a.files;
        } else {
          assert b.order[i] == a.order[i] && b.order[j] == a.order[j];
        }
      }
      assert forall k :: k in b.order <==> k in a.order || k == k0;
    }
    if Fires(a.files, tree, k0) {
      forall i, j | 0 <= i < j < |b.changed| ensures b.changed[i] != b.changed[j] {
        if j == |a.changed| {
          assert b.changed[i] == a.changed[i];
        } else {
          assert b.changed[i] == a.changed[i] && b.changed[j] == a.changed[j];
        }
      }
    }
  }

  /** A visit does not change what the walk does with any other key. */
  lemma VisitElsewhere(a: Pass, tree: Tree, p: string)
    requires Normal(tree) && p in tree
    ensures forall k :: k != KeyOf(p, tree[p]) ==>
      Next(Visit(a, tree, p).files, tree, k) == Next(a.files, tree, k)
      && Fires(Visit(a, tree, p).files, tree, k) == Fires(a.files, tree, k)
  {
    VisitEffect(a, tree, p);
    var b := Visit(a, tree, p);
    forall k | k != KeyOf(p, tree[p]) ensures Prev(b.files, k) == Prev(a.files, k) {
    }
  }

  // ---------------------------------------------------------------------------
  // The diff

  /** What the first pass keeps: the live keys with their stored times. */
  function Survivors(w: Watched, tree: Tree): Pass {
    Pass(map k | k in w.files && Live(tree, k) :: w.files[k], Filtered(w.order, tree, true), [])
  }

  /** `changes`: drop every key that no longer names an entry of its kind,
      then walk the tree, adding new keys and raising stored file times; the
      dirty flag goes down.  `walk` is the order in which the tree walk yields
      the entries: each entry exactly once. */
  function Changes(w: Watched, tree: Tree, walk: seq<string>): (d: Diff)
    requires Valid(w) && Normal(tree)
    requires NoDup(walk) && forall p :: p in walk <==> p in tree
    ensures Valid(d.w) && !d.w.updated && d.w.notify == w.notify
    ensures forall k :: k in d.deleted <==> k in w.files && !Live(tree, k)
    ensures forall k :: k in d.w.files <==> Live(tree, k)
    ensures forall k :: k in d.w.files ==> d.w.files[k] == Next(w.files, tree, k)
    ensures forall k :: k in d.changed <==> Reported(w.files, tree, k)
    ensures NoDup(d.changed) && NoDup(d.deleted)
    ensures forall k :: k in d.changed ==> k !in d.deleted
    ensures (forall k :: k in w.files <==> Live(tree, k)) ==> d.w.order == w.order
  {
    var r := Scan(Survivors(w, tree), tree, walk);
    ChangesEffect(w, tree, walk);
    Diff(Watched(r.files, r.order, false, w.notify), r.changed, Filtered(w.order, tree, false))
  }

  lemma ChangesEffect(w: Watched, tree: Tree, walk: seq<string>)
    requires Valid(w) && Normal(tree)
    requires NoDup(walk) && forall p :: p in walk <==> p in tree
    ensures var r := Scan(Survivors(w, tree), tree, walk);
      && Listed(r.files, r.order) && NoDup(r.changed)
      && (forall k :: k in r.files <==> Live(tree, k))
      && (forall k :: k in r.files ==> r.files[k] == Next(w.files, tree, k))
      && (forall k :: k in r.changed <==> Reported(w.files, tree, k))
      && ((forall k :: k in w.files <==> Live(tree, k)) ==> r.order == w.order)
  {
    ScanListed(Survivors(w, tree), tree, walk);
    ChangesLive(w, tree, walk);
    ChangesTimes(w, tree, walk);
    ChangesReports(w, tree, walk);
    if (forall k :: k in w.files <==> Live(tree, k)) {
      ChangesOrder(w, tree, walk);
    }
  }

  /** The walked keys are exactly the live ones. */
  lemma WalkedLive(tree: Tree, walk: seq<string>)
    requires Normal(tree) && forall p :: p in walk <==> p in tree
    ensures forall k :: k in Keys(tree, walk) <==> Live(tree, k)
  {
    forall k ensures k in Keys(tree, walk) <==> Live(tree, k) {
      InKeys(tree, walk, k);
      if Live(tree, k) {
        LiveKey(tree, k);
      } else if k in Keys(tree, walk) {
        KeyOfEntry(tree, Name(k));
      }
    }
  }

  /** On a live key the survivors of the first pass store what the snapshot did. */
  lemma SurvivorsAgree(w: Watched, tree: Tree)
    ensures forall k :: Live(tree, k) ==>
      Next(Survivors(w, tree).files, tree, k) == Next(w.files, tree, k)
      && Fires(Survivors(w, tree).files, tree, k) == Fires(w.files, tree, k)
  {
    var a := Survivors(w, tree);
    forall k | Live(tree, k) ensures Prev(a.files, k) == Prev(w.files, k) {
    }
  }

  lemma ChangesLive(w: Watched, tree: Tree, walk: seq<string>)
    requires Valid(w) && Normal(tree)
    requires NoDup(walk) && forall p :: p in walk <==> p in tree
    ensures forall k :: k in Scan(Survivors(w, tree), tree, walk).files <==> Live(tree, k)
  {
    ScanKeys(Survivors(w, tree), tree, walk);
    WalkedLive(tree, walk);
  }

  lemma ChangesTimes(w: Watched, tree: Tree, walk: seq<string>)
    requires Valid(w) && Normal(tree)
    requires NoDup(walk) && forall p :: p in walk <==> p in tree
    ensures var r := Scan(Survivors(w, tree), tree, walk);
      forall k :: k in r.files ==> r.files[k] == Next(w.files, tree, k)
  {
    var a := Survivors(w, tree);
    ScanKeys(a, tree, walk);
    ScanTimes(a, tree, walk);
    WalkedLive(tree, walk);
    SurvivorsAgree(w, tree);
  }

  lemma ChangesReports(w: Watched, tree: Tree, walk: seq<string>)
    requires Valid(w) && Normal(tree)
    requires NoDup(walk) && forall p :: p in walk <==> p in tree
    ensures forall k :: k in Scan(Survivors(w, tree), tree, walk).changed <==> Reported(w.files, tree, k)
  {
    var a := Survivors(w, tree);
    ScanReports(a, tree, walk);
    WalkedLive(tree, walk);
    SurvivorsAgree(w, tree);
  }

  lemma ChangesOrder(w: Watched, tree: Tree, walk: seq<string>)
    requires Valid(w) && Normal(tree)
    requires NoDup(walk) && forall p :: p in walk <==> p in tree
    requires forall k :: k in w.files <==> Live(tree, k)
    ensures Scan(Survivors(w, tree), tree, walk).order == w.order
  {
    var a := Survivors(w, tree);
    FilteredAll(w.order, tree);
    WalkedLive(tree, walk);
    ScanOrder(a, tree, walk);
  }

  lemma {:induction false} FilteredAll(order: seq<string>, tree: Tree)
    requires forall k :: k in order ==> Live(tree, k)
    ensures Filtered(order, tree, true) == order
  {
    if |order| > 0 {
      assert order[0] in order;
      FilteredAll(order[1..], tree);
    }
  }

  // ---------------------------------------------------------------------------
  // Properties of the diff

  /** A second diff of an unchanged tree reports nothing and changes nothing. */
  lemma ChangesIdempotent(w: Watched, tree: Tree, walk: seq<string>)
    requires Valid(w) && Normal(tree)
    requires NoDup(walk) && forall p :: p in walk <==> p in tree
    ensures var d := Changes(w, tree, walk);
      var again := Changes(d.w, tree, walk);
      && (forall k :: k !in again.changed && k !in again.deleted)
      && again.w == d.w
  {
    var d := Changes(w, tree, walk);
    SettledSnapshot(w, d.w, tree);
    var again := Changes(d.w, tree, walk);
    assert again.w.files == d.w.files;
  }

  /** A snapshot the diff produced is a fixed point of the diff's step. */
  lemma SettledSnapshot(w: Watched, v: Watched, tree: Tree)
    requires forall k :: k in v.files <==> Live(tree, k)
    requires forall k :: k in v.files ==> v.files[k] == Next(w.files, tree, k)
    ensures forall k :: Live(tree, k) ==> !Fires(v.files, tree, k) && Next(v.files, tree, k) == v.files[k]
  {
  }

  /** The time stored for a key that survives the diff never goes down. */
  lemma StoredTimesNeverDecrease(w: Watched, tree: Tree, walk: seq<string>, k: string)
    requires Valid(w) && Normal(tree)
    requires NoDup(walk) && forall p :: p in walk <==> p in tree
    requires k in w.files && k in Changes(w, tree, walk).w.files
    ensures Changes(w, tree, walk).w.files[k] >= w.files[k]
  {
  }

  /** Events only raise the flag: the diff does not depend on them. */
  lemma EventsDoNotAlterDiff(w: Watched, tree: Tree, walk: seq<string>)
    requires Valid(w) && Normal(tree)
    requires NoDup(walk) && forall p :: p in walk <==> p in tree
    ensures Valid(OnAnyEvent(w).w)
    ensures Changes(OnAnyEvent(w).w, tree, walk) == Changes(w, tree, walk)
  {
  }

  /** A new file is seeded with time 0 before the comparison, so a new file
      whose time is not after the epoch is recorded but never reported. */
  lemma NewFileAtEpochUnreported(w: Watched, tree: Tree, walk: seq<string>, p: string)
    requires Valid(w) && Normal(tree)
    requires NoDup(walk) && forall q :: q in walk <==> q in tree
    requires p in tree && tree[p].File? && tree[p].mtime <= 0 && p !in w.files
    ensures p in Changes(w, tree, walk).w.files && p !in Changes(w, tree, walk).changed
  {
    KeyOfEntry(tree, p);
  }
}
