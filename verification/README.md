# gulpless core, modelled in Dafny

gulpless watches a source tree and keeps a destination tree built from it.
Handlers claim source files and name the outputs each one produces. The
reactor runs in batches and reconciles the destination with those claims. This
project models three sequential parts of that core, each as pure functions over
an abstract filesystem (a map from a relative path to `File(mtime, refs)` or
`Dir`):

- **The dependency graph of `TreeHandler`** (`gulpless/handlers.py`).
  - The `parents` map goes from a file to the timed set of files it references.
  - The `children` map is its inverse.
  - `rebuild_references` re-reads a file only when its time changed. It rejects
    references that leave the root or that meet the reject set, and it links
    each accepted parent.
  - `deleted` removes a file's edges.
  - `handles` answers that a file is unclaimed, nested or a root.
  - `build` walks up to the root ancestors, carrying the latest time, and
    decides which roots to rebuild.
- **The snapshot diff of `Proxy`** (`gulpless/proxy.py`). `changes` compares
  the stored `files` map with the current tree. It returns what was changed and
  what was deleted, and raises stored times. `on_any_event` only raises the
  dirty flag.
- **The reactor's output registry and batch step** (`gulpless/reactor.py`).
  - `_parents`, `_prepare_output` and `_clean_output` keep the destination
    folders and the `_outputs` registry in step.
  - `_batch_dest` removes unregistered entries (longest key first) and
    re-creates registered folders (shortest key first).
  - `_batch_src` cleans and re-asks the handlers for updated files (shortest
    first), and retires deleted files (longest first).
  - `_batch` runs the source side first on the first batch and last on later
    ones. Any exception stops the reactor.

Modules: `Paths` (POSIX path functions), `Fs` (the filesystem, faults and
outcomes), `LengthSort` (the stable `sorted(key=len)`), `Handlers`, `Rebuild`,
`Ancestry`, `Chains`, `TreeBuild`, `RefChecks` (the two reference checks of
`rebuild_references`, as written and as their error messages state them),
`Proxy`, `OutputTree` (the registry) and `Reactor`.

An exception that escapes a method keeps every change made before it. So a
faulting step returns an `Outcome` that holds both the partial state and the
fault. A parent set is a sequence without repeats; the walk's dictionary and
the snapshot keep their keys in insertion order, as Python's dicts do.

Two behaviours of the code that the model keeps as written:

- **A two-file reference cycle met in one rebuild.** When `a` and `b` reference
  each other and one rebuild scans both, the scan of `b` finds `a` in the
  reject set and logs a circular reference. `b` keeps the empty parent set it
  had started, so it becomes a root and claims its outputs
  (`Rebuild.CycleLeavesRoot`). When the two edges are recorded by two separate
  rebuilds, nothing is logged and the cycle is stored (see Findings).
- **`TreeHandler.handles` for a file it does not take.** Its docstring
  (`gulpless/handlers.py:141-148`) asks for an empty list; the code returns
  `None` (`Handlers.TreeHandles`).

## Model

| member | source | states |
|---|---|---|
| Handlers.Outputs | gulpless/handlers.py:30-31 | one output per suffix, in suffix order, each the path with that suffix appended |
| Handlers.Handles | gulpless/handlers.py:42-46 | unclaimed exactly when the pattern test rejects the path, otherwise exactly the path's outputs |
| Handlers.Empty | gulpless/handlers.py:83-84 | the fresh graph's two maps are inverses of each other |
| Handlers.Detach | gulpless/handlers.py:202-205 | succeeds iff every old parent has a child set holding the file; then the file is in none of them, emptied sets are gone, every other child edge stays, and only KeyError escapes |
| Handlers.Deleted | gulpless/handlers.py:198-206 | an unknown file changes nothing; otherwise the file's parent set and its child edges go, every other file keeps its edges, and on inverse maps it never raises |
| Handlers.Collect | gulpless/handlers.py:112-127 | the parent set is exactly the targets accepted before the first rejected reference, without repeats; an error is logged iff some reference leaves the root or meets the reject set |
| Handlers.Resolve | gulpless/handlers.py:86-139 | a file whose stored time matches is a cache hit that changes nothing; the reject set only grows and every rejected readable file ends with a current parent set; escaping and circular references are logged, never raised |
| Handlers.Link | gulpless/handlers.py:129-137 | the reject set only grows, every rejected readable file ends with a current parent set, and only KeyError stops the loop |
| Handlers.AddChild | gulpless/handlers.py:131-133 | exactly one child edge is added and the parent map is untouched |
| Handlers.RebuildReferences | gulpless/handlers.py:86-92 | a fresh reject set holding the file; only KeyError escapes |
| Handlers.TreeHandles | gulpless/handlers.py:149-169 | unclaimed when neither the patterns nor a referencing file take the path, or when the rebuild leaves no parent set; otherwise `[]` iff the file has parents (or there are no suffixes), else its outputs; the patterns and suffixes are kept, and when the path is taken the graph, the log and the fault are those of `rebuild_references` on it |
| Paths.AcceptedReferenceInside | gulpless/handlers.py:116-122 | a target that passes the `startswith("..")` test is the root itself, a relative path inside the tree, or a rooted path, and it is rooted iff the reference is |
| Paths.DirnameOfValid | gulpless/reactor.py:60-62 | the directory of a relative path is everything before its last separator, or empty when there is none |
| Rebuild.ResolveFrame | gulpless/handlers.py:90-92 | the parent sets of files already in the reject set, and child edges naming them, are never touched by a deeper rebuild |
| Rebuild.RebuildKeepsInverse | gulpless/handlers.py:86-139 | on inverse maps the rebuild never stops; the maps stay inverse at every file except those whose scan logged an escaping or circular reference |
| Rebuild.CleanRebuildLinked | gulpless/handlers.py:129-137 | when no reference is rejected, every parent of every file has it as a child and no child set is empty |
| Rebuild.RebuildKept | gulpless/handlers.py:108-137 | every child edge keeps its parent edge, even when a KeyError stops the rebuild |
| Rebuild.CycleLeavesRoot | gulpless/handlers.py:111-126 | with `a` and `b` referencing each other and both scanned by one rebuild of `a`, one circular reference is logged and `b` is left a root that claims its own output |
| Rebuild.TreeHandlesKept | gulpless/handlers.py:149-169 | `handles` keeps every child edge's parent edge, and on inverse maps it never raises |
| Rebuild.SharedRejectFlagsFork | gulpless/handlers.py:123-137 | with `d` referencing `b` and `c`, which both reference `a`, the shared reject set logs `c`'s reference as circular and `c` becomes a root without a child edge at `a` |
| Ancestry.Start | gulpless/handlers.py:174 | the walk starts with one key, the changed file, at its recorded time |
| Ancestry.Put | gulpless/handlers.py:181-182 | a new key goes last and an existing key keeps its place; no other time changes; without `merge` the key takes the new time, with it a time no earlier than the old or the new one |
| Ancestry.Pop | gulpless/handlers.py:179 | exactly the popped key leaves the dictionary |
| Ancestry.FirstNested | gulpless/handlers.py:177-178 | finds a pending key that has parents iff one exists |
| Ancestry.Spread | gulpless/handlers.py:180-182 | succeeds iff every parent has a recorded set; each parent ends with the later of the popped time and its own, and other keys keep their times |
| Ancestry.Walk | gulpless/handlers.py:176-185 | on an acyclic graph the walk ends, every key left is a recorded root, and only KeyError escapes |
| Chains.WalkEndsAtReachedRoots | gulpless/handlers.py:176-185 | every key the walk ends with is a root that some parent chain from the file reaches, carrying that chain's latest time |
| Chains.WalkFindsEveryRoot | gulpless/handlers.py:176-185 | every root that a parent chain from the file reaches is among the keys the walk ends with |
| Chains.MergedWalkKeepsLatest | gulpless/handlers.py:180-182 | keeping the larger pending time, each root's time is at least the latest time of every chain reaching it |
| Chains.DiamondOverwrites | gulpless/handlers.py:181-182 | as written, in a diamond whose changed file yields `b` before `c`, the root ends with time 1 although a chain through it has time 5 |
| Chains.DiamondMerged | gulpless/handlers.py:181-182 | keeping the larger time, the same root ends with time 5 |
| TreeBuild.Stale | gulpless/handlers.py:192-196 | with every output present, rebuild iff some output is older than the carried time; a missing output raises |
| TreeBuild.Rebuilds | gulpless/handlers.py:187-196 | only roots with an output older than their carried time are rebuilt, and with every output present exactly those are |
| TreeBuild.Build | gulpless/handlers.py:171-196 | with `merge` false this is the build as written: an unrecorded file raises KeyError, and only KeyError or a missing output stops the build |
| TreeBuild.BuildOnlyDue | gulpless/handlers.py:174-196 | for the build as written and the corrected one alike, every rebuilt root is reached from the file and has an output older than some chain reaching it |
| TreeBuild.BuildEveryDue | gulpless/handlers.py:174-196 | corrected build (`merge` true): every reached root with an output older than some chain reaching it is rebuilt |
| TreeBuild.SingleOutput | gulpless/handlers.py:187-196 | a root with one output written at time m is rebuilt iff m is less than its carried time |
| TreeBuild.DiamondMissedRebuild | gulpless/handlers.py:181-182 | the build as written (`merge` false) does not rebuild the diamond's root, although its output is older than a changed file below it |
| TreeBuild.DiamondRebuilt | gulpless/handlers.py:181-182 | corrected build (`merge` true): keeping the larger time, the build rebuilds that root |
| RefChecks.AbsoluteReferenceAccepted | gulpless/handlers.py:116-127 | as written, a rooted reference `/p` from a file at the top joins to `/p`, passes the escape test and is recorded as a parent |
| RefChecks.InsideTargets | gulpless/handlers.py:117-121 | the escape test as its message states it accepts a reference iff its target does not climb out with `..` and the reference is not rooted; every accepted target is the root or a relative path inside the tree |
| RefChecks.AbsoluteReferenceRefused | gulpless/handlers.py:117-121 | that test refuses `/p` |
| RefChecks.FirstRebuild | gulpless/handlers.py:86-137 | rebuilding `a`, which references `b`, records `a` with parent `b` and `b` as a root, and logs nothing |
| RefChecks.SecondRebuild | gulpless/handlers.py:101-137 | after `b` is rewritten to reference `a`, rebuilding `b` meets `a` as a cache hit, records `a` as `b`'s parent and logs nothing |
| RefChecks.CacheHitClosesCycle | gulpless/handlers.py:101-126 | as written, those two rebuilds log nothing and leave a graph with a cycle |
| RefChecks.ClosedWalkReturns | gulpless/handlers.py:174-185 | on that graph the walk from `b` comes back to `{b: 2}` after two steps, so the loop never ends |
| RefChecks.CheckedLink | gulpless/handlers.py:123-127 | the circular-reference test as its message states it refuses a parent iff the parent already reaches the file; an accepted edge keeps an acyclic graph acyclic |
| RefChecks.AddParentClosesCycle | gulpless/handlers.py:127 | adding a parent that already reaches the file makes the graph cyclic |
| RefChecks.CheckedLinkRefusesCycle | gulpless/handlers.py:123-127 | the stated test refuses the edge that the second rebuild records |
| Proxy.Start | gulpless/proxy.py:16-17 | a new detector has an empty snapshot and is dirty |
| Proxy.OnAnyEvent | gulpless/proxy.py:19-23 | an event raises the flag, runs the callback iff one was given, and leaves the snapshot alone |
| Proxy.Filtered | gulpless/proxy.py:28-34 | picks exactly the keys that still name an entry of their kind, or exactly those that do not, without repeats |
| Proxy.VisitEffect | gulpless/proxy.py:38-60 | one visited entry adds its key, sets its time to the larger of stored and current, and reports it iff it is a new folder or a newer file |
| Proxy.ScanReports | gulpless/proxy.py:37-60 | the walk reports exactly the walked keys that fire against the snapshot it started from |
| Proxy.Changes | gulpless/proxy.py:25-63 | deleted iff a stored key no longer names an entry of its kind; stored iff a live key; times are the larger of stored and current; changed iff a new folder or a newer file; the two lists are disjoint and repeat nothing; the flag goes down |
| Proxy.ChangesIdempotent | gulpless/proxy.py:28-60 | a second diff of the same tree reports nothing and changes nothing |
| Proxy.StoredTimesNeverDecrease | gulpless/proxy.py:57-59 | a stored time never goes down |
| Proxy.EventsDoNotAlterDiff | gulpless/proxy.py:19-23 | an event before a diff changes nothing the diff returns |
| Proxy.NewFileAtEpochUnreported | gulpless/proxy.py:52-60 | a new file whose time is not above 0 is stored but not reported |
| OutputTree.Parents | gulpless/reactor.py:58-65 | strict prefixes of the path, nearest first, never empty or the root |
| OutputTree.ParentsAncestors | gulpless/reactor.py:58-65 | for a relative path, exactly its containing directories, each again a relative path |
| OutputTree.ParentsOfDirKey | gulpless/reactor.py:59-60 | a folder key has the same parents as the folder's path |
| OutputTree.MakeSegment | gulpless/reactor.py:69-78 | fails iff the segment is a registered non-directory; otherwise the segment is a directory and its folder key is registered |
| OutputTree.PrepareOutput | gulpless/reactor.py:67-79 | succeeds iff no ancestor is a registered non-directory; then every ancestor is a directory with its folder key registered and the path is registered; nothing outside the ancestors changes |
| OutputTree.PrepareIdempotent | gulpless/reactor.py:67-79 | preparing the same output twice changes nothing the second time |
| OutputTree.Prune | gulpless/reactor.py:87-96 | removes only emptied folders, deepest first, unregistering each, and stops at the first that is not empty |
| OutputTree.CleanOutput | gulpless/reactor.py:81-96 | the output is gone; only emptied ancestor folders are removed, and each removed one is unregistered; the path's own key stays; nothing else changes |
| OutputTree.CleanUndoesPrepare | gulpless/reactor.py:67-96 | cleaning a freshly prepared output restores the tree, and the registry keeps only the output's own key beyond what it held before |
| LengthSort.SortByLength | gulpless/reactor.py:99 | a permutation ordered by length, stable among keys of equal length |
| Reactor.CleanClaims | gulpless/reactor.py:120-122 | every previously claimed output is gone and the registry only shrinks |
| Reactor.CleanAll | gulpless/reactor.py:148-149 | every listed output is gone; entries and folder keys are only removed |
| Reactor.PrepareAll | gulpless/reactor.py:132-133 | every announced output is registered with its folders in place, and outputs ready before stay ready |
| Reactor.Ask | gulpless/reactor.py:127-133 | the claims are exactly the answers of the handlers that take the file, in handler order, with their outputs prepared |
| Reactor.Notify | gulpless/reactor.py:135-138 | each claiming handler built the file without raising and is left in the state its `changed` call returned; no other handler changes |
| Reactor.Retire | gulpless/reactor.py:145-149 | each claiming handler was told of the deletion without raising and is left in the state its `deleted` call returned; no other handler changes; every claimed output is gone |
| Reactor.SrcUpdate | gulpless/reactor.py:116-141 | the file keeps an entry iff some handler takes it, with exactly those handlers' answers, registered; every handler is left in the state its `handles` call returned, and each claiming one then in the state its `changed` call returned; other files are untouched |
| Reactor.SrcDelete | gulpless/reactor.py:144-150 | the file is forgotten; each claiming handler is left in the state its `deleted` call returned and the others keep theirs; every output it claimed is gone; the registry only shrinks |
| Reactor.UpdateConsistent | gulpless/reactor.py:115-141 | a completed update keeps every entry non-empty, ordered by handler and registered |
| Reactor.UpdateAll | gulpless/reactor.py:115-141 | each listed file ends with an entry iff some handler takes it, holding non-empty claims ordered by handler, registered, each its handler's answer; folder keys and unlisted files are untouched; file keys of `_outputs` are never removed |
| Reactor.DeleteAll | gulpless/reactor.py:143-150 | every listed file is forgotten and every output its claims announced is gone; handlers with no claim on a listed file keep their state; other entries stay; the registry only shrinks |
| Reactor.BatchSrc | gulpless/reactor.py:114-150 | each changed file not also deleted ends recorded as `UpdateAll` states; deleted files are forgotten, and every output claimed by a deleted file that was not also changed is gone; untouched outside the keys given; consistency is kept |
| Reactor.Sweep | gulpless/reactor.py:99-106 | removes only unregistered entries named by the keys; when it completes none of them exists |
| Reactor.SweepSpares | gulpless/reactor.py:99-106 | a registered file output is never swept |
| Reactor.Restore | gulpless/reactor.py:108-112 | adds only directories named by registered folder keys; when it completes every such key is a directory |
| Reactor.BatchDest | gulpless/reactor.py:98-112 | every entry that went was named by an unregistered key; every entry added is a re-created registered folder; registered files stay; `_outputs` is unchanged |
| Reactor.SweepLongestFirst | gulpless/reactor.py:99-106 | longest first, an unregistered folder's contents go before the folder, so the sweep completes |
| Reactor.RestoreShortestFirst | gulpless/reactor.py:108-112 | shortest first, a folder is re-created after the folder holding it, so the restore completes |
| Reactor.RegisterBeforeSweep | gulpless/reactor.py:154-159 | the sweep removes a file nobody registered, and spares it once it is registered |
| Reactor.Batch | gulpless/reactor.py:152-171 | a fault stops the reactor and keeps the first-batch flag; a completed first batch clears the flag and stops iff run once; deleted files are forgotten and consistency is kept |

## Left out

- `gulpless/collector.py`, the threads, and `Reactor.start`/`stop`/`join`/`run`: these are concurrency and timing. The model keeps only what `stop()` does to the `running` flag.
- `pathtools.patterns.match_path` is a function the handler carries (`Handler.matches`), not modelled further.
- The line regex is not modelled. A file's content is given as the list of reference targets its matching lines hold.
- Real `os` calls act on the abstract tree: `getmtime`, `exists`, `isdir`, `unlink`, `mkdir`, `rmdir`, `open`. The order in which `os.walk` yields entries is a parameter of the diff.
- Modification times are integers, not floats.
- `normcase` is the identity and the separator is `/` (POSIX).
- Python 3 exception semantics are assumed. `IOError` is `OSError`, so an unreadable or vanished file is logged by `rebuild_references` rather than raised.
- The build step is opaque: `Handler.build`, `_build` and `shutil.copy` (`gulpless/handlers.py:51-64`), and `handler.changed` at `gulpless/reactor.py:138`. `changed` is a function of the handler's state. `gulpless/handlers.py` defines no `changed`, and `gulpless/handlers.py:57` passes `self` twice to `_build`.
- `Handler.deleted` is the handler interface's `deleted` function. The model treats handlers only through that interface (`handles`, `deleted`, `changed`).
- `gulpless/helpers.py`, the example build script, `__init__.py` and packaging are not part of this model.
- Ancestry.Walk: requires an acyclic graph (also TreeBuild.Build), because on a cycle the source's `while True` loop never ends. The rebuild as written can record such a cycle (RefChecks.CacheHitClosesCycle), and the walk then returns to its start (RefChecks.ClosedWalkReturns).
- TreeBuild.BuildEveryDue: proved of the corrected build only. The build as written misses a due root in a diamond (TreeBuild.DiamondMissedRebuild).
- Python's sets iterate in hash order, which depends on the strings' hashes. The model fixes the order of a parent set as insertion order. Rebuild.SharedRejectFlagsFork and Chains.DiamondOverwrites (so also TreeBuild.DiamondMissedRebuild) depend on that order: the diamond's time is overwritten only when `{b, c}` yields `b` first.
- Reactor.Notify: states the `changed` calls for claims in increasing handler order. Every entry the reactor records is in that order (`Consistent`). Reactor.Retire and Reactor.SrcDelete state the `deleted` calls under the same condition.
- Reactor.UpdateAll: states each file's claims against some states of the handlers, namely those they had at that file's turn, without naming them. Reactor.SrcUpdate names them for one file. Reactor.BatchSrc states the same.
- Reactor.DeleteAll: states which handlers keep their state, but not the `deleted` call that each claiming handler receives. Reactor.SrcDelete states that per file.
- Reactor.BatchSrc: states the removed outputs only for deleted keys the update loop left alone. A key both changed and deleted is cleaned against the claims the update loop gave it, which the contract does not name.
- OutputTree.Parents: requires that the path does not start with `//`. There `dirname` keeps returning `//`, which the stop test does not catch, so the source's generator never ends. Every relative output path meets this requirement.
- OutputTree.PrepareOutput: output paths are typed as normalised relative paths. Joining an absolute path would leave the destination tree.
- Reactor.SrcUpdate: requires every claim to name a handler of the list, which the claims the reactor records always do.
- Reactor.SrcUpdate: does not state that the previous outputs are absent afterwards, because the handlers' new claims may prepare the same paths again. Reactor.CleanClaims states it for the cleaning step.
- Reactor.Batch: does not state the order of the two sides. Reactor.RegisterBeforeSweep shows why the first batch runs the source side first.
- TreeBuild.Older: a directory output never counts as older than the carried time; directory times are not modelled.
- Proxy.Changes: folder times are not read, as in the source.
- `_outputs` file keys are never removed, as in the source. The model states this (`FileKeysKept`) rather than changing it.

## Findings

| source | as written | input that shows it | evidently intended | confidence | as-written member | corrected member |
|---|---|---|---|---|---|---|
| gulpless/handlers.py:181-182 | `paths[parent] = max(mtime, self.parents[parent].updated)` overwrites a time already pending for `parent` | `d` references `b` (time 5) and `c` (time 1); both reference root `a` (time 0); `a`'s output was written at time 3. The walk from `d` puts `a` at 5, then overwrites it with 1, so `a` is not rebuilt | keep the larger of the pending time and the new one, so each root carries the latest time of every chain reaching it | not executed; high | TreeBuild.DiamondMissedRebuild | TreeBuild.DiamondRebuilt |
| gulpless/handlers.py:116-121 | the only escape test is `relative.startswith("..")` | file `x` at the top references `/p`. `join("", "/p")` is `/p`, which does not start with `..`, so `/p` is recorded as a parent, and lines 95-97 then open it outside the source folder | refuse a rooted target too, as the error "outside of watched folder" says | not executed; high | RefChecks.AbsoluteReferenceAccepted | RefChecks.InsideTargets |
| gulpless/handlers.py:101-126 | the circular-reference test looks only at the files visited by the current rebuild, and a cache hit returns before its references are read | `a` (time 1) references `b` (time 1, no references); rebuild `a`. `b` is then rewritten at time 2 to reference `a`; rebuild `b`. `a` is a cache hit, so `a` is recorded as `b`'s parent and nothing is logged. Now `a` and `b` are each other's parent, and `build` loops forever at lines 176-185 | refuse a parent that already reaches the file, as the "Circular reference" error says | not executed; high | RefChecks.CacheHitClosesCycle | RefChecks.CheckedLink |

`TreeBuild.Build` takes the walk as its `merge` parameter. With `merge` false
it is the code as written; with `merge` true it keeps the larger time.
`Chains.DiamondOverwrites` shows the overwritten time on the walk itself, and
`Chains.MergedWalkKeepsLatest` proves the corrected walk for every acyclic
graph.

The rebuild in `Handlers` keeps both reference checks as written.
`RefChecks` states each corrected check beside it:

- `RefChecks.InsideTargets` shows that the stated escape test keeps every
  target inside the tree.
- `RefChecks.CheckedLink` shows that the stated circular-reference test keeps
  the graph acyclic, which the walk of `build` needs in order to end.

These source behaviours are kept as written and shown by lemmas:

- The reject set is shared across sibling branches, so a diamond of
  references is logged as circular (`Rebuild.SharedRejectFlagsFork`).
- A file whose scan fails keeps a partial parent set without child edges
  (`Rebuild.RebuildKeepsInverse` excepts exactly those files).
