/** The filesystem as the modelled code reaches it through `os`: a finite map
    from a relative path to a file or a directory, and one function per `os`
    call the code makes.  A failing call returns the exception it raises
    instead of a new tree. */
module Fs {
  import opened Paths

  datatype Option<T> = None | Some(value: T)

  /** The exceptions that escape the modelled methods.  None of them is caught
      below the reactor's batch, which logs it and stops the run. */
  datatype Fault =
    | MissingKey(key: string)        // KeyError from a dict or a set
    | NotFound(path: string)         // FileNotFoundError
    | AlreadyExists(path: string)    // FileExistsError from mkdir
    | IsADirectory(path: string)     // unlink of a directory
    | NotADirectory(path: string)    // rmdir of a file, or a file used as a directory
    | NotEmpty(path: string)         // rmdir of a directory that has entries
    | Conflict(path: string)         // ValueError: a path both a folder and a file
    | HandlerFault                   // an exception raised inside a handler's own step

  /** The state a step leaves behind and the exception that cut it short, if
      any: an escaping exception keeps every change made before it. */
  datatype Outcome<T> = Outcome(state: T, fault: Option<Fault>) {
    predicate Ok() {
      fault.None?
    }
  }

  function Done<T>(state: T): Outcome<T> {
    Outcome(state, None)
  }

  function Raise<T>(state: T, f: Fault): Outcome<T> {
    Outcome(state, Some(f))
  }

  /** A file carries its modification time and the reference directives its
      text holds (the targets already extracted from the lines that match). */
  datatype Entry = File(mtime: int, refs: seq<string>) | Dir

  type Tree = map<string, Entry>

  /** `max` of two modification times. */
  function Max(a: int, b: int): int {
    if a >= b then a else b
  }

  /** Every key is a normalised relative path, as a walk of a real tree yields. */
  predicate Normal(t: Tree) {
    forall p :: p in t ==> ValidRel(p)
  }

  /** The entry a path names: a trailing separator is not part of the name. */
  function Name(p: string): string {
    if EndsWithSep(p) then p[..|p| - 1] else p
  }

  /** What a `stat` of `p` under the root finds; a trailing separator only
      resolves through a directory. */
  function Lookup(t: Tree, p: string): (r: Option<Entry>)
    ensures r.Some? ==> Name(p) in t && r.value == t[Name(p)]
    ensures r.Some? && r.value.File? ==> !EndsWithSep(p) && p in t
  {
    var n := Name(p);
    if n !in t then None
    else if EndsWithSep(p) && !t[n].Dir? then None
    else Some(t[n])
  }

  /** `os.path.exists` */
  predicate Exists(t: Tree, p: string) {
    Lookup(t, p).Some?
  }

  /** `os.path.isdir` */
  predicate IsDir(t: Tree, p: string) {
    Lookup(t, p) == Some(Dir)
  }

  /** Whether some entry lies below directory `n`. */
  predicate HasEntries(t: Tree, n: string) {
    exists q :: q in t && StartsWith(q, n + [Sep])
  }

  /** Why a path that names no entry fails: a file where a directory was
      expected (a trailing separator after a file's name), or nothing at all. */
  function Unresolved(t: Tree, p: string): (f: Fault)
    ensures f == NotADirectory(p) <==> Name(p) in t && !t[Name(p)].Dir?
    ensures f.NotADirectory? || f == NotFound(p)
  {
    if Name(p) in t && !t[Name(p)].Dir? then NotADirectory(p) else NotFound(p)
  }

  /** `os.unlink`: removes a file; a directory or a missing path raises. */
  function Unlink(t: Tree, p: string): (r: Outcome<Tree>)
    ensures r.Ok() <==> Exists(t, p) && !IsDir(t, p)
    ensures r.Ok() ==> r.state == t - {Name(p)}
    ensures !r.Ok() ==> r.state == t
  {
    match Lookup(t, p)
    case None => Raise(t, Unresolved(t, p))
    case Some(Dir) => Raise(t, IsADirectory(p))
    case Some(File(_, _)) => Done(t - {Name(p)})
  }

  /** Whether the directory that would hold `n` exists (the root always does). */
  predicate ParentReady(t: Tree, n: string) {
    var up := Dirname(n);
    up == "" || (up in t && t[up].Dir?)
  }

  /** `os.mkdir`: creates an empty directory under an existing one; a file in
      the holder's place raises NotADirectory, a missing holder NotFound. */
  function Mkdir(t: Tree, p: string): (r: Outcome<Tree>)
    ensures r.Ok() <==> Name(p) !in t && ParentReady(t, Name(p))
    ensures r.Ok() ==> r.state == t[Name(p) := Dir]
    ensures !r.Ok() ==> r.state == t
    ensures r.fault == Some(NotADirectory(p)) <==>
      Name(p) !in t && Dirname(Name(p)) != "" && Dirname(Name(p)) in t && !t[Dirname(Name(p))].Dir?
  {
    var n := Name(p);
    if n in t then Raise(t, AlreadyExists(p))
    else if !ParentReady(t, n) then
      Raise(t, if Dirname(n) in t then NotADirectory(p) else NotFound(p))
    else Done(t[n := Dir])
  }

  /** `os.rmdir`: removes an empty directory; anything else raises. */
  function Rmdir(t: Tree, p: string): (r: Outcome<Tree>)
    ensures r.Ok() <==> IsDir(t, p) && !HasEntries(t, Name(p))
    ensures r.Ok() ==> r.state == t - {Name(p)}
    ensures !r.Ok() ==> r.state == t
  {
    match Lookup(t, p)
    case None => Raise(t, Unresolved(t, p))
    case Some(File(_, _)) => Raise(t, NotADirectory(p))
    case Some(Dir) =>
      if HasEntries(t, Name(p)) then Raise(t, NotEmpty(p)) else Done(t - {Name(p)})
  }
}
