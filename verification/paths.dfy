/** Path strings as the POSIX `os.path` functions treat them.  The separator is
    '/', and `os.path.normcase` is the identity, so it does not appear. */
module Paths {

  const Sep: char := '/'

  predicate StartsWith(s: string, prefix: string) {
    |prefix| <= |s| && s[..|prefix|] == prefix
  }

  predicate EndsWithSep(s: string) {
    |s| > 0 && s[|s| - 1] == Sep
  }

  predicate NoDup<T(==)>(s: seq<T>) {
    forall i, j :: 0 <= i < j < |s| ==> s[i] != s[j]
  }

  lemma AppendNoDup<T>(s: seq<T>, x: T)
    requires NoDup(s) && x !in s
    ensures NoDup(s + [x])
  {
    forall i, j | 0 <= i < j < |s + [x]| ensures (s + [x])[i] != (s + [x])[j] {
      if j == |s| {
        assert (s + [x])[i] == s[i];
        assert s[i] in s;
      } else {
        assert (s + [x])[i] == s[i] && (s + [x])[j] == s[j];
      }
    }
  }

  /** `s.split(Sep)`: the pieces between separators, empty pieces included. */
  function Split(s: string): (r: seq<string>)
    ensures |r| > 0
    ensures forall c :: c in r ==> Sep !in c
  {
    if |s| == 0 then [""]
    else
      var rest := Split(s[1..]);
      if s[0] == Sep then [""] + rest
      else [[s[0]] + rest[0]] + rest[1..]
  }

  /** `Sep.join(cs)` */
  function JoinSep(cs: seq<string>): string {
    if |cs| == 0 then ""
    else if |cs| == 1 then cs[0]
    else cs[0] + [Sep] + JoinSep(cs[1..])
  }

  /** A normalised relative path, as `os.path.relpath` yields for an entry of a
      walked tree: one or more components, none of them empty, "." or "..". */
  predicate ValidRel(p: string) {
    forall c :: c in Split(p) ==> c != "" && c != "." && c != ".."
  }

  /** A one-component path, the witness of the path types. */
  function Single(): (p: string)
    ensures ValidRel(p) && ValidKey(p)
  {
    SplitNoSep("a");
    "a"
  }

  type RelPath = p: string | ValidRel(p) witness Single()

  /** A snapshot key: a relative path, with a trailing separator for a directory. */
  predicate ValidKey(p: string) {
    ValidRel(p) || (EndsWithSep(p) && ValidRel(p[..|p| - 1]))
  }

  type Key = p: string | ValidKey(p) witness Single()

  /** One past the last separator of `p`, or 0 when there is none
      (`p.rfind(Sep) + 1`). */
  function HeadLength(p: string): (n: nat)
    ensures n <= |p|
    ensures n > 0 ==> p[n - 1] == Sep
    ensures forall j :: n <= j < |p| ==> p[j] != Sep
  {
    if |p| == 0 then 0
    else if p[|p| - 1] == Sep then |p|
    else HeadLength(p[..|p| - 1])
  }

  predicate AllSep(s: string) {
    forall i :: 0 <= i < |s| ==> s[i] == Sep
  }

  /** `s.rstrip(Sep)` */
  function RStripSep(s: string): (r: string)
    ensures |r| <= |s| && r == s[..|r|]
    ensures !EndsWithSep(r)
    ensures forall j :: |r| <= j < |s| ==> s[j] == Sep
  {
    if EndsWithSep(s) then RStripSep(s[..|s| - 1]) else s
  }

  /** `os.path.dirname`: everything before the last separator, trailing
      separators removed unless the head is nothing but separators. */
  function Dirname(p: string): (d: string)
    ensures |d| <= |p| && d == p[..|d|]
  {
    var head := p[..HeadLength(p)];
    if |head| > 0 && !AllSep(head) then RStripSep(head) else head
  }

  /** `os.path.join(a, b)` for two components. */
  function Join(a: string, b: string): string {
    if StartsWith(b, [Sep]) then b
    else if a == "" || EndsWithSep(a) then a + b
    else a + [Sep] + b
  }

  /** The component loop of `os.path.normpath`: drop empty and "." components,
      let ".." cancel the previous component, keep a leading ".." run of a
      relative path and drop ".." at the root of an absolute one. */
  function Collapse(cs: seq<string>, acc: seq<string>, rooted: bool): seq<string>
    decreases |cs|
  {
    if |cs| == 0 then acc
    else
      var c := cs[0];
      if c == "" || c == "." then Collapse(cs[1..], acc, rooted)
      else if c != ".." || (!rooted && |acc| == 0) || (|acc| > 0 && acc[|acc| - 1] == "..") then
        Collapse(cs[1..], acc + [c], rooted)
      else if |acc| > 0 then Collapse(cs[1..], acc[..|acc| - 1], rooted)
      else Collapse(cs[1..], acc, rooted)
  }

  function Repeat(c: char, n: nat): (r: string)
    ensures |r| == n
  {
    if n == 0 then "" else [c] + Repeat(c, n - 1)
  }

  /** `os.path.normpath` (posixpath): exactly two leading separators are kept,
      one or three and more collapse to one, and an empty result is ".". */
  function NormPath(path: string): string {
    if path == "" then "."
    else
      var initial: nat :=
        if !StartsWith(path, [Sep]) then 0
        else if StartsWith(path, [Sep, Sep]) && !StartsWith(path, [Sep, Sep, Sep]) then 2
        else 1;
      var joined := Repeat(Sep, initial) + JoinSep(Collapse(Split(path), [], initial > 0));
      if joined == "" then "." else joined
  }

  // ---------------------------------------------------------------------------
  // Split and JoinSep

  lemma {:induction false} SplitConcat(a: string, b: string)
    ensures Split(a + [Sep] + b) == Split(a) + Split(b)
    decreases |a|
  {
    if |a| == 0 {
      assert a + [Sep] + b == [Sep] + b;
      assert ([Sep] + b)[1..] == b;
    } else {
      var s := a + [Sep] + b;
      assert s[1..] == a[1..] + [Sep] + b;
      SplitConcat(a[1..], b);
    }
  }

  lemma {:induction false} SplitNoSep(a: string)
    requires Sep !in a
    ensures Split(a) == [a]
    decreases |a|
  {
    if |a| > 0 {
      assert Sep !in a[1..] by {
        forall k | 0 <= k < |a[1..]| ensures a[1..][k] != Sep {
          assert a[1..][k] == a[k + 1];
        }
      }
      SplitNoSep(a[1..]);
      assert [a[0]] + a[1..] == a;
    }
  }

  /** Splitting undoes joining, for components free of separators. */
  lemma {:induction false} SplitJoinSep(cs: seq<string>)
    requires |cs| > 0
    requires forall c :: c in cs ==> Sep !in c
    ensures Split(JoinSep(cs)) == cs
    decreases |cs|
  {
    if |cs| == 1 {
      assert cs[0] in cs;
      SplitNoSep(cs[0]);
    } else {
      assert cs[0] in cs;
      SplitNoSep(cs[0]);
      assert forall c :: c in cs[1..] ==> c in cs;
      SplitJoinSep(cs[1..]);
      SplitConcat(cs[0], JoinSep(cs[1..]));
      assert [cs[0]] + cs[1..] == cs;
    }
  }

  lemma {:induction false} JoinSepStartsWithFirst(cs: seq<string>)
    requires |cs| > 0
    ensures StartsWith(JoinSep(cs), cs[0])
  {
    if |cs| > 1 {
      assert (cs[0] + [Sep] + JoinSep(cs[1..]))[..|cs[0]|] == cs[0];
    }
  }

  // ---------------------------------------------------------------------------
  // The shape of a valid relative path

  /** A separator at the end leaves an empty last piece. */
  lemma EmptyAtEnd(p: string)
    requires EndsWithSep(p)
    ensures "" in Split(p)
  {
    var a := p[..|p| - 1];
    assert p == a + [Sep] + "";
    SplitConcat(a, "");
    assert Split(p)[|Split(p)| - 1] == "";
  }

  /** Two separators in a row leave an empty piece between them. */
  lemma EmptyAtDouble(p: string, i: nat)
    requires i < |p| - 1 && p[i] == Sep && p[i + 1] == Sep
    ensures "" in Split(p)
  {
    var a, b := p[..i], p[i + 1..];
    assert p == a + [Sep] + b;
    SplitConcat(a, b);
    assert Split(b)[0] == "";
    assert Split(p)[|Split(a)|] == "";
  }

  /** The separator layouts that produce an empty piece. */
  lemma EmptyPieces(p: string)
    ensures |p| == 0 ==> "" in Split(p)
    ensures |p| > 0 && p[0] == Sep ==> "" in Split(p)
    ensures EndsWithSep(p) ==> "" in Split(p)
    ensures forall i :: 0 <= i < |p| - 1 && p[i] == Sep && p[i + 1] == Sep ==> "" in Split(p)
  {
    if |p| > 0 && p[0] == Sep {
      assert Split(p)[0] == "";
    }
    if EndsWithSep(p) {
      EmptyAtEnd(p);
    }
    forall i | 0 <= i < |p| - 1 && p[i] == Sep && p[i + 1] == Sep
      ensures "" in Split(p)
    {
      EmptyAtDouble(p, i);
    }
  }

  lemma ValidRelShape(p: string)
    requires ValidRel(p)
    ensures |p| > 0 && p[0] != Sep && p[|p| - 1] != Sep
    ensures forall i :: 0 <= i < |p| - 1 ==> !(p[i] == Sep && p[i + 1] == Sep)
  {
    EmptyPieces(p);
  }

  /** Cutting a valid relative path at a separator leaves two valid paths. */
  lemma ValidRelCut(p: string, i: nat)
    requires ValidRel(p) && i < |p| && p[i] == Sep
    ensures ValidRel(p[..i]) && ValidRel(p[i + 1..])
  {
    var a, b := p[..i], p[i + 1..];
    assert p == a + [Sep] + b;
    SplitConcat(a, b);
    assert Split(p) == Split(a) + Split(b);
    forall c | c in Split(a) ensures c != "" && c != "." && c != ".." {
      assert c in Split(p);
    }
    forall c | c in Split(b) ensures c != "" && c != "." && c != ".." {
      assert c in Split(p);
    }
  }

  /** On a valid path `Dirname` cuts at the last separator. */
  lemma DirnameOfValid(p: string)
    requires ValidRel(p)
    ensures Sep !in p ==> Dirname(p) == ""
    ensures Sep in p ==>
      (HeadLength(p) >= 2 && Dirname(p) == p[..HeadLength(p) - 1] && p[HeadLength(p) - 1] == Sep)
  {
    ValidRelShape(p);
    var n := HeadLength(p);
    if Sep in p {
      var k :| 0 <= k < |p| && p[k] == Sep;
      assert n > k;
      assert n >= 2;
      var head := p[..n];
      assert head[0] == p[0];
      assert !AllSep(head);
      assert EndsWithSep(head);
      assert head[..n - 1] == p[..n - 1];
      assert !EndsWithSep(head[..n - 1]);
    } else {
      assert forall k :: 0 <= k < |p| ==> p[k] != Sep;
    }
  }

  /** `Dirname` of a path that does not start with two separators is shorter,
      unless it reached "" or "/". */
  lemma AllSepShort(p: string)
    requires AllSep(p) && |p| > 0
    ensures p == [Sep] || StartsWith(p, [Sep, Sep])
  {
    if |p| >= 2 {
      assert p[..2] == [Sep, Sep];
    } else {
      assert p == [Sep];
    }
  }

  lemma DirnameShrinks(p: string)
    requires !StartsWith(p, [Sep, Sep])
    ensures var d := Dirname(p);
      (d != "" && d != [Sep]) ==> |d| < |p| && !StartsWith(d, [Sep, Sep])
  {
    var d := Dirname(p);
    var n := HeadLength(p);
    var head := p[..n];
    if n == |p| && |p| > 0 {
      assert head == p;
      if AllSep(head) {
        AllSepShort(p);
      } else {
        assert EndsWithSep(head);
        assert RStripSep(head) == RStripSep(head[..|head| - 1]);
      }
    }
    if |d| >= 2 {
      assert d[..2] == p[..2];
    }
  }

  // ---------------------------------------------------------------------------
  // The escape test of a resolved reference

  lemma PrefixOfPrefix(s: string, c: string)
    requires StartsWith(s, c)
    ensures c == ".." ==> StartsWith(s, "..")
  {
  }

  /** Every ".." of `acc` comes before every other component. */
  predicate DotsFirst(acc: seq<string>) {
    forall i, j :: 0 <= i < j < |acc| && acc[j] == ".." ==> acc[i] == ".."
  }

  predicate CleanParts(acc: seq<string>) {
    forall c :: c in acc ==> c != "" && c != "." && Sep !in c
  }

  lemma {:induction false} CollapseRelative(cs: seq<string>, acc: seq<string>)
    requires forall c :: c in cs ==> Sep !in c
    requires CleanParts(acc) && DotsFirst(acc)
    ensures var r := Collapse(cs, acc, false); CleanParts(r) && DotsFirst(r)
    decreases |cs|
  {
    if |cs| > 0 {
      var c := cs[0];
      assert c in cs;
      assert forall x :: x in cs[1..] ==> x in cs;
      if c == "" || c == "." {
        CollapseRelative(cs[1..], acc);
      } else if c != ".." || |acc| == 0 || acc[|acc| - 1] == ".." {
        var acc' := acc + [c];
        assert forall x :: x in acc' ==> x in acc || x == c;
        if c == ".." && |acc| > 0 {
          forall i | 0 <= i < |acc| ensures acc[i] == ".." {
            if i < |acc| - 1 {
              assert acc[|acc| - 1] == "..";
            }
          }
        }
        CollapseRelative(cs[1..], acc');
      } else {
        var acc' := acc[..|acc| - 1];
        assert forall x :: x in acc' ==> x in acc;
        CollapseRelative(cs[1..], acc');
      }
    }
  }

  /** `normpath` keeps a path rooted. */
  lemma NormPathRooted(p: string)
    requires StartsWith(p, [Sep])
    ensures StartsWith(NormPath(p), [Sep])
  {
    var initial: nat := if StartsWith(p, [Sep, Sep]) && !StartsWith(p, [Sep, Sep, Sep]) then 2 else 1;
    var rest := JoinSep(Collapse(Split(p), [], true));
    assert NormPath(p) == Repeat(Sep, initial) + rest;
    assert Repeat(Sep, initial)[0] == Sep;
    assert (Repeat(Sep, initial) + rest)[..1] == [Sep];
  }

  /** A reference written relative to a file of the tree, whose normalised
      form passes the `startswith("..")` test, names the tree root itself
      ("."), a valid relative path inside the tree, or, exactly when the
      reference is itself absolute, a rooted path outside the tree. */
  lemma AcceptedReferenceInside(dir: string, ref: string)
    requires dir == "" || ValidRel(dir)
    requires !StartsWith(NormPath(Join(dir, ref)), "..")
    ensures var r := NormPath(Join(dir, ref)); r == "." || ValidRel(r) || StartsWith(r, [Sep])
    ensures StartsWith(NormPath(Join(dir, ref)), [Sep]) <==> StartsWith(ref, [Sep])
  {
    if StartsWith(ref, [Sep]) {
      assert Join(dir, ref) == ref;
      NormPathRooted(ref);
    } else {
      RelativeReferenceInside(dir, ref);
      var r := NormPath(Join(dir, ref));
      if r == "." {
        assert r[..1][0] == '.';
      } else {
        ValidRelShape(r);
        assert r[..1][0] == r[0];
      }
    }
  }

  lemma RelativeReferenceInside(dir: string, ref: string)
    requires dir == "" || ValidRel(dir)
    requires !StartsWith(ref, [Sep])
    requires !StartsWith(NormPath(Join(dir, ref)), "..")
    ensures var r := NormPath(Join(dir, ref)); r == "." || ValidRel(r)
  {
    var j := Join(dir, ref);
    if dir != "" {
      ValidRelShape(dir);
      assert j == dir + [Sep] + ref;
      assert j[0] == dir[0];
    } else {
      assert j == ref;
    }
    if j != "" {
      assert !StartsWith(j, [Sep]);
      var comps := Collapse(Split(j), [], false);
      CollapseRelative(Split(j), []);
      var J := JoinSep(comps);
      assert NormPath(j) == if J == "" then "." else J by {
        assert Repeat(Sep, 0) == "";
      }
      if |comps| > 0 {
        JoinSepStartsWithFirst(comps);
        assert J != "" by {
          assert comps[0] in comps;
          assert |comps[0]| <= |J|;
        }
        assert NormPath(j) == J;
        PrefixOfPrefix(J, comps[0]);
        assert comps[0] != "..";
        assert forall i :: 0 < i < |comps| ==> (comps[i] == ".." ==> comps[0] == "..");
        assert forall c :: c in comps ==> c != "..";
        SplitJoinSep(comps);
      }
    }
  }
}
