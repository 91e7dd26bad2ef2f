/** `sorted(paths, key=len)` and `sorted(paths, key=len, reverse=True)`.  The
    key is the length of the path string, not its depth, and Python's sort is
    stable in both directions: paths of equal length keep the order in which
    they arrived. */
module LengthSort {

  /** `x` may stand before `y` in the requested direction. */
  predicate Precedes(x: string, y: string, longestFirst: bool) {
    if longestFirst then |x| >= |y| else |x| <= |y|
  }

  predicate Ordered(s: seq<string>, longestFirst: bool) {
    forall i, j :: 0 <= i < j < |s| ==> Precedes(s[i], s[j], longestFirst)
  }

  /** The paths of `s` whose length is `n`, in their order in `s`. */
  function OfLength(s: seq<string>, n: nat): seq<string> {
    if |s| == 0 then []
    else (if |s[0]| == n then [s[0]] else []) + OfLength(s[1..], n)
  }

  lemma OfLengthCons(x: string, s: seq<string>, n: nat)
    ensures OfLength([x] + s, n) == (if |x| == n then [x] else []) + OfLength(s, n)
  {
    assert ([x] + s)[1..] == s;
  }

  /** Places `x` before the first path it may precede, so that it stays ahead
      of every later path of its own length. */
  function Insert(x: string, s: seq<string>, longestFirst: bool): seq<string>
  {
    if |s| == 0 || Precedes(x, s[0], longestFirst) then [x] + s
    else [s[0]] + Insert(x, s[1..], longestFirst)
  }

  lemma {:induction false} InsertKeeps(x: string, s: seq<string>, longestFirst: bool)
    ensures multiset(Insert(x, s, longestFirst)) == multiset(s) + multiset{x}
  {
    if |s| == 0 || Precedes(x, s[0], longestFirst) {
    } else {
      var rest := Insert(x, s[1..], longestFirst);
      InsertKeeps(x, s[1..], longestFirst);
      assert s == [s[0]] + s[1..];
      assert multiset([s[0]] + rest) == multiset{s[0]} + multiset(rest);
    }
  }

  lemma {:induction false} InsertOrders(x: string, s: seq<string>, longestFirst: bool)
    requires Ordered(s, longestFirst)
    ensures Ordered(Insert(x, s, longestFirst), longestFirst)
  {
    if |s| == 0 || Precedes(x, s[0], longestFirst) {
      PrependOrdered(x, s, longestFirst);
    } else {
      var rest := Insert(x, s[1..], longestFirst);
      InsertKeeps(x, s[1..], longestFirst);
      assert Ordered(s[1..], longestFirst) by {
        forall i, j | 0 <= i < j < |s[1..]|
          ensures Precedes(s[1..][i], s[1..][j], longestFirst)
        {
          assert s[1..][i] == s[i + 1] && s[1..][j] == s[j + 1];
        }
      }
      InsertOrders(x, s[1..], longestFirst);
      InsertOrdered(x, s, rest, longestFirst);
    }
  }

  lemma {:induction false} InsertStable(x: string, s: seq<string>, longestFirst: bool, n: nat)
    ensures OfLength(Insert(x, s, longestFirst), n) == OfLength([x] + s, n)
  {
    if |s| == 0 || Precedes(x, s[0], longestFirst) {
    } else {
      var rest := Insert(x, s[1..], longestFirst);
      InsertStable(x, s[1..], longestFirst, n);
      assert s == [s[0]] + s[1..];
      OfLengthCons(s[0], rest, n);
      OfLengthCons(x, s, n);
      OfLengthCons(x, s[1..], n);
      OfLengthCons(s[0], s[1..], n);
    }
  }

  /** The ordering step of `Insert` when `x` goes first. */
  lemma PrependOrdered(x: string, s: seq<string>, longestFirst: bool)
    requires |s| == 0 || Precedes(x, s[0], longestFirst)
    ensures Ordered(s, longestFirst) ==> Ordered([x] + s, longestFirst)
  {
    if Ordered(s, longestFirst) {
      var r := [x] + s;
      forall i, j | 0 <= i < j < |r| ensures Precedes(r[i], r[j], longestFirst) {
        if i > 0 {
          assert r[i] == s[i - 1] && r[j] == s[j - 1];
        } else {
          assert r[j] == s[j - 1];
          if j > 1 {
            assert Precedes(s[0], s[j - 1], longestFirst);
          }
        }
      }
    }
  }

  /** The ordering step of `Insert` when `x` goes after the head of `s`. */
  lemma InsertOrdered(x: string, s: seq<string>, rest: seq<string>, longestFirst: bool)
    requires |s| > 0 && !Precedes(x, s[0], longestFirst)
    requires multiset(rest) == multiset(s[1..]) + multiset{x}
    requires Ordered(s, longestFirst) && Ordered(rest, longestFirst)
    ensures Ordered([s[0]] + rest, longestFirst)
  {
    {
      var r := [s[0]] + rest;
      forall i, j | 0 <= i < j < |r| ensures Precedes(r[i], r[j], longestFirst) {
        if i > 0 {
          assert r[i] == rest[i - 1] && r[j] == rest[j - 1];
        } else {
          var y := rest[j - 1];
          assert y in multiset(rest);
          if y != x {
            assert y in multiset(s[1..]);
            var k :| 0 <= k < |s[1..]| && s[1..][k] == y;
            assert s[k + 1] == y;
          }
        }
      }
    }
  }

  /** The stable sort by length. */
  function SortByLength(s: seq<string>, longestFirst: bool): (r: seq<string>)
    ensures multiset(r) == multiset(s)
    ensures Ordered(r, longestFirst)
    ensures forall n: nat :: OfLength(r, n) == OfLength(s, n)
  {
    if |s| == 0 then []
    else
      var rest := SortByLength(s[1..], longestFirst);
      assert s == [s[0]] + s[1..];
      InsertKeeps(s[0], rest, longestFirst);
      InsertOrders(s[0], rest, longestFirst);
      forall n: nat ensures OfLength(Insert(s[0], rest, longestFirst), n) == OfLength(s, n) {
        InsertStable(s[0], rest, longestFirst, n);
        OfLengthCons(s[0], rest, n);
        OfLengthCons(s[0], s[1..], n);
      }
      Insert(s[0], rest, longestFirst)
  }

  /** A sequence without repeats holds each value at most once. */
  lemma {:induction false} NoRepeatCount(s: seq<string>, x: string)
    requires forall i, j :: 0 <= i < j < |s| ==> s[i] != s[j]
    ensures multiset(s)[x] <= 1
  {
    if |s| > 0 {
      assert s == [s[0]] + s[1..];
      NoRepeatCount(s[1..], x);
      if s[0] == x {
        assert forall k :: 0 <= k < |s[1..]| ==> s[1..][k] == s[k + 1];
        assert x !in s[1..];
      }
    }
  }

  /** Two positions of a rearrangement of a sequence without repeats hold
      different values. */
  lemma RearrangedApart(s: seq<string>, r: seq<string>, i: nat, j: nat)
    requires forall a, b :: 0 <= a < b < |s| ==> s[a] != s[b]
    requires multiset(r) == multiset(s) && i < j < |r|
    ensures r[i] != r[j]
  {
    var x := r[j];
    NoRepeatCount(s, x);
    assert r == r[..j] + [x] + r[j + 1..];
    assert multiset(r)[x] == multiset(r[..j])[x] + 1 + multiset(r[j + 1..])[x];
    assert x !in r[..j];
    assert r[i] == r[..j][i];
  }

  /** Sorting keeps a sequence free of repeats. */
  lemma SortNoRepeat(s: seq<string>, longestFirst: bool)
    requires forall i, j :: 0 <= i < j < |s| ==> s[i] != s[j]
    ensures forall i, j :: 0 <= i < j < |SortByLength(s, longestFirst)| ==>
      SortByLength(s, longestFirst)[i] != SortByLength(s, longestFirst)[j]
  {
    var r := SortByLength(s, longestFirst);
    forall i, j | 0 <= i < j < |r| ensures r[i] != r[j] {
      RearrangedApart(s, r, i, j);
    }
  }
}
