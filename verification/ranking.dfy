/** The missed-window ranking: per-series tallies sorted by (missed
    windows, path), the way lists `[count, path]` compare, and the series
    with at least one missed window reported in that order. */
module Ranking {

  /** Lexicographic order on strings by character code, a proper prefix
      coming first. */
  predicate StrLe(a: string, b: string)
    decreases |a|
  {
    |a| == 0 || (|b| > 0 && (a[0] < b[0] || (a[0] == b[0] && StrLe(a[1..], b[1..]))))
  }

  lemma {:induction false} StrLeTotal(a: string, b: string)
    ensures StrLe(a, b) || StrLe(b, a)
    decreases |a|
  {
    if |a| > 0 && |b| > 0 && a[0] == b[0] {
      StrLeTotal(a[1..], b[1..]);
    }
  }

  lemma {:induction false} StrLeReflexive(a: string)
    ensures StrLe(a, a)
    decreases |a|
  {
    if |a| > 0 {
      StrLeReflexive(a[1..]);
    }
  }

  lemma {:induction false} StrLeAntisymmetric(a: string, b: string)
    requires StrLe(a, b) && StrLe(b, a)
    ensures a == b
    decreases |a|
  {
    if |a| > 0 {
      StrLeAntisymmetric(a[1..], b[1..]);
      assert a == [a[0]] + a[1..] && b == [b[0]] + b[1..];
    }
  }

  lemma {:induction false} StrLeTransitive(a: string, b: string, c: string)
    requires StrLe(a, b) && StrLe(b, c)
    ensures StrLe(a, c)
    decreases |a|
  {
    if |a| > 0 && a[0] == b[0] && b[0] == c[0] {
      StrLeTransitive(a[1..], b[1..], c[1..]);
    }
  }

  /** `a` and `b` agree up to a position where `a` has the smaller character. */
  predicate SmallerAt(a: string, b: string)
  {
    exists k :: 0 <= k < |a| && k < |b| && a[..k] == b[..k] && a[k] < b[k]
  }

  /** Behind an equal first character, the position moves one to the right. */
  lemma SmallerAtTail(a: string, b: string)
    requires |a| > 0 && |b| > 0 && a[0] == b[0]
    ensures SmallerAt(a, b) <==> SmallerAt(a[1..], b[1..])
  {
    if SmallerAt(a, b) {
      var k :| 0 <= k < |a| && k < |b| && a[..k] == b[..k] && a[k] < b[k];
      assert k > 0;
      assert a[1..][..k - 1] == a[..k][1..] && b[1..][..k - 1] == b[..k][1..];
      assert a[1..][k - 1] < b[1..][k - 1];
    }
    if SmallerAt(a[1..], b[1..]) {
      var k :| 0 <= k < |a[1..]| && k < |b[1..]| && a[1..][..k] == b[1..][..k] && a[1..][k] < b[1..][k];
      assert a[..k + 1] == [a[0]] + a[1..][..k] && b[..k + 1] == [b[0]] + b[1..][..k];
      assert a[k + 1] < b[k + 1];
    }
  }

  /** Behind an equal first character, prefixes stay prefixes. */
  lemma PrefixTail(a: string, b: string)
    requires |a| > 0 && |b| > 0 && a[0] == b[0]
    ensures a <= b <==> a[1..] <= b[1..]
  {
    assert a == [a[0]] + a[1..] && b == [b[0]] + b[1..];
  }

  /** `StrLe` is the usual lexicographic order: `a` is a prefix of `b`, or
      the two agree up to a position where `a` has the smaller character. */
  lemma {:induction false} StrLeIsLexicographic(a: string, b: string)
    ensures StrLe(a, b) <==> a <= b || SmallerAt(a, b)
    decreases |a|
  {
    if |a| > 0 && |b| > 0 {
      if a[0] < b[0] {
        assert a[..0] == b[..0];
      } else if a[0] > b[0] {
        forall k | 0 <= k < |a| && k < |b| && a[..k] == b[..k] ensures !(a[k] < b[k]) {
        }
      } else {
        StrLeIsLexicographic(a[1..], b[1..]);
        SmallerAtTail(a, b);
        PrefixTail(a, b);
      }
    }
  }

  /** Missed windows of one series, as the ranking sees it. */
  datatype Tally = Tally(missed: nat, path: string)

  /** Compare by missed windows, then by path. */
  predicate TallyLe(x: Tally, y: Tally)
  {
    x.missed < y.missed || (x.missed == y.missed && StrLe(x.path, y.path))
  }

  lemma TallyLeTotal(x: Tally, y: Tally)
    ensures TallyLe(x, y) || TallyLe(y, x)
  {
    StrLeTotal(x.path, y.path);
  }

  lemma TallyLeAntisymmetric(x: Tally, y: Tally)
    requires TallyLe(x, y) && TallyLe(y, x)
    ensures x == y
  {
    StrLeAntisymmetric(x.path, y.path);
  }

  lemma TallyLeTransitive(x: Tally, y: Tally, z: Tally)
    requires TallyLe(x, y) && TallyLe(y, z)
    ensures TallyLe(x, z)
  {
    if x.missed == y.missed == z.missed {
      StrLeTransitive(x.path, y.path, z.path);
    }
  }

  /** Ascending in (missed, path) order. */
  ghost predicate Sorted(s: seq<Tally>)
  {
    forall i, j :: 0 <= i < j < |s| ==> TallyLe(s[i], s[j])
  }

  /** `x` is at or below every element of `s`. */
  ghost predicate Below(x: Tally, s: seq<Tally>)
  {
    forall i :: 0 <= i < |s| ==> TallyLe(x, s[i])
  }

  lemma BelowPermutation(x: Tally, s: seq<Tally>, u: seq<Tally>)
    requires Below(x, s) && multiset(u) <= multiset(s)
    ensures Below(x, u)
  {
    forall i | 0 <= i < |u| ensures TallyLe(x, u[i]) {
      assert u[i] in multiset(s);
    }
  }

  /** Inserts `t` into sorted `s` before the first element above it. */
  function Insert(t: Tally, s: seq<Tally>): (r: seq<Tally>)
    requires Sorted(s)
    ensures Sorted(r)
    ensures multiset(r) == multiset(s) + multiset{t}
  {
    if s == [] then [t]
    else if TallyLe(t, s[0]) then
      assert Below(t, s) by {
        forall i | 0 <= i < |s| ensures TallyLe(t, s[i]) {
          if i > 0 { TallyLeTransitive(t, s[0], s[i]); }
        }
      }
      [t] + s
    else
      TallyLeTotal(t, s[0]);
      var rest := Insert(t, s[1..]);
      assert s == [s[0]] + s[1..];
      assert Below(s[0], s[1..] + [t]);
      assert multiset(rest) <= multiset(s[1..] + [t]);
      BelowPermutation(s[0], s[1..] + [t], rest);
      [s[0]] + rest
  }

  /** Insertion sort: a sorted permutation of its input. */
  function Sort(s: seq<Tally>): (r: seq<Tally>)
    ensures Sorted(r)
    ensures multiset(r) == multiset(s)
  {
    if s == [] then []
    else
      assert s == s[..|s| - 1] + [s[|s| - 1]];
      Insert(s[|s| - 1], Sort(s[..|s| - 1]))
  }

  /** The head of a sorted sequence is at or below each of its elements. */
  lemma SortedHeadBelow(a: seq<Tally>, x: Tally)
    requires Sorted(a) && x in multiset(a)
    ensures TallyLe(a[0], x)
  {
    var i :| 0 <= i < |a| && a[i] == x;
    if i == 0 {
      StrLeReflexive(x.path);
    }
  }

  lemma MultisetTail(a: seq<Tally>, b: seq<Tally>)
    requires a != [] && b != [] && a[0] == b[0] && multiset(a) == multiset(b)
    ensures multiset(a[1..]) == multiset(b[1..])
  {
    assert a == [a[0]] + a[1..] && b == [b[0]] + b[1..];
    forall y ensures multiset(a[1..])[y] == multiset(b[1..])[y] {
      assert multiset(a)[y] == multiset(b)[y];
    }
  }

  /** Two sorted sequences with the same elements are equal: the order
      leaves no ties between distinct tallies. */
  lemma {:induction false} SortedUnique(a: seq<Tally>, b: seq<Tally>)
    requires Sorted(a) && Sorted(b) && multiset(a) == multiset(b)
    ensures a == b
  {
    if a != [] {
      assert a[0] in multiset(b);
      assert b != [];
      SortedHeadBelow(a, b[0]);
      SortedHeadBelow(b, a[0]);
      TallyLeAntisymmetric(a[0], b[0]);
      MultisetTail(a, b);
      SortedUnique(a[1..], b[1..]);
      assert a == [a[0]] + a[1..] && b == [b[0]] + b[1..];
    } else {
      assert |multiset(b)| == 0;
    }
  }

  /** The tallies with at least one missed window, order kept. */
  function Missing(s: seq<Tally>): (r: seq<Tally>)
    ensures forall x :: multiset(r)[x] == if x.missed > 0 then multiset(s)[x] else 0
  {
    if s == [] then []
    else
      assert s == [s[0]] + s[1..];
      (if s[0].missed > 0 then [s[0]] else []) + Missing(s[1..])
  }

  lemma {:induction false} MissingKeepsSorted(s: seq<Tally>)
    requires Sorted(s)
    ensures Sorted(Missing(s))
  {
    if s != [] {
      MissingKeepsSorted(s[1..]);
      var m := Missing(s[1..]);
      forall x ensures multiset(m)[x] <= multiset(s[1..])[x] {
      }
      BelowPermutation(s[0], s[1..], m);
    }
  }

  /** The ranking report: tallies with missed windows, ascending in
      (missed, path) order; the least-missing series comes first. */
  function Worst(s: seq<Tally>): (r: seq<Tally>)
    ensures Sorted(r)
    ensures forall x :: multiset(r)[x] == if x.missed > 0 then multiset(s)[x] else 0
  {
    var sorted := Sort(s);
    MissingKeepsSorted(sorted);
    Missing(sorted)
  }

  /** The report holds exactly the tallies with a missed window. */
  lemma WorstMembers(s: seq<Tally>)
    ensures forall x :: x in Worst(s) <==> x in s && x.missed > 0
  {
    forall x ensures x in Worst(s) <==> x in s && x.missed > 0 {
      assert x in Worst(s) <==> x in multiset(Worst(s));
      assert x in s <==> x in multiset(s);
    }
  }

  /** The report does not depend on the order in which tallies arrive. */
  lemma WorstPermutationInvariant(s: seq<Tally>, u: seq<Tally>)
    requires multiset(s) == multiset(u)
    ensures Worst(s) == Worst(u)
  {
    SortedUnique(Sort(s), Sort(u));
  }

  /** Paths of a tally list, in order. */
  function Paths(s: seq<Tally>): (r: seq<string>)
    ensures |r| == |s| && forall i :: 0 <= i < |s| ==> r[i] == s[i].path
  {
    if s == [] then [] else [s[0].path] + Paths(s[1..])
  }
}
