/** Sums over a sequence of keys, and the facts that make such sums
    independent of the order in which the keys are visited. */
module Totals {

  /** `order` visits every key of `keys` exactly once: the model of a
      dictionary's iteration order. */
  predicate Enumerates<K>(order: seq<K>, keys: set<K>)
  {
    multiset(order) == multiset(keys)
  }

  /** Sum of `f` over `s`, accumulated left to right. */
  function Total<K>(s: seq<K>, f: K -> nat): nat
  {
    if s == [] then 0 else Total(s[..|s| - 1], f) + f(s[|s| - 1])
  }

  lemma TotalAppend<K>(s: seq<K>, x: K, f: K -> nat)
    ensures Total(s + [x], f) == Total(s, f) + f(x)
  {
    assert (s + [x])[..|s|] == s;
  }

  /** Taking one element out of the sum. */
  lemma {:induction false} TotalRemove<K>(s: seq<K>, i: nat, f: K -> nat)
    requires i < |s|
    ensures Total(s, f) == f(s[i]) + Total(s[..i] + s[i + 1..], f)
  {
    var n := |s| - 1;
    if i < n {
      var init := s[..n];
      TotalRemove(init, i, f);
      assert s[..i] + s[i + 1..] == (init[..i] + init[i + 1..]) + [s[n]];
      TotalAppend(init[..i] + init[i + 1..], s[n], f);
    } else {
      assert s[..i] + s[i + 1..] == s[..n];
    }
  }

  /** The sum split at its first element. */
  lemma TotalFront<K>(s: seq<K>, f: K -> nat)
    requires s != []
    ensures Total(s, f) == f(s[0]) + Total(s[1..], f)
  {
    TotalRemove(s, 0, f);
    assert s[..0] + s[1..] == s[1..];
  }

  lemma MultisetRemoveAt<K>(b: seq<K>, i: nat)
    requires i < |b|
    ensures multiset(b) == multiset(b[..i] + b[i + 1..]) + multiset{b[i]}
  {
    assert b == b[..i] + [b[i]] + b[i + 1..];
  }

  lemma MultisetCancel<K>(p: multiset<K>, q: multiset<K>, x: K)
    requires p + multiset{x} == q + multiset{x}
    ensures p == q
  {
    forall y ensures p[y] == q[y] {
      assert (p + multiset{x})[y] == (q + multiset{x})[y];
    }
  }

  /** The last element of `a` sits at some position `i` of its permutation
      `b`, and what is left of each is still a permutation of the other. */
  lemma MatchLast<K>(a: seq<K>, b: seq<K>) returns (i: nat)
    requires a != [] && multiset(a) == multiset(b)
    ensures i < |b| && b[i] == a[|a| - 1]
    ensures multiset(a[..|a| - 1]) == multiset(b[..i] + b[i + 1..])
  {
    var n := |a| - 1;
    assert a[n] in multiset(b);
    i :| 0 <= i < |b| && b[i] == a[n];
    MultisetRemoveAt(a, n);
    MultisetRemoveAt(b, i);
    assert a[..n] + a[n + 1..] == a[..n];
    MultisetCancel(multiset(a[..n]), multiset(b[..i] + b[i + 1..]), a[n]);
  }

  /** A sum does not depend on the order of its terms. */
  lemma {:induction false} TotalPermutation<K>(a: seq<K>, b: seq<K>, f: K -> nat)
    requires multiset(a) == multiset(b)
    ensures Total(a, f) == Total(b, f)
  {
    if a != [] {
      var n := |a| - 1;
      var i := MatchLast(a, b);
      TotalPermutation(a[..n], b[..i] + b[i + 1..], f);
      TotalRemove(b, i, f);
    } else {
      assert |multiset(b)| == 0;
    }
  }

  /** `small` visits part of what `big` visits, and every key `big`
      visits more often has a zero term. */
  ghost predicate Covers<K(!new)>(big: seq<K>, small: seq<K>, f: K -> nat)
  {
    && multiset(small) <= multiset(big)
    && forall x :: multiset(small)[x] < multiset(big)[x] ==> f(x) == 0
  }

  lemma CoversDropBoth<K(!new)>(big: seq<K>, small: seq<K>, f: K -> nat, i: nat)
    requires Covers(big, small, f) && big != [] && i < |small| && small[i] == big[|big| - 1]
    ensures Covers(big[..|big| - 1], small[..i] + small[i + 1..], f)
  {
    var n := |big| - 1;
    var x := big[n];
    assert big == big[..n] + [x];
    MultisetRemoveAt(small, i);
    var ms, mb := multiset(small[..i] + small[i + 1..]), multiset(big[..n]);
    forall y ensures ms[y] <= mb[y] && (ms[y] < mb[y] ==> multiset(small)[y] < multiset(big)[y]) {
      assert (ms + multiset{x})[y] == multiset(small)[y] && (mb + multiset{x})[y] == multiset(big)[y];
    }
  }

  lemma CoversDropBig<K(!new)>(big: seq<K>, small: seq<K>, f: K -> nat)
    requires Covers(big, small, f) && big != [] && big[|big| - 1] !in small
    ensures Covers(big[..|big| - 1], small, f) && f(big[|big| - 1]) == 0
  {
    var n := |big| - 1;
    var x := big[n];
    assert big == big[..n] + [x];
    assert multiset(big) == multiset(big[..n]) + multiset{x};
    assert multiset(small)[x] == 0;
  }

  /** A sum over `big` equals the sum over `small` when `small` visits
      part of what `big` visits and every term `big` visits more often is
      zero. */
  lemma {:induction false} TotalOverSubset<K(!new)>(big: seq<K>, small: seq<K>, f: K -> nat)
    requires Covers(big, small, f)
    ensures Total(big, f) == Total(small, f)
  {
    if big == [] {
      assert |multiset(small)| == 0;
    } else {
      var n := |big| - 1;
      if big[n] in small {
        var i :| 0 <= i < |small| && small[i] == big[n];
        CoversDropBoth(big, small, f, i);
        TotalOverSubset(big[..n], small[..i] + small[i + 1..], f);
        TotalRemove(small, i, f);
      } else {
        CoversDropBig(big, small, f);
        TotalOverSubset(big[..n], small, f);
      }
    }
  }

  /** Sums distribute over a pointwise addition of terms. */
  lemma {:induction false} TotalAdd<K>(s: seq<K>, f: K -> nat, g: K -> nat, h: K -> nat)
    requires forall x :: h(x) == f(x) + g(x)
    ensures Total(s, h) == Total(s, f) + Total(s, g)
  {
    if s != [] {
      TotalAdd(s[..|s| - 1], f, g, h);
    }
  }

  /** Raising the term of a key visited at most once by `d` raises the
      sum by `d` when the key is visited, and leaves it alone otherwise. */
  lemma {:induction false} TotalPointUpdate<K>(s: seq<K>, f: K -> nat, g: K -> nat, k: K, d: nat)
    requires forall x :: x != k ==> g(x) == f(x)
    requires g(k) == f(k) + d
    requires multiset(s)[k] <= 1
    ensures Total(s, g) == Total(s, f) + (if k in s then d else 0)
  {
    if s != [] {
      var n := |s| - 1;
      assert s == s[..n] + [s[n]];
      assert multiset(s) == multiset(s[..n]) + multiset{s[n]};
      TotalPointUpdate(s[..n], f, g, k, d);
      if s[n] == k {
        assert k !in multiset(s[..n]);
      }
    }
  }

  /** A key enumerated in `order` is visited exactly once. */
  lemma EnumeratedOnce<K>(order: seq<K>, keys: set<K>, k: K)
    requires Enumerates(order, keys)
    ensures multiset(order)[k] == if k in keys then 1 else 0
  {
  }

  lemma {:induction false} TotalOfZeros<K>(s: seq<K>, f: K -> nat)
    requires forall i :: 0 <= i < |s| ==> f(s[i]) == 0
    ensures Total(s, f) == 0
  {
    if s != [] {
      TotalOfZeros(s[..|s| - 1], f);
    }
  }

  /** Equal terms give equal sums. */
  lemma {:induction false} TotalPointwise<K>(s: seq<K>, f: K -> nat, g: K -> nat)
    requires forall x :: f(x) == g(x)
    ensures Total(s, f) == Total(s, g)
  {
    if s != [] {
      TotalPointwise(s[..|s| - 1], f, g);
    }
  }

  /** `f` applied to every element of `s`, order kept. */
  function MapSeq<K, T>(s: seq<K>, f: K -> T): seq<T>
  {
    if s == [] then [] else MapSeq(s[..|s| - 1], f) + [f(s[|s| - 1])]
  }

  lemma {:induction false} MapSeqIndex<K, T>(s: seq<K>, f: K -> T)
    ensures |MapSeq(s, f)| == |s|
    ensures forall i :: 0 <= i < |s| ==> MapSeq(s, f)[i] == f(s[i])
  {
    if s != [] {
      MapSeqIndex(s[..|s| - 1], f);
    }
  }

  /** 1 on the keys `f` sends to `y`, 0 elsewhere. */
  ghost function Indicator<K, T>(f: K -> T, y: T): K -> nat
  {
    k => if f(k) == y then 1 else 0
  }

  /** How often `y` occurs in the image of `s`: a sum of indicators. */
  lemma {:induction false} MapSeqCount<K, T>(s: seq<K>, f: K -> T, y: T)
    ensures multiset(MapSeq(s, f))[y] == Total(s, Indicator(f, y))
  {
    if s != [] {
      MapSeqCount(s[..|s| - 1], f, y);
    }
  }

  /** Mapping a permutation gives a permutation. */
  lemma MapSeqPermutation<K, T>(a: seq<K>, b: seq<K>, f: K -> T)
    requires multiset(a) == multiset(b)
    ensures multiset(MapSeq(a, f)) == multiset(MapSeq(b, f))
  {
    var ma, mb := multiset(MapSeq(a, f)), multiset(MapSeq(b, f));
    forall y: T ensures ma[y] == mb[y] {
      MapSeqCountPermutation(a, b, f, y);
    }
    MultisetExtensional(ma, mb);
  }

  lemma MultisetExtensional<T>(ma: multiset<T>, mb: multiset<T>)
    requires forall y: T :: ma[y] == mb[y]
    ensures ma == mb
  {
  }

  lemma MapSeqCountPermutation<K, T>(a: seq<K>, b: seq<K>, f: K -> T, y: T)
    requires multiset(a) == multiset(b)
    ensures multiset(MapSeq(a, f))[y] == multiset(MapSeq(b, f))[y]
  {
    MapSeqCount(a, f, y);
    MapSeqCount(b, f, y);
    TotalPermutation(a, b, Indicator(f, y));
  }

  /** Under an injective `f`, the image of `k` occurs as often as `k`. */
  lemma {:induction false} MapSeqInjectiveCount<K, T>(s: seq<K>, f: K -> T, k: K)
    requires forall a, b :: f(a) == f(b) ==> a == b
    ensures multiset(MapSeq(s, f))[f(k)] == multiset(s)[k]
  {
    if s != [] {
      var n := |s| - 1;
      MapSeqInjectiveCount(s[..n], f, k);
      assert s == s[..n] + [s[n]];
    }
  }

  /** An element at two positions occurs at least twice. */
  lemma TwiceCounted<T>(s: seq<T>, i: nat, j: nat)
    requires i < j < |s| && s[i] == s[j]
    ensures multiset(s)[s[i]] >= 2
  {
    assert s == s[..j] + s[j..];
    assert s[..j][i] == s[i];
    assert s[j..][0] == s[j];
  }
}
