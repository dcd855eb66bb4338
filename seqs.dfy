/**
 * Order-preserving selection over sequences, the shape of every
 * `iter().filter(..).collect()` in the kernel.
 */
module Seqs {

  /** `xs` can be obtained from `ys` by deleting elements. */
  ghost predicate Subsequence<T>(xs: seq<T>, ys: seq<T>)
    decreases |ys|
  {
    if xs == [] then true
    else if ys == [] then false
    else (xs[0] == ys[0] && Subsequence(xs[1..], ys[1..])) || Subsequence(xs, ys[1..])
  }

  /** The elements of `s` that satisfy `p`, in their original order. */
  function Filter<T(!new)>(s: seq<T>, p: T -> bool): (r: seq<T>)
    ensures forall x :: x in r <==> x in s && p(x)
    ensures |r| <= |s|
    ensures Subsequence(r, s)
    ensures (forall x :: x in s ==> p(x)) ==> r == s
  {
    if s == [] then []
    else if p(s[0]) then [s[0]] + Filter(s[1..], p)
    else Filter(s[1..], p)
  }

  /** Filtering distributes over concatenation. */
  lemma {:induction false} FilterAppend<T(!new)>(a: seq<T>, b: seq<T>, p: T -> bool)
    ensures Filter(a + b, p) == Filter(a, p) + Filter(b, p)
    decreases |a|
  {
    if a == [] {
      assert a + b == b;
    } else {
      assert (a + b)[1..] == a[1..] + b;
      FilterAppend(a[1..], b, p);
    }
  }

  /** No element occurs twice. */
  predicate Distinct<T(==)>(s: seq<T>)
  {
    forall i, j :: 0 <= i < j < |s| ==> s[i] != s[j]
  }

  /** Keys never decrease along the sequence. */
  predicate SortedBy<T>(s: seq<T>, key: T -> real)
  {
    forall i, j :: 0 <= i < j < |s| ==> key(s[i]) <= key(s[j])
  }

  /**
   * Rust's `sort_by_key` on a vector: the elements rearranged so that their
   * keys never decrease, and stable: the elements of each key keep their
   * input order. Each element goes after every element already placed whose
   * key is not larger.
   */
  method SortByKey<T(==)>(s: seq<T>, key: T -> real) returns (r: seq<T>)
    ensures multiset(r) == multiset(s) && |r| == |s|
    ensures SortedBy(r, key)
    ensures forall v :: WithKey(r, key, v) == WithKey(s, key, v)
    ensures Distinct(s) ==> Distinct(r)
  {
    r := [];
    for k := 0 to |s|
      invariant multiset(r) == multiset(s[..k]) && |r| == k && SortedBy(r, key)
      invariant forall v :: WithKey(r, key, v) == WithKey(s[..k], key, v)
      invariant Distinct(s) ==> Distinct(r)
    {
      var i := InsertionPoint(r, s[k], key);
      InsertSorted(r, s[k], i, key);
      InsertKeepsElements(r, s, k, i);
      InsertStable(r, s[k], i, key);
      assert s[..k + 1] == s[..k] + [s[k]];
      forall v ensures WithKey(s[..k + 1], key, v) == WithKey(s[..k], key, v) + WithKey([s[k]], key, v) {
        WithKeyAppend(s[..k], [s[k]], key, v);
      }
      r := r[..i] + [s[k]] + r[i..];
    }
    assert s[..|s|] == s;
  }

  /** The elements of `s` whose key is `v`, in their order in `s`. */
  function WithKey<T>(s: seq<T>, key: T -> real, v: real): seq<T>
  {
    if s == [] then [] else (if key(s[0]) == v then [s[0]] else []) + WithKey(s[1..], key, v)
  }

  lemma {:induction false} WithKeyAppend<T>(a: seq<T>, b: seq<T>, key: T -> real, v: real)
    ensures WithKey(a + b, key, v) == WithKey(a, key, v) + WithKey(b, key, v)
    decreases |a|
  {
    if a == [] {
      assert a + b == b;
    } else {
      var head := if key(a[0]) == v then [a[0]] else [];
      var tail, rest := WithKey(a[1..], key, v), WithKey(b, key, v);
      assert WithKey(a + b, key, v) == head + WithKey(a[1..] + b, key, v) by {
        assert (a + b)[0] == a[0] && (a + b)[1..] == a[1..] + b;
      }
      WithKeyAppend(a[1..], b, key, v);
      assert head + (tail + rest) == (head + tail) + rest;
    }
  }

  lemma {:induction false} WithKeyNone<T>(a: seq<T>, key: T -> real, v: real)
    requires forall j :: 0 <= j < |a| ==> key(a[j]) != v
    ensures WithKey(a, key, v) == []
    decreases |a|
  {
    if a != [] {
      assert key(a[0]) != v;
      assert forall j :: 0 <= j < |a[1..]| ==> a[1..][j] == a[j + 1];
      WithKeyNone(a[1..], key, v);
    }
  }

  /**
   * Inserting `x` after every element whose key is not larger places it
   * after the elements of its own key and leaves every other key's
   * elements as they were.
   */
  lemma {:induction false} InsertStable<T>(r: seq<T>, x: T, i: nat, key: T -> real)
    requires SortedBy(r, key) && i <= |r|
    requires forall j :: 0 <= j < i ==> key(r[j]) <= key(x)
    requires i < |r| ==> key(x) < key(r[i])
    ensures forall v :: WithKey(r[..i] + [x] + r[i..], key, v) == WithKey(r, key, v) + WithKey([x], key, v)
  {
    forall v ensures WithKey(r[..i] + [x] + r[i..], key, v) == WithKey(r, key, v) + WithKey([x], key, v) {
      InsertStableAt(r, x, i, key, v);
    }
  }

  lemma {:induction false} InsertStableAt<T>(r: seq<T>, x: T, i: nat, key: T -> real, v: real)
    requires SortedBy(r, key) && i <= |r|
    requires i < |r| ==> key(x) < key(r[i])
    ensures WithKey(r[..i] + [x] + r[i..], key, v) == WithKey(r, key, v) + WithKey([x], key, v)
  {
    var lo, hi := r[..i], r[i..];
    assert WithKey(r, key, v) == WithKey(lo, key, v) + WithKey(hi, key, v) by {
      assert r == lo + hi;
      WithKeyAppend(lo, hi, key, v);
    }
    assert WithKey(lo + [x] + hi, key, v) == WithKey(lo, key, v) + WithKey([x], key, v) + WithKey(hi, key, v) by {
      WithKeyAppend(lo + [x], hi, key, v);
      WithKeyAppend(lo, [x], key, v);
    }
    if key(x) == v {
      assert WithKey(hi, key, v) == [] by {
        forall j | 0 <= j < |hi| ensures key(hi[j]) != v {
          assert hi[j] == r[i + j];
          assert key(r[i]) <= key(r[i + j]);
        }
        WithKeyNone(hi, key, v);
      }
    } else {
      assert WithKey([x], key, v) == [];
    }
  }

  /** The first position of sorted `r` whose key exceeds that of `x`. */
  method InsertionPoint<T>(r: seq<T>, x: T, key: T -> real) returns (i: nat)
    ensures i <= |r| && forall j :: 0 <= j < i ==> key(r[j]) <= key(x)
    ensures i < |r| ==> key(x) < key(r[i])
  {
    i := 0;
    while i < |r| && key(r[i]) <= key(x)
      invariant 0 <= i <= |r|
      invariant forall j :: 0 <= j < i ==> key(r[j]) <= key(x)
    {
      i := i + 1;
    }
  }

  /** Inserting the next input element keeps `r` a rearrangement of the prefix read so far. */
  lemma InsertKeepsElements<T>(r: seq<T>, s: seq<T>, k: nat, i: nat)
    requires k < |s| && i <= |r| && multiset(r) == multiset(s[..k])
    ensures multiset(r[..i] + [s[k]] + r[i..]) == multiset(s[..k + 1])
    ensures Distinct(s) && Distinct(r) ==> Distinct(r[..i] + [s[k]] + r[i..])
  {
    assert s[..k + 1] == s[..k] + [s[k]];
    assert r == r[..i] + r[i..];
    assert multiset(r[..i] + [s[k]] + r[i..]) == multiset(r[..i]) + multiset{s[k]} + multiset(r[i..]);
    if Distinct(s) && Distinct(r) {
      assert s[k] !in multiset(s[..k]) by {
        assert forall j :: 0 <= j < k ==> s[j] != s[k];
      }
      InsertDistinct(r, s[k], i);
    }
  }

  lemma InsertSorted<T>(r: seq<T>, x: T, i: nat, key: T -> real)
    requires SortedBy(r, key) && i <= |r|
    requires forall j :: 0 <= j < i ==> key(r[j]) <= key(x)
    requires i < |r| ==> key(x) < key(r[i])
    ensures SortedBy(r[..i] + [x] + r[i..], key)
  {
    var t := r[..i] + [x] + r[i..];
    assert forall j :: 0 <= j < |t| ==> t[j] == (if j < i then r[j] else if j == i then x else r[j - 1]);
  }

  lemma InsertDistinct<T>(r: seq<T>, x: T, i: nat)
    requires Distinct(r) && i <= |r| && x !in r
    ensures Distinct(r[..i] + [x] + r[i..])
  {
    var t := r[..i] + [x] + r[i..];
    assert forall j :: 0 <= j < |t| ==> t[j] == (if j < i then r[j] else if j == i then x else r[j - 1]);
  }

  /** A hash set's `into_iter().collect()`: every element once, in an order the model leaves open. */
  method SetToSeq<T(==)>(s: set<T>) returns (r: seq<T>)
    ensures forall x :: x in r <==> x in s
    ensures Distinct(r)
  {
    r := [];
    var rest := s;
    while rest != {}
      invariant rest <= s
      invariant forall x :: x in r <==> x in s && x !in rest
      invariant Distinct(r)
      decreases |rest|
    {
      var x :| x in rest;
      r := r + [x];
      rest := rest - {x};
    }
  }
}
