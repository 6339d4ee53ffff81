/**
 * The stable sort behind `Stream.sorted(Comparator.comparing(key))`, and the
 * lexicographic order of `String.compareTo`.
 *
 * `SortBy` orders a sequence by a key under a total relation `le` ("may come
 * first"). Java's stream sort is stable: elements with equal keys keep their
 * relative order. Stability is stated per key: for every key value, the
 * sub-sequence of elements with that key is the same before and after.
 */
module Sorting {

  /** Any two keys are comparable (this includes `le(a, a)`), and `le` is
      transitive: what a comparator's `compare(a, b) <= 0` must satisfy. */
  ghost predicate Total<K(!new)>(le: (K, K) -> bool) {
    && (forall a, b :: le(a, b) || le(b, a))
    && (forall a, b, c :: le(a, b) && le(b, c) ==> le(a, c))
  }

  predicate SortedBy<T, K>(s: seq<T>, key: T -> K, le: (K, K) -> bool) {
    forall i, j :: 0 <= i < j < |s| ==> le(key(s[i]), key(s[j]))
  }

  /** The elements of `s` whose key is `k`, in their original order. */
  function WithKey<T, K(==)>(s: seq<T>, key: T -> K, k: K): (r: seq<T>)
    ensures |r| <= |s|
  {
    if |s| == 0 then []
    else (if key(s[0]) == k then [s[0]] else []) + WithKey(s[1..], key, k)
  }

  lemma {:induction false} WithKeyAppend<T, K>(a: seq<T>, b: seq<T>, key: T -> K, k: K)
    ensures WithKey(a + b, key, k) == WithKey(a, key, k) + WithKey(b, key, k)
  {
    if |a| == 0 {
      assert a + b == b;
    } else {
      var h := if key(a[0]) == k then [a[0]] else [];
      assert (a + b)[0] == a[0];
      assert (a + b)[1..] == a[1..] + b;
      calc {
        WithKey(a + b, key, k);
        h + WithKey(a[1..] + b, key, k);
        { WithKeyAppend(a[1..], b, key, k); }
        h + (WithKey(a[1..], key, k) + WithKey(b, key, k));
        (h + WithKey(a[1..], key, k)) + WithKey(b, key, k);
      }
    }
  }

  /** Places `x` in front of the first element it may precede. */
  function Insert<T, K(==,!new)>(x: T, s: seq<T>, key: T -> K, le: (K, K) -> bool): (r: seq<T>)
    requires Total(le)
    requires SortedBy(s, key, le)
    ensures multiset(r) == multiset(s) + multiset{x}
    ensures SortedBy(r, key, le)
  {
    if |s| == 0 || le(key(x), key(s[0])) then
      var r := [x] + s;
      forall j | 0 < j < |r|
        ensures le(key(x), key(r[j]))
      {
        if j > 1 {
          assert le(key(s[0]), key(s[j - 1]));
        }
      }
      r
    else
      var rest := Insert(x, s[1..], key, le);
      var r := [s[0]] + rest;
      assert s == [s[0]] + s[1..];
      forall j | 0 < j < |r|
        ensures le(key(s[0]), key(r[j]))
      {
        assert r[j] in multiset(rest);
        if r[j] != x {
          assert r[j] in multiset(s[1..]);
          var m :| 0 <= m < |s[1..]| && s[1..][m] == r[j];
          assert s[m + 1] == r[j];
        }
      }
      r
  }

  /** Inserting `x` puts it ahead of every element with the same key. */
  lemma {:induction false} InsertWithKey<T, K(!new)>(x: T, s: seq<T>, key: T -> K, le: (K, K) -> bool, k: K)
    requires Total(le)
    requires SortedBy(s, key, le)
    ensures WithKey(Insert(x, s, key, le), key, k) == WithKey([x] + s, key, k)
  {
    if |s| == 0 || le(key(x), key(s[0])) {
    } else {
      var rest := Insert(x, s[1..], key, le);
      assert Insert(x, s, key, le) == [s[0]] + rest;
      assert s == [s[0]] + s[1..];
      InsertWithKey(x, s[1..], key, le, k);
      WithKeyAppend([s[0]], rest, key, k);
      WithKeyAppend([x], s[1..], key, k);
      WithKeyAppend([s[0]], s[1..], key, k);
      WithKeyAppend([x], s, key, k);
      // x and s[0] cannot both have key k: x may not precede s[0], yet
      // equal keys may always precede each other.
      assert key(s[0]) == k ==> key(x) != k;
      assert WithKey([x], key, k) + WithKey([s[0]], key, k)
          == WithKey([s[0]], key, k) + WithKey([x], key, k);
    }
  }

  /** Stable insertion sort: a permutation of `s`, ordered by `le` on keys,
      keeping the input order among equal keys. */
  function SortBy<T, K(==,!new)>(s: seq<T>, key: T -> K, le: (K, K) -> bool): (r: seq<T>)
    requires Total(le)
    ensures |r| == |s|
    ensures multiset(r) == multiset(s)
    ensures SortedBy(r, key, le)
    ensures forall k :: WithKey(r, key, k) == WithKey(s, key, k)
  {
    if |s| == 0 then []
    else
      var r := Insert(s[0], SortBy(s[1..], key, le), key, le);
      assert s == [s[0]] + s[1..];
      assert |r| == |multiset(r)| == |s|;
      forall k
        ensures WithKey(r, key, k) == WithKey(s, key, k)
      {
        InsertWithKey(s[0], SortBy(s[1..], key, le), key, le, k);
        WithKeyAppend([s[0]], SortBy(s[1..], key, le), key, k);
        WithKeyAppend([s[0]], s[1..], key, k);
      }
      r
  }

  /** Sorting commutes with a map that keeps the key: sorting categories by
      name and then projecting them gives the projections sorted by name. */
  lemma {:induction false} MapSortBy<T, U, K(!new)>(s: seq<T>, f: T -> U, keyT: T -> K, keyU: U -> K,
                                                   le: (K, K) -> bool)
    requires Total(le)
    requires forall x :: keyU(f(x)) == keyT(x)
    ensures MapSeq(SortBy(s, keyT, le), f) == SortBy(MapSeq(s, f), keyU, le)
  {
    if |s| > 0 {
      MapSortBy(s[1..], f, keyT, keyU, le);
      assert MapSeq(s, f)[1..] == MapSeq(s[1..], f);
      MapInsert(s[0], SortBy(s[1..], keyT, le), f, keyT, keyU, le);
    }
  }

  lemma {:induction false} MapInsert<T, U, K(!new)>(x: T, s: seq<T>, f: T -> U, keyT: T -> K, keyU: U -> K,
                                                   le: (K, K) -> bool)
    requires Total(le)
    requires SortedBy(s, keyT, le)
    requires forall x :: keyU(f(x)) == keyT(x)
    ensures SortedBy(MapSeq(s, f), keyU, le)
    ensures MapSeq(Insert(x, s, keyT, le), f) == Insert(f(x), MapSeq(s, f), keyU, le)
  {
    if |s| > 0 && !le(keyT(x), keyT(s[0])) {
      MapInsert(x, s[1..], f, keyT, keyU, le);
      assert MapSeq(s, f)[1..] == MapSeq(s[1..], f);
    }
  }

  function MapSeq<T, U>(s: seq<T>, f: T -> U): (r: seq<U>)
    ensures |r| == |s|
    ensures forall i :: 0 <= i < |s| ==> r[i] == f(s[i])
  {
    seq(|s|, i requires 0 <= i < |s| => f(s[i]))
  }

  /** Where in `s` an element of `MapSeq(s, f)` comes from. */
  lemma MapSeqSource<T, U>(s: seq<T>, f: T -> U, y: U) returns (i: nat)
    requires y in MapSeq(s, f)
    ensures i < |s| && y == f(s[i])
  {
    i :| 0 <= i < |s| && MapSeq(s, f)[i] == y;
  }

  // -----------------------------------------------------------------------
  // String.compareTo

  /** `a` sorts no later than `b`: at the first differing position `a` has
      the smaller character, or `a` is a prefix of `b`. */
  predicate LexLe(a: string, b: string) {
    if |a| == 0 then true
    else if |b| == 0 then false
    else if a[0] != b[0] then a[0] < b[0]
    else LexLe(a[1..], b[1..])
  }

  /** Length of the longest common prefix of `a` and `b`: the index at which
      `String.compareTo`'s loop stops. */
  function CommonPrefix(a: string, b: string): (k: nat)
    ensures k <= |a| && k <= |b|
    ensures forall i :: 0 <= i < k ==> a[i] == b[i]
    ensures k < |a| && k < |b| ==> a[k] != b[k]
  {
    if |a| == 0 || |b| == 0 || a[0] != b[0] then 0
    else
      var k := CommonPrefix(a[1..], b[1..]);
      assert forall i :: 1 <= i < k + 1 ==> a[i] == a[1..][i - 1] && b[i] == b[1..][i - 1];
      k + 1
  }

  /** Java's `String.compareTo`: the difference of the first differing
      characters, or else the difference of the lengths. */
  function CompareTo(a: string, b: string): int {
    var k := CommonPrefix(a, b);
    if k < |a| && k < |b| then a[k] as int - b[k] as int else |a| - |b|
  }

  /** `LexLe` is the order `String.compareTo` defines:
      `LexLe(a, b)` iff `a.compareTo(b) <= 0`. */
  lemma {:induction false} LexLeIsCompareTo(a: string, b: string)
    ensures LexLe(a, b) <==> CompareTo(a, b) <= 0
  {
    if |a| > 0 && |b| > 0 && a[0] == b[0] {
      LexLeIsCompareTo(a[1..], b[1..]);
      var k := CommonPrefix(a[1..], b[1..]);
      assert CommonPrefix(a, b) == k + 1;
      if k < |a| - 1 && k < |b| - 1 {
        assert a[k + 1] == a[1..][k] && b[k + 1] == b[1..][k];
      }
    }
  }

  lemma {:induction false} LexLeTotal(a: string, b: string)
    ensures LexLe(a, b) || LexLe(b, a)
  {
    if |a| > 0 && |b| > 0 && a[0] == b[0] {
      LexLeTotal(a[1..], b[1..]);
    }
  }

  lemma {:induction false} LexLeAntisymmetric(a: string, b: string)
    requires LexLe(a, b) && LexLe(b, a)
    ensures a == b
  {
    if |a| > 0 && |b| > 0 {
      LexLeAntisymmetric(a[1..], b[1..]);
      assert a == [a[0]] + a[1..] && b == [b[0]] + b[1..];
    }
  }

  lemma {:induction false} LexLeTransitive(a: string, b: string, c: string)
    requires LexLe(a, b) && LexLe(b, c)
    ensures LexLe(a, c)
  {
    if |a| > 0 && |b| > 0 && |c| > 0 && a[0] == b[0] && b[0] == c[0] {
      LexLeTransitive(a[1..], b[1..], c[1..]);
    }
  }

  /** `LexLe` is a total order on strings. */
  lemma LexLeIsTotal()
    ensures Total(LexLe)
  {
    forall a: string, b: string
      ensures LexLe(a, b) || LexLe(b, a)
    {
      LexLeTotal(a, b);
    }
    forall a: string, b: string, c: string | LexLe(a, b) && LexLe(b, c)
      ensures LexLe(a, c)
    {
      LexLeTransitive(a, b, c);
    }
  }
}
