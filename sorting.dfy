/**
 * Ordering by a numeric key, as `Array.prototype.sort` with a comparator
 * `(a, b) => key(b) - key(a)` produces it and as `ORDER BY key DESC` is assumed to
 * produce it (SQLite leaves the order of rows with equal keys unspecified).
 *
 * `SortDescBy` is a stable insertion sort: an element is put after every element
 * whose key is at least its own, so elements with equal keys keep their input
 * order (`SortDescByStable`). `Array.prototype.sort` is required to be stable, so
 * for every input it yields exactly this sequence.
 */
module Sorting {

  /** Non-increasing by `key`. */
  ghost predicate SortedDescBy<T>(s: seq<T>, key: T -> int) {
    forall i, j :: 0 <= i < j < |s| ==> key(s[i]) >= key(s[j])
  }

  /** Puts `x` into `s` after every leading element whose key is at least `key(x)`. */
  function InsertDesc<T>(x: T, s: seq<T>, key: T -> int): (r: seq<T>)
    ensures |r| == |s| + 1
  {
    if s == [] then [x]
    else if key(s[0]) >= key(x) then [s[0]] + InsertDesc(x, s[1..], key)
    else [x] + s
  }

  lemma {:induction false} InsertDescPermutation<T>(x: T, s: seq<T>, key: T -> int)
    ensures multiset(InsertDesc(x, s, key)) == multiset(s) + multiset{x}
    decreases |s|
  {
    if s != [] && key(s[0]) >= key(x) {
      InsertDescPermutation(x, s[1..], key);
      assert s == [s[0]] + s[1..];
    }
  }

  /** Stable sort into non-increasing order of `key`. */
  function SortDescBy<T>(s: seq<T>, key: T -> int): (r: seq<T>)
    ensures |r| == |s|
  {
    if s == [] then []
    else InsertDesc(s[|s| - 1], SortDescBy(s[..|s| - 1], key), key)
  }

  /** Sorting only reorders: the result holds the same elements, as often as the input. */
  lemma {:induction false} SortDescByPermutation<T>(s: seq<T>, key: T -> int)
    ensures multiset(SortDescBy(s, key)) == multiset(s)
    decreases |s|
  {
    if s != [] {
      SortDescByPermutation(s[..|s| - 1], key);
      InsertDescPermutation(s[|s| - 1], SortDescBy(s[..|s| - 1], key), key);
      assert s == s[..|s| - 1] + [s[|s| - 1]];
    }
  }

  lemma {:induction false} InsertDescSorted<T>(x: T, s: seq<T>, key: T -> int)
    requires SortedDescBy(s, key)
    ensures SortedDescBy(InsertDesc(x, s, key), key)
    decreases |s|
  {
    if s != [] && key(s[0]) >= key(x) {
      var rest := InsertDesc(x, s[1..], key);
      InsertDescSorted(x, s[1..], key);
      InsertDescPermutation(x, s[1..], key);
      forall k | 0 <= k < |rest| ensures key(s[0]) >= key(rest[k]) {
        assert rest[k] in multiset(rest);
        assert rest[k] == x || rest[k] in multiset(s[1..]);
        if rest[k] != x {
          var m :| 0 <= m < |s[1..]| && s[1..][m] == rest[k];
          assert s[m + 1] == rest[k];
        }
      }
    }
  }

  /** The result of `SortDescBy` is ordered by `key`, from the largest key down. */
  lemma {:induction false} SortDescBySorted<T>(s: seq<T>, key: T -> int)
    ensures SortedDescBy(SortDescBy(s, key), key)
    decreases |s|
  {
    if s != [] {
      SortDescBySorted(s[..|s| - 1], key);
      InsertDescSorted(s[|s| - 1], SortDescBy(s[..|s| - 1], key), key);
    }
  }

  /** A prefix of a sorted sequence is sorted. */
  lemma PrefixSorted<T>(s: seq<T>, key: T -> int, m: nat)
    requires m <= |s| && SortedDescBy(s, key)
    ensures SortedDescBy(s[..m], key)
  {
    forall i, j | 0 <= i < j < m ensures key(s[..m][i]) >= key(s[..m][j]) {
      assert s[..m][i] == s[i] && s[..m][j] == s[j];
    }
  }

  /** The elements of `s` whose key is `k`, in their order in `s`. */
  function WithKey<T>(s: seq<T>, key: T -> int, k: int): seq<T> {
    if s == [] then [] else (if key(s[0]) == k then [s[0]] else []) + WithKey(s[1..], key, k)
  }

  lemma {:induction false} WithKeyConcat<T>(a: seq<T>, b: seq<T>, key: T -> int, k: int)
    ensures WithKey(a + b, key, k) == WithKey(a, key, k) + WithKey(b, key, k)
    decreases |a|
  {
    if a == [] {
      assert a + b == b;
    } else {
      var head := if key(a[0]) == k then [a[0]] else [];
      var ab := a + b;
      assert ab[0] == a[0] && ab[1..] == a[1..] + b;
      WithKeyConcat(a[1..], b, key, k);
      calc {
        WithKey(ab, key, k);
        head + WithKey(a[1..] + b, key, k);
        head + (WithKey(a[1..], key, k) + WithKey(b, key, k));
        (head + WithKey(a[1..], key, k)) + WithKey(b, key, k);
      }
    }
  }

  lemma {:induction false} WithKeyNone<T>(s: seq<T>, key: T -> int, k: int)
    requires forall i :: 0 <= i < |s| ==> key(s[i]) < k
    ensures WithKey(s, key, k) == []
    decreases |s|
  {
    if s != [] {
      WithKeyNone(s[1..], key, k);
    }
  }

  lemma SortedTail<T>(s: seq<T>, key: T -> int)
    requires s != [] && SortedDescBy(s, key)
    ensures SortedDescBy(s[1..], key)
  {
    forall i, j | 0 <= i < j < |s| - 1 ensures key(s[1..][i]) >= key(s[1..][j]) {
      assert s[1..][i] == s[i + 1] && s[1..][j] == s[j + 1];
    }
  }

  /** Inserting into a sorted sequence puts `x` after every element with its key. */
  lemma {:induction false} InsertDescWithKey<T>(x: T, s: seq<T>, key: T -> int, k: int)
    requires SortedDescBy(s, key)
    ensures WithKey(InsertDesc(x, s, key), key, k)
      == WithKey(s, key, k) + (if key(x) == k then [x] else [])
    decreases |s|
  {
    var fx := if key(x) == k then [x] else [];
    if s == [] {
      assert [x][1..] == [];
    } else {
      var head := if key(s[0]) == k then [s[0]] else [];
      assert WithKey(s, key, k) == head + WithKey(s[1..], key, k);
      if key(s[0]) >= key(x) {
        var rest := InsertDesc(x, s[1..], key);
        var r := [s[0]] + rest;
        assert r[0] == s[0] && r[1..] == rest;
        SortedTail(s, key);
        InsertDescWithKey(x, s[1..], key, k);
        calc {
          WithKey(r, key, k);
          head + WithKey(rest, key, k);
          head + (WithKey(s[1..], key, k) + fx);
          (head + WithKey(s[1..], key, k)) + fx;
        }
      } else {
        var r := [x] + s;
        assert r[0] == x && r[1..] == s;
        assert WithKey(r, key, k) == fx + WithKey(s, key, k);
        if key(x) == k {
          forall i | 0 <= i < |s| ensures key(s[i]) < k {
            assert key(s[0]) >= key(s[i]);
          }
          WithKeyNone(s, key, k);
        }
      }
    }
  }

  /** Stability: the elements with any one key appear in the sorted sequence in the
      same order as in the input. */
  lemma {:induction false} SortDescByStable<T>(s: seq<T>, key: T -> int, k: int)
    ensures WithKey(SortDescBy(s, key), key, k) == WithKey(s, key, k)
    decreases |s|
  {
    if s != [] {
      var init := s[..|s| - 1];
      var last := s[|s| - 1];
      SortDescByStable(init, key, k);
      SortDescBySorted(init, key);
      InsertDescWithKey(last, SortDescBy(init, key), key, k);
      WithKeyConcat(init, [last], key, k);
      assert s == init + [last];
      assert WithKey([last], key, k) == (if key(last) == k then [last] else []) by {
        assert [last][1..] == [];
      }
    }
  }

  /** Where the insertion lands: after the `j` elements whose keys are at least
      `key(x)` and before the remaining ones, whose keys are smaller. */
  lemma {:induction false} InsertDescAt<T>(x: T, s: seq<T>, key: T -> int, j: nat)
    requires j <= |s|
    requires forall k :: 0 <= k < j ==> key(s[k]) >= key(x)
    requires forall k :: j <= k < |s| ==> key(s[k]) < key(x)
    ensures InsertDesc(x, s, key) == s[..j] + [x] + s[j..]
    decreases j
  {
    if j > 0 {
      InsertDescAt(x, s[1..], key, j - 1);
      assert s[..j] == [s[0]] + s[1..][..j - 1];
      assert s[j..] == s[1..][j - 1..];
    }
  }

  /** Sorts `a` in place by insertion, moving each element left past the elements
      with a smaller key; the result is `SortDescBy` of the original contents. */
  method SortDescInPlace<T>(a: array<T>, key: T -> int)
    modifies a
    ensures a[..] == SortDescBy(old(a[..]), key)
  {
    ghost var orig := a[..];
    var i := 0;
    while i < a.Length
      invariant 0 <= i <= a.Length
      invariant a[..i] == SortDescBy(orig[..i], key)
      invariant a[i..] == orig[i..]
    {
      ghost var rest := a[i + 1..];
      assert rest == orig[i + 1..];
      assert a[i] == orig[i];
      var j := InsertLast(a, i, key);
      SortStep(orig, key, i, j);
      i := i + 1;
    }
    assert orig[..a.Length] == orig;
  }

  /** One step of the insertion sort: `a[i]` moves left past the elements just before
      it whose key is smaller than its own, and lands at index `j`; nothing else moves. */
  method InsertLast<T>(a: array<T>, i: nat, key: T -> int) returns (j: nat)
    requires i < a.Length
    modifies a
    ensures j <= i
    ensures a[..i + 1] == old(a[..i])[..j] + [old(a[i])] + old(a[..i])[j..]
    ensures a[i + 1..] == old(a[i + 1..])
    ensures j > 0 ==> key(old(a[..i])[j - 1]) >= key(old(a[i]))
    ensures forall k :: j <= k < i ==> key(old(a[..i])[k]) < key(old(a[i]))
  {
    ghost var p := a[..i];
    var x := a[i];
    var kx := key(x);
    ghost var pk := seq(i, k requires 0 <= k < i => key(p[k]));
    j := i;
    while j > 0 && key(a[j - 1]) < kx
      invariant 0 <= j <= i
      invariant forall k :: 0 <= k < j ==> a[k] == p[k]
      invariant forall k :: j < k <= i ==> a[k] == p[k - 1]
      invariant forall k :: i < k < a.Length ==> a[k] == old(a[k])
      invariant forall k :: j <= k < i ==> pk[k] < kx
    {
      a[j] := a[j - 1];
      j := j - 1;
    }
    a[j] := x;
    assert forall k :: j <= k < i ==> key(p[k]) < kx by {
      assert forall k :: 0 <= k < i ==> pk[k] == key(p[k]);
    }
    SpliceAt(a[..i + 1], p, x, j);
  }

  /** The insertion-sort step on the specification side: inserting `s[i]` into the
      sorted prefix at the index where the array step left it gives the sorted
      `s[..i + 1]`. */
  lemma SortStep<T>(s: seq<T>, key: T -> int, i: nat, j: nat)
    requires i < |s| && j <= i
    requires var p := SortDescBy(s[..i], key);
      && (j > 0 ==> key(p[j - 1]) >= key(s[i]))
      && (forall k :: j <= k < i ==> key(p[k]) < key(s[i]))
    ensures var p := SortDescBy(s[..i], key);
      SortDescBy(s[..i + 1], key) == p[..j] + [s[i]] + p[j..]
  {
    var p := SortDescBy(s[..i], key);
    assert s[..i + 1][..i] == s[..i];
    SortDescBySorted(s[..i], key);
    InsertDescSplit(s[i], p, key, j);
  }

  /** In a sorted sequence, `x` is inserted right after the last element whose key
      is at least `key(x)`. */
  lemma InsertDescSplit<T>(x: T, s: seq<T>, key: T -> int, j: nat)
    requires SortedDescBy(s, key) && j <= |s|
    requires j == 0 || key(s[j - 1]) >= key(x)
    requires forall k :: j <= k < |s| ==> key(s[k]) < key(x)
    ensures InsertDesc(x, s, key) == s[..j] + [x] + s[j..]
  {
    InsertDescAt(x, s, key, j);
  }

  /** A sequence that agrees, position by position, with `s` with `x` spliced in at `j`. */
  lemma SpliceAt<T>(r: seq<T>, s: seq<T>, x: T, j: nat)
    requires j <= |s| && |r| == |s| + 1 && r[j] == x
    requires forall k :: 0 <= k < j ==> r[k] == s[k]
    requires forall k :: j < k < |r| ==> r[k] == s[k - 1]
    ensures r == s[..j] + [x] + s[j..]
  {
  }

  /** Growing a prefix by one element: the shorter prefix is the longer one's prefix. */
  lemma PrefixStep<T>(s: seq<T>, i: nat)
    requires i < |s|
    ensures s[..i + 1][..i] == s[..i] && s[..i + 1][i] == s[i]
  {
  }

  lemma PrefixWhole<T>(s: seq<T>)
    ensures s[..|s|] == s
  {
  }

  /** The sum of `f` over the elements of `s`. */
  function SumBy<T>(s: seq<T>, f: T -> int): int {
    if s == [] then 0 else f(s[0]) + SumBy(s[1..], f)
  }

  lemma {:induction false} SumByConcat<T>(a: seq<T>, b: seq<T>, f: T -> int)
    ensures SumBy(a + b, f) == SumBy(a, f) + SumBy(b, f)
    decreases |a|
  {
    if a == [] {
      assert a + b == b;
    } else {
      assert (a + b)[1..] == a[1..] + b;
      SumByConcat(a[1..], b, f);
    }
  }

  lemma MultisetRemove<T>(a: seq<T>, b: seq<T>, k: nat)
    requires multiset(a) == multiset(b) && a != [] && k < |b| && b[k] == a[0]
    ensures multiset(a[1..]) == multiset(b[..k] + b[k + 1..])
  {
    assert a == [a[0]] + a[1..];
    assert b == b[..k] + [b[k]] + b[k + 1..];
    calc {
      multiset(a[1..]);
      multiset(a) - multiset{a[0]};
      multiset(b) - multiset{a[0]};
      multiset(b[..k]) + multiset(b[k + 1..]);
      multiset(b[..k] + b[k + 1..]);
    }
  }

  /** A sum does not depend on the order of its terms: reordering the elements
      (as any sort does) keeps every `SumBy`. */
  lemma {:induction false} SumByPermutation<T>(a: seq<T>, b: seq<T>, f: T -> int)
    requires multiset(a) == multiset(b)
    ensures SumBy(a, f) == SumBy(b, f)
    decreases |a|
  {
    if a == [] {
      assert |b| == |multiset(b)| == 0;
    } else {
      var x := a[0];
      assert x in multiset(b);
      var k :| 0 <= k < |b| && b[k] == x;
      var rest := b[..k] + b[k + 1..];
      assert b == b[..k] + ([x] + b[k + 1..]);
      MultisetRemove(a, b, k);
      SumByPermutation(a[1..], rest, f);
      SumByConcat(b[..k], [x] + b[k + 1..], f);
      SumByConcat(b[..k], b[k + 1..], f);
      assert ([x] + b[k + 1..])[1..] == b[k + 1..];
    }
  }
}
