/**
 * Lists whose elements are identified by a key: the `find`, `filter` and
 * "replace by id, else append" idioms that both the socket server's
 * `onlineUser` list and the comment page's `comments` state are built from.
 * The key is given as a function (`c => c.id`, `u => u.userId`, ...).
 */
module Keyed {
  import opened Wrappers

  /** Some element of `xs` has key `k` (`xs.find(x => key(x) === k)` is truthy). */
  predicate Has<T, K(==)>(xs: seq<T>, k: K, key: T -> K) {
    exists i :: 0 <= i < |xs| && key(xs[i]) == k
  }

  /** No two elements of `xs` share a key. */
  predicate Unique<T, K(==)>(xs: seq<T>, key: T -> K) {
    forall i, j :: 0 <= i < j < |xs| ==> key(xs[i]) != key(xs[j])
  }

  /** `xs.find(x => key(x) === k)`: the first element with key `k`, if any. */
  function Find<T, K(==)>(xs: seq<T>, k: K, key: T -> K): (r: Option<T>)
    ensures r.None? <==> !Has(xs, k, key)
    ensures r.Some? ==> r.value in xs && key(r.value) == k
  {
    if xs == [] then None
    else if key(xs[0]) == k then Some(xs[0])
    else
      assert forall i :: 1 <= i < |xs| ==> xs[1..][i - 1] == xs[i];
      Find(xs[1..], k, key)
  }

  /** `Find` returns the element at the first position whose key matches. */
  lemma {:induction false} FindFirst<T, K>(xs: seq<T>, k: K, key: T -> K, i: int)
    requires 0 <= i < |xs| && key(xs[i]) == k
    requires forall j :: 0 <= j < i ==> key(xs[j]) != k
    ensures Find(xs, k, key) == Some(xs[i])
  {
    if i > 0 {
      FindFirst(xs[1..], k, key, i - 1);
    }
  }

  /** How many elements of `xs` have key `k`. */
  function Count<T, K(==)>(xs: seq<T>, k: K, key: T -> K): (n: nat)
    ensures n <= |xs|
    ensures n == 0 <==> !Has(xs, k, key)
  {
    if xs == [] then 0
    else
      var init := xs[..|xs| - 1];
      assert forall i :: 0 <= i < |init| ==> init[i] == xs[i];
      Count(init, k, key) + (if key(xs[|xs| - 1]) == k then 1 else 0)
  }

  /** In a list without duplicate keys, a present key occurs exactly once. */
  lemma {:induction false} CountUnique<T, K>(xs: seq<T>, k: K, key: T -> K)
    requires Unique(xs, key) && Has(xs, k, key)
    ensures Count(xs, k, key) == 1
  {
    var init := xs[..|xs| - 1];
    assert Unique(init, key);
    if key(xs[|xs| - 1]) == k {
      assert !Has(init, k, key);
    } else {
      var i :| 0 <= i < |xs| && key(xs[i]) == k;
      assert key(init[i]) == k;
      CountUnique(init, k, key);
    }
  }

  /** `xs.map(y => key(y) === key(x) ? x : y)`: every element with `x`'s key becomes `x`. */
  function Replace<T, K(==)>(xs: seq<T>, x: T, key: T -> K): (r: seq<T>)
    ensures |r| == |xs|
    ensures forall i :: 0 <= i < |xs| ==> r[i] == if key(xs[i]) == key(x) then x else xs[i]
  {
    if xs == [] then []
    else [if key(xs[0]) == key(x) then x else xs[0]] + Replace(xs[1..], x, key)
  }

  /**
   * Insert-or-replace by key: if an element with `x`'s key exists, every such
   * element is replaced in place; otherwise `x` is appended at the end.
   */
  function Upsert<T, K(==)>(xs: seq<T>, x: T, key: T -> K): (r: seq<T>)
    ensures x in r
    ensures Has(xs, key(x), key) ==> |r| == |xs|
    ensures !Has(xs, key(x), key) ==> r == xs + [x]
    ensures forall i :: 0 <= i < |xs| ==> key(r[i]) == key(xs[i])
    ensures forall i :: 0 <= i < |xs| && key(xs[i]) != key(x) ==> r[i] == xs[i]
    ensures forall i :: 0 <= i < |r| && key(r[i]) == key(x) ==> r[i] == x
  {
    if Has(xs, key(x), key) then Replace(xs, x, key) else xs + [x]
  }

  /** Delivering the same element twice has the effect of delivering it once. */
  lemma UpsertIdempotent<T, K>(xs: seq<T>, x: T, key: T -> K)
    ensures Upsert(Upsert(xs, x, key), x, key) == Upsert(xs, x, key)
  {
  }

  /** Upserting keeps keys unique, and afterwards `x`'s key occurs exactly once. */
  lemma UpsertKeepsUnique<T, K>(xs: seq<T>, x: T, key: T -> K)
    requires Unique(xs, key)
    ensures Unique(Upsert(xs, x, key), key)
    ensures Count(Upsert(xs, x, key), key(x), key) == 1
  {
    var r := Upsert(xs, x, key);
    if !Has(xs, key(x), key) {
      assert r == xs + [x];
    }
    assert Has(r, key(x), key) by {
      var i :| 0 <= i < |r| && r[i] == x;
    }
    CountUnique(r, key(x), key);
  }

  /** `xs.filter(y => key(y) !== k)`: drop every element with key `k`, keep the rest in order. */
  function Without<T, K(==)>(xs: seq<T>, k: K, key: T -> K): (r: seq<T>)
    ensures forall i :: 0 <= i < |r| ==> r[i] in xs && key(r[i]) != k
    ensures forall i :: 0 <= i < |xs| && key(xs[i]) != k ==> xs[i] in r
    ensures |r| <= |xs|
    ensures !Has(r, k, key)
    ensures !Has(xs, k, key) ==> r == xs
  {
    if xs == [] then []
    else
      assert forall i :: 1 <= i < |xs| ==> xs[1..][i - 1] == xs[i];
      (if key(xs[0]) == k then [] else [xs[0]]) + Without(xs[1..], k, key)
  }

  /** Filtering distributes over concatenation, which is what "keeps the others in their original order" means. */
  lemma {:induction false} WithoutConcat<T, K>(a: seq<T>, b: seq<T>, k: K, key: T -> K)
    ensures Without(a + b, k, key) == Without(a, k, key) + Without(b, k, key)
  {
    if a == [] {
      assert a + b == b;
    } else {
      var ab := a + b;
      assert ab[0] == a[0] && ab[1..] == a[1..] + b;
      assert Without(ab, k, key) == (if key(a[0]) == k then [] else [a[0]]) + Without(a[1..] + b, k, key);
      WithoutConcat(a[1..], b, k, key);
    }
  }

  /** Filtering twice by the same key is filtering once. */
  lemma WithoutIdempotent<T, K>(xs: seq<T>, k: K, key: T -> K)
    ensures Without(Without(xs, k, key), k, key) == Without(xs, k, key)
  {
  }

  /** Filtering on one key never breaks uniqueness of another. */
  lemma {:induction false} WithoutKeepsUnique<T, K, L>(xs: seq<T>, k: K, key: T -> K, id: T -> L)
    ensures Unique(xs, id) ==> Unique(Without(xs, k, key), id)
  {
    if xs != [] && Unique(xs, id) {
      var rest := xs[1..];
      assert Unique(rest, id);
      WithoutKeepsUnique(rest, k, key, id);
      var tail := Without(rest, k, key);
      forall i | 0 <= i < |tail| ensures id(tail[i]) != id(xs[0]) {
        var j :| 0 <= j < |rest| && rest[j] == tail[i];
        assert xs[j + 1] == tail[i];
      }
    }
  }

  /** Removing one key and upserting an element with a different key commute. */
  lemma UpsertWithoutCommute<T, K>(xs: seq<T>, x: T, k: K, key: T -> K)
    requires key(x) != k
    ensures Without(Upsert(xs, x, key), k, key) == Upsert(Without(xs, k, key), x, key)
  {
    if Has(xs, key(x), key) {
      var i :| 0 <= i < |xs| && key(xs[i]) == key(x);
      assert xs[i] in Without(xs, k, key);
      ReplaceWithoutCommute(xs, x, k, key);
    } else {
      WithoutConcat(xs, [x], k, key);
    }
  }

  lemma {:induction false} ReplaceWithoutCommute<T, K>(xs: seq<T>, x: T, k: K, key: T -> K)
    requires key(x) != k
    ensures Without(Replace(xs, x, key), k, key) == Replace(Without(xs, k, key), x, key)
  {
    if xs != [] {
      ReplaceWithoutCommute(xs[1..], x, k, key);
      var h := if key(xs[0]) == key(x) then x else xs[0];
      assert Replace(xs, x, key) == [h] + Replace(xs[1..], x, key);
      assert Replace(xs, x, key)[1..] == Replace(xs[1..], x, key);
      if key(xs[0]) != k {
        assert Without(xs, k, key) == [xs[0]] + Without(xs[1..], k, key);
        assert Replace(Without(xs, k, key), x, key)
            == [h] + Replace(Without(xs[1..], k, key), x, key);
      }
    }
  }
}
