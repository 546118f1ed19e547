/**
 * Reordering of the displayed tweets. The view model sorts with Kotlin's
 * `sortBy` / `sortWith(compareBy(...))`, which are ascending and stable.
 * The order is specified here by a functional insertion sort, `Sort`, whose
 * properties are proved as lemmas; `SortInPlace` performs the same sort in
 * place on an array and is proved equal to it.
 */
module TweetSort {
  import opened Wrappers
  import opened Constants
  import opened TweetModel

  /** The three orders `sortTweets` can apply. */
  datatype SortOrder = ByRetweets | ByFavourites | ByRetweetsThenFavourites

  /** The `when (sortBy)` dispatch: the two named keys, and everything else
      (including null) falls to the lexicographic order. */
  function OrderFor(sortBy: Option<string>): (o: SortOrder)
    ensures o == ByRetweets <==> sortBy == Some(SortByRetweets)
    ensures o == ByFavourites <==> sortBy == Some(SortByFavorites)
    ensures o == ByRetweetsThenFavourites <==>
              sortBy != Some(SortByRetweets) && sortBy != Some(SortByFavorites)
  {
    if sortBy == Some(SortByRetweets) then ByRetweets
    else if sortBy == Some(SortByFavorites) then ByFavourites
    else ByRetweetsThenFavourites
  }

  /** The sort key of a tweet under an order; a single-counter order uses 0 as
      the second component, so that it never separates two tweets. */
  function Key(o: SortOrder, t: Tweet): (int, int) {
    match o
    case ByRetweets => (t.retweetCount, 0)
    case ByFavourites => (t.favouriteCount, 0)
    case ByRetweetsThenFavourites => (t.retweetCount, t.favouriteCount)
  }

  /** Lexicographic strict order on keys, as `compareBy` compares them. */
  predicate KeyLess(k: (int, int), m: (int, int)) {
    k.0 < m.0 || (k.0 == m.0 && k.1 < m.1)
  }

  /** `x` sorts strictly before `y`. */
  predicate Before(o: SortOrder, x: Tweet, y: Tweet) {
    KeyLess(Key(o, x), Key(o, y))
  }

  /** Non-decreasing under the order: no later element sorts before an earlier one. */
  predicate Ordered(o: SortOrder, s: seq<Tweet>) {
    forall i, j :: 0 <= i < j < |s| ==> !Before(o, s[j], s[i])
  }

  /** The elements of `s` whose key is `k`, in their order in `s`. */
  function WithKey(o: SortOrder, k: (int, int), s: seq<Tweet>): seq<Tweet> {
    if s == [] then []
    else (if Key(o, s[0]) == k then [s[0]] else []) + WithKey(o, k, s[1..])
  }

  /** Stability: for every key, `r` holds the same tweets with that key as `s`,
      in the same relative order. */
  ghost predicate SameTies(o: SortOrder, r: seq<Tweet>, s: seq<Tweet>) {
    forall k :: WithKey(o, k, r) == WithKey(o, k, s)
  }

  /** Inserts `x` after every element of `t` that does not sort after it. */
  function Insert(o: SortOrder, t: seq<Tweet>, x: Tweet): seq<Tweet>
    decreases |t|
  {
    if t == [] || !Before(o, x, t[|t| - 1]) then t + [x]
    else Insert(o, t[..|t| - 1], x) + [t[|t| - 1]]
  }

  /** Insertion sort, inserting the elements from left to right. */
  function Sort(o: SortOrder, s: seq<Tweet>): seq<Tweet>
    decreases |s|
  {
    if s == [] then [] else Insert(o, Sort(o, s[..|s| - 1]), s[|s| - 1])
  }

  // ---------------------------------------------------------------- WithKey

  lemma {:induction false} WithKeyAppend(o: SortOrder, k: (int, int), s: seq<Tweet>, t: seq<Tweet>)
    ensures WithKey(o, k, s + t) == WithKey(o, k, s) + WithKey(o, k, t)
    decreases |s|
  {
    if s == [] {
      assert s + t == t;
    } else {
      assert (s + t)[1..] == s[1..] + t;
      WithKeyAppend(o, k, s[1..], t);
    }
  }

  lemma {:induction false} WithKeyMembers(o: SortOrder, k: (int, int), s: seq<Tweet>, x: Tweet)
    ensures x in WithKey(o, k, s) <==> x in s && Key(o, x) == k
    decreases |s|
  {
    if s != [] {
      WithKeyMembers(o, k, s[1..], x);
      assert s == [s[0]] + s[1..];
    }
  }

  lemma WithKeySingle(o: SortOrder, k: (int, int), x: Tweet)
    ensures WithKey(o, k, [x]) == if Key(o, x) == k then [x] else []
  {
  }

  // ---------------------------------------------------------------- Insert

  lemma {:induction false} InsertMultiset(o: SortOrder, t: seq<Tweet>, x: Tweet)
    ensures multiset(Insert(o, t, x)) == multiset(t) + multiset{x}
    decreases |t|
  {
    if t != [] && Before(o, x, t[|t| - 1]) {
      var n := |t| - 1;
      InsertMultiset(o, t[..n], x);
      assert t == t[..n] + [t[n]];
    }
  }

  /** Every element of `Insert(o, t, x)` is `x` or an element of `t`. */
  lemma InsertMember(o: SortOrder, t: seq<Tweet>, x: Tweet, y: Tweet)
    requires y in Insert(o, t, x)
    ensures y == x || y in t
  {
    InsertMultiset(o, t, x);
  }

  /** Appending an element that nothing in `r` sorts after keeps `r` ordered. */
  lemma OrderedSnoc(o: SortOrder, r: seq<Tweet>, z: Tweet)
    requires Ordered(o, r)
    requires forall y :: y in r ==> !Before(o, z, y)
    ensures Ordered(o, r + [z])
  {
  }

  lemma {:induction false} InsertOrdered(o: SortOrder, t: seq<Tweet>, x: Tweet)
    requires Ordered(o, t)
    ensures Ordered(o, Insert(o, t, x))
    decreases |t|
  {
    var n := |t| - 1;
    if t == [] {
    } else if !Before(o, x, t[n]) {
      forall y | y in t ensures !Before(o, x, y) {
        var m :| 0 <= m < |t| && t[m] == y;
      }
      OrderedSnoc(o, t, x);
    } else {
      var init, last := t[..n], t[n];
      var r := Insert(o, init, x);
      assert Insert(o, t, x) == r + [last];
      InsertOrdered(o, init, x);
      forall y | y in r ensures !Before(o, last, y) {
        InsertMember(o, init, x, y);
        if y != x {
          var m :| 0 <= m < n && init[m] == y;
        }
      }
      OrderedSnoc(o, r, last);
    }
  }

  /** The step case of `InsertSameTies`, with the recursive insertion `r`
      taken as given: `x` sorts strictly before `last`, so at most one of the
      two has key `k`, and their order in the result does not matter. */
  lemma SameTiesPastLast(o: SortOrder, init: seq<Tweet>, last: Tweet, x: Tweet, r: seq<Tweet>, k: (int, int))
    requires Before(o, x, last)
    requires WithKey(o, k, r) == WithKey(o, k, init) + WithKey(o, k, [x])
    ensures WithKey(o, k, r + [last]) == WithKey(o, k, init + [last]) + WithKey(o, k, [x])
  {
    WithKeyAppend(o, k, r, [last]);
    WithKeyAppend(o, k, init, [last]);
    WithKeySingle(o, k, x);
    WithKeySingle(o, k, last);
  }

  lemma {:induction false} InsertSameTies(o: SortOrder, t: seq<Tweet>, x: Tweet, k: (int, int))
    ensures WithKey(o, k, Insert(o, t, x)) == WithKey(o, k, t) + WithKey(o, k, [x])
    decreases |t|
  {
    if t == [] || !Before(o, x, t[|t| - 1]) {
      WithKeyAppend(o, k, t, [x]);
    } else {
      var n := |t| - 1;
      InsertSameTies(o, t[..n], x, k);
      SameTiesPastLast(o, t[..n], t[n], x, Insert(o, t[..n], x), k);
      assert t[..n] + [t[n]] == t;
    }
  }

  // ---------------------------------------------------------------- Sort

  /** The sort returns a permutation of its input. */
  lemma {:induction false} SortPermutes(o: SortOrder, s: seq<Tweet>)
    ensures multiset(Sort(o, s)) == multiset(s)
    decreases |s|
  {
    if s != [] {
      var n := |s| - 1;
      SortPermutes(o, s[..n]);
      InsertMultiset(o, Sort(o, s[..n]), s[n]);
      assert s == s[..n] + [s[n]];
    }
  }

  /** The sort's result is non-decreasing under the chosen order. */
  lemma {:induction false} SortOrdered(o: SortOrder, s: seq<Tweet>)
    ensures Ordered(o, Sort(o, s))
    decreases |s|
  {
    if s != [] {
      var n := |s| - 1;
      SortOrdered(o, s[..n]);
      InsertOrdered(o, Sort(o, s[..n]), s[n]);
    }
  }

  /** The sort is stable: tweets with equal keys keep their relative order. */
  lemma {:induction false} SortStable(o: SortOrder, s: seq<Tweet>)
    ensures SameTies(o, Sort(o, s), s)
    decreases |s|
  {
    if s != [] {
      var n := |s| - 1;
      SortStable(o, s[..n]);
      forall k ensures WithKey(o, k, Sort(o, s)) == WithKey(o, k, s) {
        InsertSameTies(o, Sort(o, s[..n]), s[n], k);
        WithKeyAppend(o, k, s[..n], [s[n]]);
        assert s == s[..n] + [s[n]];
      }
    }
  }

  /** A sequence with the same ties as the empty one is empty. */
  lemma SameTiesEmpty(o: SortOrder, a: seq<Tweet>, b: seq<Tweet>)
    requires SameTies(o, a, b) && a == []
    ensures b == []
  {
    if b != [] {
      WithKeyMembers(o, Key(o, b[0]), b, b[0]);
    }
  }

  /** The last elements of two non-empty ordered sequences with the same ties
      have the same key: each occurs in the other sequence, so neither sorts
      after the other. */
  lemma SameTiesLastKey(o: SortOrder, a: seq<Tweet>, b: seq<Tweet>)
    requires Ordered(o, a) && Ordered(o, b) && SameTies(o, a, b)
    requires a != [] && b != []
    ensures Key(o, a[|a| - 1]) == Key(o, b[|b| - 1])
  {
    var x, y := a[|a| - 1], b[|b| - 1];
    WithKeyMembers(o, Key(o, y), b, y);
    WithKeyMembers(o, Key(o, y), a, y);
    WithKeyMembers(o, Key(o, x), a, x);
    WithKeyMembers(o, Key(o, x), b, x);
    var i :| 0 <= i < |a| && a[i] == y;
    var j :| 0 <= j < |b| && b[j] == x;
    assert !Before(o, x, y) && !Before(o, y, x);
  }

  /** Two sequences with the same ties whose last elements share a key end in
      the same element, and keep the same ties without it. */
  lemma SameTiesDropLast(o: SortOrder, a: seq<Tweet>, b: seq<Tweet>)
    requires SameTies(o, a, b) && a != [] && b != []
    requires Key(o, a[|a| - 1]) == Key(o, b[|b| - 1])
    ensures a[|a| - 1] == b[|b| - 1]
    ensures SameTies(o, a[..|a| - 1], b[..|b| - 1])
  {
    var n, m := |a| - 1, |b| - 1;
    var x, y := a[n], b[m];
    var kx := Key(o, x);
    assert a == a[..n] + [x];
    assert b == b[..m] + [y];
    var wa, wb := WithKey(o, kx, a[..n]), WithKey(o, kx, b[..m]);
    WithKeyAppend(o, kx, a[..n], [x]);
    WithKeyAppend(o, kx, b[..m], [y]);
    WithKeySingle(o, kx, x);
    WithKeySingle(o, kx, y);
    assert wa + [x] == wb + [y];
    assert |wa| == |wb|;
    assert x == (wa + [x])[|wa|] == (wb + [y])[|wb|] == y;
    assert wa == (wa + [x])[..|wa|] == (wb + [y])[..|wb|] == wb;
    forall k ensures WithKey(o, k, a[..n]) == WithKey(o, k, b[..m]) {
      WithKeyAppend(o, k, a[..n], [x]);
      WithKeyAppend(o, k, b[..m], [y]);
      WithKeySingle(o, k, x);
      WithKeySingle(o, k, y);
      assert WithKey(o, k, a) == WithKey(o, k, b);
      assert WithKey(o, k, a) == WithKey(o, k, a[..n]) + WithKey(o, k, [x]);
      assert WithKey(o, k, b) == WithKey(o, k, b[..m]) + WithKey(o, k, [y]);
      if k != kx {
        assert WithKey(o, k, [x]) == [] == WithKey(o, k, [y]);
        assert WithKey(o, k, a[..n]) == WithKey(o, k, a);
        assert WithKey(o, k, b[..m]) == WithKey(o, k, b);
      } else {
        assert WithKey(o, k, a[..n]) == wa;
        assert WithKey(o, k, b[..m]) == wb;
      }
    }
  }

  /** Two ordered sequences with the same ties are equal. */
  lemma {:induction false} OrderedSameTiesEqual(o: SortOrder, a: seq<Tweet>, b: seq<Tweet>)
    requires Ordered(o, a) && Ordered(o, b)
    requires SameTies(o, a, b)
    ensures a == b
    decreases |a|
  {
    if a == [] {
      SameTiesEmpty(o, a, b);
    } else if b == [] {
      SameTiesEmpty(o, b, a);
    } else {
      SameTiesLastKey(o, a, b);
      SameTiesDropLast(o, a, b);
      OrderedSameTiesEqual(o, a[..|a| - 1], b[..|b| - 1]);
      assert a == a[..|a| - 1] + [a[|a| - 1]];
      assert b == b[..|b| - 1] + [b[|b| - 1]];
    }
  }

  /** Being ordered and stable determines the result: every stable ascending
      sort (in particular the library's) returns exactly `Sort(o, s)`. */
  lemma SortUnique(o: SortOrder, s: seq<Tweet>, r: seq<Tweet>)
    requires Ordered(o, r) && SameTies(o, r, s)
    ensures r == Sort(o, s)
  {
    SortOrdered(o, s);
    SortStable(o, s);
    OrderedSameTiesEqual(o, r, Sort(o, s));
  }

  /** Sorting an already sorted list changes nothing. */
  lemma SortIdempotent(o: SortOrder, s: seq<Tweet>)
    ensures Sort(o, Sort(o, s)) == Sort(o, s)
  {
    SortOrdered(o, s);
    SortUnique(o, Sort(o, s), Sort(o, s));
  }

  // ---------------------------------------------------------------- in place

  /** Where `Insert` puts `x`: after the prefix of `t` up to the last element
      that does not sort after `x`, when everything behind that point sorts
      strictly after it. */
  lemma {:induction false} InsertAt(o: SortOrder, t: seq<Tweet>, x: Tweet, j: nat)
    requires j <= |t| && (j == 0 || !Before(o, x, t[j - 1]))
    requires forall k :: j <= k < |t| ==> Before(o, x, t[k])
    ensures Insert(o, t, x) == t[..j] + [x] + t[j..]
    decreases |t|
  {
    if j < |t| {
      var n := |t| - 1;
      InsertAt(o, t[..n], x, j);
      assert t[..n][..j] == t[..j];
      assert t[j..] == t[..n][j..] + [t[n]];
    } else {
      assert t[..j] == t;
    }
  }

  /** A sequence laid out as `t` with `x` placed at `j` is `Insert(o, t, x)`,
      when `j` is where `InsertAt` says `x` goes. */
  lemma InsertLanding(o: SortOrder, t: seq<Tweet>, x: Tweet, j: nat, r: seq<Tweet>)
    requires j <= |t| && (j == 0 || !Before(o, x, t[j - 1]))
    requires forall k :: j <= k < |t| ==> Before(o, x, t[k])
    requires |r| == |t| + 1 && r[j] == x
    requires forall k :: 0 <= k < j ==> r[k] == t[k]
    requires forall k :: j < k < |r| ==> r[k] == t[k - 1]
    ensures r == Insert(o, t, x)
  {
    InsertAt(o, t, x, j);
    assert r == t[..j] + [x] + t[j..];
  }

  /** Moves `a[i]` into place within `a[..i]`: it lands after every element
      that does not sort after it, and the elements it passes move up by one. */
  method InsertInPlace(a: array<Tweet>, i: nat, o: SortOrder)
    requires i < a.Length
    modifies a
    ensures a[..i + 1] == Insert(o, old(a[..i]), old(a[i]))
    ensures forall k :: i < k < a.Length ==> a[k] == old(a[k])
  {
    ghost var t := a[..i];
    var x := a[i];
    var j := i;
    while j > 0 && Before(o, x, a[j - 1])
      invariant 0 <= j <= i
      invariant forall k :: 0 <= k < j ==> a[k] == t[k]
      invariant forall k :: j < k <= i ==> a[k] == t[k - 1]
      invariant forall k :: i < k < a.Length ==> a[k] == old(a[k])
      invariant forall k :: j <= k < i ==> Before(o, x, t[k])
    {
      a[j] := a[j - 1];
      j := j - 1;
    }
    a[j] := x;
    InsertLanding(o, t, x, j, a[..i + 1]);
  }

  lemma SortSnoc(o: SortOrder, s: seq<Tweet>, i: nat)
    requires i < |s|
    ensures Sort(o, s[..i + 1]) == Insert(o, Sort(o, s[..i]), s[i])
  {
    assert s[..i + 1][..i] == s[..i];
  }

  /** Stable ascending insertion sort of `a` in place: the array ends up as
      `Sort` of its old contents (see `SortFacts` for what that promises). */
  method SortInPlace(a: array<Tweet>, o: SortOrder)
    modifies a
    ensures a[..] == Sort(o, old(a[..]))
  {
    ghost var s := a[..];
    var i := 0;
    while i < a.Length
      invariant 0 <= i <= a.Length
      invariant a[..i] == Sort(o, s[..i])
      invariant forall k :: i <= k < a.Length ==> a[k] == s[k]
    {
      InsertInPlace(a, i, o);
      SortSnoc(o, s, i);
      i := i + 1;
    }
    assert a[..] == a[..a.Length] && s == s[..a.Length];
  }

  /** What the library's `sortBy` / `sortWith` promise of their result:
      a permutation of the input, ascending by the key, and stable. */
  lemma SortFacts(o: SortOrder, s: seq<Tweet>)
    ensures multiset(Sort(o, s)) == multiset(s)
    ensures Ordered(o, Sort(o, s))
    ensures SameTies(o, Sort(o, s), s)
  {
    SortPermutes(o, s);
    SortOrdered(o, s);
    SortStable(o, s);
  }
}
