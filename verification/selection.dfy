/**
 Price-ordered selection shared by both searches.

 The store answers a query with the matching documents sorted ascending by
 price; the handler then keeps the leading run of documents whose price equals
 the first one's. Here a document's price is read through a `key` function so
 that flights and hotel groups share one definition.
 */
module Selection {

  /** `xs` is in ascending order of `key`. */
  ghost predicate SortedBy<T>(xs: seq<T>, key: T -> int) {
    forall i, j :: 0 <= i <= j < |xs| ==> key(xs[i]) <= key(xs[j])
  }

  /**
   What the store returns for a query sorted ascending on `key`: exactly the
   matching documents, in an order ascending in `key`. Documents with equal
   keys may come in any order.
   */
  ghost predicate IsSortedAnswer<T>(answer: seq<T>, matches: seq<T>, key: T -> int) {
    multiset(answer) == multiset(matches) && SortedBy(answer, key)
  }

  /** The elements of `xs` that satisfy `p`, in their order in `xs`. */
  function Filter<T>(xs: seq<T>, p: T -> bool): (r: seq<T>)
    ensures |r| <= |xs|
    ensures forall x :: x in r ==> x in xs && p(x)
    ensures forall x :: x in xs && p(x) ==> x in r
  {
    if |xs| == 0 then []
    else if p(xs[0]) then [xs[0]] + Filter(xs[1..], p)
    else Filter(xs[1..], p)
  }

  /** The test "has key `k`". */
  function KeyIs<T>(key: T -> int, k: int): T -> bool {
    x => key(x) == k
  }

  /** The least key of a non-empty sequence. */
  function MinKey<T>(xs: seq<T>, key: T -> int): (m: int)
    requires |xs| > 0
    ensures forall x :: x in xs ==> m <= key(x)
    ensures exists i :: 0 <= i < |xs| && key(xs[i]) == m
  {
    if |xs| == 1 then key(xs[0])
    else
      var rest := MinKey(xs[1..], key);
      if key(xs[0]) <= rest then key(xs[0])
      else
        assert exists i :: 0 <= i < |xs| - 1 && key(xs[1..][i]) == rest;
        var i :| 0 <= i < |xs| - 1 && key(xs[1..][i]) == rest;
        assert key(xs[i + 1]) == rest;
        rest
  }

  /**
   Every element of `xs` whose key is no greater than any other element's,
   every copy of it, in their order in `xs`: the reference definition of
   "all the cheapest".
   */
  function AllCheapest<T>(xs: seq<T>, key: T -> int): (r: seq<T>)
    ensures |r| <= |xs|
    ensures |xs| > 0 ==> |r| > 0
    ensures forall x :: x in r ==> x in xs && forall y :: y in xs ==> key(x) <= key(y)
    ensures forall x :: x in xs && (forall y :: y in xs ==> key(x) <= key(y)) ==> x in r
    ensures forall x :: x in xs ==>
      multiset(r)[x] == (if forall y :: y in xs ==> key(x) <= key(y) then multiset(xs)[x] else 0)
  {
    if |xs| == 0 then []
    else
      var m := MinKey(xs, key);
      var r := Filter(xs, KeyIs(key, m));
      var i :| 0 <= i < |xs| && key(xs[i]) == m;
      assert xs[i] in r;
      assert forall x :: x in xs ==>
        multiset(r)[x] == (if forall y :: y in xs ==> key(x) <= key(y) then multiset(xs)[x] else 0) by {
        forall x | x in xs
          ensures multiset(r)[x] == (if forall y :: y in xs ==> key(x) <= key(y) then multiset(xs)[x] else 0)
        {
          FilterCount(xs, KeyIs(key, m), x);
          if key(x) != m {
            assert key(xs[i]) < key(x);
          }
        }
      }
      r
  }

  /** The leading run of `xs` whose elements all have key `k`. */
  function TakeWhileKey<T>(xs: seq<T>, key: T -> int, k: int): (r: seq<T>)
    ensures |r| <= |xs| && r == xs[..|r|]
    ensures forall i :: 0 <= i < |r| ==> key(r[i]) == k
    ensures |r| < |xs| ==> key(xs[|r|]) != k
  {
    if |xs| == 0 || key(xs[0]) != k then []
    else [xs[0]] + TakeWhileKey(xs[1..], key, k)
  }

  /**
   The handler's tie rule: the longest prefix of `xs` whose keys all equal the
   key of `xs[0]`; it stops at the first element whose key differs.
   */
  function TiePrefix<T>(xs: seq<T>, key: T -> int): (r: seq<T>)
    ensures |r| <= |xs| && r == xs[..|r|]
    ensures |r| > 0 <==> |xs| > 0
    ensures forall i :: 0 <= i < |r| ==> key(r[i]) == key(xs[0])
    ensures |r| < |xs| ==> key(xs[|r|]) != key(xs[0])
  {
    if |xs| == 0 then [] else TakeWhileKey(xs, key, key(xs[0]))
  }

  /**
   The loop of the handlers: walk the sorted results, append each one whose
   key equals the first result's, and break at the first that differs.
   */
  method SelectTies<T>(results: seq<T>, key: T -> int) returns (ties: seq<T>)
    requires |results| > 0
    ensures 0 < |ties| <= |results| && ties == results[..|ties|]
    ensures forall i :: 0 <= i < |ties| ==> key(ties[i]) == key(results[0])
    ensures |ties| < |results| ==> key(results[|ties|]) != key(results[0])
    ensures ties == TiePrefix(results, key)
  {
    var first := results[0];
    ties := [];
    var i := 0;
    while i < |results|
      invariant 0 <= i <= |results|
      invariant ties == results[..i]
      invariant forall k :: 0 <= k < i ==> key(results[k]) == key(first)
    {
      if key(results[i]) == key(first) {
        ties := ties + [results[i]];
        i := i + 1;
      } else {
        break;
      }
    }
    TiePrefixUnique(results, key, ties);
  }

  /** The three facts in TiePrefix's contract determine it: a prefix of all-equal keys that cannot be extended. */
  lemma {:induction false} TiePrefixUnique<T>(xs: seq<T>, key: T -> int, r: seq<T>)
    requires 0 < |r| <= |xs| && r == xs[..|r|]
    requires forall i :: 0 <= i < |r| ==> key(r[i]) == key(xs[0])
    requires |r| < |xs| ==> key(xs[|r|]) != key(xs[0])
    ensures r == TiePrefix(xs, key)
  {
  }

  /** On a sorted sequence, the tie prefix holds exactly the positions whose key is the first (least) key. */
  lemma TiePrefixOfSorted<T>(xs: seq<T>, key: T -> int)
    requires SortedBy(xs, key)
    ensures forall x :: x in xs ==> key(xs[0]) <= key(x)
    ensures forall i :: 0 <= i < |xs| ==> (i < |TiePrefix(xs, key)| <==> key(xs[i]) == key(xs[0]))
  {
  }

  /** Filtering keeps every copy of each element that passes `p` and drops every copy of the rest. */
  lemma {:induction false} FilterCount<T>(xs: seq<T>, p: T -> bool, x: T)
    ensures multiset(Filter(xs, p))[x] == if p(x) then multiset(xs)[x] else 0
  {
    if |xs| > 0 {
      FilterCount(xs[1..], p, x);
      assert xs == [xs[0]] + xs[1..];
    }
  }

  /** Filtering two sequences that are permutations of each other gives two sequences that are permutations of each other. */
  lemma FilterPermutation<T>(xs: seq<T>, ys: seq<T>, p: T -> bool)
    requires multiset(xs) == multiset(ys)
    ensures multiset(Filter(xs, p)) == multiset(Filter(ys, p))
  {
    var a, b := Filter(xs, p), Filter(ys, p);
    forall x
      ensures multiset(a)[x] == multiset(b)[x]
    {
      FilterCount(xs, p, x);
      FilterCount(ys, p, x);
    }
    SameCounts(a, b);
  }

  /** Two sequences that hold every element equally often are permutations of each other. */
  lemma SameCounts<T>(a: seq<T>, b: seq<T>)
    requires forall x :: multiset(a)[x] == multiset(b)[x]
    ensures multiset(a) == multiset(b)
  {
  }

  /** Filtering keeps nothing when no element passes. */
  lemma FilterNone<T>(xs: seq<T>, p: T -> bool)
    requires forall x :: x in xs ==> !p(x)
    ensures Filter(xs, p) == []
  {
  }

  /** On a sequence sorted by `key` whose keys are all at least `k`, the run of key `k` is all the elements of key `k`. */
  lemma {:induction false} TakeWhileIsFilter<T>(xs: seq<T>, key: T -> int, k: int)
    requires SortedBy(xs, key)
    requires forall x :: x in xs ==> k <= key(x)
    ensures TakeWhileKey(xs, key, k) == Filter(xs, KeyIs(key, k))
  {
    if |xs| > 0 {
      if key(xs[0]) == k {
        TakeWhileIsFilter(xs[1..], key, k);
      } else {
        forall x | x in xs
          ensures !KeyIs(key, k)(x)
        {
          var i :| 0 <= i < |xs| && xs[i] == x;
          assert key(xs[0]) <= key(xs[i]);
        }
        FilterNone(xs, KeyIs(key, k));
      }
    }
  }

  /**
   The central fact of both searches: whatever order the store gives to
   documents of equal key, the tie prefix of its sorted answer is, as a
   multiset, exactly the matching documents of least key, and the answer's
   first key is that least key.
   */
  lemma TiesOfSortedAnswer<T>(answer: seq<T>, matches: seq<T>, key: T -> int)
    requires IsSortedAnswer(answer, matches, key)
    ensures |answer| == |matches|
    ensures multiset(TiePrefix(answer, key)) == multiset(AllCheapest(matches, key))
    ensures |TiePrefix(answer, key)| == |AllCheapest(matches, key)|
    ensures |answer| > 0 ==> key(answer[0]) == MinKey(matches, key)
  {
    SameLength(answer, matches);
    if |answer| > 0 {
      var m := MinKey(matches, key);
      assert answer[0] in multiset(matches);
      var i :| 0 <= i < |matches| && key(matches[i]) == m;
      assert matches[i] in multiset(answer);
      assert key(answer[0]) == m;
      forall x | x in answer
        ensures m <= key(x)
      {
        assert x in multiset(matches);
      }
      TakeWhileIsFilter(answer, key, m);
      assert TiePrefix(answer, key) == Filter(answer, KeyIs(key, m));
      assert AllCheapest(matches, key) == Filter(matches, KeyIs(key, m));
      FilterPermutation(answer, matches, KeyIs(key, m));
      SameLength(TiePrefix(answer, key), AllCheapest(matches, key));
    }
  }

  /** Permutations of each other have the same length. */
  lemma SameLength<T>(a: seq<T>, b: seq<T>)
    requires multiset(a) == multiset(b)
    ensures |a| == |b|
  {
    assert |multiset(a)| == |multiset(b)|;
  }

  /** `x` placed into sorted `xs` before the first element of greater or equal key. */
  function Insert<T>(x: T, xs: seq<T>, key: T -> int): (r: seq<T>)
    requires SortedBy(xs, key)
    ensures multiset(r) == multiset(xs) + multiset{x}
    ensures SortedBy(r, key)
  {
    if |xs| == 0 then [x]
    else if key(x) <= key(xs[0]) then
      assert SortedBy([x] + xs, key) by {
        SortedCons(x, xs, key);
      }
      [x] + xs
    else
      assert SortedBy(xs[1..], key) by {
        SortedTail(xs, key);
      }
      var rest := Insert(x, xs[1..], key);
      assert multiset([xs[0]] + rest) == multiset(xs) + multiset{x} by {
        assert xs == [xs[0]] + xs[1..];
      }
      assert SortedBy([xs[0]] + rest, key) by {
        SortedTail(xs, key);
        BoundedBelow(xs[0], x, xs[1..], rest, key);
        SortedCons(xs[0], rest, key);
      }
      [xs[0]] + rest
  }

  /** The tail of a sorted sequence is sorted, and its head's key is no greater than any key in the tail. */
  lemma SortedTail<T>(xs: seq<T>, key: T -> int)
    requires SortedBy(xs, key) && |xs| > 0
    ensures SortedBy(xs[1..], key)
    ensures forall y :: y in xs[1..] ==> key(xs[0]) <= key(y)
  {
  }

  /** A bound below every element of `tail` and below `x` is below every element of a permutation of `tail` plus `x`. */
  lemma BoundedBelow<T>(h: T, x: T, tail: seq<T>, rest: seq<T>, key: T -> int)
    requires multiset(rest) == multiset(tail) + multiset{x}
    requires key(h) <= key(x)
    requires forall y :: y in tail ==> key(h) <= key(y)
    ensures forall y :: y in rest ==> key(h) <= key(y)
  {
    forall y | y in rest
      ensures key(h) <= key(y)
    {
      assert y in multiset(rest);
      if y != x {
        assert y in multiset(tail);
      }
    }
  }

  /** A sorted sequence stays sorted behind a head whose key is no greater than any of its elements'. */
  lemma SortedCons<T>(h: T, xs: seq<T>, key: T -> int)
    requires SortedBy(xs, key)
    requires forall y :: y in xs ==> key(h) <= key(y)
    ensures SortedBy([h] + xs, key)
  {
  }

  /**
   A sort ascending on `key`: witnesses that every list of matching
   documents has at least one sorted answer, so the answer precondition
   excludes no store contents.
   */
  function SortByKey<T>(xs: seq<T>, key: T -> int): (r: seq<T>)
    ensures IsSortedAnswer(r, xs, key)
  {
    if |xs| == 0 then []
    else
      assert xs == [xs[0]] + xs[1..];
      Insert(xs[0], SortByKey(xs[1..], key), key)
  }

  /** No element occurs twice in `s`. */
  ghost predicate NoDuplicates<T>(s: seq<T>) {
    forall i, j :: 0 <= i < j < |s| ==> s[i] != s[j]
  }

  /** A sequence without repeats holds each element at most once. */
  lemma {:induction false} NoDuplicatesCount<T>(s: seq<T>, x: T)
    requires NoDuplicates(s)
    ensures multiset(s)[x] <= 1
  {
    if |s| > 0 {
      assert s == [s[0]] + s[1..];
      NoDuplicatesCount(s[1..], x);
      if s[0] == x {
        assert x !in s[1..];
      }
    }
  }

  /** An element found at two positions occurs at least twice. */
  lemma RepeatCount<T>(s: seq<T>, i: int, j: int)
    requires 0 <= i < j < |s| && s[i] == s[j]
    ensures multiset(s)[s[i]] >= 2
  {
    assert s == s[..j] + s[j..];
    assert s[i] in s[..j];
    assert s[j] in s[j..];
  }
}
