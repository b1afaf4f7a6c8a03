/** The orderings the scripts ask pandas and Python for: `sort_values` on a
    numeric column, descending; `sort_values` on two text columns, ascending;
    and `sorted(set(...))` on text. Each is given by an insertion sort whose
    result is proved sorted and a permutation of its input. */
module Sorting {
  import opened Strings

  /** Non-increasing by `score`. */
  ghost predicate SortedDesc<T>(s: seq<T>, score: T -> real)
  {
    forall i, j :: 0 <= i < j < |s| ==> score(s[i]) >= score(s[j])
  }

  ghost predicate AllAtMost<T>(s: seq<T>, score: T -> real, bound: real)
  {
    forall i :: 0 <= i < |s| ==> score(s[i]) <= bound
  }

  /** Places `x` before the first element whose score does not exceed its own,
      so that `x` stays ahead of the equal scores after it. */
  function InsertDesc<T>(x: T, s: seq<T>, score: T -> real): (r: seq<T>)
    ensures multiset(r) == multiset(s) + multiset{x}
  {
    if s == [] || score(s[0]) <= score(x) then [x] + s
    else
      assert s == [s[0]] + s[1..];
      [s[0]] + InsertDesc(x, s[1..], score)
  }

  lemma {:induction false} InsertDescBound<T>(x: T, s: seq<T>, score: T -> real, bound: real)
    requires AllAtMost(s, score, bound) && score(x) <= bound
    ensures AllAtMost(InsertDesc(x, s, score), score, bound)
  {
    if s != [] && score(s[0]) > score(x) {
      InsertDescBound(x, s[1..], score, bound);
    }
  }

  lemma {:induction false} InsertDescSorted<T>(x: T, s: seq<T>, score: T -> real)
    requires SortedDesc(s, score)
    ensures SortedDesc(InsertDesc(x, s, score), score)
  {
    if s != [] && score(s[0]) > score(x) {
      var rest := InsertDesc(x, s[1..], score);
      InsertDescSorted(x, s[1..], score);
      InsertDescBound(x, s[1..], score, score(s[0]));
      var r := [s[0]] + rest;
      forall i, j | 0 <= i < j < |r| ensures score(r[i]) >= score(r[j]) {
        if i > 0 {
          assert r[i] == rest[i - 1] && r[j] == rest[j - 1];
        } else {
          assert r[j] == rest[j - 1];
        }
      }
    }
  }

  /** `sort_values(by=score, ascending=False)`: a non-increasing permutation. */
  function SortDesc<T>(s: seq<T>, score: T -> real): (r: seq<T>)
    ensures multiset(r) == multiset(s)
    ensures SortedDesc(r, score)
  {
    if s == [] then []
    else
      assert s == [s[0]] + s[1..];
      var rest := SortDesc(s[1..], score);
      InsertDescSorted(s[0], rest, score);
      InsertDesc(s[0], rest, score)
  }

  /** The first `k` elements of a non-increasing sequence score at least as
      high as every element after them. */
  lemma PrefixDominates<T>(s: seq<T>, score: T -> real, k: nat)
    requires SortedDesc(s, score) && k <= |s|
    ensures forall x, y :: x in s[..k] && y in s[k..] ==> score(x) >= score(y)
  {
    forall x, y | x in s[..k] && y in s[k..] ensures score(x) >= score(y) {
      var i :| 0 <= i < k && s[..k][i] == x;
      var j :| 0 <= j < |s| - k && s[k..][j] == y;
      assert s[i] == x && s[k + j] == y;
    }
  }

  /** An element left out of a prefix of a non-increasing sequence scores
      no higher than any element of the prefix. */
  lemma LeftOutDominated<T>(s: seq<T>, score: T -> real, k: nat, x: T, y: T)
    requires SortedDesc(s, score) && k <= |s|
    requires x in s[..k] && y in s && y !in s[..k]
    ensures score(y) <= score(x)
  {
    PrefixDominates(s, score, k);
    assert s == s[..k] + s[k..];
    assert y in s[k..];
  }

  /** Python's ordering of a pair of strings: the first, then the second. */
  predicate PairLeq(a: (string, string), b: (string, string))
  {
    LexLess(a.0, b.0) || (a.0 == b.0 && LexLeq(a.1, b.1))
  }

  lemma PairLeqTotal(a: (string, string), b: (string, string))
    ensures PairLeq(a, b) || PairLeq(b, a)
  {
    LexLeqTotal(a.0, b.0);
    LexLeqTotal(a.1, b.1);
  }

  lemma PairLeqTransitive(a: (string, string), b: (string, string), c: (string, string))
    requires PairLeq(a, b) && PairLeq(b, c)
    ensures PairLeq(a, c)
  {
    if a.0 == b.0 {
      if b.0 == c.0 {
        LexLeqTransitive(a.1, b.1, c.1);
      }
    } else {
      LexLeqReflexive(b.0);
      LexLeqTransitive(a.0, b.0, c.0);
      if a.0 == c.0 {
        LexLeqAntisymmetric(a.0, b.0);
      }
    }
  }

  /** Non-decreasing by `key` under `PairLeq`. */
  ghost predicate SortedByPair<T>(s: seq<T>, key: T -> (string, string))
  {
    forall i, j :: 0 <= i < j < |s| ==> PairLeq(key(s[i]), key(s[j]))
  }

  ghost predicate AllAfter<T>(s: seq<T>, key: T -> (string, string), bound: (string, string))
  {
    forall i :: 0 <= i < |s| ==> PairLeq(bound, key(s[i]))
  }

  /** Places `x` before the first element that does not come before it. */
  function InsertByPair<T>(x: T, s: seq<T>, key: T -> (string, string)): (r: seq<T>)
    ensures multiset(r) == multiset(s) + multiset{x}
  {
    if s == [] || PairLeq(key(x), key(s[0])) then [x] + s
    else
      assert s == [s[0]] + s[1..];
      [s[0]] + InsertByPair(x, s[1..], key)
  }

  lemma {:induction false} InsertByPairBound<T>(x: T, s: seq<T>, key: T -> (string, string), bound: (string, string))
    requires AllAfter(s, key, bound) && PairLeq(bound, key(x))
    ensures AllAfter(InsertByPair(x, s, key), key, bound)
  {
    if s != [] && !PairLeq(key(x), key(s[0])) {
      InsertByPairBound(x, s[1..], key, bound);
    }
  }

  lemma {:induction false} InsertByPairSorted<T>(x: T, s: seq<T>, key: T -> (string, string))
    requires SortedByPair(s, key)
    ensures SortedByPair(InsertByPair(x, s, key), key)
  {
    if s == [] {
    } else if PairLeq(key(x), key(s[0])) {
      var r := [x] + s;
      forall i, j | 0 <= i < j < |r| ensures PairLeq(key(r[i]), key(r[j])) {
        if i == 0 && j > 1 {
          PairLeqTransitive(key(x), key(s[0]), key(s[j - 1]));
        }
      }
    } else {
      PairLeqTotal(key(x), key(s[0]));
      var rest := InsertByPair(x, s[1..], key);
      InsertByPairSorted(x, s[1..], key);
      InsertByPairBound(x, s[1..], key, key(s[0]));
      var r := [s[0]] + rest;
      forall i, j | 0 <= i < j < |r| ensures PairLeq(key(r[i]), key(r[j])) {
        if i > 0 {
          assert r[i] == rest[i - 1] && r[j] == rest[j - 1];
        } else {
          assert r[j] == rest[j - 1];
        }
      }
    }
  }

  /** `sort_values(by=[first, second])`: an ascending permutation. */
  function SortByPair<T>(s: seq<T>, key: T -> (string, string)): (r: seq<T>)
    ensures multiset(r) == multiset(s)
    ensures SortedByPair(r, key)
  {
    if s == [] then []
    else
      assert s == [s[0]] + s[1..];
      var rest := SortByPair(s[1..], key);
      InsertByPairSorted(s[0], rest, key);
      InsertByPair(s[0], rest, key)
  }

  /** Strictly increasing, hence free of duplicates. */
  ghost predicate StrictlyIncreasing(s: seq<string>)
  {
    forall i, j :: 0 <= i < j < |s| ==> LexLess(s[i], s[j])
  }

  /** Adds `x` to a strictly increasing sequence unless it is already there. */
  function InsertUnique(x: string, s: seq<string>): (r: seq<string>)
    ensures forall e :: e in r <==> e in s || e == x
  {
    if s == [] then [x]
    else if x == s[0] then s
    else if LexLeq(x, s[0]) then [x] + s
    else [s[0]] + InsertUnique(x, s[1..])
  }

  lemma {:induction false} InsertUniqueIncreasing(x: string, s: seq<string>)
    requires StrictlyIncreasing(s)
    ensures StrictlyIncreasing(InsertUnique(x, s))
  {
    if s == [] || x == s[0] {
    } else if LexLeq(x, s[0]) {
      var r := [x] + s;
      forall i, j | 0 <= i < j < |r| ensures LexLess(r[i], r[j]) {
        if i == 0 && j > 1 {
          LexLeqTransitive(x, s[0], s[j - 1]);
          if x == s[j - 1] {
            LexLeqAntisymmetric(x, s[0]);
          }
        }
      }
    } else {
      LexLeqTotal(x, s[0]);
      var rest := InsertUnique(x, s[1..]);
      InsertUniqueIncreasing(x, s[1..]);
      var r := [s[0]] + rest;
      forall i, j | 0 <= i < j < |r| ensures LexLess(r[i], r[j]) {
        if i > 0 {
          assert r[i] == rest[i - 1] && r[j] == rest[j - 1];
        } else {
          assert r[j] == rest[j - 1];
          assert r[j] in rest;
          if r[j] != x {
            var k :| 1 <= k < |s| && s[k] == r[j];
          }
        }
      }
    }
  }

  /** `sorted(set(s))`: the distinct elements of `s` in increasing order. */
  function SortedDistinct(s: seq<string>): (r: seq<string>)
    ensures StrictlyIncreasing(r)
    ensures forall e :: e in r <==> e in s
  {
    if s == [] then []
    else
      assert s == [s[0]] + s[1..];
      var rest := SortedDistinct(s[1..]);
      InsertUniqueIncreasing(s[0], rest);
      InsertUnique(s[0], rest)
  }
}
