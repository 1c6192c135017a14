/**
 * Sequence helpers that stand in for the query-set operations of the portal:
 * `filter(...)`, `.count()`, `order_by(...)` and `order_by(...).first()`.
 * Every table of the entity store is a sequence of records, so each query is
 * one of these functions applied to a table.
 */
module Seqs {

  datatype Option<T> = None | Some(value: T)

  /** The elements of `s` that satisfy `p`, in their original order. */
  function Filter<T(!new)>(s: seq<T>, p: T -> bool): (r: seq<T>)
    ensures |r| <= |s|
    ensures forall x :: x in r <==> x in s && p(x)
    ensures multiset(r) <= multiset(s)
  {
    if s == [] then []
    else
      assert s == [s[0]] + s[1..];
      if p(s[0]) then [s[0]] + Filter(s[1..], p) else Filter(s[1..], p)
  }

  /** An element the filter keeps occurs in the result exactly as often as in the input. */
  lemma {:induction false} FilterKeepsMultiplicity<T(!new)>(s: seq<T>, p: T -> bool, x: T)
    requires p(x)
    ensures multiset(Filter(s, p))[x] == multiset(s)[x]
  {
    if s != [] {
      FilterKeepsMultiplicity(s[1..], p, x);
      assert s == [s[0]] + s[1..];
    }
  }

  lemma FilterKeepsMultiplicities<T(!new)>(s: seq<T>, p: T -> bool)
    ensures forall x :: x in Filter(s, p) ==> multiset(Filter(s, p))[x] == multiset(s)[x]
  {
    forall x | x in Filter(s, p) ensures multiset(Filter(s, p))[x] == multiset(s)[x] {
      FilterKeepsMultiplicity(s, p, x);
    }
  }

  lemma {:induction false} FilterConcat<T(!new)>(a: seq<T>, b: seq<T>, p: T -> bool)
    ensures Filter(a + b, p) == Filter(a, p) + Filter(b, p)
  {
    if a == [] {
      assert a + b == b;
    } else {
      assert (a + b)[1..] == a[1..] + b;
      FilterConcat(a[1..], b, p);
    }
  }

  /** The number of elements satisfying `p`, counted without building the filtered sequence. */
  function Count<T>(s: seq<T>, p: T -> bool): nat
  {
    if s == [] then 0 else (if p(s[0]) then 1 else 0) + Count(s[1..], p)
  }

  lemma {:induction false} CountIsFilterLength<T(!new)>(s: seq<T>, p: T -> bool)
    ensures Count(s, p) == |Filter(s, p)|
  {
    if s != [] {
      CountIsFilterLength(s[1..], p);
    }
  }

  /** Counting one more element at the end adds one exactly when it satisfies `p`. */
  lemma {:induction false} CountSnoc<T>(s: seq<T>, x: T, p: T -> bool)
    ensures Count(s + [x], p) == Count(s, p) + (if p(x) then 1 else 0)
  {
    if s == [] {
      assert [x][1..] == [];
    } else {
      assert (s + [x])[1..] == s[1..] + [x];
      CountSnoc(s[1..], x, p);
    }
  }

  /** A predicate every element satisfies keeps the whole sequence. */
  lemma {:induction false} FilterAll<T(!new)>(s: seq<T>, p: T -> bool)
    requires forall i :: 0 <= i < |s| ==> p(s[i])
    ensures Filter(s, p) == s
  {
    if s != [] {
      FilterAll(s[1..], p);
    }
  }

  /** A predicate no element satisfies keeps nothing. */
  lemma {:induction false} FilterNone<T(!new)>(s: seq<T>, p: T -> bool)
    requires forall i :: 0 <= i < |s| ==> !p(s[i])
    ensures Filter(s, p) == []
  {
    if s != [] {
      FilterNone(s[1..], p);
    }
  }

  /** An element the predicate rejects can be dropped from anywhere in the sequence. */
  lemma FilterSkip<T(!new)>(xs: seq<T>, x: T, ys: seq<T>, p: T -> bool)
    requires !p(x)
    ensures Filter(xs + [x] + ys, p) == Filter(xs + ys, p)
  {
    assert Filter([x], p) == [] by {
      assert [x][1..] == [];
    }
    FilterConcat(xs, [x], p);
    assert Filter(xs + [x], p) == Filter(xs, p);
    FilterConcat(xs + [x], ys, p);
    FilterConcat(xs, ys, p);
  }

  /** Two predicates that agree on the elements of `s` select the same elements. */
  lemma {:induction false} FilterAgree<T(!new)>(s: seq<T>, p: T -> bool, q: T -> bool)
    requires forall x :: x in s ==> (p(x) <==> q(x))
    ensures Filter(s, p) == Filter(s, q)
  {
    if s != [] {
      assert forall x :: x in s[1..] ==> x in s;
      FilterAgree(s[1..], p, q);
    }
  }

  /** A weaker predicate never selects fewer elements. */
  lemma {:induction false} FilterWeaker<T(!new)>(s: seq<T>, p: T -> bool, q: T -> bool)
    requires forall x :: p(x) ==> q(x)
    ensures |Filter(s, p)| <= |Filter(s, q)|
  {
    if s != [] {
      FilterWeaker(s[1..], p, q);
    }
  }

  /** When `p` holds exactly when one of the exclusive `q` and `r` does, the counts add up. */
  lemma {:induction false} FilterSplit<T(!new)>(s: seq<T>, p: T -> bool, q: T -> bool, r: T -> bool)
    requires forall x :: p(x) <==> q(x) || r(x)
    requires forall x :: !(q(x) && r(x))
    ensures |Filter(s, p)| == |Filter(s, q)| + |Filter(s, r)|
  {
    if s != [] {
      FilterSplit(s[1..], p, q, r);
    }
  }

  /** The elements at positions `0 <= i < j < |s|` never share a key. */
  ghost predicate Distinct<T, K>(s: seq<T>, key: T -> K)
  {
    forall i, j :: 0 <= i < j < |s| ==> key(s[i]) != key(s[j])
  }

  /** Within a sequence whose keys are distinct, a key names at most one element. */
  lemma DistinctIdentifies<T, K>(s: seq<T>, key: T -> K, x: T, y: T)
    requires Distinct(s, key) && x in s && y in s && key(x) == key(y)
    ensures x == y
  {
    var i :| 0 <= i < |s| && s[i] == x;
    var j :| 0 <= j < |s| && s[j] == y;
    assert !(i < j) && !(j < i);
  }

  lemma {:induction false} FilterDistinct<T(!new), K>(s: seq<T>, p: T -> bool, key: T -> K)
    requires Distinct(s, key)
    ensures Distinct(Filter(s, p), key)
  {
    if s != [] {
      var tail := Filter(s[1..], p);
      FilterDistinct(s[1..], p, key);
      if p(s[0]) {
        var r := [s[0]] + tail;
        forall i, j | 0 <= i < j < |r| ensures key(r[i]) != key(r[j]) {
          if i == 0 {
            assert r[j] in s[1..];
            var k :| 0 <= k < |s[1..]| && s[1..][k] == r[j];
            assert s[k + 1] == r[j];
          } else {
            assert r[i] == tail[i - 1] && r[j] == tail[j - 1];
          }
        }
      }
    }
  }

  /** Some element of `s` with the greatest score; `None` exactly when `s` is empty
      (the query-set idiom `order_by("-score").first()`, whose pick among ties is left open). */
  function ArgMax<T(!new)>(s: seq<T>, score: T -> real): (r: Option<T>)
    ensures r.None? <==> s == []
    ensures r.Some? ==> r.value in s && forall x :: x in s ==> score(x) <= score(r.value)
  {
    if s == [] then None
    else
      assert s == [s[0]] + s[1..];
      match ArgMax(s[1..], score)
      case None => Some(s[0])
      case Some(m) => if score(s[0]) < score(m) then Some(m) else Some(s[0])
  }

  /** `le` relates every pair one way or the other. */
  ghost predicate Total<T(!new)>(le: (T, T) -> bool)
  {
    forall a, b :: le(a, b) || le(b, a)
  }

  /** Neighbouring elements are in `le` order. */
  predicate SortedBy<T>(s: seq<T>, le: (T, T) -> bool)
  {
    forall i :: 0 <= i < |s| - 1 ==> le(s[i], s[i + 1])
  }

  /** `le` chains: `le(a, b)` and `le(b, c)` give `le(a, c)`. */
  ghost predicate Transitive<T(!new)>(le: (T, T) -> bool)
  {
    forall a, b, c :: le(a, b) && le(b, c) ==> le(a, c)
  }

  /** Sorted by a transitive order, every element comes before every later one. */
  lemma {:induction false} SortedAllPairs<T(!new)>(s: seq<T>, le: (T, T) -> bool)
    requires Transitive(le) && SortedBy(s, le)
    ensures forall i, j :: 0 <= i < j < |s| ==> le(s[i], s[j])
  {
    if |s| > 1 {
      var t := s[1..];
      assert forall i :: 0 <= i < |t| ==> t[i] == s[i + 1];
      SortedAllPairs(t, le);
      forall i, j | 0 <= i < j < |s| ensures le(s[i], s[j]) {
        if i > 0 {
          assert le(t[i - 1], t[j - 1]);
        } else if j > 1 {
          assert le(s[0], s[1]) && le(t[0], t[j - 1]);
        }
      }
    }
  }

  /** The keys of the elements of `s`. */
  ghost function KeysOf<T, K>(s: seq<T>, key: T -> K): set<K>
  {
    set x | x in s :: key(x)
  }

  /** With pairwise different keys, there are as many keys as elements. */
  lemma {:induction false} DistinctKeyCount<T, K>(s: seq<T>, key: T -> K)
    requires Distinct(s, key)
    ensures |KeysOf(s, key)| == |s|
  {
    if s != [] {
      var t := s[1..];
      assert Distinct(t, key) by {
        forall i, j | 0 <= i < j < |t| ensures key(t[i]) != key(t[j]) {
          assert key(s[i + 1]) != key(s[j + 1]);
        }
      }
      DistinctKeyCount(t, key);
      var rest := KeysOf(t, key);
      assert key(s[0]) !in rest by {
        forall x | x in t ensures key(x) != key(s[0]) {
          var j :| 0 <= j < |t| && t[j] == x;
          assert key(s[0]) != key(s[j + 1]);
        }
      }
      assert KeysOf(s, key) == {key(s[0])} + rest by {
        assert s == [s[0]] + t;
        assert forall x :: x in s <==> x == s[0] || x in t;
      }
    }
  }

  /** With pairwise different keys, no element occurs twice. */
  lemma {:induction false} DistinctOccursOnce<T(!new), K>(s: seq<T>, key: T -> K)
    requires Distinct(s, key)
    ensures forall x :: multiset(s)[x] <= 1
  {
    if s != [] {
      var t := s[1..];
      assert Distinct(t, key) by {
        forall i, j | 0 <= i < j < |t| ensures key(t[i]) != key(t[j]) {
          assert key(s[i + 1]) != key(s[j + 1]);
        }
      }
      DistinctOccursOnce(t, key);
      assert s == [s[0]] + t;
      assert s[0] !in t by {
        forall j | 0 <= j < |t| ensures t[j] != s[0] {
          assert key(s[0]) != key(s[j + 1]);
        }
      }
    }
  }

  function Insert<T(!new)>(x: T, s: seq<T>, le: (T, T) -> bool): (r: seq<T>)
    requires Total(le)
    requires SortedBy(s, le)
    ensures |r| == |s| + 1 && (r[0] == x || (s != [] && r[0] == s[0]))
    ensures SortedBy(r, le)
    ensures multiset(r) == multiset(s) + multiset{x}
  {
    if s == [] || le(x, s[0]) then [x] + s
    else
      assert s == [s[0]] + s[1..];
      [s[0]] + Insert(x, s[1..], le)
  }

  /** An ordering of `s` by `le` (a stable insertion sort). */
  function SortBy<T(!new)>(s: seq<T>, le: (T, T) -> bool): (r: seq<T>)
    requires Total(le)
    ensures SortedBy(r, le)
    ensures multiset(r) == multiset(s)
    ensures forall x :: x in r <==> x in s
  {
    if s == [] then []
    else
      assert s == [s[0]] + s[1..];
      var r := Insert(s[0], SortBy(s[1..], le), le);
      assert forall x :: x in r <==> x in multiset(r);
      assert forall x :: x in s <==> x in multiset(s);
      r
  }

  /** A bound on the keys in `s`; one more than it is a key no element has yet. */
  function MaxKey<T(!new)>(s: seq<T>, key: T -> nat): (m: nat)
    ensures forall x :: x in s ==> key(x) <= m
  {
    if s == [] then 0
    else
      assert s == [s[0]] + s[1..];
      var rest := MaxKey(s[1..], key);
      if key(s[0]) < rest then rest else key(s[0])
  }
}
