/** The stable sort of `Array.prototype.sort` (stable since ECMAScript 2019),
    as an insertion sort over a strict "comes before" relation `less`, with
    its three facts: it permutes, it sorts, and it keeps the input order of
    elements the relation does not separate. */
module Sorting {

  /** `less` is a strict weak order: asymmetric, and "not before" is
      transitive. Every comparator of the form "key a ranks above key b"
      is one. */
  ghost predicate StrictWeakOrder<T(!new)>(less: (T, T) -> bool) {
    && (forall a, b :: less(a, b) ==> !less(b, a))
    && (forall a, b, c :: !less(a, b) && !less(b, c) ==> !less(a, c))
  }

  /** No element is placed after one that should come after it. */
  ghost predicate SortedBy<T>(s: seq<T>, less: (T, T) -> bool) {
    forall i, j :: 0 <= i < j < |s| ==> !less(s[j], s[i])
  }

  /** Neither of `a`, `b` comes before the other. */
  predicate Tied<T>(a: T, b: T, less: (T, T) -> bool) {
    !less(a, b) && !less(b, a)
  }

  /** The elements of `s` tied with `x`, in the order of `s`. */
  function Ties<T>(s: seq<T>, x: T, less: (T, T) -> bool): seq<T> {
    if |s| == 0 then []
    else (if Tied(s[0], x, less) then [s[0]] else []) + Ties(s[1..], x, less)
  }

  /** Places `x` after the leading elements that come before it. */
  function Insert<T>(x: T, s: seq<T>, less: (T, T) -> bool): (r: seq<T>)
    ensures multiset(r) == multiset(s) + multiset{x}
    ensures |r| == |s| + 1
  {
    if |s| == 0 then [x]
    else if less(s[0], x) then
      assert s == [s[0]] + s[1..];
      [s[0]] + Insert(x, s[1..], less)
    else [x] + s
  }

  /** Insertion sort: each element is inserted, from the last to the first,
      into the sorted rest. */
  function SortBy<T>(s: seq<T>, less: (T, T) -> bool): (r: seq<T>)
    ensures multiset(r) == multiset(s)
    ensures |r| == |s|
  {
    if |s| == 0 then []
    else
      assert s == [s[0]] + s[1..];
      Insert(s[0], SortBy(s[1..], less), less)
  }

  lemma {:induction false} InsertSorted<T(!new)>(x: T, s: seq<T>, less: (T, T) -> bool)
    requires StrictWeakOrder(less)
    requires SortedBy(s, less)
    ensures SortedBy(Insert(x, s, less), less)
    decreases |s|
  {
    if |s| > 0 {
      if less(s[0], x) {
        var rest := Insert(x, s[1..], less);
        InsertSorted(x, s[1..], less);
        var r := [s[0]] + rest;
        forall i, j | 0 <= i < j < |r|
          ensures !less(r[j], r[i])
        {
          if i == 0 {
            assert r[j] in multiset(rest);
            assert r[j] == x || r[j] in multiset(s[1..]);
            if r[j] != x {
              var k :| 0 <= k < |s[1..]| && s[1..][k] == r[j];
              assert s[k + 1] == r[j];
            }
          } else {
            assert r[i] == rest[i - 1] && r[j] == rest[j - 1];
          }
        }
      } else {
        var r := [x] + s;
        forall i, j | 0 <= i < j < |r|
          ensures !less(r[j], r[i])
        {
          if i == 0 {
            assert r[j] == s[j - 1];
            assert !less(s[j - 1], s[0]) || j - 1 == 0;
          } else {
            assert r[i] == s[i - 1] && r[j] == s[j - 1];
          }
        }
      }
    }
  }

  /** The result of `SortBy` is sorted. */
  lemma {:induction false} SortBySorted<T(!new)>(s: seq<T>, less: (T, T) -> bool)
    requires StrictWeakOrder(less)
    ensures SortedBy(SortBy(s, less), less)
    decreases |s|
  {
    if |s| > 0 {
      SortBySorted(s[1..], less);
      InsertSorted(s[0], SortBy(s[1..], less), less);
    }
  }

  lemma {:induction false} TiesAppend<T>(a: seq<T>, b: seq<T>, x: T, less: (T, T) -> bool)
    ensures Ties(a + b, x, less) == Ties(a, x, less) + Ties(b, x, less)
    decreases |a|
  {
    if |a| > 0 {
      assert (a + b)[1..] == a[1..] + b;
      TiesAppend(a[1..], b, x, less);
    } else {
      assert a + b == b;
    }
  }

  /** Inserting `e` does not move it past any element tied with it. */
  lemma {:induction false} InsertKeepsTies<T(!new)>(e: T, t: seq<T>, x: T, less: (T, T) -> bool)
    requires StrictWeakOrder(less)
    ensures Ties(Insert(e, t, less), x, less) == Ties([e] + t, x, less)
    decreases |t|
  {
    if |t| > 0 && less(t[0], e) {
      var t0, rest := t[0], t[1..];
      InsertKeepsTies(e, rest, x, less);
      assert Insert(e, t, less) == [t0] + Insert(e, rest, less);
      TiesAppend([t0], Insert(e, rest, less), x, less);
      TiesAppend([t0], [e] + rest, x, less);
      NotBothTied(t0, e, x, less);
      TiesSwap(t0, e, rest, x, less);
      assert [t0] + rest == t;
    }
  }

  /** Two elements one of which comes before the other are not both tied
      with a third. */
  lemma NotBothTied<T(!new)>(a: T, b: T, x: T, less: (T, T) -> bool)
    requires StrictWeakOrder(less) && less(a, b)
    ensures !(Tied(a, x, less) && Tied(b, x, less))
  {
    if Tied(a, x, less) {
      assert !less(a, x) && !less(x, b) ==> !less(a, b);
    }
  }

  /** Adjacent elements not both tied with `x` can swap without changing
      the ties with `x`. */
  lemma TiesSwap<T>(p: T, q: T, rest: seq<T>, x: T, less: (T, T) -> bool)
    requires !(Tied(p, x, less) && Tied(q, x, less))
    ensures Ties([p] + ([q] + rest), x, less) == Ties([q] + ([p] + rest), x, less)
  {
    assert ([p] + ([q] + rest))[1..] == [q] + rest;
    assert ([q] + ([p] + rest))[1..] == [p] + rest;
    assert ([q] + rest)[1..] == rest;
    assert ([p] + rest)[1..] == rest;
  }

  /** Stability: the elements tied with any `x` keep their input order. */
  lemma {:induction false} SortByStable<T(!new)>(s: seq<T>, x: T, less: (T, T) -> bool)
    requires StrictWeakOrder(less)
    ensures Ties(SortBy(s, less), x, less) == Ties(s, x, less)
    decreases |s|
  {
    if |s| > 0 {
      SortByStable(s[1..], x, less);
      InsertKeepsTies(s[0], SortBy(s[1..], less), x, less);
      TiesAppend([s[0]], SortBy(s[1..], less), x, less);
      TiesAppend([s[0]], s[1..], x, less);
      assert [s[0]] + s[1..] == s;
    }
  }

  /** Cutting a sequence splits its multiset. */
  lemma SplitMultiset<T>(s: seq<T>, n: nat)
    requires n <= |s|
    ensures multiset(s) == multiset(s[..n]) + multiset(s[n..])
  {
    assert s == s[..n] + s[n..];
  }

  /** In a sorted sequence nothing after position `n` comes before
      anything up to it. */
  lemma SortedSplit<T>(s: seq<T>, n: nat, less: (T, T) -> bool)
    requires n <= |s| && SortedBy(s, less)
    ensures forall x, y :: x in s[n..] && y in s[..n] ==> !less(x, y)
  {
    forall x, y | x in s[n..] && y in s[..n] ensures !less(x, y) {
      var k :| 0 <= k < |s[n..]| && s[n..][k] == x;
      var i :| 0 <= i < n && s[..n][i] == y;
      assert s[n + k] == x && s[i] == y;
    }
  }

  /** Sorting keeps exactly the elements it was given. */
  lemma SortByMembers<T>(s: seq<T>, less: (T, T) -> bool)
    ensures forall x :: x in SortBy(s, less) <==> x in s
  {
    var r := SortBy(s, less);
    forall x ensures x in r <==> x in s {
      assert x in r <==> x in multiset(r);
      assert x in s <==> x in multiset(s);
    }
  }

  // ---------------------------------------------------------------------
  // Distinct elements

  /** No element occurs twice. */
  predicate Distinct<T(==)>(s: seq<T>) {
    forall i, j :: 0 <= i < j < |s| ==> s[i] != s[j]
  }

  lemma DistinctTail<T>(s: seq<T>)
    requires |s| > 0 && Distinct(s)
    ensures Distinct(s[1..]) && s[0] !in s[1..]
  {
    var rest := s[1..];
    forall i, j | 0 <= i < j < |rest| ensures rest[i] != rest[j] {
      assert rest[i] == s[i + 1] && rest[j] == s[j + 1];
    }
    forall i | 0 <= i < |rest| ensures rest[i] != s[0] {
      assert rest[i] == s[i + 1];
    }
  }

  lemma DistinctCons<T>(x: T, s: seq<T>)
    requires x !in s && Distinct(s)
    ensures Distinct([x] + s)
  {
    var r := [x] + s;
    forall i, j | 0 <= i < j < |r| ensures r[i] != r[j] {
      assert r[j] == s[j - 1];
      if i > 0 {
        assert r[i] == s[i - 1];
      }
    }
  }

  /** Inserting a new element keeps the elements distinct. */
  lemma {:induction false} InsertDistinct<T>(x: T, s: seq<T>, less: (T, T) -> bool)
    requires x !in s && Distinct(s)
    ensures Distinct(Insert(x, s, less))
    decreases |s|
  {
    if |s| > 0 && less(s[0], x) {
      DistinctTail(s);
      assert s == [s[0]] + s[1..];
      InsertDistinct(x, s[1..], less);
      var rest := Insert(x, s[1..], less);
      assert s[0] !in multiset(rest);
      DistinctCons(s[0], rest);
    } else if |s| > 0 {
      DistinctCons(x, s);
    }
  }

  /** Sorting keeps the elements distinct. */
  lemma {:induction false} SortByDistinct<T>(s: seq<T>, less: (T, T) -> bool)
    requires Distinct(s)
    ensures Distinct(SortBy(s, less))
    decreases |s|
  {
    if |s| > 0 {
      DistinctTail(s);
      SortByDistinct(s[1..], less);
      assert s[0] !in multiset(SortBy(s[1..], less));
      InsertDistinct(s[0], SortBy(s[1..], less), less);
    }
  }
}
