/** lib/services/stats-service.ts, part one: `countByLabel`, the breakdowns
    of the dashboard (how many checks per platform, app version, runtime
    version and channel). */
module StatsLabels {
  import opened Wrappers
  import opened Text
  import opened Sorting

  /** `{ label, value }`. */
  datatype LabelCount = LabelCount(name: string, value: nat)

  /** `value?.trim() || fallback`. */
  function Label(v: Option<string>, fallback: string): (l: string)
    ensures v.Some? && Trim(v.value) != "" ==> l == Trim(v.value)
    ensures v.None? || Trim(v.value) == "" ==> l == fallback
  {
    if v.Some? && Trim(v.value) != "" then Trim(v.value) else fallback
  }

  function Labels(values: seq<Option<string>>, fallback: string): (ls: seq<string>)
    ensures |ls| == |values|
    ensures forall i :: 0 <= i < |values| ==> ls[i] == Label(values[i], fallback)
  {
    seq(|values|, i requires 0 <= i < |values| => Label(values[i], fallback))
  }

  /** How often `l` occurs in `ls`. */
  function Occurrences(ls: seq<string>, l: string): nat
    decreases |ls|
  {
    if |ls| == 0 then 0 else Occurrences(ls[..|ls| - 1], l) + (if ls[|ls| - 1] == l then 1 else 0)
  }

  lemma {:induction false} OccurrencesPositive(ls: seq<string>, l: string)
    ensures Occurrences(ls, l) > 0 <==> l in ls
    decreases |ls|
  {
    if |ls| > 0 {
      var p := ls[..|ls| - 1];
      OccurrencesPositive(p, l);
      assert ls == p + [ls[|ls| - 1]];
    }
  }

  /** The distinct labels in order of first appearance: the key order of
      the `Map` `countByLabel` fills. */
  function FirstAppearance(ls: seq<string>): (r: seq<string>)
    ensures forall l :: l in r <==> l in ls
    ensures forall i, j :: 0 <= i < j < |r| ==> r[i] != r[j]
    decreases |ls|
  {
    if |ls| == 0 then []
    else
      var p := FirstAppearance(ls[..|ls| - 1]);
      var l := ls[|ls| - 1];
      assert ls == ls[..|ls| - 1] + [l];
      if l in p then p else p + [l]
  }

  /** Each label with its number of occurrences, in key order. */
  function Tally(keys: seq<string>, ls: seq<string>): (t: seq<LabelCount>)
    ensures |t| == |keys|
    ensures forall i :: 0 <= i < |keys| ==> t[i] == LabelCount(keys[i], Occurrences(ls, keys[i]))
  {
    seq(|keys|, i requires 0 <= i < |keys| => LabelCount(keys[i], Occurrences(ls, keys[i])))
  }

  /** `.sort((a, b) => b.value - a.value)`: a larger count comes first. */
  function MoreFrequent(): ((LabelCount, LabelCount) -> bool) {
    (a: LabelCount, b: LabelCount) => a.value > b.value
  }

  /** `countByLabel`: the labels with their counts, most frequent first. */
  function CountByLabel(values: seq<Option<string>>, fallback: string): (r: seq<LabelCount>)
    ensures |r| == |FirstAppearance(Labels(values, fallback))|
    ensures forall e :: e in r ==> e.value == Occurrences(Labels(values, fallback), e.name)
    ensures forall e :: e in r ==> e.name in Labels(values, fallback)
  {
    var ls := Labels(values, fallback);
    var t := Tally(FirstAppearance(ls), ls);
    var r := SortBy(t, MoreFrequent());
    assert forall e :: e in r ==> e in multiset(t);
    r
  }

  // ---------------------------------------------------------------------
  // Sums

  function Sum(s: seq<LabelCount>): nat {
    if |s| == 0 then 0 else s[0].value + Sum(s[1..])
  }

  lemma {:induction false} SumInsert(x: LabelCount, s: seq<LabelCount>, less: (LabelCount, LabelCount) -> bool)
    ensures Sum(Insert(x, s, less)) == x.value + Sum(s)
    decreases |s|
  {
    if |s| > 0 && less(s[0], x) {
      SumInsert(x, s[1..], less);
      assert Insert(x, s, less)[1..] == Insert(x, s[1..], less);
    } else {
      assert Insert(x, s, less) == [x] + s;
      assert ([x] + s)[1..] == s;
    }
  }

  /** Sorting keeps the total. */
  lemma {:induction false} SumSortBy(s: seq<LabelCount>, less: (LabelCount, LabelCount) -> bool)
    ensures Sum(SortBy(s, less)) == Sum(s)
    decreases |s|
  {
    if |s| > 0 {
      SumSortBy(s[1..], less);
      SumInsert(s[0], SortBy(s[1..], less), less);
    }
  }

  /** How many of `keys` are `l`. */
  function Hits(keys: seq<string>, l: string): nat {
    if |keys| == 0 then 0 else (if keys[0] == l then 1 else 0) + Hits(keys[1..], l)
  }

  lemma {:induction false} HitsDistinct(keys: seq<string>, l: string)
    requires forall i, j :: 0 <= i < j < |keys| ==> keys[i] != keys[j]
    ensures Hits(keys, l) == if l in keys then 1 else 0
    decreases |keys|
  {
    if |keys| > 0 {
      HitsDistinct(keys[1..], l);
      if keys[0] == l {
        assert l !in keys[1..] by {
          forall k | 0 <= k < |keys[1..]| ensures keys[1..][k] != l {
            assert keys[1..][k] == keys[k + 1];
          }
        }
      } else {
        assert l in keys <==> l in keys[1..] by { assert keys == [keys[0]] + keys[1..]; }
      }
    }
  }

  /** The total of the counts of `keys` in `ls`. */
  function SumCounts(keys: seq<string>, ls: seq<string>): nat {
    if |keys| == 0 then 0 else Occurrences(ls, keys[0]) + SumCounts(keys[1..], ls)
  }

  lemma {:induction false} SumTally(keys: seq<string>, ls: seq<string>)
    ensures Sum(Tally(keys, ls)) == SumCounts(keys, ls)
    decreases |keys|
  {
    if |keys| > 0 {
      SumTally(keys[1..], ls);
      assert Tally(keys, ls)[1..] == Tally(keys[1..], ls);
    }
  }

  /** One more label adds one to the count of each key equal to it. */
  lemma {:induction false} SumCountsSnoc(keys: seq<string>, ls: seq<string>, l: string)
    ensures SumCounts(keys, ls + [l]) == SumCounts(keys, ls) + Hits(keys, l)
    decreases |keys|
  {
    assert (ls + [l])[..|ls + [l]| - 1] == ls;
    if |keys| > 0 {
      SumCountsSnoc(keys[1..], ls, l);
    }
  }

  lemma {:induction false} SumCountsAppend(keys: seq<string>, k: string, ls: seq<string>)
    ensures SumCounts(keys + [k], ls) == SumCounts(keys, ls) + Occurrences(ls, k)
    decreases |keys|
  {
    if |keys| == 0 {
      assert (keys + [k])[1..] == [];
    } else {
      assert (keys + [k])[1..] == keys[1..] + [k];
      SumCountsAppend(keys[1..], k, ls);
    }
  }

  /** The counts of the distinct labels add up to the number of labels. */
  lemma {:induction false} FirstAppearanceCounts(ls: seq<string>)
    ensures SumCounts(FirstAppearance(ls), ls) == |ls|
    decreases |ls|
  {
    if |ls| > 0 {
      var p := ls[..|ls| - 1];
      var l := ls[|ls| - 1];
      var keys := FirstAppearance(p);
      assert ls == p + [l];
      FirstAppearanceCounts(p);
      SumCountsSnoc(keys, p, l);
      HitsDistinct(keys, l);
      if l !in keys {
        SumCountsAppend(keys, l, ls);
        OccurrencesPositive(p, l);
        assert Occurrences(ls, l) == Occurrences(p, l) + 1;
      }
    }
  }

  /** `countByLabel` in full: every label of the input appears once, with
      its number of occurrences; the counts add up to the number of values;
      the list is sorted by count, most frequent first; and labels with the
      same count keep the order in which they first appeared. */
  lemma CountByLabelSpec(values: seq<Option<string>>, fallback: string)
    ensures var r := CountByLabel(values, fallback);
      var ls := Labels(values, fallback);
      && (forall l :: l in ls ==> exists e :: e in r && e.name == l)
      && (forall e :: e in r ==> e.value > 0)
      && (forall i, j :: 0 <= i < j < |r| ==> r[i].name != r[j].name)
      && Sum(r) == |values|
      && SortedBy(r, MoreFrequent())
      && forall x :: Ties(r, x, MoreFrequent()) == Ties(Tally(FirstAppearance(ls), ls), x, MoreFrequent())
  {
    var ls := Labels(values, fallback);
    var keys := FirstAppearance(ls);
    var t := Tally(keys, ls);
    var r := CountByLabel(values, fallback);
    assert r == SortBy(t, MoreFrequent());
    forall l | l in ls ensures exists e :: e in r && e.name == l {
      var k :| 0 <= k < |keys| && keys[k] == l;
      assert t[k] in multiset(r);
    }
    forall e | e in r ensures e.value > 0 {
      OccurrencesPositive(ls, e.name);
    }
    assert Distinct(t);
    SortByDistinct(t, MoreFrequent());
    forall i, j | 0 <= i < j < |r| ensures r[i].name != r[j].name {
      assert r[i] in r && r[j] in r;
    }
    SumSortBy(t, MoreFrequent());
    SumTally(keys, ls);
    FirstAppearanceCounts(ls);
    SortBySorted(t, MoreFrequent());
    forall x ensures Ties(r, x, MoreFrequent()) == Ties(t, x, MoreFrequent()) {
      SortByStable(t, x, MoreFrequent());
    }
  }
}
