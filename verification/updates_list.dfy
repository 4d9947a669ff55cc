/** lib/services/updates-service.ts, part four: `listPublishedUpdates`, the
    newest update rows first. */
module UpdatesList {
  import opened Wrappers
  import opened Sorting
  import opened Updates

  /** "Comes before" in `order by created_at desc`. */
  function NewerFirst(): ((UpdateRow, UpdateRow) -> bool) {
    (a: UpdateRow, b: UpdateRow) => a.createdAt > b.createdAt
  }

  /** `listPublishedUpdates(limit)`: the rows, newest first, at most `limit`
      of them; `queryError` is the database's error, if the query fails.
      Rows with equal timestamps are in no particular order in the database;
      here they keep their stored order. */
  function ListPublishedUpdates(rows: seq<UpdateRow>, limit: nat, queryError: Option<string>): (r: Result<seq<UpdateRow>, string>)
    ensures queryError.Some? <==> r.Failure?
    ensures r.Failure? ==> r.error == "Unable to list updates: " + queryError.value
    ensures r.Success? ==> |r.value| == if |rows| < limit then |rows| else limit
    ensures r.Success? ==> multiset(r.value) <= multiset(rows)
  {
    if queryError.Some? then Failure("Unable to list updates: " + queryError.value)
    else
      var sorted := SortBy(rows, NewerFirst());
      var n := if |rows| < limit then |rows| else limit;
      SplitMultiset(sorted, n);
      Success(sorted[..n])
  }

  /** The listing is newest first, and no row left out of it is newer than
      a row in it: it holds the `limit` newest rows. */
  lemma ListedNewestFirst(rows: seq<UpdateRow>, limit: nat)
    ensures var listed := ListPublishedUpdates(rows, limit, None).value;
      && (forall i, j :: 0 <= i < j < |listed| ==> listed[i].createdAt >= listed[j].createdAt)
      && (|listed| < |rows| ==> |listed| == limit)
      && (forall row, l :: row in multiset(rows) - multiset(listed) && l in listed ==> row.createdAt <= l.createdAt)
  {
    var sorted := SortBy(rows, NewerFirst());
    var n := if |rows| < limit then |rows| else limit;
    assert ListPublishedUpdates(rows, limit, None).value == sorted[..n];
    SortBySorted(rows, NewerFirst());
    SortedPrefixIsNewest(sorted, n);
    SplitMultiset(sorted, n);
  }

  /** In a newest-first sequence, nothing after position `n` is newer than
      anything before it. */
  lemma SortedPrefixIsNewest(sorted: seq<UpdateRow>, n: nat)
    requires n <= |sorted|
    requires SortedBy(sorted, NewerFirst())
    ensures forall i, j :: 0 <= i < j < n ==> sorted[..n][i].createdAt >= sorted[..n][j].createdAt
    ensures forall row, l :: row in sorted[n..] && l in sorted[..n] ==> row.createdAt <= l.createdAt
  {
    forall i, j | 0 <= i < j < n
      ensures sorted[..n][i].createdAt >= sorted[..n][j].createdAt
    {
      assert !NewerFirst()(sorted[j], sorted[i]);
    }
    forall row, l | row in sorted[n..] && l in sorted[..n]
      ensures row.createdAt <= l.createdAt
    {
      var k :| 0 <= k < |sorted[n..]| && sorted[n..][k] == row;
      var i :| 0 <= i < n && sorted[..n][i] == l;
      assert !NewerFirst()(sorted[n + k], sorted[i]);
    }
  }
}
