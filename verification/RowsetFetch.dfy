/**
 Fetching rowsets over a metadata cursor: `Statement::InternalFetchRow` (src/statement.cpp) and
 `ColumnMetadataQuery` (src/query/column_metadata_query.cpp). A row is left abstract.
 */
module RowsetFetch {
  import opened Common
  import opened Words

  datatype RowStatus = RowSuccess | RowSuccessWithInfo | NoRow | RowError

  function ToRowStatus(r: SqlResult): RowStatus {
    match r
    case NoData => NoRow
    case Success => RowSuccess
    case SuccessWithInfo => RowSuccessWithInfo
    case _ => RowError
  }

  /** Each way in which a row can end has a status of its own; all that is not named is an error. */
  lemma {:induction false} StatusTells(r: SqlResult)
    ensures ToRowStatus(r) == RowSuccess <==> r == Success
    ensures ToRowStatus(r) == RowSuccessWithInfo <==> r == SuccessWithInfo
    ensures ToRowStatus(r) == NoRow <==> r == NoData
  {}

  class ColumnMetadataQuery<Row> {
    var executed: bool
    var fetched: bool
    var cursor: nat
    var meta: seq<Row>

    constructor ()
      ensures Valid() && !executed
    {
      executed, fetched, cursor, meta := false, false, 0, [];
    }

    ghost predicate Valid()
      reads this
    {
      executed ==> cursor <= |meta|
    }

    /** The rows that have not been delivered yet. */
    ghost function Pending(): seq<Row>
      requires Valid()
      reads this
    {
      if !executed then []
      else if !fetched then meta[cursor..]
      else if cursor < |meta| then meta[cursor + 1..]
      else []
    }

    /** The server's answer is a parameter: the rows, or nothing when the request fails. */
    method Execute(answer: Option<seq<Row>>) returns (result: SqlResult)
      requires Valid()
      modifies this
      ensures Valid()
      ensures answer.Some? ==> result == Success && executed && Pending() == answer.value
      ensures answer.None? ==> result == Error && !executed && Pending() == []
    {
      if executed { Close(); }
      if answer.None? { return Error; }
      meta := answer.value;
      executed, fetched, cursor := true, false, 0;
      result := Success;
    }

    method Close()
      modifies this
      ensures Valid() && !executed && Pending() == []
    {
      meta := [];
      executed := false;
    }

    /** The next row, if there is one, is delivered to the bound columns. */
    method FetchNextRow() returns (result: SqlResult, row: Option<Row>)
      requires Valid()
      modifies this
      ensures Valid() && executed == old(executed)
      ensures !executed ==> result == Error && row == None
      ensures executed && old(Pending()) == [] ==> result == NoData && row == None && Pending() == []
      ensures executed && old(Pending()) != [] ==>
        result == Success && row == Some(old(Pending())[0]) && Pending() == old(Pending())[1..]
    {
      if !executed { return Error, None; }
      if !fetched {
        fetched := true;
      } else if cursor != |meta| {
        cursor := cursor + 1;
      }
      if cursor == |meta| { return NoData, None; }
      return Success, Some(meta[cursor]);
    }
  }

  /** A rowset of n elements over the pending rows: rows first, then nothing. */
  function Rowset<Row>(pending: seq<Row>, n: nat): (r: seq<Option<Row>>) {
    seq(n, i => if 0 <= i < |pending| then Some(pending[i]) else None)
  }

  /** The statuses of n elements when k rows are left. */
  function Statuses(k: nat, n: nat): seq<RowStatus> {
    seq(n, i => if i < k then RowSuccess else NoRow)
  }

  function Failures(n: nat): seq<RowStatus> {
    seq(n, _ => RowError)
  }

  lemma {:induction false} OneMore<Row>(pending: seq<Row>, i: nat)
    ensures Rowset(pending, i + 1) == Rowset(pending, i) + [if i < |pending| then Some(pending[i]) else None]
    ensures Statuses(|pending|, i + 1) == Statuses(|pending|, i) + [if i < |pending| then RowSuccess else NoRow]
    ensures Failures(i + 1) == Failures(i) + [RowError]
  {}

  lemma {:induction false} NoElements<Row>(pending: seq<Row>)
    ensures Rowset(pending, 0) == [] && Statuses(|pending|, 0) == [] && Failures(0) == []
  {}

  lemma {:induction false} FewerRows(k: nat, n: nat)
    ensures Statuses(k, n) == Statuses(Min(n, k), n)
  {}

  class Statement<Row> {
    var currentQuery: ColumnMetadataQuery?<Row>
    var rowArraySize: nat

    /**
     Fills the application's arrays element by element: row i of the rowset and its status. The
     count that is reported is the number of rows that were delivered.
     */
    method InternalFetchRow()
      returns (result: SqlResult, rowsFetched: int, rows: seq<Option<Row>>, statuses: seq<RowStatus>)
      requires currentQuery != null ==> currentQuery.Valid()
      modifies currentQuery
      ensures currentQuery == null ==> result == Error && rowsFetched == 0 && rows == [] && statuses == []
      ensures currentQuery != null ==> currentQuery.Valid() && currentQuery.executed == old(currentQuery.executed)
      ensures currentQuery != null && !currentQuery.executed ==>
        rowsFetched == 0 && result == (if rowArraySize == 0 then NoData else Error)
        && statuses == Failures(rowArraySize)
      ensures currentQuery != null && currentQuery.executed ==>
        var pending, k := old(currentQuery.Pending()), Min(rowArraySize, |old(currentQuery.Pending())|);
        && rows == Rowset(pending, rowArraySize)
        && statuses == Statuses(k, rowArraySize)
        && rowsFetched == k && result == (if k > 0 then Success else NoData)
        && currentQuery.Pending() == pending[k..]
    {
      NoElements(if currentQuery == null then [] else currentQuery.Pending());
      hide Rowset, Statuses, Failures;
      rowsFetched, rows, statuses := 0, [], [];
      if currentQuery == null { return Error, 0, [], []; }
      var fetched, errors := 0, 0;
      var i := 0;
      ghost var pending, executed := currentQuery.Pending(), currentQuery.executed;
      while i < rowArraySize
        invariant 0 <= i <= rowArraySize && currentQuery.Valid() && currentQuery.executed == executed
        invariant !executed ==> fetched == 0 && errors == i && statuses == Failures(i)
        invariant executed ==>
          errors == 0 && fetched == Min(i, |pending|) && currentQuery.Pending() == pending[fetched..]
        invariant executed ==> rows == Rowset(pending, i) && statuses == Statuses(|pending|, i)
      {
        OneMore(pending, i);
        var res, row := currentQuery.FetchNextRow();
        if res == Success || res == SuccessWithInfo {
          fetched := fetched + 1;
        } else if res != NoData {
          errors := errors + 1;
        }
        rows := rows + [row];
        statuses := statuses + [ToRowStatus(res)];
        i := i + 1;
      }
      FewerRows(|pending|, rowArraySize);
      rowsFetched := fetched;
      if fetched > 0 {
        result := if errors == 0 then Success else SuccessWithInfo;
      } else {
        result := if errors == 0 then NoData else Error;
      }
    }
  }

  // ---------------------------------------------------------------- any sequence of fetches

  function Sum(sizes: seq<nat>): nat {
    if |sizes| == 0 then 0 else Sum(sizes[..|sizes| - 1]) + sizes[|sizes| - 1]
  }

  /** The rows that one fetch of n elements delivers. */
  function Delivered<Row>(rows: seq<Option<Row>>): seq<Row> {
    if |rows| == 0 then []
    else Delivered(rows[..|rows| - 1]) + if rows[|rows| - 1].Some? then [rows[|rows| - 1].value] else []
  }

  /** The pending rows after fetches of the given sizes, and all rows they delivered in order. */
  function AfterFetches<Row>(pending: seq<Row>, sizes: seq<nat>): (seq<Row>, seq<Row>) {
    if |sizes| == 0 then (pending, [])
    else
      var (rest, got) := AfterFetches(pending, sizes[..|sizes| - 1]);
      var n := sizes[|sizes| - 1];
      (rest[Min(n, |rest|)..], got + Delivered(Rowset(rest, n)))
  }

  lemma {:induction false} DeliveredRows<Row>(pending: seq<Row>, n: nat)
    ensures Delivered(Rowset(pending, n)) == pending[..Min(n, |pending|)]
  {
    if n == 0 {
    } else {
      assert Rowset(pending, n)[..n - 1] == Rowset(pending, n - 1);
      DeliveredRows(pending, n - 1);
      if n <= |pending| { assert pending[..n] == pending[..n - 1] + [pending[n - 1]]; }
    }
  }

  /**
   Over any fetches, of whatever sizes, the rows come out in order and each once; once all have
   come out, every further fetch is empty.
   */
  lemma {:induction false} FetchesDeliverInOrder<Row>(all: seq<Row>, sizes: seq<nat>)
    ensures var (rest, got) := AfterFetches(all, sizes);
      got == all[..Min(Sum(sizes), |all|)] && rest == all[Min(Sum(sizes), |all|)..]
      && (Sum(sizes) >= |all| ==> rest == [] && forall n: nat :: Delivered(Rowset(rest, n)) == [])
  {
    hide Delivered, Rowset;
    if |sizes| == 0 {
    } else {
      var front, n := sizes[..|sizes| - 1], sizes[|sizes| - 1];
      FetchesDeliverInOrder(all, front);
      var (rest, got) := AfterFetches(all, front);
      DeliveredRows(rest, n);
      TwoParts(all, Sum(front), n);
    }
    var (rest, got) := AfterFetches(all, sizes);
    if Sum(sizes) >= |all| {
      forall n: nat ensures Delivered(Rowset(rest, n)) == [] { DeliveredRows(rest, n); }
    }
  }

  lemma {:induction false} TwoParts<Row>(all: seq<Row>, k: nat, n: nat)
    ensures var rest := all[Min(k, |all|)..];
      all[..Min(k, |all|)] + rest[..Min(n, |rest|)] == all[..Min(k + n, |all|)]
      && rest[Min(n, |rest|)..] == all[Min(k + n, |all|)..]
  {}
}
