/** The property table in the warehouse and the four queries the dashboard
    runs against it: the unvalidated rows (at most 100), all rows, the
    validation update and the summary counts. */
module RecordStore {
  import opened Wrappers
  import opened Records
  import opened Seqs
  import opened SqlText

  /** The `LIMIT` of the query for rows still to validate. */
  const FetchLimit: nat := 100

  /** `WHERE is_validated = FALSE`: a NULL flag does not match. */
  predicate IsUnvalidated(r: Record) {
    r.isValidated == Some(false)
  }

  /** `CASE WHEN is_validated THEN 1 ELSE 0 END` counts a row exactly when
      its flag is TRUE. */
  predicate IsValidated(r: Record) {
    r.isValidated == Some(true)
  }

  predicate FlagIsNull(r: Record) {
    r.isValidated.None?
  }

  /** The three texts the UPDATE statement splices in: the value of
      `validated_by`, the value of `validation_timestamp`, and the body of
      the IN list. */
  datatype UpdateQuery = UpdateQuery(validatedBy: string, timestamp: string, idList: string)

  /** What the warehouse makes of an UPDATE statement it can read: the user
      and timestamp it writes and the ids it matches. */
  datatype Assignment = Assignment(user: string, timestamp: string, ids: set<string>)

  /** The outcome of `update_validation`: it returns normally, or the
      statement is not accepted by the literal reader, which stands for the
      warehouse rejecting it and the call raising. */
  datatype Status = Completed | QueryError

  /** The `total_rows`, `validated_rows` and `unvalidated_rows` columns of the
      summary; a SQL `SUM` over no rows is NULL. */
  datatype SummaryRow = SummaryRow(totalRows: nat, validatedRows: Option<nat>, unvalidatedRows: Option<nat>)

  function IdSet(ids: seq<string>): set<string> {
    set id | id in ids
  }

  function BuildUpdate(rowIds: seq<string>, user: string, now: string): UpdateQuery {
    UpdateQuery(Quoted(user), Quoted(now), InList(rowIds))
  }

  /** Reads the three spliced texts back with the literal reader; any one
      that is not a single literal (or a list of them) is not accepted. */
  function ReadUpdate(q: UpdateQuery): Option<Assignment> {
    match (ReadSingle(q.validatedBy), ReadSingle(q.timestamp), ReadList(q.idList))
    case (Some(u), Some(t), Some(ids)) => Some(Assignment(u, t, IdSet(ids)))
    case _ => None
  }

  /** With no quote in any input, the statement the literal reader reads
      sets exactly the given user and timestamp on exactly the given ids. */
  lemma PlainUpdateReadsBack(rowIds: seq<string>, user: string, now: string)
    requires rowIds != [] && Plain(user) && Plain(now)
    requires forall i :: 0 <= i < |rowIds| ==> Plain(rowIds[i])
    ensures ReadUpdate(BuildUpdate(rowIds, user, now)) == Some(Assignment(user, now, IdSet(rowIds)))
  {
    SingleRoundTrip(user);
    SingleRoundTrip(now);
    InListRoundTrip(rowIds);
  }

  /** A quote in the user name ends the literal reader's `validated_by`
      value early, so the reader does not accept the statement. (The
      warehouse may still parse the spliced text as some other statement.) */
  lemma QuotedUserBreaksLiteral(rowIds: seq<string>, user: string, now: string)
    requires !Plain(user)
    ensures ReadUpdate(BuildUpdate(rowIds, user, now)).None?
  {
    SingleRoundTrip(user);
    QuotedBreaksEarly(user, []);
    assert Quoted(user) + [] == Quoted(user);
  }

  /** The SET clause applied to one row. */
  function Validated(r: Record, user: string, ts: string): Record {
    r.(isValidated := Some(true), validatedBy := Some(user), validationTimestamp := Some(ts))
  }

  /** `UPDATE ... SET ... WHERE property_id IN (...)` on the table. */
  function ApplyValidation(rows: seq<Record>, a: Assignment): (r: seq<Record>)
    ensures |r| == |rows|
  {
    seq(|rows|, i requires 0 <= i < |rows| =>
      if rows[i].propertyId in a.ids then Validated(rows[i], a.user, a.timestamp) else rows[i])
  }

  /** Every matched row is marked validated by the user at the one timestamp,
      its other columns untouched; every other row is left as it was. */
  lemma ApplyValidationEffect(rows: seq<Record>, a: Assignment)
    ensures forall i :: 0 <= i < |rows| && rows[i].propertyId in a.ids ==>
      var r := ApplyValidation(rows, a)[i];
      r.isValidated == Some(true) && r.validatedBy == Some(a.user) &&
      r.validationTimestamp == Some(a.timestamp) &&
      r.(isValidated := rows[i].isValidated, validatedBy := rows[i].validatedBy,
         validationTimestamp := rows[i].validationTimestamp) == rows[i]
    ensures forall i :: 0 <= i < |rows| && rows[i].propertyId !in a.ids ==>
      ApplyValidation(rows, a)[i] == rows[i]
  {
  }

  /** Repeating the update with the same ids and user only moves the
      timestamp: the second run gives what a single run at its time gives. */
  lemma {:induction false} ApplyValidationTwice(rows: seq<Record>, a: Assignment, later: string)
    ensures ApplyValidation(ApplyValidation(rows, a), a.(timestamp := later))
         == ApplyValidation(rows, a.(timestamp := later))
    ensures forall i :: 0 <= i < |rows| ==>
      ApplyValidation(ApplyValidation(rows, a), a.(timestamp := later))[i]
        == ApplyValidation(rows, a)[i].(validationTimestamp :=
             ApplyValidation(ApplyValidation(rows, a), a.(timestamp := later))[i].validationTimestamp)
  {
    var once := ApplyValidation(rows, a);
    var twice := ApplyValidation(once, a.(timestamp := later));
    var direct := ApplyValidation(rows, a.(timestamp := later));
    forall i | 0 <= i < |rows| ensures twice[i] == direct[i] {
      assert once[i].propertyId == rows[i].propertyId;
    }
  }

  /** The table of property records. */
  class Table {
    var rows: seq<Record>

    constructor (initial: seq<Record>)
      ensures rows == initial
    {
      rows := initial;
    }

    /** `fetch_data`: rows whose flag is FALSE, at most `FetchLimit` of them.
        Without ORDER BY the query fixes neither which rows nor their
        order, so only their number and their origin are promised; when
        there are at most `FetchLimit` of them, all are returned. */
    function FetchData(): (r: seq<Record>)
      reads this
      ensures |r| == if Count(rows, IsUnvalidated) <= FetchLimit then Count(rows, IsUnvalidated) else FetchLimit
      ensures forall x :: x in r ==> x in rows && IsUnvalidated(x)
      ensures multiset(r) <= multiset(rows)
      ensures Count(rows, IsUnvalidated) <= FetchLimit ==>
        forall x :: x in rows && IsUnvalidated(x) ==> multiset(r)[x] == multiset(rows)[x]
    {
      var pending := Filter(rows, IsUnvalidated);
      FilterCount(rows, IsUnvalidated);
      FilterMultiset(rows, IsUnvalidated);
      if |pending| <= FetchLimit then pending
      else
        assert pending == pending[..FetchLimit] + pending[FetchLimit..];
        pending[..FetchLimit]
    }

    /** `fetch_data_all`: every row, each as often as it is stored (the
        order is the warehouse's). */
    function FetchAll(): (r: seq<Record>)
      reads this
      ensures multiset(r) == multiset(rows)
    {
      rows
    }

    /** `summary_query`. */
    function Summary(): (s: SummaryRow)
      reads this
      ensures s.totalRows == |rows|
      ensures s.validatedRows.None? <==> rows == []
      ensures s.unvalidatedRows.None? <==> rows == []
      ensures rows != [] ==> s.validatedRows == Some(|Filter(rows, IsValidated)|)
      ensures rows != [] ==> s.unvalidatedRows == Some(|Filter(rows, IsUnvalidated)|)
    {
      FilterCount(rows, IsValidated);
      FilterCount(rows, IsUnvalidated);
      if rows == [] then SummaryRow(0, None, None)
      else SummaryRow(|rows|, Some(Count(rows, IsValidated)), Some(Count(rows, IsUnvalidated)))
    }

    /** `update_validation(client, row_ids, user)` run at time `now`. */
    method UpdateValidation(rowIds: seq<string>, user: string, now: string) returns (status: Status)
      modifies this
      ensures rowIds == [] ==> status == Completed && rows == old(rows)
      ensures rowIds != [] && ReadUpdate(BuildUpdate(rowIds, user, now)).None? ==>
        status == QueryError && rows == old(rows)
      ensures rowIds != [] && ReadUpdate(BuildUpdate(rowIds, user, now)).Some? ==>
        status == Completed &&
        rows == ApplyValidation(old(rows), ReadUpdate(BuildUpdate(rowIds, user, now)).value)
      ensures (rowIds != [] && Plain(user) && Plain(now) &&
               forall i :: 0 <= i < |rowIds| ==> Plain(rowIds[i])) ==>
        status == Completed && rows == ApplyValidation(old(rows), Assignment(user, now, IdSet(rowIds)))
    {
      if rowIds == [] {
        return Completed;
      }
      var query := BuildUpdate(rowIds, user, now);
      if Plain(user) && Plain(now) && forall i :: 0 <= i < |rowIds| ==> Plain(rowIds[i]) {
        PlainUpdateReadsBack(rowIds, user, now);
      }
      match ReadUpdate(query)
      case None =>
        status := QueryError;
      case Some(a) =>
        rows := ApplyValidation(rows, a);
        status := Completed;
    }
  }

  /** The rows split three ways by their flag. */
  lemma {:induction false} FlagPartition(rows: seq<Record>)
    ensures Count(rows, IsValidated) + Count(rows, IsUnvalidated) + Count(rows, FlagIsNull) == |rows|
  {
    if rows != [] {
      FlagPartition(rows[1..]);
      match rows[0].isValidated
      case None =>
      case Some(flag) =>
        assert IsValidated(rows[0]) == flag && IsUnvalidated(rows[0]) == !flag;
      assert Count(rows, IsValidated) == (if IsValidated(rows[0]) then 1 else 0) + Count(rows[1..], IsValidated);
      assert Count(rows, IsUnvalidated) == (if IsUnvalidated(rows[0]) then 1 else 0) + Count(rows[1..], IsUnvalidated);
      assert Count(rows, FlagIsNull) == (if FlagIsNull(rows[0]) then 1 else 0) + Count(rows[1..], FlagIsNull);
    }
  }

  /** Validated and unvalidated counts add up to the total whenever no flag
      is NULL (and the table is not empty, where both sums are NULL). */
  lemma SummaryAddsUp(t: Table)
    requires t.rows != [] && forall x :: x in t.rows ==> !FlagIsNull(x)
    ensures t.Summary().validatedRows.value + t.Summary().unvalidatedRows.value == t.Summary().totalRows
  {
    FlagPartition(t.rows);
    FilterCount(t.rows, IsValidated);
    FilterCount(t.rows, IsUnvalidated);
    FilterCount(t.rows, FlagIsNull);
    FilterNone(t.rows, FlagIsNull);
    assert Count(t.rows, FlagIsNull) == 0;
    assert t.Summary().validatedRows.value == Count(t.rows, IsValidated);
    assert t.Summary().unvalidatedRows.value == Count(t.rows, IsUnvalidated);
  }
}
