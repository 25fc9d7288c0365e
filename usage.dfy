/**
 * Usage of the candidate tables and the final deletion list (orphaned_models.py,
 * lines 91-134): each candidate gets a row with its own query and user counts,
 * and the rows where both are zero are the tables to delete.
 */
module Usage {
  import opened Outcomes
  import opened Seqs
  import opened Leaves

  /** COUNT(DISTINCT job_id) and COUNT(DISTINCT user_email) for one table. */
  datatype Counts = Counts(queryCount: nat, userCount: nat)

  /** A row of full_tables_df. */
  datatype Row = Row(database: string, schema: string, alias: string, nodeName: string, queryCount: nat, userCount: nat)

  /** A row of tables_to_delete: reset_index keeps the row's position in full_tables_df as "index". */
  datatype Orphan = Orphan(index: nat, row: Row)

  /** rows holds one row per candidate, in order, with its name, location and counts. */
  predicate Tabulates(candidates: seq<Candidate>, usage: Location -> Counts, rows: seq<Row>) {
    && |rows| == |candidates|
    && forall i :: 0 <= i < |rows| ==>
      var c := candidates[i];
      && rows[i].nodeName == c.nodeName
      && rows[i].database == c.location.database
      && rows[i].schema == c.location.schema
      && rows[i].alias == c.location.alias
      && rows[i].queryCount == usage(c.location).queryCount
      && rows[i].userCount == usage(c.location).userCount
  }

  /** The rows the loop of lines 92-132 appends, as one sequence. */
  function Tabulate(candidates: seq<Candidate>, usage: Location -> Counts): seq<Row> {
    seq(|candidates|, i requires 0 <= i < |candidates| =>
      var c := candidates[i];
      Row(c.location.database, c.location.schema, c.location.alias, c.nodeName,
          usage(c.location).queryCount, usage(c.location).userCount))
  }

  /** The field-by-field description of the rows determines them: Tabulate is its only solution. */
  lemma TabulatesExact(candidates: seq<Candidate>, usage: Location -> Counts, rows: seq<Row>)
    ensures Tabulates(candidates, usage, rows) <==> rows == Tabulate(candidates, usage)
  {
    if Tabulates(candidates, usage, rows) {
      var t := Tabulate(candidates, usage);
      assert |rows| == |t|;
      forall i | 0 <= i < |rows|
        ensures rows[i] == t[i]
      {
      }
    }
  }

  /** The loop of lines 92-132, with the warehouse's counts given as usage. */
  method UsageRows(candidates: seq<Candidate>, usage: Location -> Counts) returns (rows: seq<Row>)
    ensures Tabulates(candidates, usage, rows)
    ensures rows == Tabulate(candidates, usage)
  {
    rows := [];
    for i := 0 to |candidates|
      invariant |rows| == i
      invariant forall k :: 0 <= k < i ==>
        var c := candidates[k];
        rows[k] == Row(c.location.database, c.location.schema, c.location.alias, c.nodeName,
                       usage(c.location).queryCount, usage(c.location).userCount)
    {
      var c := candidates[i];
      var counts := usage(c.location);
      rows := rows + [Row(c.location.database, c.location.schema, c.location.alias, c.nodeName,
                          counts.queryCount, counts.userCount)];
    }
    TabulatesExact(candidates, usage, rows);
  }

  /** The test of line 134. */
  predicate Unused(o: Orphan) {
    o.row.userCount == 0 && o.row.queryCount == 0
  }

  /** The rows of a table together with their positions. */
  function Numbered(rows: seq<Row>): seq<Orphan> {
    seq(|rows|, i requires 0 <= i < |rows| => Orphan(i, rows[i]))
  }

  /** tables_to_delete, as line 134 evidently intends it. */
  function ToDelete(rows: seq<Row>): seq<Orphan> {
    Filter(Numbered(rows), Unused)
  }

  /**
   * The deletion list holds exactly the rows with both counts zero, each with its
   * position, in increasing position order, so once each.
   */
  lemma ToDeleteExact(rows: seq<Row>)
    ensures forall i: nat, r :: Orphan(i, r) in ToDelete(rows) <==>
      i < |rows| && rows[i] == r && r.userCount == 0 && r.queryCount == 0
    ensures forall a, b :: 0 <= a < b < |ToDelete(rows)| ==> ToDelete(rows)[a].index < ToDelete(rows)[b].index
  {
    var numbered := Numbered(rows);
    var key := (o: Orphan) => o.index as int;
    assert forall a, b :: 0 <= a < b < |numbered| ==> key(numbered[a]) < key(numbered[b]);
    FilterKeepsOrder(numbered, Unused, key);
    forall i: nat, r | Orphan(i, r) in ToDelete(rows)
      ensures i < |rows| && rows[i] == r
    {
      var k :| 0 <= k < |numbered| && numbered[k] == Orphan(i, r);
    }
    forall i: nat, r | i < |rows| && rows[i] == r && r.userCount == 0 && r.queryCount == 0
      ensures Orphan(i, r) in ToDelete(rows)
    {
      assert numbered[i] == Orphan(i, r);
    }
  }

  /** A table used by a single query is kept even when no distinct user was counted. */
  lemma UsedTableKept(rows: seq<Row>, i: nat)
    requires i < |rows| && rows[i].queryCount == 5 && rows[i].userCount == 0
    ensures forall o :: o in ToDelete(rows) ==> o.index != i
  {
    ToDeleteExact(rows);
    forall o | o in ToDelete(rows)
      ensures o.index != i
    {
      assert Orphan(o.index, o.row) in ToDelete(rows);
    }
  }

  /**
   * Line 134 as written: with no candidates full_tables_df was never given
   * columns, so selecting "user_count" raises a KeyError instead of producing an
   * empty list.
   */
  function TablesToDeleteAsWritten(rows: seq<Row>): Result<seq<Orphan>> {
    if rows == [] then Err(MissingColumn("user_count")) else Ok(ToDelete(rows))
  }

  /** The two readings of line 134 differ exactly on an empty candidate list. */
  lemma EmptyCandidatesFail(rows: seq<Row>)
    ensures TablesToDeleteAsWritten(rows).Err? <==> rows == []
    ensures rows != [] ==> TablesToDeleteAsWritten(rows) == Ok(ToDelete(rows))
    ensures ToDelete([]) == []
  {
  }

  /** One entry of the warehouse's query log within the trailing window; None is a NULL column. */
  datatype LogEntry = LogEntry(jobId: Option<string>, userEmail: Option<string>, query: string)

  /** The annotation that marks a query issued by dbt itself. */
  const DbtMarker := "\"app\": \"dbt\", "

  /** part occurs in text as a contiguous substring (CONTAINS_SUBSTR). */
  predicate Contains(text: string, part: string) {
    part <= text || (text != [] && Contains(text[1..], part))
  }

  /** The WHERE clause of lines 103-106: alias, database and schema occur, the dbt annotation does not. */
  predicate Counted(e: LogEntry, loc: Location) {
    && Contains(e.query, loc.alias)
    && Contains(e.query, loc.database)
    && Contains(e.query, loc.schema)
    && !Contains(e.query, DbtMarker)
  }

  /** The counts the query of lines 95-108 reports over a given log: COUNT(DISTINCT …) skips NULLs. */
  function LogUsage(log: seq<LogEntry>, loc: Location): Counts {
    Counts(|set e | e in log && Counted(e, loc) && e.jobId.Some? :: e.jobId.value|,
           |set e | e in log && Counted(e, loc) && e.userEmail.Some? :: e.userEmail.value|)
  }

  /**
   * Over a log, the query count is zero exactly when no matching entry has a job
   * id, and the user count exactly when no matching entry has a user email; a log
   * without matches, or of dbt's own queries only, makes a table unused.
   */
  lemma LogUsageZero(log: seq<LogEntry>, loc: Location)
    ensures LogUsage(log, loc).queryCount == 0 <==> forall e :: e in log && Counted(e, loc) ==> e.jobId.None?
    ensures LogUsage(log, loc).userCount == 0 <==> forall e :: e in log && Counted(e, loc) ==> e.userEmail.None?
    ensures (forall e :: e in log ==> !Counted(e, loc)) ==> LogUsage(log, loc) == Counts(0, 0)
    ensures (forall e :: e in log ==> Contains(e.query, DbtMarker)) ==> LogUsage(log, loc) == Counts(0, 0)
  {
    var jobs := set e | e in log && Counted(e, loc) && e.jobId.Some? :: e.jobId.value;
    var users := set e | e in log && Counted(e, loc) && e.userEmail.Some? :: e.userEmail.value;
    if exists i :: 0 <= i < |log| && Counted(log[i], loc) && log[i].jobId.Some? {
      var i :| 0 <= i < |log| && Counted(log[i], loc) && log[i].jobId.Some?;
      assert log[i].jobId.value in jobs;
    } else {
      assert jobs == {};
    }
    if exists i :: 0 <= i < |log| && Counted(log[i], loc) && log[i].userEmail.Some? {
      var i :| 0 <= i < |log| && Counted(log[i], loc) && log[i].userEmail.Some?;
      assert log[i].userEmail.value in users;
    } else {
      assert users == {};
    }
  }

  /**
   * The counts need not be zero together: one matching query with a NULL user
   * email counts one query and no user, the case line 134 keeps.
   */
  lemma NullUserCountsQueryOnly(e: LogEntry, loc: Location)
    requires Counted(e, loc) && e.jobId.Some? && e.userEmail.None?
    ensures LogUsage([e], loc) == Counts(1, 0)
  {
    var jobs := set x | x in [e] && Counted(x, loc) && x.jobId.Some? :: x.jobId.value;
    var users := set x | x in [e] && Counted(x, loc) && x.userEmail.Some? :: x.userEmail.value;
    assert jobs == {e.jobId.value};
    assert users == {};
  }
}
