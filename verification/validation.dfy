/** The batch check the upload page runs before anything is written:
    first that every required column is present, then that no row has a
    missing value in a required column.  A table is the parsed CSV: its
    header and, for each row, one optional text cell per column (`None`
    for a cell the CSV reader turned into a null). */
module Validation {
  import opened Wrappers
  import opened Text

  datatype Table = Table(columns: seq<string>, rows: seq<seq<Option<string>>>)

  /** The columns every batch must have, in the order they are reported. */
  const Required: seq<string> := ["Descrição", "Tipo", "Grupo", "Categoria", "Classificação", "Data", "Valor"]

  /** The cell of column `name` in `row`; `None` when the header has no
      such column. */
  function Cell(t: Table, row: seq<Option<string>>, name: string): Option<string> {
    var j := IndexOf(t.columns, name);
    if j < |t.columns| && j < |row| then row[j] else None
  }

  /** Null, empty and whitespace-only cells all count as missing: the
      page turns "" and every match of `^\s*$` into a null before
      looking for nulls. */
  predicate IsMissing(c: Option<string>) {
    c.None? || AllSpace(c.value)
  }

  /** The names in `names` that are not columns of the table, in order. */
  function AbsentColumns(names: seq<string>, columns: seq<string>): (r: seq<string>)
    ensures forall c :: c in r <==> c in names && c !in columns
    ensures |r| <= |names|
  {
    if |names| == 0 then []
    else
      var rest := AbsentColumns(names[1..], columns);
      if names[0] in columns then rest else [names[0]] + rest
  }

  /** The names in `names` whose cell in `row` is missing, in order. */
  function MissingFields(names: seq<string>, t: Table, row: seq<Option<string>>): (r: seq<string>)
    ensures forall f :: f in r <==> f in names && IsMissing(Cell(t, row, f))
  {
    if |names| == 0 then []
    else
      var rest := MissingFields(names[1..], t, row);
      if IsMissing(Cell(t, row, names[0])) then [names[0]] + rest else rest
  }

  /** Row `j` (0-based) has a missing value in some required column. */
  predicate Flagged(t: Table, j: nat)
    requires j < |t.rows|
  {
    exists f :: f in Required && IsMissing(Cell(t, t.rows[j], f))
  }

  /** One line of the error listing: the 1-based row number and the
      required fields missing in it. */
  datatype RowReport = RowReport(number: nat, fields: seq<string>)

  datatype Verdict =
    | MissingColumns(names: seq<string>)
    | MissingValues(reports: seq<RowReport>)
    | Valid

  /** `rep` truthfully reports a flagged row of `t`. */
  predicate Reported(t: Table, rep: RowReport) {
    && 1 <= rep.number <= |t.rows|
    && rep.fields == MissingFields(Required, t, t.rows[rep.number - 1])
    && rep.fields != []
  }

  /** Every report is truthful and names a row after `from`, and the
      row numbers strictly increase. */
  predicate ReportList(t: Table, reps: seq<RowReport>, from: nat) {
    AllReported(t, reps, from) && Ascending(reps)
  }

  predicate AllReported(t: Table, reps: seq<RowReport>, from: nat) {
    forall k :: 0 <= k < |reps| ==> from < reps[k].number && Reported(t, reps[k])
  }

  predicate Ascending(reps: seq<RowReport>) {
    forall k, l :: 0 <= k < l < |reps| ==> reps[k].number < reps[l].number
  }

  /** The reports for rows `from` onwards, in row order. */
  function Reports(t: Table, from: nat): seq<RowReport>
    decreases |t.rows| - from
  {
    if from >= |t.rows| then []
    else
      var fields := MissingFields(Required, t, t.rows[from]);
      var rest := Reports(t, from + 1);
      if fields != [] then [RowReport(from + 1, fields)] + rest else rest
  }

  /** Every report is truthful, names a row from `from` on, and the
      reports come in row order. */
  lemma {:induction false} ReportsTruthful(t: Table, from: nat)
    ensures ReportList(t, Reports(t, from), from)
    decreases |t.rows| - from
  {
    if from < |t.rows| {
      ReportsTruthful(t, from + 1);
      ReportsStep(t, from);
      var fields := MissingFields(Required, t, t.rows[from]);
      if fields != [] {
        PrependReport(t, RowReport(from + 1, fields), Reports(t, from + 1), from);
      }
    }
  }

  lemma PrependReport(t: Table, rep: RowReport, rest: seq<RowReport>, from: nat)
    requires Reported(t, rep) && rep.number == from + 1 && ReportList(t, rest, from + 1)
    ensures ReportList(t, [rep] + rest, from)
  {
    PrependReported(t, rep, rest, from);
    PrependAscending(rep, rest, from);
  }

  lemma PrependReported(t: Table, rep: RowReport, rest: seq<RowReport>, from: nat)
    requires Reported(t, rep) && rep.number == from + 1 && AllReported(t, rest, from + 1)
    ensures AllReported(t, [rep] + rest, from)
  {
    var r := [rep] + rest;
    forall k | 0 <= k < |r| ensures from < r[k].number && Reported(t, r[k]) {
      if k > 0 {
        assert r[k] == rest[k - 1];
      }
    }
  }

  lemma PrependAscending(rep: RowReport, rest: seq<RowReport>, from: nat)
    requires rep.number == from + 1 && Ascending(rest)
    requires forall k :: 0 <= k < |rest| ==> from + 1 < rest[k].number
    ensures Ascending([rep] + rest)
  {
    var r := [rep] + rest;
    forall k, l | 0 <= k < l < |r| ensures r[k].number < r[l].number {
      assert r[l] == rest[l - 1];
      if k > 0 {
        assert r[k] == rest[k - 1];
      }
    }
  }

  /** Some name of `names` is absent exactly when the absent list is
      non-empty. */
  lemma AbsentNonEmpty(names: seq<string>, columns: seq<string>)
    ensures AbsentColumns(names, columns) != [] <==> exists c :: c in names && c !in columns
  {
    var r := AbsentColumns(names, columns);
    if r != [] {
      assert r[0] in r;
    }
    if exists c :: c in names && c !in columns {
      var c :| c in names && c !in columns;
      assert c in r;
    }
  }

  /** The check of the upload page: absent columns stop it before any row
      is looked at; otherwise every row with a missing value is reported. */
  function Validate(t: Table): (v: Verdict)
    ensures v.MissingColumns? <==> exists c :: c in Required && c !in t.columns
    ensures v.MissingColumns? ==> forall c :: c in v.names <==> c in Required && c !in t.columns
    ensures v.MissingValues? ==> v.reports != [] && forall c :: c in Required ==> c in t.columns
    ensures v.MissingValues? ==> ReportList(t, v.reports, 0)
  {
    var absent := AbsentColumns(Required, t.columns);
    AbsentNonEmpty(Required, t.columns);
    ReportsTruthful(t, 0);
    if absent != [] then MissingColumns(absent)
    else
      var reports := Reports(t, 0);
      if reports != [] then MissingValues(reports) else Valid
  }

  /** A row's report is non-empty exactly when the row is flagged. */
  lemma FlaggedIffFields(t: Table, j: nat)
    requires j < |t.rows|
    ensures Flagged(t, j) <==> MissingFields(Required, t, t.rows[j]) != []
  {
    var fs := MissingFields(Required, t, t.rows[j]);
    if Flagged(t, j) {
      var f :| f in Required && IsMissing(Cell(t, t.rows[j], f));
      assert f in fs;
    }
    if fs != [] {
      assert fs[0] in fs;
    }
  }

  /** One step of `Reports`. */
  lemma ReportsStep(t: Table, from: nat)
    requires from < |t.rows|
    ensures var fields := MissingFields(Required, t, t.rows[from]);
      Reports(t, from) == if fields != [] then [RowReport(from + 1, fields)] + Reports(t, from + 1) else Reports(t, from + 1)
  {
  }

  /** Every flagged row from `from` on has a report, numbered `j + 1`. */
  lemma {:induction false} ReportsComplete(t: Table, from: nat, j: nat) returns (k: nat)
    requires from <= j < |t.rows| && Flagged(t, j)
    ensures k < |Reports(t, from)| && Reports(t, from)[k].number == j + 1
    decreases j - from
  {
    if from == j {
      ReportsHead(t, j);
      k := 0;
    } else {
      var k' := ReportsComplete(t, from + 1, j);
      k := ReportsShift(t, from, k');
    }
  }

  /** A flagged row's report comes first in the reports from that row. */
  lemma ReportsHead(t: Table, j: nat)
    requires j < |t.rows| && Flagged(t, j)
    ensures |Reports(t, j)| > 0 && Reports(t, j)[0].number == j + 1
  {
    FlaggedIffFields(t, j);
    ReportsStep(t, j);
  }

  /** A report from row `from + 1` on is also one from row `from` on. */
  lemma ReportsShift(t: Table, from: nat, k: nat) returns (k': nat)
    requires from < |t.rows| && k < |Reports(t, from + 1)|
    ensures k' < |Reports(t, from)| && Reports(t, from)[k'] == Reports(t, from + 1)[k]
  {
    ReportsStep(t, from);
    var rest := Reports(t, from + 1);
    if MissingFields(Required, t, t.rows[from]) != [] {
      var r := [RowReport(from + 1, MissingFields(Required, t, t.rows[from]))] + rest;
      assert r[k + 1] == rest[k];
      k' := k + 1;
    } else {
      k' := k;
    }
  }

  /** The batch passes exactly when every required column is present and
      no row is flagged. */
  lemma ValidIff(t: Table)
    ensures Validate(t).Valid? <==>
      && (forall c :: c in Required ==> c in t.columns)
      && (forall j :: 0 <= j < |t.rows| ==> !Flagged(t, j))
  {
    if (forall c :: c in Required ==> c in t.columns) && exists j :: 0 <= j < |t.rows| && Flagged(t, j) {
      var j :| 0 <= j < |t.rows| && Flagged(t, j);
      FlaggedNotValid(t, j);
    }
    if Validate(t).MissingValues? {
      ReportedFlagged(t);
    }
  }

  /** A flagged row makes the batch invalid. */
  lemma FlaggedNotValid(t: Table, j: nat)
    requires (forall c :: c in Required ==> c in t.columns) && j < |t.rows| && Flagged(t, j)
    ensures !Validate(t).Valid?
  {
    var k := ReportsComplete(t, 0, j);
  }

  /** A list of missing values names a flagged row. */
  lemma ReportedFlagged(t: Table)
    requires Validate(t).MissingValues?
    ensures exists j :: 0 <= j < |t.rows| && Flagged(t, j)
  {
    var rep := Validate(t).reports[0];
    FlaggedIffFields(t, rep.number - 1);
  }

  /** Every flagged row is listed, not just the first, under the number
      `j + 1` and with exactly its missing fields. */
  lemma AllFlaggedReported(t: Table, j: nat) returns (k: nat)
    requires forall c :: c in Required ==> c in t.columns
    requires j < |t.rows| && Flagged(t, j)
    ensures Validate(t).MissingValues?
    ensures k < |Validate(t).reports| && Validate(t).reports[k].number == j + 1
    ensures forall f :: f in Validate(t).reports[k].fields <==> f in Required && IsMissing(Cell(t, t.rows[j], f))
  {
    k := ReportsComplete(t, 0, j);
    AbsentNonEmpty(Required, t.columns);
    assert Validate(t) == MissingValues(Reports(t, 0));
    ReportsTruthful(t, 0);
    assert Reported(t, Reports(t, 0)[k]);
  }

  /** A table whose rows all carry a non-blank value in every required
      column passes. */
  lemma CompleteTablePasses(t: Table)
    requires forall c :: c in Required ==> c in t.columns
    requires forall j, c :: 0 <= j < |t.rows| && c in Required ==> !IsMissing(Cell(t, t.rows[j], c))
    ensures Validate(t).Valid?
  {
    ValidIff(t);
  }
}
