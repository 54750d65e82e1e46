/** The upload page after the file is read (`app/app.py`): the batch
    check, then for every row the content hash over the raw cells and the
    amount normalised to a decimal, then, on the button press, staging
    replaced by the batch and `run_etl`.  Every failure is reported on
    the page; what was written before it stays written. */
module Ingest {
  import opened Wrappers
  import opened Text
  import opened Tables
  import opened Calendar
  import opened Validation
  import opened ContentKey
  import opened Warehouse
  import opened EtlRun
  import Amount

  /** How an upload ends. */
  datatype Outcome =
    | Rejected(verdict: Verdict)          // the batch check failed
    | BadAmount(amountError: Amount.AmountError) // an amount is not a decimal
    | EtlFailed(tempoError: TempoError)   // `run_etl` raised
    | Loaded

  /** `str(cell)`: a null cell prints as "nan" (a row that reaches the
      hash has no null in a required column, so this never shows). */
  function CellText(c: Option<string>): string {
    c.GetOr("nan")
  }

  /** The cells of a row the hash is computed from; Valor after its nulls
      are filled with "0", but not yet normalised. */
  function RawOf(t: Table, row: seq<Option<string>>): RawRow {
    RawRow(
      CellText(Cell(t, row, "Descrição")), CellText(Cell(t, row, "Tipo")),
      CellText(Cell(t, row, "Grupo")), CellText(Cell(t, row, "Categoria")),
      CellText(Cell(t, row, "Classificação")), CellText(Cell(t, row, "Data")),
      Cell(t, row, "Valor").GetOr("0"))
  }

  /** The staging row a sheet row becomes: its text cells as read, the
      hash of its raw cells and its amount as a decimal. */
  function StageRow(t: Table, row: seq<Option<string>>, md5: string -> string): Result<Staged, Amount.AmountError> {
    var raw := RawOf(t, row);
    var valor :- Amount.NormalizeValor(Cell(t, row, "Valor"));
    Ok(Staged(raw.descricao, raw.tipo, raw.grupo, raw.categoria,
              Cell(t, row, "Classificação"), Cell(t, row, "Data"),
              valor, GerarHash(raw, md5)))
  }

  /** Every row staged, in order; the first amount that is not a decimal
      fails the whole batch. */
  function StageRows(t: Table, rows: seq<seq<Option<string>>>, md5: string -> string): (r: Result<seq<Staged>, Amount.AmountError>)
    ensures r.Ok? <==> forall j :: 0 <= j < |rows| ==> StageRow(t, rows[j], md5).Ok?
    ensures r.Ok? ==> |r.value| == |rows|
    ensures r.Ok? ==> forall j :: 0 <= j < |rows| ==> r.value[j] == StageRow(t, rows[j], md5).value
  {
    MapAll(rows, row => StageRow(t, row, md5))
  }

  /** The whole upload: the outcome and the warehouse it leaves. */
  function Upload(t: Table, w: State, md5: string -> string): (r: (Outcome, State))
    ensures r.0.Rejected? <==> !Validate(t).Valid?
    ensures r.0.Rejected? ==> r.0.verdict == Validate(t)
    ensures r.0.Rejected? || r.0.BadAmount? ==> r.1 == w
    ensures r.0.BadAmount? <==> Validate(t).Valid? && StageRows(t, t.rows, md5).Err?
    ensures r.0.EtlFailed? ==> r.1 == LoadStaging(w, StageRows(t, t.rows, md5).value)
    ensures r.0.Loaded? ==> r.1.staging == StageRows(t, t.rows, md5).value
    ensures r.0.Loaded? ==> RunEtl(LoadStaging(w, r.1.staging)) == Ok(r.1)
  {
    var v := Validate(t);
    if !v.Valid? then (Rejected(v), w)
    else
      match StageRows(t, t.rows, md5)
      case Err(e) => (BadAmount(e), w)
      case Ok(batch) =>
        var staged := LoadStaging(w, batch);
        match RunEtl(staged)
        case Err(e) => (EtlFailed(e), staged)
        case Ok(w') =>
          RunEtlGrows(staged);
          (Loaded, w')
  }

  // ------------------------------------------------------------ properties

  /** A valid row has a non-blank text in every required column. */
  lemma ValidCells(t: Table, j: nat, name: string)
    requires Validate(t).Valid? && j < |t.rows| && name in Required
    ensures Cell(t, t.rows[j], name).Some?
  {
    ValidIff(t);
    assert !Flagged(t, j);
  }

  /** After a successful upload every row of the sheet is a fact, found
      by the hash of its raw cells. */
  lemma EveryRowLoaded(t: Table, w: State, md5: string -> string, j: nat)
    requires Upload(t, w, md5).0.Loaded? && j < |t.rows|
    ensures GerarHash(RawOf(t, t.rows[j]), md5) in Keys(Upload(t, w, md5).1.fatos, FatoHash)
  {
    var batch := StageRows(t, t.rows, md5).value;
    var s := batch[j];
    assert s == StageRow(t, t.rows[j], md5).value;
    ValidCells(t, j, "Classificação");
    ValidCells(t, j, "Data");
    assert s in LoadStaging(w, batch).staging;
    EveryHashLoaded(LoadStaging(w, batch), s);
  }

  /** A Data cell whose text `load_dim_tempo` cannot load: it is not a
      `%m/%Y` month, or the month lies outside pandas' timestamps. */
  predicate BadMonth(c: Option<string>) {
    c.Some? && !Loadable(c.value)
  }

  /** The loader fails exactly when the sheet, valid and with decimal
      amounts, has no rows or some Data cell that cannot be loaded;
      staging then holds the new batch while the rest of the warehouse
      is untouched. */
  lemma EtlFailsOnBadMonth(t: Table, w: State, md5: string -> string)
    requires Validate(t).Valid? && StageRows(t, t.rows, md5).Ok?
    ensures Upload(t, w, md5).0.EtlFailed? <==>
      |t.rows| == 0 || exists j :: 0 <= j < |t.rows| && BadMonth(Cell(t, t.rows[j], "Data"))
    ensures Upload(t, w, md5).0.EtlFailed? ==>
      Upload(t, w, md5).1.dims == w.dims && Upload(t, w, md5).1.fatos == w.fatos
  {
    var batch := StageRows(t, t.rows, md5).value;
    RunEtlFails(LoadStaging(w, batch));
    BatchMonths(t, md5);
  }

  /** A sheet with the header and no rows passes the batch check; the
      loader then raises on the empty Data column, after staging has been
      emptied. */
  lemma HeaderOnlyFails(w: State, md5: string -> string)
    ensures Upload(Table(Required, []), w, md5).0.EtlFailed?
    ensures Upload(Table(Required, []), w, md5).1 == LoadStaging(w, [])
  {
    var t := Table(Required, []);
    CompleteTablePasses(t);
    assert StageRows(t, t.rows, md5) == Ok([]);
    EtlFailsOnBadMonth(t, w, md5);
  }

  /** The staged rows of a valid batch carry exactly its Data cells: some
      row has a Data exactly when the sheet has a row, and one of them
      cannot be loaded exactly when one of the cells cannot. */
  lemma BatchMonths(t: Table, md5: string -> string)
    requires Validate(t).Valid? && StageRows(t, t.rows, md5).Ok?
    ensures MonthsLoadable(StageRows(t, t.rows, md5).value) <==>
      |t.rows| > 0 && !exists j :: 0 <= j < |t.rows| && BadMonth(Cell(t, t.rows[j], "Data"))
  {
    var batch := StageRows(t, t.rows, md5).value;
    if |t.rows| > 0 {
      ValidCells(t, 0, "Data");
      StagedCells(t, t.rows[0], md5);
      assert batch[0] in batch;
    }
    if exists j :: 0 <= j < |t.rows| && BadMonth(Cell(t, t.rows[j], "Data")) {
      var j :| 0 <= j < |t.rows| && BadMonth(Cell(t, t.rows[j], "Data"));
      StagedCells(t, t.rows[j], md5);
      assert batch[j] in batch;
    }
    if exists s :: s in batch && s.data.Some? && !Loadable(s.data.value) {
      var s :| s in batch && s.data.Some? && !Loadable(s.data.value);
      var j := Position(batch, s);
      StagedCells(t, t.rows[j], md5);
    }
  }

  /** A staged row keeps the Classificação and Data cells as read and
      is keyed by the hash of the raw cells. */
  lemma StagedCells(t: Table, row: seq<Option<string>>, md5: string -> string)
    requires StageRow(t, row, md5).Ok?
    ensures StageRow(t, row, md5).value.data == Cell(t, row, "Data")
    ensures StageRow(t, row, md5).value.classificacao == Cell(t, row, "Classificação")
    ensures StageRow(t, row, md5).value.idHash == GerarHash(RawOf(t, row), md5)
  {
  }

  /** A successful upload keeps a consistent warehouse consistent and its
      keys unique. */
  lemma UploadConsistent(t: Table, w: State, md5: string -> string)
    requires Consistent(w) && Keyed(w) && Upload(t, w, md5).0.Loaded?
    ensures Consistent(Upload(t, w, md5).1) && Keyed(Upload(t, w, md5).1)
  {
    var staged := LoadStaging(w, StageRows(t, t.rows, md5).value);
    assert Consistent(staged) && Keyed(staged);
    RunEtlConsistent(staged);
  }

  /** Uploading the same sheet again adds no fact and no dimension row
      except in `dim_tempo`, which receives its months a second time. */
  lemma ReuploadOnlyGrowsTempo(t: Table, w: State, md5: string -> string)
    requires Upload(t, w, md5).0.Loaded?
    ensures var w1 := Upload(t, w, md5).1;
      var r := Upload(t, w1, md5);
      && r.0.Loaded?
      && r.1 == w1.(dims := w1.dims.(tempos := r.1.dims.tempos))
      && w1.dims.tempos <= r.1.dims.tempos
  {
    var w1 := Upload(t, w, md5).1;
    var staged := LoadStaging(w, w1.staging);
    RerunOnlyGrowsTempo(staged);
    assert LoadStaging(w1, w1.staging) == w1;
  }

  /** The hash is taken over the amount as typed, before normalisation:
      the same amount written with a thousands point stages the same
      decimal under a different key. */
  lemma HashOverRawAmount(t: Table, row1: seq<Option<string>>, row2: seq<Option<string>>, v: string, i: nat, md5: string -> string)
    requires forall c :: c in Required && c != "Valor" ==> Cell(t, row1, c) == Cell(t, row2, c)
    requires Cell(t, row1, "Valor") == Some(v) && i <= |v|
    requires Cell(t, row2, "Valor") == Some(v[..i] + "." + v[i..])
    requires StageRow(t, row1, md5).Ok?
    requires forall a, b :: md5(a) == md5(b) ==> a == b
    ensures StageRow(t, row2, md5).Ok?
    ensures StageRow(t, row2, md5).value.valor == StageRow(t, row1, md5).value.valor
    ensures StageRow(t, row2, md5).value.idHash != StageRow(t, row1, md5).value.idHash
  {
    var r1 := RawOf(t, row1);
    var v' := v[..i] + "." + v[i..];
    OtherCellsAgree(t, row1, row2);
    ValorTextMatters(r1, i);
    assert Amount.NormalizeValor(Some(v')) == Amount.NormalizeValor(Some(v));
  }

  /** Rows that agree on every required column but Valor have the same
      raw cells but for Valor. */
  lemma OtherCellsAgree(t: Table, row1: seq<Option<string>>, row2: seq<Option<string>>)
    requires forall c :: c in Required && c != "Valor" ==> Cell(t, row1, c) == Cell(t, row2, c)
    ensures RawOf(t, row2) == RawOf(t, row1).(valor := Cell(t, row2, "Valor").GetOr("0"))
  {
    assert "Descrição" in Required && "Tipo" in Required && "Grupo" in Required;
    assert "Categoria" in Required && "Classificação" in Required && "Data" in Required;
  }
}
