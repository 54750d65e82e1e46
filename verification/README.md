# Financial ingestion pipeline: a Dafny model

The system takes a monthly ledger sheet (CSV) uploaded through a web page
and loads it into a small star-schema warehouse. The model covers four
parts of it:

- **The batch check** of the upload page (`Validation`). Every required
  column must be present, and no row may have a null, empty or
  whitespace-only cell in a required column. Every offending row is
  listed with its missing fields.
- **The per-row preparation** (`Amount`, `ContentKey`, `Ingest`):
  - the content hash (`gerar_hash`) is computed over the raw cells;
  - the Brazilian-formatted amount (`normalize_valor`, "1.234,56") is
    rewritten and parsed as an exact `decimal.Decimal`.
- **The staging write and the loader** (`Warehouse`, `EtlRun`).
  `run_etl` fills the dimensions `dim_tempo`, `dim_tipo`, `dim_grupo`,
  `dim_categoria` and `dim_classificacao`, then the fact table
  `fato_lancamento`. Each step is a pure transformer of an abstract
  warehouse state.
- **The calendar arithmetic** behind `dim_tempo` (`Calendar`):
  - `strptime(text, "%m/%Y")`;
  - the ISO week of a month's first day;
  - the month's first and last days.

Support modules:

- `Wrappers`: `Option` and `Result`.
- `Text`: `isspace`, `strip`, `lower` and digits.
- `Tables`: tables as sequences of rows whose serial id is the position
  plus one. It also models the two SQL idioms the loader is built from:
  - `INSERT … ON CONFLICT (key) DO NOTHING`, modelled by
    `Tables.InsertIgnore`;
  - an equi-join on a key, modelled by `Tables.IdOf`.

What the proofs establish:

- **The loader's steps:**
  - each step is idempotent, except `dim_tempo`;
  - the warehouse stays referentially consistent, and every
    `ON CONFLICT` key stays unique;
  - after a successful upload, every row of the sheet is a fact, found
    under its hash;
  - re-uploading the same sheet adds nothing but duplicate `dim_tempo`
    rows.
- **The hash key:**
  - it ignores letter case and padding;
  - it separates rows only when no field holds a dash;
  - it takes the amount as typed, so the same amount with a thousands
    point gets a different hash.
- **The amount rewrite** round-trips every finite decimal written in
  comma notation.

Behaviours of the code worth noting:

- **The hash key uses the raw Valor text** (`app/utils.py:23`, called
  at `app/app.py:66` before normalisation at line 67). It does not use
  the normalised amount, so "1.000,00" and "1000,00" give two facts.
- **Staging rows that fail a join are dropped silently** by the fact
  insert's inner joins (`app/etl.py:122-128`). They are not reported.
- **`dim_tempo` is written with a plain append** (`app/etl.py:39`). The
  loader does not check for months already there. Every run adds the
  batch's months again, and the fact join then chooses among equal rows.
  This assumes the table has no unique constraint on its month (see
  "Left out").
- **`load_dim_tempo` raises on a batch with no Data at all**
  (`app/etl.py:24-31`). A header-only sheet passes the batch check and
  replaces staging. The empty column that `strptime` never touched is not
  datetime-typed, so `.dt` raises. The page then reports an error.
- **`load_dim_tempo` raises on months that pandas' nanosecond timestamps
  cannot hold** (`app/etl.py:28-35`). Those timestamps run from
  1677-09-21 to 2262-04-11.
  - A month from September 1677 back, or from May 2262 on, leaves the
    converted column untyped, so `.dt` raises at line 31.
  - April 2262 fits, but its `end_time` does not, so line 35 raises.
- **The null amount becomes "0" inside `normalize_valor`**
  (`app/utils.py:6`) as well as at `app/app.py:65`.

## Model

| member | source | states |
|---|---|---|
| Amount.Rewrite | app/utils.py:7-12 | after deleting every "." and turning "," into ".", the points of the result sit exactly where the dot-free text had commas, no comma is left, and every other character is unchanged |
| Amount.RemoveChar | app/utils.py:10 | `replace(".", "")` leaves no "." and never lengthens the text |
| Amount.CommaToPoint | app/utils.py:11 | `replace(",", ".")` keeps the length, leaves no comma, and puts a point exactly where there was a point or a comma |
| Amount.ParsePlain | app/utils.py:13 | `Decimal` of a plain literal `[-]digits[.digits]` is the decimal whose coefficient is all its digits and whose exponent is minus the fraction length |
| Amount.BrazilianRoundTrip | app/utils.py:5-14 | every finite decimal written in comma notation normalises back to exactly that decimal (sign, coefficient and exponent) |
| Amount.GroupedRoundTrip | app/utils.py:5-14 | the comma-notation text with a thousands point inserted anywhere still normalises to the same decimal |
| Amount.PointsIgnored | app/utils.py:10 | inserting a "." anywhere in an amount never changes what it normalises to |
| Amount.TwoCommasRejected | app/utils.py:10-13 | an amount with two commas raises instead of yielding a value |
| Amount.NullAmountIsZero | app/utils.py:6 | a null amount is filled with "0" and normalises to decimal zero |
| Amount.ThousandsExample | app/utils.py:5-14 | "1.234,56" normalises to exactly 1234.56 |
| Amount.HalfExample | app/utils.py:5-14 | "0,5" normalises to exactly 0.5 |
| Amount.FiveThousandExample | app/utils.py:5-14 | "5.000,00" normalises to 5000.00 with two fraction digits |
| Text.StripUnique | app/utils.py:18-22 | `strip()` of a trimmed core surrounded by any whitespace is that core |
| Text.StripIgnoresPadding | app/utils.py:21 | padding a text with whitespace does not change its `strip()` |
| ContentKey.KeyFields | app/utils.py:17-23 | the hashed key consists of exactly six fields |
| ContentKey.KeyWritten | app/utils.py:17-24 | the key is canonical Tipo, Grupo and Categoria, then trimmed Data, canonical Descrição and raw Valor, in that order, joined by "-" |
| ContentKey.SplitJoin | app/utils.py:17-24 | splitting a dash-joined field list at its first dashes gives the fields back when only the last field may hold a dash |
| ContentKey.KeySplits | app/utils.py:17-24 | a key whose first five fields hold no dash splits back into its six fields |
| ContentKey.KeyInjective | app/utils.py:16-25 | for dash-free fields, two rows have the same key if and only if their six canonical fields agree |
| ContentKey.SameFieldsSameHash | app/utils.py:16-25 | rows whose canonical fields agree have the same key and the same hash, whatever else differs |
| ContentKey.HashIgnoresCaseAndPadding | app/utils.py:18-22 | retyping Tipo, Grupo, Categoria and Descrição in another case with surrounding whitespace, padding Data, or changing Classificação leaves the hash unchanged |
| ContentKey.CanonIdempotent | app/utils.py:18 | `strip().lower()` yields a canonical text, and applying it twice is applying it once |
| ContentKey.ValorTextMatters | app/utils.py:23 | inserting a thousands point into the Valor text changes the key, although the amount it normalises to is the same |
| ContentKey.DashCollision | app/utils.py:17-24 | moving a dash from the end of Tipo to the front of Grupo gives different fields but the same key and hash |
| Calendar.ParsePeriod | app/etl.py:28 | a text that `%m/%Y` accepts names a valid month of a year from 1 on |
| Calendar.ParsePeriodExact | app/etl.py:28 | a text parses to a given month if and only if the month is valid and the text spells it (month with or without a leading zero, "/", four year digits) |
| Calendar.RejectedPeriods | app/etl.py:28 | month 13, month 0 and a two-digit year are rejected |
| Calendar.March2024 | app/etl.py:24-35 | "03/2024" is March 2024, and its tempo row is week 9, from 2024-03-01 to 2024-03-31 |
| Calendar.TempoSpansMonth | app/etl.py:31-35 | a month's tempo row holds its year and month, starts on its first day, ends on its last, spans exactly the month's length with every date of the month inside it, and its week is an ISO week |
| Calendar.TemposTile | app/etl.py:34-35 | each month's row ends the day before the next month's row starts |
| Calendar.IsoThursdayRule | app/etl.py:33 | the ISO week computed for a date is the one containing its Thursday, in the year holding that Thursday, with Monday as day 1 |
| Calendar.IsoWeekBounds | app/etl.py:33 | ISO week numbers run from 1 to 53, weekdays from 1 to 7 |
| Calendar.YearLength | app/etl.py:31-35 | a year has 366 days when it is a leap year and 365 otherwise |
| Validation.AbsentColumns | app/app.py:28 | the reported column names are exactly the required names missing from the header |
| Validation.MissingFields | app/app.py:33-36 | a row's reported fields are exactly the required columns whose cell is null, empty or whitespace |
| Validation.Validate | app/app.py:25-62 | the check stops on missing columns exactly when a required column is absent, naming exactly those; otherwise any row listing is non-empty, truthful and in row order |
| Validation.ValidIff | app/app.py:28-41 | a batch passes if and only if every required column is present and no row has a missing required value |
| Validation.AllFlaggedReported | app/app.py:53-59 | every flagged row is listed, not just the first, as row `j + 1` with exactly its missing fields |
| Validation.ReportsTruthful | app/app.py:55-59 | every listed row number exists, its field list is its missing fields and non-empty, and numbers strictly increase |
| Validation.ReportsComplete | app/app.py:42-59 | every flagged row at or after a given position appears in the listing from that position, under its 1-based number |
| Validation.FlaggedIffFields | app/app.py:39 | a row is flagged if and only if its list of missing fields is non-empty |
| Validation.CompleteTablePasses | app/app.py:33-41 | a sheet with all required columns and a non-blank value in every required cell passes |
| Tables.InsertIgnoreFacts | app/etl.py:48-51 | `ON CONFLICT DO NOTHING` keeps existing rows in place, adds only candidates, covers every candidate's key, keeps a unique key unique, and inserting again adds nothing |
| Tables.InsertIgnoreIdempotent | app/etl.py:48-51 | inserting the same candidates twice is inserting them once |
| Tables.InsertIgnoreNoop | app/etl.py:51 | when every candidate's key is present nothing is inserted |
| Tables.IdOf | app/etl.py:80 | a join finds a row if and only if the key is in the table, and the row found has that key |
| Tables.IdOfPrefix | app/etl.py:80 | appending rows never changes the id a present key joins to |
| Tables.FilterMap | app/etl.py:62-65 | the selected values are exactly the images of the rows the selection keeps |
| Warehouse.StagingReplaced | app/etl.py:16 | writing staging leaves exactly the batch in it, whatever was there before, and touches no other table |
| Warehouse.ParseTempos | app/etl.py:24-30 | parsing succeeds if and only if every text parses, and yields one tempo row per text, in order |
| Warehouse.DistinctDatasFacts | app/etl.py:24-27 | the texts `load_dim_tempo` parses are exactly the non-null Data values of staging, each once |
| Warehouse.TempoLoaded | app/etl.py:20-40 | `load_dim_tempo` succeeds if and only if some staging row has a Data and every Data parses to a month whose first day and last instant are nanosecond timestamps; it then appends one row per distinct text, the row of each staging month among them, and changes nothing else |
| Warehouse.TempoErrors | app/etl.py:24-35 | `load_dim_tempo` raises the `strptime` error exactly when some Data is not a `%m/%Y` month; failing that, it raises at `.dt` exactly when no row has a Data or some month starts outside the nanosecond range; failing both, it raises at `end_time` exactly when some month ends outside it |
| Warehouse.TimestampEdges | app/etl.py:28-35 | September 1677 and January 1500 start outside the nanosecond range, April 2262 starts inside it but ends outside, and October 1677 and March 2262 load |
| Warehouse.TempoRerun | app/etl.py:24-39 | what `load_dim_tempo` appends depends only on staging, so over the same staging it appends the same rows to whatever `dim_tempo` holds |
| Warehouse.TempoNotIdempotent | app/etl.py:39 | run again on the same staging, `load_dim_tempo` appends the same non-empty rows a second time |
| Warehouse.TipoLoaded | app/etl.py:43-55 | `load_dim_tipo` keeps the existing rows, adds every staging Tipo and nothing else, keeps names unique, changes no other table, and is idempotent |
| Warehouse.ClassificacaoLoaded | app/etl.py:57-70 | `load_dim_classificacao` adds every non-null staging Classificação and nothing else, never a null, keeps names unique, and is idempotent |
| Warehouse.GrupoLoaded | app/etl.py:72-85 | `load_dim_grupo` adds each staging group under its Tipo's id when the Tipo exists, nothing else, keeps (id_tipo, nome_grupo) unique, and is idempotent |
| Warehouse.CategoriaLoaded | app/etl.py:88-102 | `load_dim_categoria` adds each category under its resolved group, nothing else, keeps (id_grupo, nome_categoria) unique, and is idempotent |
| Warehouse.FatoLoaded | app/etl.py:105-133 | `load_fato_lancamento` loads the hash of every staging row that resolves on all five joins; every new fact is such a row (the rest are dropped); id_hash stays unique; running it again adds nothing |
| Warehouse.SameGroupTwoTypes | app/etl.py:77-81 | the same group name under two different Tipos becomes two `dim_grupo` rows under distinct Tipo ids |
| EtlRun.RunEtlConsistent | app/etl.py:136-147 | a run keeps every reference of every dimension row and fact valid, a fact's group under its Tipo and its category under its group, and every unique key unique |
| EtlRun.ResolvedConsistent | app/etl.py:122-128 | a fact produced by the five joins refers to existing rows whose group and category chain agree |
| EtlRun.DimensionsClose | app/etl.py:142-147 | after the dimension steps, every staging row with a Classificação and a Data resolves on all five joins |
| EtlRun.EveryHashLoaded | app/etl.py:136-147 | after a successful run, the hash of every staging row with a Classificação and a Data is in the fact table |
| EtlRun.RunEtlFails | app/etl.py:136-142 | a run fails if and only if staging's months cannot be loaded (no Data at all, a Data that is not a `%m/%Y` month, or a month outside the nanosecond range), and it fails with `load_dim_tempo`'s error |
| EtlRun.RunEtlGrows | app/etl.py:136-147 | a run never writes staging, and every table it touches only grows at its end |
| EtlRun.RunEtlAbsorbs | app/etl.py:136-147 | after a run, every candidate of every insert step is already in its table |
| EtlRun.AbsorbedStable | app/etl.py:143-147 | on a warehouse that has absorbed its staging, the dimension and fact steps change nothing |
| EtlRun.ResolveAfterRepeat | app/etl.py:127-128 | re-appending tempo rows for months already present changes no staging row's join |
| EtlRun.RerunTempo | app/etl.py:24-39 | after a successful run, loading `dim_tempo` again over the same staging succeeds and appends only rows the table already holds |
| EtlRun.RerunOnlyGrowsTempo | app/etl.py:136-147 | a second run on the same staging succeeds and changes nothing but `dim_tempo`, which only grows |
| Ingest.StageRows | app/app.py:65-67 | the batch is staged if and only if every amount normalises, one staged row per sheet row, in order |
| Ingest.StagedCells | app/app.py:66-67 | a staged row keeps the Classificação and Data cells as read and carries the hash of the raw cells |
| Ingest.Upload | app/app.py:25-89 | an upload is rejected exactly when the batch check fails, with its verdict; a rejection or a bad amount leaves the warehouse unchanged; otherwise staging is replaced by the batch before the loader runs, and a loader failure leaves that staging in place |
| Ingest.EveryRowLoaded | app/app.py:79-83 | after a successful upload, every sheet row is a fact, found by the hash of its raw cells |
| Ingest.EtlFailsOnBadMonth | app/app.py:79-89 | for a valid sheet with valid amounts, the loader fails if and only if the sheet has no rows or some Data cell is not a `%m/%Y` month inside the nanosecond range, and then only staging has changed |
| Ingest.HeaderOnlyFails | app/app.py:39-89 | a sheet with the header and no rows passes the batch check, empties staging, and then fails in the loader |
| Ingest.UploadConsistent | app/app.py:79-83 | a successful upload keeps a consistent warehouse consistent and its keys unique |
| Ingest.ReuploadOnlyGrowsTempo | app/app.py:79-83 | uploading the same sheet again succeeds and adds nothing but a second copy of its months to `dim_tempo` |
| Ingest.HashOverRawAmount | app/app.py:65-67 | the same amount typed with a thousands point stages the same decimal under a different hash |

## Left out

- The web page itself is not modelled:
  - messages, the data preview and the confirmation button (a successful upload assumes the button was pressed);
  - logging (`app/logger.py`);
  - the database connection (`app/db.py`);
  - the `infra` directory.
- CSV reading is not modelled. A sheet is given as a header plus one optional text per cell.
  - Which texts pandas reads as null is left to the reader.
  - pandas' type inference is not modelled. Every cell is the text as written. A column pandas reads as numbers prints back differently: a Valor column whose every cell looks like "10,50" is read as floats with `decimal=","` and printed as "10.5" before the rewrite.
- Binary floating point is not modelled. The model keeps every cell as text.
- MD5 is a function parameter. Only the fact that the hash is a function of the key string is used. Where a lemma needs distinct keys to give distinct hashes, it says so in its `requires`.
- Unicode:
  - `str.lower` is modelled for ASCII and the Latin-1 capitals;
  - `decimal.Decimal`'s acceptance of non-ASCII digits is not modelled.
- The `NUMERIC(15,2)` rounding of the staging Valor column is not modelled. Facts carry the decimal as normalised.
- Serial ids are modelled as positions plus one. PostgreSQL sequences can skip values, for instance on conflicting inserts. Only the identity of ids matters to the joins, and the properties do not depend on the numbering.
- The order of the join results:
  - Staging rows are processed in staging order.
  - When `dim_tempo` holds several rows for a month, a fact is given the first of them. The database may return them in any order.
- The fact join's `TO_DATE(Data, 'MM/YYYY')` is modelled with the same parser as `strptime`. This is faithful on every reachable state: a run fails in `load_dim_tempo` before any join when some Data is not strict `%m/%Y`.
- `Period.end_time` keeps only the date of the last day. The time of day 23:59:59.999999999 is dropped.
- Database failures are not modelled, and neither is concurrency. The only failures modelled are those of `load_dim_tempo`. Each step commits on its own, and a failed run leaves the earlier steps' writes.
- Staging is typed as the upload page writes it: Tipo, Grupo, Categoria and Descrição as text, Classificação and Data as optional text. A staging table written by other means with a null in the first four is not modelled.
- `load_staging` (`app/etl.py:11-18`) is modelled by `LoadStaging`. The upload page writes staging directly with the same replace semantics.
- Extra CSV columns that are written to staging are not modelled. The loader never reads them.
- Calendar.TempoSpansMonth: states only the range 1 to 53 for the week number. Its exact value is the ISO week of the month's first day, characterised separately by Calendar.IsoThursdayRule.
- Calendar.ParsePeriod: accepts only ASCII year digits. The `%Y` pattern of `strptime` is `\d\d\d\d`, and in a text pattern `\d` matches every Unicode decimal digit, which `int` then reads. So "03/٢٠٢٤" is March 2024 in the source and rejected here. The month part of the pattern is ASCII-only, as modelled.
- Calendar.ParsePeriodExact: its "only if" direction holds for ASCII texts only, for the same reason.
- Warehouse.StartFits and Warehouse.EndFits use the nanosecond range of pandas 1.x and 2.x. Versions of pandas that infer other time units may load months outside it.
- Warehouse.TempoNotIdempotent: assumes `dim_tempo` has no unique constraint on (ano, mes). The table's schema is not part of this model. With such a constraint a second load of a month would raise at `app/etl.py:39` instead of appending.
- EtlRun.RerunOnlyGrowsTempo: assumes the same schema for `dim_tempo`. With a unique month a rerun would fail instead of only growing `dim_tempo`.
- Ingest.ReuploadOnlyGrowsTempo: assumes the same schema for `dim_tempo`, for the same reason.
