/** The loader of the warehouse (`app/etl.py`): the staging table and
    the star schema around it, each load step a pure transformer of the
    warehouse's state.  Every table is a sequence of rows whose ids are
    their positions plus one; the dimension tables hold their natural
    keys, the fact table its rows keyed by `id_hash`. */
module Warehouse {
  import opened Wrappers
  import opened Tables
  import opened Calendar
  import Amount

  /** A row of `staging_lancamentos`.  Descrição, Tipo, Grupo and
      Categoria are text; Classificação and Data may be null, which the
      loader handles explicitly. */
  datatype Staged = Staged(
    descricao: string, tipo: string, grupo: string, categoria: string,
    classificacao: Option<string>, data: Option<string>,
    valor: Amount.Decimal, idHash: string)

  /** `dim_grupo`, unique on (id_tipo, nome_grupo). */
  datatype Grupo = Grupo(idTipo: nat, nome: string)

  /** `dim_categoria`, unique on (id_grupo, nome_categoria). */
  datatype Categoria = Categoria(idGrupo: nat, nome: string)

  /** `fato_lancamento`, unique on id_hash. */
  datatype Fato = Fato(
    idTipo: nat, idGrupo: nat, idCategoria: nat, idTempo: nat, idClassificacao: nat,
    descricao: string, valor: Amount.Decimal, idHash: string)

  /** The five dimension tables.  `dim_tipo` and `dim_classificacao`
      hold just their unique names. */
  datatype Dims = Dims(
    tipos: seq<string>,
    classificacoes: seq<string>,
    grupos: seq<Grupo>,
    categorias: seq<Categoria>,
    tempos: seq<TempoRow>)

  /** The warehouse: staging, the dimensions and the fact table. */
  datatype State = State(staging: seq<Staged>, dims: Dims, fatos: seq<Fato>)

  function TipoOf(s: Staged): string {
    s.tipo
  }

  function ClassificacaoOf(s: Staged): Option<string> {
    s.classificacao
  }

  function DataOf(s: Staged): Option<string> {
    s.data
  }

  function FatoHash(f: Fato): string {
    f.idHash
  }

  /** The month a `dim_tempo` row stands for, the key the fact join uses. */
  function PeriodOfRow(r: TempoRow): Period {
    Period(r.ano, r.mes)
  }

  /** `load_staging` and the staging write of the upload page: the table
      is replaced by the batch. */
  function LoadStaging(w: State, batch: seq<Staged>): State {
    w.(staging := batch)
  }

  /** Staging is replaced, not appended to: afterwards it holds exactly
      the batch, whatever it held before, and no other table changes. */
  lemma StagingReplaced(w: State, earlier: seq<Staged>, batch: seq<Staged>)
    ensures LoadStaging(w, batch).staging == batch
    ensures LoadStaging(LoadStaging(w, earlier), batch) == LoadStaging(w, batch)
    ensures LoadStaging(w, batch).dims == w.dims && LoadStaging(w, batch).fatos == w.fatos
  {
  }

  // ---------------------------------------------------------------- dim_tempo

  /** The distinct non-null Data texts of staging, in first-occurrence
      order (`dropna().drop_duplicates()`). */
  function DistinctDatas(st: seq<Staged>): seq<string> {
    InsertIgnore([], FilterMap(st, DataOf), Same)
  }

  /** The tempo row of one Data text, parsed as `%m/%Y`. */
  function TempoOfText(text: string): (r: Result<TempoRow, PeriodError>)
    ensures r.Ok? <==> ParsePeriod(text).Ok?
    ensures r.Ok? ==> r.value == TempoOf(ParsePeriod(text).value)
  {
    var p :- ParsePeriod(text);
    Ok(TempoOf(p))
  }

  /** Parse every text and derive its tempo row; the first text that
      does not parse raises. */
  function ParseTempos(texts: seq<string>): (r: Result<seq<TempoRow>, PeriodError>)
    ensures r.Ok? <==> forall i :: 0 <= i < |texts| ==> ParsePeriod(texts[i]).Ok?
    ensures r.Ok? ==> |r.value| == |texts|
    ensures r.Ok? ==> forall i :: 0 <= i < |texts| ==> r.value[i] == TempoOf(ParsePeriod(texts[i]).value)
  {
    MapAll(texts, TempoOfText)
  }

  /** How `load_dim_tempo` raises. */
  datatype TempoError =
    | BadData(cause: PeriodError) // `strptime` rejects a text (etl.py:28)
    | NotDatetimes                // the column is not datetime-typed, so `.dt` raises (etl.py:31)
    | EndOutOfBounds              // a month's last instant is no `Timestamp` (etl.py:35)

  /** A month counted from January of year 0, so months compare in order. */
  function MonthNumber(p: Period): int {
    p.year * 12 + p.month - 1
  }

  /** The first day of `p` is a nanosecond `Timestamp`, which runs from
      1677-09-21 to 2262-04-11: October 1677 to April 2262.  When the
      first day of some month is not one, pandas keeps the converted
      column as plain objects. */
  predicate StartFits(p: Period) {
    MonthNumber(Period(1677, 10)) <= MonthNumber(p) <= MonthNumber(Period(2262, 4))
  }

  /** The last instant of `p` is a nanosecond `Timestamp` too: every
      month of that range except April 2262. */
  predicate EndFits(p: Period) {
    StartFits(p) && MonthNumber(p) < MonthNumber(Period(2262, 4))
  }

  /** A Data text `load_dim_tempo` turns into a row. */
  predicate Loadable(text: string) {
    ParsePeriod(text).Ok? && EndFits(ParsePeriod(text).value)
  }

  /** Staging whose months `load_dim_tempo` loads: some row has a Data,
      and every Data is loadable.  With no Data at all nothing is
      converted and the empty column is not datetime-typed. */
  predicate MonthsLoadable(st: seq<Staged>) {
    && (exists s :: s in st && s.data.Some?)
    && (forall s :: s in st && s.data.Some? ==> Loadable(s.data.value))
  }

  /** `load_dim_tempo`: one row per distinct Data text, appended to
      `dim_tempo` with no check against the rows already there.  The
      texts are parsed first, in order; then the column must be
      datetime-typed (non-empty, every first day a `Timestamp`); then
      every month's end must be a `Timestamp`. */
  function LoadTempo(w: State): Result<State, TempoError> {
    match ParseTempos(DistinctDatas(w.staging))
    case Err(e) => Err(BadData(e))
    case Ok(rows) =>
      if |rows| == 0 || !(forall r :: r in rows ==> StartFits(PeriodOfRow(r))) then Err(NotDatetimes)
      else if !(forall r :: r in rows ==> EndFits(PeriodOfRow(r))) then Err(EndOutOfBounds)
      else Ok(w.(dims := w.dims.(tempos := w.dims.tempos + rows)))
  }

  // ---------------------------------------------------- dim_tipo, dim_classificacao

  /** `load_dim_tipo`: every distinct staging Tipo not yet present. */
  function LoadTipo(w: State): State {
    w.(dims := w.dims.(tipos := InsertIgnore(w.dims.tipos, Keys(w.staging, TipoOf), Same)))
  }

  /** `load_dim_classificacao`: every distinct non-null staging
      Classificação not yet present. */
  function LoadClassificacao(w: State): State {
    var d := w.dims;
    w.(dims := d.(classificacoes := InsertIgnore(d.classificacoes, FilterMap(w.staging, ClassificacaoOf), Same)))
  }

  // ------------------------------------------------------ dim_grupo, dim_categoria

  /** The group a staging row names, under the id of its Tipo; nothing
      when the Tipo is not in `dim_tipo` (the inner join drops it). */
  function GrupoOf(d: Dims, s: Staged): Option<Grupo> {
    match IdOf(d.tipos, s.tipo)
    case None => None
    case Some(t) => Some(Grupo(t, s.grupo))
  }

  /** `load_dim_grupo`. */
  function LoadGrupo(w: State): State {
    var d := w.dims;
    w.(dims := d.(grupos := InsertIgnore(d.grupos, FilterMap(w.staging, s => GrupoOf(d, s)), Same)))
  }

  /** The id of a staging row's group, resolved within its Tipo. */
  function GrupoId(d: Dims, s: Staged): Option<nat> {
    match GrupoOf(d, s)
    case None => None
    case Some(g) => IdOf(d.grupos, g)
  }

  /** The category a staging row names, under the id of its group. */
  function CategoriaOf(d: Dims, s: Staged): Option<Categoria> {
    match GrupoId(d, s)
    case None => None
    case Some(g) => Some(Categoria(g, s.categoria))
  }

  /** `load_dim_categoria`. */
  function LoadCategoria(w: State): State {
    var d := w.dims;
    w.(dims := d.(categorias := InsertIgnore(d.categorias, FilterMap(w.staging, s => CategoriaOf(d, s)), Same)))
  }

  // ---------------------------------------------------------- fato_lancamento

  function CategoriaId(d: Dims, s: Staged): Option<nat> {
    match CategoriaOf(d, s)
    case None => None
    case Some(c) => IdOf(d.categorias, c)
  }

  /** A null Classificação never equals anything, so it never joins. */
  function ClassificacaoId(d: Dims, s: Staged): Option<nat> {
    match s.classificacao
    case None => None
    case Some(c) => IdOf(d.classificacoes, c)
  }

  /** The tempo row of a staging row's month: the first `dim_tempo` row
      with that year and month. */
  function TempoId(d: Dims, s: Staged): Option<nat> {
    match s.data
    case None => None
    case Some(text) =>
      match ParsePeriod(text)
      case Err(_) => None
      case Ok(p) => IdOf(Keys(d.tempos, PeriodOfRow), p)
  }

  /** The fact a staging row becomes when all five joins find a row. */
  function Resolve(d: Dims, s: Staged): Option<Fato> {
    var t, g, c, tm, cl := IdOf(d.tipos, s.tipo), GrupoId(d, s), CategoriaId(d, s), TempoId(d, s), ClassificacaoId(d, s);
    if t.Some? && g.Some? && c.Some? && tm.Some? && cl.Some? then
      Some(Fato(t.value, g.value, c.value, tm.value, cl.value, s.descricao, s.valor, s.idHash))
    else
      None
  }

  /** `load_fato_lancamento`: every staging row that resolves, unless a
      fact with its hash exists. */
  function LoadFato(w: State): State {
    w.(fatos := InsertIgnore(w.fatos, FilterMap(w.staging, s => Resolve(w.dims, s)), FatoHash))
  }

  /** The dimension steps of `run_etl`, after `dim_tempo`, in order. */
  function LoadDimensions(w: State): State {
    LoadClassificacao(LoadCategoria(LoadGrupo(LoadTipo(w))))
  }

  /** `run_etl`: tempo, tipo, grupo, categoria, classificação, fato.  A
      failure of the first step stops the run before anything is
      written. */
  function RunEtl(w: State): Result<State, TempoError> {
    var w1 :- LoadTempo(w);
    Ok(LoadFato(LoadDimensions(w1)))
  }


  // ------------------------------------------------------------ step laws

  /** `load_dim_tipo` keeps the rows it finds, adds every staging Tipo
      and nothing else, keeps names unique and changes nothing when run
      again. */
  lemma TipoLoaded(w: State)
    ensures var w' := LoadTipo(w);
      && w' == w.(dims := w.dims.(tipos := w'.dims.tipos))
      && w.dims.tipos <= w'.dims.tipos
      && (forall s :: s in w.staging ==> s.tipo in w'.dims.tipos)
      && (forall n :: n in w'.dims.tipos ==> n in w.dims.tipos || exists s :: s in w.staging && s.tipo == n)
      && (Unique(w.dims.tipos) ==> Unique(w'.dims.tipos))
      && LoadTipo(w') == w'
  {
    var names := Keys(w.staging, TipoOf);
    var r := InsertIgnore(w.dims.tipos, names, Same);
    InsertIgnoreFacts(w.dims.tipos, names, Same);
    KeysSame(w.dims.tipos);
    KeysSame(r);
    forall s | s in w.staging ensures s.tipo in r {
      var i :| 0 <= i < |w.staging| && w.staging[i] == s;
      assert Same(names[i]) == s.tipo;
    }
    forall n | n in r ensures n in w.dims.tipos || exists s :: s in w.staging && s.tipo == n {
      if n !in w.dims.tipos {
        var i :| 0 <= i < |names| && names[i] == n;
        assert w.staging[i] in w.staging;
      }
    }
  }

  /** `load_dim_classificacao` adds every non-null staging Classificação
      and nothing else (a null is never inserted), keeps names unique
      and changes nothing when run again. */
  lemma ClassificacaoLoaded(w: State)
    ensures var w' := LoadClassificacao(w);
      && w' == w.(dims := w.dims.(classificacoes := w'.dims.classificacoes))
      && w.dims.classificacoes <= w'.dims.classificacoes
      && (forall s :: s in w.staging && s.classificacao.Some? ==> s.classificacao.value in w'.dims.classificacoes)
      && (forall n :: n in w'.dims.classificacoes ==>
            n in w.dims.classificacoes || exists s :: s in w.staging && s.classificacao == Some(n))
      && (Unique(w.dims.classificacoes) ==> Unique(w'.dims.classificacoes))
      && LoadClassificacao(w') == w'
  {
    var names := FilterMap(w.staging, ClassificacaoOf);
    var r := InsertIgnore(w.dims.classificacoes, names, Same);
    InsertIgnoreFacts(w.dims.classificacoes, names, Same);
    KeysSame(w.dims.classificacoes);
    KeysSame(r);
    forall s | s in w.staging && s.classificacao.Some? ensures s.classificacao.value in r {
      assert ClassificacaoOf(s) == Some(s.classificacao.value);
      assert Same(s.classificacao.value) in Keys(r, Same);
    }
  }

  /** `load_dim_grupo` adds the group of every staging row whose Tipo is
      in `dim_tipo`, under that Tipo's id, and nothing else; it keeps
      (id_tipo, nome_grupo) unique and changes nothing when run again. */
  lemma GrupoLoaded(w: State)
    ensures var w' := LoadGrupo(w);
      && w' == w.(dims := w.dims.(grupos := w'.dims.grupos))
      && w.dims.grupos <= w'.dims.grupos
      && (forall s :: s in w.staging && s.tipo in w.dims.tipos ==>
            Grupo(IdOf(w.dims.tipos, s.tipo).value, s.grupo) in w'.dims.grupos)
      && (forall g :: g in w'.dims.grupos ==>
            g in w.dims.grupos || exists s :: s in w.staging && GrupoOf(w.dims, s) == Some(g))
      && (Unique(w.dims.grupos) ==> Unique(w'.dims.grupos))
      && LoadGrupo(w') == w'
  {
    var d := w.dims;
    var f := s => GrupoOf(d, s);
    var cands := FilterMap(w.staging, f);
    var r := InsertIgnore(d.grupos, cands, Same);
    var w' := LoadGrupo(w);
    assert w'.dims.grupos == r;
    InsertIgnoreFacts(d.grupos, cands, Same);
    KeysSame(d.grupos);
    KeysSame(r);
    forall s | s in w.staging && s.tipo in d.tipos ensures Grupo(IdOf(d.tipos, s.tipo).value, s.grupo) in r {
      assert f(s) == Some(Grupo(IdOf(d.tipos, s.tipo).value, s.grupo));
      assert Same(Grupo(IdOf(d.tipos, s.tipo).value, s.grupo)) in Keys(r, Same);
    }
    FilterMapSame(w.staging, s => GrupoOf(w'.dims, s), f);
  }

  /** `load_dim_categoria` adds the category of every staging row whose
      Tipo and group resolve, under the group's id, and nothing else; it
      keeps (id_grupo, nome_categoria) unique and changes nothing when
      run again. */
  lemma CategoriaLoaded(w: State)
    ensures var w' := LoadCategoria(w);
      && w' == w.(dims := w.dims.(categorias := w'.dims.categorias))
      && w.dims.categorias <= w'.dims.categorias
      && (forall s :: s in w.staging && GrupoId(w.dims, s).Some? ==>
            Categoria(GrupoId(w.dims, s).value, s.categoria) in w'.dims.categorias)
      && (forall c :: c in w'.dims.categorias ==>
            c in w.dims.categorias || exists s :: s in w.staging && CategoriaOf(w.dims, s) == Some(c))
      && (Unique(w.dims.categorias) ==> Unique(w'.dims.categorias))
      && LoadCategoria(w') == w'
  {
    var d := w.dims;
    var f := s => CategoriaOf(d, s);
    var cands := FilterMap(w.staging, f);
    var r := InsertIgnore(d.categorias, cands, Same);
    var w' := LoadCategoria(w);
    assert w'.dims.categorias == r;
    InsertIgnoreFacts(d.categorias, cands, Same);
    KeysSame(d.categorias);
    KeysSame(r);
    forall s | s in w.staging && GrupoId(d, s).Some? ensures Categoria(GrupoId(d, s).value, s.categoria) in r {
      assert f(s) == Some(Categoria(GrupoId(d, s).value, s.categoria));
      assert Same(Categoria(GrupoId(d, s).value, s.categoria)) in Keys(r, Same);
    }
    forall s ensures CategoriaOf(w'.dims, s) == f(s) {
      assert GrupoId(w'.dims, s) == GrupoId(d, s);
    }
    FilterMapSame(w.staging, s => CategoriaOf(w'.dims, s), f);
  }

  /** `load_fato_lancamento` adds a fact for every staging row that
      resolves, unless one with its hash is there; every fact it adds is
      a resolved staging row, so rows that do not resolve are dropped;
      it keeps id_hash unique and adds nothing when run again. */
  lemma FatoLoaded(w: State)
    ensures var w' := LoadFato(w);
      && w' == w.(fatos := w'.fatos)
      && w.fatos <= w'.fatos
      && (forall s :: s in w.staging && Resolve(w.dims, s).Some? ==> s.idHash in Keys(w'.fatos, FatoHash))
      && (forall f :: f in w'.fatos ==> f in w.fatos || exists s :: s in w.staging && Resolve(w.dims, s) == Some(f))
      && (Unique(Keys(w.fatos, FatoHash)) ==> Unique(Keys(w'.fatos, FatoHash)))
      && LoadFato(w') == w'
  {
    var f := s => Resolve(w.dims, s);
    var cands := FilterMap(w.staging, f);
    var r := InsertIgnore(w.fatos, cands, FatoHash);
    assert LoadFato(w).fatos == r;
    InsertIgnoreFacts(w.fatos, cands, FatoHash);
    forall s | s in w.staging && Resolve(w.dims, s).Some? ensures s.idHash in Keys(r, FatoHash) {
      assert f(s) == Some(Resolve(w.dims, s).value);
      assert FatoHash(Resolve(w.dims, s).value) == s.idHash;
    }
  }

  /** The texts `load_dim_tempo` parses: each non-null staging Data,
      once. */
  lemma DistinctDatasFacts(st: seq<Staged>)
    ensures forall t :: t in DistinctDatas(st) <==> exists s :: s in st && s.data == Some(t)
    ensures Unique(DistinctDatas(st))
  {
    var texts := FilterMap(st, DataOf);
    InsertIgnoreFacts([], texts, Same);
    KeysSame(DistinctDatas(st));
    KeysSame<string>([]);
    forall t | t in texts ensures t in DistinctDatas(st) {
      assert Same(t) in Keys(DistinctDatas(st), Same);
    }
  }

  /** Where a staging row's Data sits among the distinct texts. */
  lemma DataIndex(st: seq<Staged>, s: Staged) returns (i: nat)
    requires s in st && s.data.Some?
    ensures i < |DistinctDatas(st)| && DistinctDatas(st)[i] == s.data.value
  {
    DistinctDatasFacts(st);
    assert s.data.value in DistinctDatas(st);
    i :| 0 <= i < |DistinctDatas(st)| && DistinctDatas(st)[i] == s.data.value;
  }

  /** `load_dim_tempo` succeeds exactly when some row has a Data and
      every Data is a month it can load; it then appends one row per
      distinct text, holding that text's month, and changes nothing
      else. */
  lemma TempoLoaded(w: State)
    ensures LoadTempo(w).Ok? <==> MonthsLoadable(w.staging)
    ensures LoadTempo(w).Ok? ==> var w' := LoadTempo(w).value;
      && w' == w.(dims := w.dims.(tempos := w'.dims.tempos))
      && w.dims.tempos <= w'.dims.tempos
      && |w'.dims.tempos| == |w.dims.tempos| + |DistinctDatas(w.staging)|
      && (forall s :: s in w.staging && s.data.Some? ==>
            TempoOf(ParsePeriod(s.data.value).value) in w'.dims.tempos[|w.dims.tempos|..])
  {
    TempoErrors(w);
    if LoadTempo(w).Ok? {
      TempoAppends(w);
    }
  }

  /** A Data text that parses to a month whose first day is no `Timestamp`. */
  predicate StartsOutside(text: string) {
    ParsePeriod(text).Ok? && !StartFits(ParsePeriod(text).value)
  }

  /** A Data text that parses to a month whose last instant is no `Timestamp`. */
  predicate EndsOutside(text: string) {
    ParsePeriod(text).Ok? && !EndFits(ParsePeriod(text).value)
  }

  /** Every non-null Data is a `%m/%Y` month. */
  predicate AllParse(st: seq<Staged>) {
    forall s :: s in st && s.data.Some? ==> ParsePeriod(s.data.value).Ok?
  }

  /** No row has a Data. */
  predicate NoData(st: seq<Staged>) {
    forall s :: s in st ==> s.data.None?
  }

  predicate SomeStartsOutside(st: seq<Staged>) {
    exists s :: s in st && s.data.Some? && StartsOutside(s.data.value)
  }

  predicate SomeEndsOutside(st: seq<Staged>) {
    exists s :: s in st && s.data.Some? && EndsOutside(s.data.value)
  }

  /** How `load_dim_tempo` fails, in the order the source meets the
      causes: a text that is not a `%m/%Y` month; then a column that is
      not datetime-typed, because no row has a Data or some month starts
      outside the nanosecond range; then a month whose end is past it. */
  lemma TempoErrors(w: State)
    ensures LoadTempo(w).Err? && LoadTempo(w).error.BadData? <==> !AllParse(w.staging)
    ensures LoadTempo(w) == Err(NotDatetimes) <==>
      AllParse(w.staging) && (NoData(w.staging) || SomeStartsOutside(w.staging))
    ensures LoadTempo(w) == Err(EndOutOfBounds) <==>
      AllParse(w.staging) && !NoData(w.staging) && !SomeStartsOutside(w.staging) && SomeEndsOutside(w.staging)
    ensures LoadTempo(w).Ok? <==> MonthsLoadable(w.staging)
  {
    TempoParses(w);
    if AllParse(w.staging) {
      TempoRowsEmpty(w);
      TempoStarts(w);
      TempoEnds(w);
      LoadableSplit(w.staging);
    }
  }

  /** Once every Data parses, the derived rows all start inside the
      nanosecond range exactly when no Data's month starts outside it. */
  lemma TempoStarts(w: State)
    requires AllParse(w.staging) && ParseTempos(DistinctDatas(w.staging)).Ok?
    ensures (forall r :: r in ParseTempos(DistinctDatas(w.staging)).value ==> StartFits(PeriodOfRow(r))) <==>
      !SomeStartsOutside(w.staging)
  {
    RowsCover(w, StartFits);
  }

  /** Likewise for the ends of the months. */
  lemma TempoEnds(w: State)
    requires AllParse(w.staging) && ParseTempos(DistinctDatas(w.staging)).Ok?
    ensures (forall r :: r in ParseTempos(DistinctDatas(w.staging)).value ==> EndFits(PeriodOfRow(r))) <==>
      !SomeEndsOutside(w.staging)
  {
    RowsCover(w, EndFits);
  }

  /** Staging that parses is loadable exactly when it has a Data and no
      month starts or ends outside the nanosecond range. */
  lemma LoadableSplit(st: seq<Staged>)
    requires AllParse(st)
    ensures MonthsLoadable(st) <==> !NoData(st) && !SomeStartsOutside(st) && !SomeEndsOutside(st)
  {
    if !NoData(st) {
      var s :| s in st && !s.data.None?;
    }
    if !SomeEndsOutside(st) {
      forall s | s in st && s.data.Some? ensures Loadable(s.data.value) {
        assert !EndsOutside(s.data.value);
      }
    }
    if MonthsLoadable(st) {
      forall s | s in st && s.data.Some? ensures !EndsOutside(s.data.value) && !StartsOutside(s.data.value) {
        assert Loadable(s.data.value);
      }
    }
  }

  /** The texts parse exactly when every non-null Data does. */
  lemma TempoParses(w: State)
    ensures ParseTempos(DistinctDatas(w.staging)).Ok? <==> AllParse(w.staging)
  {
    var texts := DistinctDatas(w.staging);
    if AllParse(w.staging) {
      DistinctDatasFacts(w.staging);
      forall i | 0 <= i < |texts| ensures ParsePeriod(texts[i]).Ok? {
        assert texts[i] in texts;
      }
    } else {
      var s :| s in w.staging && s.data.Some? && !ParsePeriod(s.data.value).Ok?;
      var i := DataIndex(w.staging, s);
    }
  }

  /** No tempo row is derived exactly when no row has a Data. */
  lemma TempoRowsEmpty(w: State)
    requires ParseTempos(DistinctDatas(w.staging)).Ok?
    ensures |ParseTempos(DistinctDatas(w.staging)).value| == 0 <==> NoData(w.staging)
  {
    var texts := DistinctDatas(w.staging);
    DistinctDatasFacts(w.staging);
    if |texts| > 0 {
      assert texts[0] in texts;
    }
    if !NoData(w.staging) {
      var s :| s in w.staging && s.data.Some?;
      var i := DataIndex(w.staging, s);
    }
  }

  /** A property holds of every derived row's month exactly when it
      holds of every non-null Data's month. */
  lemma RowsCover(w: State, f: Period -> bool)
    requires AllParse(w.staging)
    requires ParseTempos(DistinctDatas(w.staging)).Ok?
    ensures var rows := ParseTempos(DistinctDatas(w.staging)).value;
      (forall r :: r in rows ==> f(PeriodOfRow(r))) <==>
      (forall s :: s in w.staging && s.data.Some? ==> f(ParsePeriod(s.data.value).value))
  {
    var texts := DistinctDatas(w.staging);
    var rows := ParseTempos(texts).value;
    if forall r :: r in rows ==> f(PeriodOfRow(r)) {
      forall s | s in w.staging && s.data.Some? ensures f(ParsePeriod(s.data.value).value) {
        var i := DataIndex(w.staging, s);
        assert rows[i] in rows;
        assert PeriodOfRow(rows[i]) == ParsePeriod(s.data.value).value;
      }
    }
    if forall s :: s in w.staging && s.data.Some? ==> f(ParsePeriod(s.data.value).value) {
      DistinctDatasFacts(w.staging);
      forall r | r in rows ensures f(PeriodOfRow(r)) {
        var i :| 0 <= i < |rows| && rows[i] == r;
        assert texts[i] in texts;
        var s :| s in w.staging && s.data == Some(texts[i]);
        assert PeriodOfRow(r) == ParsePeriod(s.data.value).value;
      }
    }
  }

  lemma TempoAppends(w: State)
    requires AllParse(w.staging)
    requires LoadTempo(w).Ok?
    ensures var w' := LoadTempo(w).value;
      && w' == w.(dims := w.dims.(tempos := w'.dims.tempos))
      && w.dims.tempos <= w'.dims.tempos
      && |w'.dims.tempos| == |w.dims.tempos| + |DistinctDatas(w.staging)|
      && (forall s :: s in w.staging && s.data.Some? ==>
            TempoOf(ParsePeriod(s.data.value).value) in w'.dims.tempos[|w.dims.tempos|..])
  {
    var texts := DistinctDatas(w.staging);
    var rows := ParseTempos(texts).value;
    var w' := LoadTempo(w).value;
    assert w'.dims.tempos == w.dims.tempos + rows;
    assert w'.dims.tempos[|w.dims.tempos|..] == rows;
    forall s | s in w.staging && s.data.Some? ensures TempoOf(ParsePeriod(s.data.value).value) in rows {
      var i := DataIndex(w.staging, s);
      assert rows[i] == TempoOf(ParsePeriod(texts[i]).value);
    }
  }

  /** The edges of the nanosecond range: September 1677 and January
      1500 start outside it, April 2262 ends outside it, and October
      1677 and March 2262 load. */
  lemma TimestampEdges()
    ensures StartsOutside("09/1677") && StartsOutside("01/1500")
    ensures Loadable("10/1677") && Loadable("03/2262")
    ensures !StartsOutside("04/2262") && EndsOutside("04/2262")
  {
    Parses0977();
    Parses0115();
    Parses1077();
    Parses0362();
    Parses0462();
  }

  lemma Parses0977()
    ensures ParsePeriod("09/1677") == Ok(Period(1677, 9))
  {
    assert FormatPeriod(Period(1677, 9)) == "09/1677";
    SpellingParses("09/1677", Period(1677, 9));
  }

  lemma Parses0115()
    ensures ParsePeriod("01/1500") == Ok(Period(1500, 1))
  {
    assert FormatPeriod(Period(1500, 1)) == "01/1500";
    SpellingParses("01/1500", Period(1500, 1));
  }

  lemma Parses1077()
    ensures ParsePeriod("10/1677") == Ok(Period(1677, 10))
  {
    assert FormatPeriod(Period(1677, 10)) == "10/1677";
    SpellingParses("10/1677", Period(1677, 10));
  }

  lemma Parses0362()
    ensures ParsePeriod("03/2262") == Ok(Period(2262, 3))
  {
    assert FormatPeriod(Period(2262, 3)) == "03/2262";
    SpellingParses("03/2262", Period(2262, 3));
  }

  lemma Parses0462()
    ensures ParsePeriod("04/2262") == Ok(Period(2262, 4))
  {
    assert FormatPeriod(Period(2262, 4)) == "04/2262";
    SpellingParses("04/2262", Period(2262, 4));
  }

  /** `load_dim_tempo` is not idempotent: run again on the same staging
      it appends the same rows a second time, so a month that occurs in
      staging ends up in `dim_tempo` twice. */
  lemma TempoNotIdempotent(w: State, s: Staged)
    requires LoadTempo(w).Ok? && s in w.staging && s.data.Some?
    ensures var w1 := LoadTempo(w).value;
      var added := w1.dims.tempos[|w.dims.tempos|..];
      && LoadTempo(w1).Ok?
      && LoadTempo(w1).value.dims.tempos == w1.dims.tempos + added
      && |added| > 0
  {
    var w1 := LoadTempo(w).value;
    TempoRerun(w, w1);
    var i := DataIndex(w.staging, s);
  }

  /** `load_dim_tempo` depends on the staging only: over the same
      staging it appends the same rows to whatever `dim_tempo` holds. */
  lemma TempoRerun(w: State, v: State)
    requires LoadTempo(w).Ok? && v.staging == w.staging
    ensures LoadTempo(v).Ok?
    ensures LoadTempo(w).value.dims.tempos == w.dims.tempos + ParseTempos(DistinctDatas(w.staging)).value
    ensures LoadTempo(v).value == v.(dims := v.dims.(tempos := v.dims.tempos + ParseTempos(DistinctDatas(w.staging)).value))
  {
  }

  /** The same group name under two different Tipos becomes two
      `dim_grupo` rows, one per Tipo. */
  lemma SameGroupTwoTypes(w: State, a: Staged, b: Staged)
    requires a in w.staging && b in w.staging && a.tipo != b.tipo && a.grupo == b.grupo
    ensures var d := LoadGrupo(LoadTipo(w)).dims;
      && a.tipo in d.tipos && b.tipo in d.tipos
      && Grupo(IdOf(d.tipos, a.tipo).value, a.grupo) in d.grupos
      && Grupo(IdOf(d.tipos, b.tipo).value, b.grupo) in d.grupos
      && IdOf(d.tipos, a.tipo) != IdOf(d.tipos, b.tipo)
  {
    TipoLoaded(w);
    GrupoLoaded(LoadTipo(w));
    IdOfDistinct(LoadTipo(w).dims.tipos, a.tipo, b.tipo);
  }
}
