/** Properties of a whole `run_etl`: the warehouse stays referentially
    consistent, every staging row with a Classificação and a Data ends
    up as a fact, hashes stay unique, and a second run over the same
    staging changes nothing but `dim_tempo`. */
module EtlRun {
  import opened Wrappers
  import opened Tables
  import opened Calendar
  import opened Warehouse

  // ------------------------------------------------------- consistency

  /** Every dimension row refers to an existing parent row. */
  predicate DimsConsistent(d: Dims) {
    && (forall g :: g in d.grupos ==> 1 <= g.idTipo <= |d.tipos|)
    && (forall c :: c in d.categorias ==> 1 <= c.idGrupo <= |d.grupos|)
  }

  /** Every fact refers to existing dimension rows, its group belongs to
      its Tipo and its category to its group. */
  predicate FactConsistent(d: Dims, f: Fato) {
    && 1 <= f.idTipo <= |d.tipos|
    && 1 <= f.idGrupo <= |d.grupos| && d.grupos[f.idGrupo - 1].idTipo == f.idTipo
    && 1 <= f.idCategoria <= |d.categorias| && d.categorias[f.idCategoria - 1].idGrupo == f.idGrupo
    && 1 <= f.idTempo <= |d.tempos|
    && 1 <= f.idClassificacao <= |d.classificacoes|
  }

  predicate Consistent(w: State) {
    && DimsConsistent(w.dims)
    && (forall f :: f in w.fatos ==> FactConsistent(w.dims, f))
  }

  /** Each unique constraint named by an `ON CONFLICT` clause holds. */
  predicate Keyed(w: State) {
    && Unique(w.dims.tipos)
    && Unique(w.dims.classificacoes)
    && Unique(w.dims.grupos)
    && Unique(w.dims.categorias)
    && Unique(Keys(w.fatos, FatoHash))
  }

  /** Growing the dimension tables at their ends keeps every reference
      valid. */
  lemma ConsistentGrow(w: State, d: Dims)
    requires Consistent(w)
    requires w.dims.tipos <= d.tipos && w.dims.grupos <= d.grupos && w.dims.categorias <= d.categorias
    requires w.dims.tempos <= d.tempos && w.dims.classificacoes <= d.classificacoes
    requires forall g :: g in d.grupos ==> 1 <= g.idTipo <= |d.tipos|
    requires forall c :: c in d.categorias ==> 1 <= c.idGrupo <= |d.grupos|
    ensures Consistent(w.(dims := d))
  {
    forall f | f in w.fatos ensures FactConsistent(d, f) {
      assert FactConsistent(w.dims, f);
      assert d.grupos[f.idGrupo - 1] == w.dims.grupos[f.idGrupo - 1];
      assert d.categorias[f.idCategoria - 1] == w.dims.categorias[f.idCategoria - 1];
    }
  }

  /** A resolved staging row is a consistent fact. */
  lemma ResolvedConsistent(d: Dims, s: Staged)
    requires Resolve(d, s).Some?
    ensures FactConsistent(d, Resolve(d, s).value)
  {
    var t := IdOf(d.tipos, s.tipo).value;
    assert GrupoOf(d, s) == Some(Grupo(t, s.grupo));
    var g := GrupoId(d, s).value;
    assert d.grupos[g - 1] == Grupo(t, s.grupo);
    assert CategoriaOf(d, s) == Some(Categoria(g, s.categoria));
    var c := CategoriaId(d, s).value;
    assert d.categorias[c - 1] == Categoria(g, s.categoria);
  }

  /** `run_etl` keeps the warehouse consistent and its keys unique. */
  lemma RunEtlConsistent(w: State)
    requires Consistent(w) && Keyed(w) && RunEtl(w).Ok?
    ensures Consistent(RunEtl(w).value) && Keyed(RunEtl(w).value)
  {
    TempoLoaded(w);
    var w1 := LoadTempo(w).value;
    ConsistentGrow(w, w1.dims);
    var w2 := LoadTipo(w1);
    TipoLoaded(w1);
    ConsistentGrow(w1, w2.dims);
    var w3 := LoadGrupo(w2);
    GrupoLoaded(w2);
    ConsistentGrow(w2, w3.dims);
    var w4 := LoadCategoria(w3);
    CategoriaLoaded(w3);
    ConsistentGrow(w3, w4.dims);
    var w5 := LoadClassificacao(w4);
    ClassificacaoLoaded(w4);
    ConsistentGrow(w4, w5.dims);
    var w6 := LoadFato(w5);
    FatoLoaded(w5);
    forall f | f in w6.fatos ensures FactConsistent(w6.dims, f) {
      if f !in w5.fatos {
        var s :| s in w5.staging && Resolve(w5.dims, s) == Some(f);
        ResolvedConsistent(w5.dims, s);
      }
    }
  }

  // ------------------------------------------------------------ closure

  /** After the dimension steps every staging row with a Classificação
      and a Data resolves on all five joins. */
  lemma DimensionsClose(w: State, s: Staged)
    requires LoadTempo(w).Ok? && s in w.staging && s.classificacao.Some? && s.data.Some?
    ensures Resolve(LoadDimensions(LoadTempo(w).value).dims, s).Some?
  {
    var w1 := LoadTempo(w).value;
    TempoJoins(w, s);
    TempoLoaded(w);
    GrupoResolves(w1, s);
    var w3 := LoadGrupo(LoadTipo(w1));
    CategoriaResolves(w3, s);
    var w4 := LoadCategoria(w3);
    ClassificacaoResolves(w4, s);
    var w5 := LoadClassificacao(w4);
    assert TempoId(w5.dims, s) == TempoId(w1.dims, s);
    assert CategoriaId(w5.dims, s) == CategoriaId(w4.dims, s);
  }

  /** After `dim_tipo` and `dim_grupo`, a staging row finds its Tipo and
      its group. */
  lemma GrupoResolves(w: State, s: Staged)
    requires s in w.staging
    ensures var w' := LoadGrupo(LoadTipo(w));
      && IdOf(w'.dims.tipos, s.tipo).Some? && GrupoId(w'.dims, s).Some?
      && w'.staging == w.staging && w'.dims.tempos == w.dims.tempos
      && w'.dims.classificacoes == w.dims.classificacoes && w'.dims.categorias == w.dims.categorias
  {
    var w2 := LoadTipo(w);
    TipoLoaded(w);
    GrupoLoaded(w2);
  }

  /** After `dim_categoria`, a row whose group resolves finds its
      category, and its group still resolves. */
  lemma CategoriaResolves(w: State, s: Staged)
    requires s in w.staging && GrupoId(w.dims, s).Some?
    ensures var w' := LoadCategoria(w);
      && w' == w.(dims := w.dims.(categorias := w'.dims.categorias))
      && GrupoId(w'.dims, s) == GrupoId(w.dims, s)
      && CategoriaId(w'.dims, s).Some?
  {
    CategoriaLoaded(w);
  }

  /** After `dim_classificacao`, a row with a Classificação finds it. */
  lemma ClassificacaoResolves(w: State, s: Staged)
    requires s in w.staging && s.classificacao.Some?
    ensures var w' := LoadClassificacao(w);
      && w' == w.(dims := w.dims.(classificacoes := w'.dims.classificacoes))
      && ClassificacaoId(w'.dims, s).Some?
  {
    ClassificacaoLoaded(w);
  }

  /** After `dim_tempo` is loaded, every staging row with a Data finds
      its month. */
  lemma TempoJoins(w: State, s: Staged)
    requires LoadTempo(w).Ok? && s in w.staging && s.data.Some?
    ensures TempoId(LoadTempo(w).value.dims, s).Some?
  {
    TempoLoaded(w);
    var w1 := LoadTempo(w).value;
    var p := ParsePeriod(s.data.value).value;
    TempoSpansMonth(p);
    assert PeriodOfRow(TempoOf(p)) == p;
    assert TempoOf(p) in w1.dims.tempos;
    assert p in Keys(w1.dims.tempos, PeriodOfRow);
  }

  /** After a run that succeeds, the hash of every staging row that has a
      Classificação and a Data is in the fact table. */
  lemma EveryHashLoaded(w: State, s: Staged)
    requires RunEtl(w).Ok? && s in w.staging && s.classificacao.Some? && s.data.Some?
    ensures s.idHash in Keys(RunEtl(w).value.fatos, FatoHash)
  {
    DimensionsClose(w, s);
    TempoLoaded(w);
    var w5 := LoadDimensions(LoadTempo(w).value);
    FatoLoaded(w5);
  }

  /** A run never writes to staging, and every table it touches only
      grows at its end. */
  lemma RunEtlGrows(w: State)
    requires RunEtl(w).Ok?
    ensures var w' := RunEtl(w).value;
      && w'.staging == w.staging
      && w.dims.tipos <= w'.dims.tipos && w.dims.classificacoes <= w'.dims.classificacoes
      && w.dims.grupos <= w'.dims.grupos && w.dims.categorias <= w'.dims.categorias
      && w.dims.tempos <= w'.dims.tempos && w.fatos <= w'.fatos
  {
    TempoLoaded(w);
    var w1 := LoadTempo(w).value;
    var w2 := LoadTipo(w1);
    TipoLoaded(w1);
    var w3 := LoadGrupo(w2);
    GrupoLoaded(w2);
    var w4 := LoadCategoria(w3);
    CategoriaLoaded(w3);
    var w5 := LoadClassificacao(w4);
    ClassificacaoLoaded(w4);
    FatoLoaded(w5);
  }

  /** A run fails exactly when the staging's months cannot be loaded:
      no row has a Data, or some Data is not a `%m/%Y` month or lies
      outside pandas' timestamps.  It fails in `load_dim_tempo`, before
      anything is written. */
  lemma RunEtlFails(w: State)
    ensures RunEtl(w).Err? <==> !MonthsLoadable(w.staging)
    ensures RunEtl(w).Err? ==> LoadTempo(w) == Err(RunEtl(w).error)
  {
    TempoLoaded(w);
  }

  // ------------------------------------------------------------- rerun

  /** Every candidate of each insert step is already in its table. */
  predicate Absorbed(w: State) {
    var d := w.dims;
    && (forall s :: s in w.staging ==> s.tipo in d.tipos)
    && (forall s :: s in w.staging && s.tipo in d.tipos ==> Grupo(IdOf(d.tipos, s.tipo).value, s.grupo) in d.grupos)
    && (forall s :: s in w.staging && GrupoId(d, s).Some? ==> Categoria(GrupoId(d, s).value, s.categoria) in d.categorias)
    && (forall s :: s in w.staging && s.classificacao.Some? ==> s.classificacao.value in d.classificacoes)
    && (forall s :: s in w.staging && Resolve(d, s).Some? ==> s.idHash in Keys(w.fatos, FatoHash))
  }

  /** On an absorbed warehouse the insert steps change nothing. */
  lemma AbsorbedStable(w: State)
    requires Absorbed(w)
    ensures LoadFato(LoadDimensions(w)) == w
  {
    TipoAbsorbed(w);
    GrupoAbsorbed(w);
    CategoriaAbsorbed(w);
    ClassificacaoAbsorbed(w);
    FatoAbsorbed(w);
  }

  lemma TipoAbsorbed(w: State)
    requires forall s :: s in w.staging ==> s.tipo in w.dims.tipos
    ensures LoadTipo(w) == w
  {
    var names := Keys(w.staging, TipoOf);
    KeysSame(w.dims.tipos);
    forall c | c in names ensures Same(c) in Keys(w.dims.tipos, Same) {
      var i :| 0 <= i < |names| && names[i] == c;
      assert w.staging[i] in w.staging;
    }
    InsertIgnoreNoop(w.dims.tipos, names, Same);
  }

  lemma GrupoAbsorbed(w: State)
    requires forall s :: s in w.staging && s.tipo in w.dims.tipos ==> Grupo(IdOf(w.dims.tipos, s.tipo).value, s.grupo) in w.dims.grupos
    ensures LoadGrupo(w) == w
  {
    var d := w.dims;
    KeysSame(d.grupos);
    InsertIgnoreNoop(d.grupos, FilterMap(w.staging, s => GrupoOf(d, s)), Same);
  }

  lemma CategoriaAbsorbed(w: State)
    requires forall s :: s in w.staging && GrupoId(w.dims, s).Some? ==> Categoria(GrupoId(w.dims, s).value, s.categoria) in w.dims.categorias
    ensures LoadCategoria(w) == w
  {
    var d := w.dims;
    KeysSame(d.categorias);
    InsertIgnoreNoop(d.categorias, FilterMap(w.staging, s => CategoriaOf(d, s)), Same);
  }

  lemma ClassificacaoAbsorbed(w: State)
    requires forall s :: s in w.staging && s.classificacao.Some? ==> s.classificacao.value in w.dims.classificacoes
    ensures LoadClassificacao(w) == w
  {
    KeysSame(w.dims.classificacoes);
    InsertIgnoreNoop(w.dims.classificacoes, FilterMap(w.staging, ClassificacaoOf), Same);
  }

  lemma FatoAbsorbed(w: State)
    requires forall s :: s in w.staging && Resolve(w.dims, s).Some? ==> s.idHash in Keys(w.fatos, FatoHash)
    ensures LoadFato(w) == w
  {
    var fs := FilterMap(w.staging, s => Resolve(w.dims, s));
    forall f | f in fs ensures FatoHash(f) in Keys(w.fatos, FatoHash) {
      var s :| s in w.staging && Resolve(w.dims, s) == Some(f);
    }
    InsertIgnoreNoop(w.fatos, fs, FatoHash);
  }

  /** A successful run leaves the warehouse absorbed. */
  lemma RunEtlAbsorbs(w: State)
    requires RunEtl(w).Ok?
    ensures Absorbed(RunEtl(w).value)
  {
    TempoLoaded(w);
    var w1 := LoadTempo(w).value;
    var w2 := LoadTipo(w1);
    TipoLoaded(w1);
    var w3 := LoadGrupo(w2);
    GrupoLoaded(w2);
    var w4 := LoadCategoria(w3);
    CategoriaLoaded(w3);
    var w5 := LoadClassificacao(w4);
    ClassificacaoLoaded(w4);
    var w6 := LoadFato(w5);
    FatoLoaded(w5);
    assert w6.dims == w5.dims;
    forall s | s in w6.staging && GrupoId(w6.dims, s).Some?
      ensures Categoria(GrupoId(w6.dims, s).value, s.categoria) in w6.dims.categorias
    {
      assert GrupoId(w6.dims, s) == GrupoId(w3.dims, s);
    }
  }

  /** Appending rows whose keys are all present already changes no id. */
  lemma IdOfRepeat<K>(ks: seq<K>, more: seq<K>, k: K)
    requires forall x :: x in more ==> x in ks
    ensures IdOf(ks + more, k) == IdOf(ks, k)
  {
    if k in ks {
      IdOfAppend(ks, more, k);
    }
  }

  /** Re-appending tempo rows for months already present leaves every
      staging row's resolution unchanged. */
  lemma ResolveAfterRepeat(d: Dims, more: seq<TempoRow>, s: Staged)
    requires forall r :: r in more ==> r in d.tempos
    ensures Resolve(d.(tempos := d.tempos + more), s) == Resolve(d, s)
  {
    var d' := d.(tempos := d.tempos + more);
    KeysAppend(d.tempos, more);
    forall p | p in Keys(more, PeriodOfRow) ensures p in Keys(d.tempos, PeriodOfRow) {
      var i :| 0 <= i < |more| && Keys(more, PeriodOfRow)[i] == p;
      assert more[i] in d.tempos;
      var j :| 0 <= j < |d.tempos| && d.tempos[j] == more[i];
      assert Keys(d.tempos, PeriodOfRow)[j] == p;
    }
    if s.data.Some? && ParsePeriod(s.data.value).Ok? {
      IdOfRepeat(Keys(d.tempos, PeriodOfRow), Keys(more, PeriodOfRow), ParsePeriod(s.data.value).value);
    }
    assert TempoId(d', s) == TempoId(d, s);
    assert GrupoId(d', s) == GrupoId(d, s);
    assert CategoriaId(d', s) == CategoriaId(d, s);
  }

  lemma KeysAppend(a: seq<TempoRow>, b: seq<TempoRow>)
    ensures Keys(a + b, PeriodOfRow) == Keys(a, PeriodOfRow) + Keys(b, PeriodOfRow)
  {
  }

  /** Running the loader a second time over the same staging changes
      nothing but `dim_tempo`, which receives the same rows again. */
  lemma RerunOnlyGrowsTempo(w: State)
    requires RunEtl(w).Ok?
    ensures var w1 := RunEtl(w).value;
      && RunEtl(w1).Ok?
      && RunEtl(w1).value == w1.(dims := w1.dims.(tempos := RunEtl(w1).value.dims.tempos))
      && w1.dims.tempos <= RunEtl(w1).value.dims.tempos
  {
    var w1 := RunEtl(w).value;
    RunEtlAbsorbs(w);
    var more := RerunTempo(w);
    var t1 := LoadTempo(w1).value;
    forall s | s in t1.staging ensures Resolve(t1.dims, s) == Resolve(w1.dims, s) {
      ResolveAfterRepeat(w1.dims, more, s);
    }
    assert Absorbed(t1);
    AbsorbedStable(t1);
  }

  /** After a run, `load_dim_tempo` over the same staging succeeds and
      appends only rows that `dim_tempo` already holds. */
  lemma RerunTempo(w: State) returns (more: seq<TempoRow>)
    requires RunEtl(w).Ok?
    ensures var w1 := RunEtl(w).value;
      && LoadTempo(w1) == Ok(w1.(dims := w1.dims.(tempos := w1.dims.tempos + more)))
      && forall r :: r in more ==> r in w1.dims.tempos
  {
    var w1 := RunEtl(w).value;
    TempoLoaded(w);
    var a := LoadTempo(w).value;
    more := ParseTempos(DistinctDatas(w.staging)).value;
    assert w1.staging == w.staging;
    TempoRerun(w, w1);
    assert w1.dims.tempos == a.dims.tempos;
    forall r | r in more ensures r in w1.dims.tempos {
      var i :| 0 <= i < |more| && more[i] == r;
      assert w1.dims.tempos[|w.dims.tempos| + i] == r;
    }
  }
}
