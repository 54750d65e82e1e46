/** The content key of a ledger line (`gerar_hash`): six fields joined with
    "-" in a fixed order, the descriptive ones trimmed and lower-cased, then
    digested. The digest itself (MD5) is a parameter: only its being a
    function of the key string matters here. */
module ContentKey {
  import opened Text
  import opened Wrappers
  import Amount

  /** One row of the uploaded sheet, every cell as the text it was read as. */
  datatype RawRow = RawRow(
    descricao: string,
    tipo: string,
    grupo: string,
    categoria: string,
    classificacao: string,
    data: string,
    valor: string)

  /** `strip().lower()`, the canonical form of a descriptive field. */
  function Canon(s: string): string {
    Lower(Strip(s))
  }

  /** The key string hashed for a row: its key fields joined by "-". */
  function Key(r: RawRow): string {
    JoinDash(KeyFields(r))
  }

  /** `gerar_hash`: the digest of the key. */
  function GerarHash(r: RawRow, md5: string -> string): string {
    md5(Key(r))
  }

  /** The six key fields: Tipo, Grupo, Categoria and Descricao canonical,
      Data only trimmed, Valor verbatim; Classificacao takes no part. */
  function KeyFields(r: RawRow): (fs: seq<string>)
    ensures |fs| == 6
  {
    [Canon(r.tipo), Canon(r.grupo), Canon(r.categoria), Strip(r.data), Canon(r.descricao), r.valor]
  }

  /** Fields joined by "-". */
  function JoinDash(fs: seq<string>): string {
    if |fs| == 0 then ""
    else if |fs| == 1 then fs[0]
    else fs[0] + "-" + JoinDash(fs[1..])
  }

  /** Cut `s` at its first `n` dashes (fewer if it has fewer): the inverse
      of `JoinDash` on fields without dashes before the last one. */
  function SplitDash(s: string, n: nat): (fs: seq<string>)
    ensures 1 <= |fs| <= n + 1
  {
    if n == 0 then [s]
    else
      var k := IndexOf(s, '-');
      if k == |s| then [s]
      else [s[..k]] + SplitDash(s[k + 1..], n - 1)
  }

  /** No field before the last one contains the separator. */
  predicate SeparableFields(fs: seq<string>) {
    forall i :: 0 <= i < |fs| - 1 ==> '-' !in fs[i]
  }

  /** Splitting undoes joining when only the last field may hold a dash. */
  lemma {:induction false} SplitJoin(fs: seq<string>)
    requires |fs| >= 1 && SeparableFields(fs)
    ensures SplitDash(JoinDash(fs), |fs| - 1) == fs
  {
    if |fs| > 1 {
      assert JoinDash(fs) == fs[0] + "-" + JoinDash(fs[1..]);
      assert '-' !in fs[0];
      SplitDashCons(fs[0], JoinDash(fs[1..]), |fs| - 1);
      SeparableTail(fs);
      SplitJoin(fs[1..]);
      assert [fs[0]] + fs[1..] == fs;
    }
  }

  lemma SeparableTail(fs: seq<string>)
    requires |fs| >= 1 && SeparableFields(fs)
    ensures SeparableFields(fs[1..])
  {
    forall i | 0 <= i < |fs[1..]| - 1 ensures '-' !in fs[1..][i] {
      assert fs[1..][i] == fs[i + 1];
    }
  }

  /** The first dash of `head-rest` is the one after a dash-free `head`,
      so splitting there yields `head` and then splits `rest`. */
  lemma SplitDashCons(head: string, rest: string, n: nat)
    requires '-' !in head && n >= 1
    ensures SplitDash(head + "-" + rest, n) == [head] + SplitDash(rest, n - 1)
  {
    var s := head + "-" + rest;
    assert s[..|head|] == head;
    IndexOfAt(s, '-', |head|);
    assert s[|head| + 1..] == rest;
  }

  /** Spelled out, the key is
      tipo-grupo-categoria-data-descricao-valor. */
  lemma KeyWritten(r: RawRow)
    ensures Key(r) == Canon(r.tipo) + "-" + Canon(r.grupo) + "-" + Canon(r.categoria) + "-" +
                      Strip(r.data) + "-" + Canon(r.descricao) + "-" + r.valor
  {
    Join6(Canon(r.tipo), Canon(r.grupo), Canon(r.categoria), Strip(r.data), Canon(r.descricao), r.valor);
  }

  lemma Join6(a: string, b: string, c: string, d: string, e: string, f: string)
    ensures JoinDash([a, b, c, d, e, f]) == a + "-" + b + "-" + c + "-" + d + "-" + e + "-" + f
  {
    assert JoinDash([a]) == a;
    JoinDashSnoc([a], b);
    assert [a] + [b] == [a, b];
    JoinDashSnoc([a, b], c);
    assert [a, b] + [c] == [a, b, c];
    JoinDashSnoc([a, b, c], d);
    assert [a, b, c] + [d] == [a, b, c, d];
    JoinDashSnoc([a, b, c, d], e);
    assert [a, b, c, d] + [e] == [a, b, c, d, e];
    JoinDashSnoc([a, b, c, d, e], f);
    assert [a, b, c, d, e] + [f] == [a, b, c, d, e, f];
  }

  lemma JoinDashStep(fs: seq<string>, i: nat)
    requires i + 1 < |fs|
    ensures JoinDash(fs[i..]) == fs[i] + "-" + JoinDash(fs[i + 1..])
  {
    assert fs[i..][1..] == fs[i + 1..];
  }

  /** The key can be cut back into its six fields when the five
      canonicalised fields before Valor contain no dash. */
  lemma KeySplits(r: RawRow)
    requires SeparableFields(KeyFields(r))
    ensures SplitDash(Key(r), 5) == KeyFields(r)
  {
    SplitJoin(KeyFields(r));
  }

  /** Two rows get the same key exactly when their six canonical fields
      agree, provided the first five are free of dashes. */
  lemma KeyInjective(r1: RawRow, r2: RawRow)
    requires SeparableFields(KeyFields(r1)) && SeparableFields(KeyFields(r2))
    ensures Key(r1) == Key(r2) <==> KeyFields(r1) == KeyFields(r2)
  {
    if Key(r1) == Key(r2) {
      KeySplits(r1);
      KeySplits(r2);
    }
  }

  /** Rows whose canonical fields agree get the same key, hence the same
      hash, whatever else differs between them. */
  lemma SameFieldsSameHash(r1: RawRow, r2: RawRow, md5: string -> string)
    requires KeyFields(r1) == KeyFields(r2)
    ensures Key(r1) == Key(r2)
    ensures GerarHash(r1, md5) == GerarHash(r2, md5)
  {
  }

  /** A text written with different letter case and wrapped in whitespace. */
  datatype Restyle = Restyle(lead: string, cased: string, trail: string)

  predicate Restyles(a: string, x: Restyle) {
    AllSpace(x.lead) && AllSpace(x.trail) && CaseVariant(a, x.cased)
  }

  function Apply(x: Restyle): string {
    x.lead + x.cased + x.trail
  }

  /** Re-typing Tipo, Grupo, Categoria and Descricao in another case with
      extra surrounding whitespace, padding Data with whitespace and
      changing Classificacao leaves the hash unchanged. */
  lemma HashIgnoresCaseAndPadding(r: RawRow, tipo: Restyle, grupo: Restyle,
                                  categoria: Restyle, descricao: Restyle,
                                  dataLead: string, dataTrail: string,
                                  classificacao: string, md5: string -> string)
    requires Restyles(r.tipo, tipo) && Restyles(r.grupo, grupo)
    requires Restyles(r.categoria, categoria) && Restyles(r.descricao, descricao)
    requires AllSpace(dataLead) && AllSpace(dataTrail)
    ensures var s := RawRow(Apply(descricao), Apply(tipo), Apply(grupo), Apply(categoria),
                            classificacao, dataLead + r.data + dataTrail, r.valor);
      GerarHash(s, md5) == GerarHash(r, md5)
  {
    var s := RawRow(Apply(descricao), Apply(tipo), Apply(grupo), Apply(categoria),
                    classificacao, dataLead + r.data + dataTrail, r.valor);
    CanonicalIgnoresCaseAndPadding(r.tipo, tipo.cased, tipo.lead, tipo.trail);
    CanonicalIgnoresCaseAndPadding(r.grupo, grupo.cased, grupo.lead, grupo.trail);
    CanonicalIgnoresCaseAndPadding(r.categoria, categoria.cased, categoria.lead, categoria.trail);
    CanonicalIgnoresCaseAndPadding(r.descricao, descricao.cased, descricao.lead, descricao.trail);
    StripIgnoresPadding(dataLead, r.data, dataTrail);
    SameFieldsSameHash(s, r, md5);
  }

  /** Valor enters the key verbatim: writing a thousands point into the
      amount text changes the key although the amount it normalises to is
      the same. */
  lemma ValorTextMatters(r: RawRow, i: nat)
    requires i <= |r.valor|
    ensures var s := r.(valor := r.valor[..i] + "." + r.valor[i..]);
      && Key(s) != Key(r)
      && Amount.NormalizeValor(Some(s.valor)) == Amount.NormalizeValor(Some(r.valor))
  {
    var s := r.(valor := r.valor[..i] + "." + r.valor[i..]);
    KeyValorLast(r);
    KeyValorLast(s);
    assert KeyFields(s)[..5] == KeyFields(r)[..5];
    assert |Key(s)| == |Key(r)| + 1;
    Amount.PointsIgnored(r.valor, i);
  }

  /** A string that is its own canonical form. */
  predicate Canonical(s: string) {
    Trimmed(s) && Lower(s) == s
  }

  lemma CanonOfCanonical(s: string)
    requires Canonical(s)
    ensures Canon(s) == s
  {
    StripUnique([], s, []);
    assert [] + s + [] == s;
  }

  /** Canonicalising twice is canonicalising once. */
  lemma CanonIdempotent(s: string)
    ensures Canonical(Canon(s))
    ensures Canon(Canon(s)) == Canon(s)
  {
    LowerKeepsTrimmed(Strip(s));
    LowerIdempotent(Strip(s));
    CanonOfCanonical(Canon(s));
  }

  lemma CanonicalDash(a: string, b: string)
    requires Canonical(a) && Canonical(b)
    ensures Canonical(a + "-" + b)
  {
    var s := a + "-" + b;
    assert Lower(s) == s by {
      forall i | 0 <= i < |s| ensures Lower(s)[i] == s[i] {
        if i < |a| {
          assert s[i] == a[i] && Lower(a)[i] == LowerChar(a[i]);
        } else if i > |a| {
          assert s[i] == b[i - |a| - 1] && Lower(b)[i - |a| - 1] == LowerChar(b[i - |a| - 1]);
        }
      }
    }
  }

  /** The key does not separate its fields unambiguously: moving a dash
      from the end of Tipo into the front of Grupo changes the row's fields
      but not its key, so the two rows share a hash. */
  lemma DashCollision(r: RawRow, a: string, b: string, c: string, md5: string -> string)
    requires Canonical(a) && Canonical(b) && Canonical(c)
    ensures var r1 := r.(tipo := a + "-" + b, grupo := c);
      var r2 := r.(tipo := a, grupo := b + "-" + c);
      && KeyFields(r1) != KeyFields(r2)
      && GerarHash(r1, md5) == GerarHash(r2, md5)
  {
    DashInTipo(r, a, b, c);
    DashInGrupo(r, a, b, c);
    assert |a + "-" + b| != |a|;
    CanonicalDash(a, b);
    CanonOfCanonical(a + "-" + b);
    CanonOfCanonical(a);
  }

  /** Everything in the key after Tipo and Grupo. */
  function KeyTail(r: RawRow): string {
    "-" + JoinDash(KeyFields(r)[2..])
  }

  lemma KeyHead(r: RawRow)
    ensures Key(r) == Canon(r.tipo) + "-" + Canon(r.grupo) + KeyTail(r)
  {
    JoinHead(KeyFields(r));
  }

  lemma JoinHead(fs: seq<string>)
    requires |fs| >= 3
    ensures JoinDash(fs) == fs[0] + "-" + fs[1] + ("-" + JoinDash(fs[2..]))
  {
    JoinDashStep(fs, 1);
    AppendDash(fs[0], fs[1], JoinDash(fs[2..]));
  }

  lemma AppendDash(a: string, b: string, c: string)
    ensures a + "-" + (b + "-" + c) == a + "-" + b + ("-" + c)
  {
  }

  /** Valor is the last field, appended after everything else. */
  lemma KeyValorLast(r: RawRow)
    ensures Key(r) == JoinDash(KeyFields(r)[..5]) + "-" + r.valor
  {
    var fs := KeyFields(r);
    JoinDashSnoc(fs[..5], r.valor);
    assert fs[..5] + [r.valor] == fs;
  }

  lemma {:induction false} JoinDashSnoc(fs: seq<string>, x: string)
    requires |fs| >= 1
    ensures JoinDash(fs + [x]) == JoinDash(fs) + "-" + x
  {
    if |fs| > 1 {
      assert (fs + [x])[1..] == fs[1..] + [x];
      JoinDashSnoc(fs[1..], x);
    } else {
      assert (fs + [x])[1..] == [x];
    }
  }

  lemma DashInTipo(r: RawRow, a: string, b: string, c: string)
    requires Canonical(a) && Canonical(b) && Canonical(c)
    ensures Key(r.(tipo := a + "-" + b, grupo := c)) == a + "-" + b + "-" + c + KeyTail(r)
  {
    CanonicalDash(a, b);
    CanonOfCanonical(a + "-" + b);
    CanonOfCanonical(c);
    KeyHead(r.(tipo := a + "-" + b, grupo := c));
  }

  lemma DashInGrupo(r: RawRow, a: string, b: string, c: string)
    requires Canonical(a) && Canonical(b) && Canonical(c)
    ensures Key(r.(tipo := a, grupo := b + "-" + c)) == a + "-" + b + "-" + c + KeyTail(r)
  {
    var r2 := r.(tipo := a, grupo := b + "-" + c);
    assert KeyFields(r2)[2..] == KeyFields(r)[2..];
    assert Key(r2) == a + "-" + (b + "-" + c) + KeyTail(r) by {
      CanonicalDash(b, c);
      CanonOfCanonical(b + "-" + c);
      CanonOfCanonical(a);
      KeyHead(r2);
    }
    Reassociate(a, b, c, KeyTail(r));
  }

  lemma Reassociate(a: string, b: string, c: string, t: string)
    ensures a + "-" + (b + "-" + c) + t == a + "-" + b + "-" + c + t
  {
  }
}
