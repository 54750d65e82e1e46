/** Tables of the warehouse as sequences of rows, the row at position
    `i` having the serial id `i + 1`, and the two SQL idioms the loader
    is built from: `INSERT ... ON CONFLICT (key) DO NOTHING` and a join
    that looks a row up by its key. */
module Tables {
  import opened Wrappers
  import opened Text

  /** The key of every row, in table order. */
  function Keys<T, K>(rows: seq<T>, key: T -> K): (ks: seq<K>)
    ensures |ks| == |rows|
    ensures forall i :: 0 <= i < |rows| ==> ks[i] == key(rows[i])
  {
    seq(|rows|, i requires 0 <= i < |rows| => key(rows[i]))
  }

  /** The key function of a table whose whole row is its key. */
  function Same<T>(x: T): T {
    x
  }

  lemma KeysSame<T>(rows: seq<T>)
    ensures Keys(rows, Same) == rows
  {
  }

  /** No key occurs twice: what the table's unique constraint enforces. */
  predicate Unique<K(==)>(ks: seq<K>) {
    forall i, j :: 0 <= i < j < |ks| ==> ks[i] != ks[j]
  }

  /** `INSERT INTO table SELECT cands ON CONFLICT (key) DO NOTHING`: each
      candidate, in order, is appended unless a row with its key is
      already there, including one appended earlier by the same
      statement. */
  function InsertIgnore<T, K(==)>(table: seq<T>, cands: seq<T>, key: T -> K): seq<T>
    decreases |cands|
  {
    if |cands| == 0 then table
    else
      var next := if key(cands[0]) in Keys(table, key) then table else table + [cands[0]];
      InsertIgnore(next, cands[1..], key)
  }

  lemma KeysSnoc<T, K>(table: seq<T>, x: T, key: T -> K)
    ensures Keys(table + [x], key) == Keys(table, key) + [key(x)]
  {
  }

  /** Existing rows are never changed, moved or deleted. */
  lemma {:induction false} InsertIgnoreKeeps<T, K>(table: seq<T>, cands: seq<T>, key: T -> K)
    ensures table <= InsertIgnore(table, cands, key)
    decreases |cands|
  {
    if |cands| > 0 {
      var next := if key(cands[0]) in Keys(table, key) then table else table + [cands[0]];
      InsertIgnoreKeeps(next, cands[1..], key);
    }
  }

  /** Every row afterwards was there before or is one of the candidates. */
  lemma {:induction false} InsertIgnoreFrom<T, K>(table: seq<T>, cands: seq<T>, key: T -> K)
    ensures forall x :: x in InsertIgnore(table, cands, key) ==> x in table || x in cands
    decreases |cands|
  {
    if |cands| > 0 {
      var next := if key(cands[0]) in Keys(table, key) then table else table + [cands[0]];
      InsertIgnoreFrom(next, cands[1..], key);
      forall x | x in InsertIgnore(table, cands, key) ensures x in table || x in cands {
        if x !in table && x !in cands[1..] {
          assert x in next;
          assert x == cands[0];
        }
      }
    }
  }

  /** Afterwards every candidate's key is in the table. */
  lemma {:induction false} InsertIgnoreCovers<T, K>(table: seq<T>, cands: seq<T>, key: T -> K)
    ensures forall c :: c in cands ==> key(c) in Keys(InsertIgnore(table, cands, key), key)
    decreases |cands|
  {
    if |cands| > 0 {
      var next := if key(cands[0]) in Keys(table, key) then table else table + [cands[0]];
      if key(cands[0]) !in Keys(table, key) {
        KeysSnoc(table, cands[0], key);
      }
      assert key(cands[0]) in Keys(next, key);
      InsertIgnoreCovers(next, cands[1..], key);
      InsertIgnoreKeeps(next, cands[1..], key);
      KeysPrefix(next, InsertIgnore(next, cands[1..], key), key);
      forall c | c in cands ensures key(c) in Keys(InsertIgnore(table, cands, key), key) {
        if c != cands[0] {
          assert c in cands[1..];
        }
      }
    }
  }

  lemma KeysPrefix<T, K>(a: seq<T>, b: seq<T>, key: T -> K)
    requires a <= b
    ensures Keys(a, key) <= Keys(b, key)
  {
  }

  /** A unique key stays unique. */
  lemma {:induction false} InsertIgnoreUnique<T, K>(table: seq<T>, cands: seq<T>, key: T -> K)
    requires Unique(Keys(table, key))
    ensures Unique(Keys(InsertIgnore(table, cands, key), key))
    decreases |cands|
  {
    if |cands| > 0 {
      var next := if key(cands[0]) in Keys(table, key) then table else table + [cands[0]];
      if key(cands[0]) !in Keys(table, key) {
        KeysSnoc(table, cands[0], key);
        UniqueSnoc(Keys(table, key), key(cands[0]));
      }
      InsertIgnoreUnique(next, cands[1..], key);
    }
  }

  lemma UniqueSnoc<K>(ks: seq<K>, k: K)
    requires Unique(ks) && k !in ks
    ensures Unique(ks + [k])
  {
    var r := ks + [k];
    forall i, j | 0 <= i < j < |r| ensures r[i] != r[j] {
      if j == |ks| {
        assert r[i] == ks[i];
      } else {
        assert r[i] == ks[i] && r[j] == ks[j];
      }
    }
  }

  /** When every candidate's key is already present nothing is inserted. */
  lemma {:induction false} InsertIgnoreNoop<T, K>(table: seq<T>, cands: seq<T>, key: T -> K)
    requires forall c :: c in cands ==> key(c) in Keys(table, key)
    ensures InsertIgnore(table, cands, key) == table
    decreases |cands|
  {
    if |cands| > 0 {
      assert cands[0] in cands;
      InsertIgnoreNoop(table, cands[1..], key);
    }
  }

  /** Inserting the same candidates twice is inserting them once. */
  lemma InsertIgnoreIdempotent<T, K>(table: seq<T>, cands: seq<T>, key: T -> K)
    ensures InsertIgnore(InsertIgnore(table, cands, key), cands, key) == InsertIgnore(table, cands, key)
  {
    InsertIgnoreCovers(table, cands, key);
    InsertIgnoreNoop(InsertIgnore(table, cands, key), cands, key);
  }

  /** Everything `InsertIgnore` promises, in one place. */
  lemma InsertIgnoreFacts<T, K>(table: seq<T>, cands: seq<T>, key: T -> K)
    ensures var r := InsertIgnore(table, cands, key);
      && table <= r
      && (forall x :: x in r ==> x in table || x in cands)
      && (forall c :: c in cands ==> key(c) in Keys(r, key))
      && (Unique(Keys(table, key)) ==> Unique(Keys(r, key)))
      && InsertIgnore(r, cands, key) == r
  {
    InsertIgnoreKeeps(table, cands, key);
    InsertIgnoreFrom(table, cands, key);
    InsertIgnoreCovers(table, cands, key);
    if Unique(Keys(table, key)) {
      InsertIgnoreUnique(table, cands, key);
    }
    InsertIgnoreIdempotent(table, cands, key);
  }

  /** Keyed lookup, as an equi-join on a unique key: the id of the row
      whose key is `k`, or nothing when there is none (an inner join
      drops the row being joined). */
  function IdOf<K(==)>(ks: seq<K>, k: K): (id: Option<nat>)
    ensures id.Some? <==> k in ks
    ensures id.Some? ==> 1 <= id.value <= |ks| && ks[id.value - 1] == k
  {
    var i := IndexOf(ks, k);
    if i < |ks| then Some(i + 1) else None
  }

  /** Different keys have different ids. */
  lemma IdOfDistinct<K>(ks: seq<K>, a: K, b: K)
    requires a in ks && b in ks && a != b
    ensures IdOf(ks, a).value != IdOf(ks, b).value
  {
  }

  /** Appending rows does not change the id of a key already present. */
  lemma IdOfAppend<K>(ks: seq<K>, more: seq<K>, k: K)
    requires k in ks
    ensures IdOf(ks + more, k) == IdOf(ks, k)
  {
    var i := IndexOf(ks, k);
    assert (ks + more)[..i] == ks[..i];
    IndexOfAt(ks + more, k, i);
  }

  /** Ids stay put as rows are added behind them. */
  lemma IdOfPrefix<K>(ks: seq<K>, longer: seq<K>, k: K)
    requires ks <= longer && k in ks
    ensures IdOf(longer, k) == IdOf(ks, k)
  {
    assert longer == ks + longer[|ks|..];
    IdOfAppend(ks, longer[|ks|..], k);
  }

  /** The values `f` yields on `xs`, in order, skipping the elements it
      maps to nothing: a `SELECT` with a `WHERE` or an inner join. */
  function FilterMap<A(!new), B(!new)>(xs: seq<A>, f: A -> Option<B>): (r: seq<B>)
    ensures forall b :: b in r <==> exists a :: a in xs && f(a) == Some(b)
  {
    if |xs| == 0 then []
    else
      var rest := FilterMap(xs[1..], f);
      assert forall a :: a in xs <==> a == xs[0] || a in xs[1..];
      match f(xs[0])
      case Some(b) => [b] + rest
      case None => rest
  }

  /** Functions that agree on every element filter alike. */
  lemma {:induction false} FilterMapSame<A(!new), B(!new)>(xs: seq<A>, f: A -> Option<B>, g: A -> Option<B>)
    requires forall a :: f(a) == g(a)
    ensures FilterMap(xs, f) == FilterMap(xs, g)
  {
    if |xs| > 0 {
      FilterMapSame(xs[1..], f, g);
    }
  }
}
