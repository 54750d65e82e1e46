/** The character-level operations the source relies on: Python's
    `str.isspace` (also the `\s` class of its regular expressions),
    `str.strip`, `str.lower`, and ASCII decimal digits. */
module Text {

  /** Python's `str.isspace()`: the Unicode whitespace characters. */
  predicate IsSpace(c: char) {
    || ('\t' <= c <= '\r')
    || ('\U{1C}' <= c <= '\U{1F}')
    || c == ' '
    || c == '\U{85}'
    || c == '\U{A0}'
    || c == '\U{1680}'
    || ('\U{2000}' <= c <= '\U{200A}')
    || c == '\U{2028}'
    || c == '\U{2029}'
    || c == '\U{202F}'
    || c == '\U{205F}'
    || c == '\U{3000}'
  }

  predicate AllSpace(s: string) {
    forall i :: 0 <= i < |s| ==> IsSpace(s[i])
  }

  /** Neither end of `s` is whitespace: the shape `strip()` returns. */
  predicate Trimmed(s: string) {
    |s| == 0 || (!IsSpace(s[0]) && !IsSpace(s[|s| - 1]))
  }

  /** `str.lstrip()`. */
  function TrimStart(s: string): (r: string)
    ensures |r| <= |s|
  {
    if |s| > 0 && IsSpace(s[0]) then TrimStart(s[1..]) else s
  }

  /** `lstrip()` returns the suffix of `s` left after its leading whitespace. */
  lemma {:induction false} TrimStartShape(s: string)
    ensures TrimStart(s) == s[|s| - |TrimStart(s)|..]
    ensures AllSpace(s[..|s| - |TrimStart(s)|])
    ensures |TrimStart(s)| > 0 ==> !IsSpace(TrimStart(s)[0])
    decreases |s|
  {
    if |s| > 0 && IsSpace(s[0]) {
      TrimStartShape(s[1..]);
      var k := |s| - |TrimStart(s)|;
      assert s[..k] == [s[0]] + s[1..][..k - 1];
    }
  }

  /** `str.rstrip()`. */
  function TrimEnd(s: string): (r: string)
    ensures |r| <= |s|
  {
    if |s| > 0 && IsSpace(s[|s| - 1]) then TrimEnd(s[..|s| - 1]) else s
  }

  /** `rstrip()` returns the prefix of `s` left before its trailing whitespace. */
  lemma {:induction false} TrimEndShape(s: string)
    ensures TrimEnd(s) == s[..|TrimEnd(s)|]
    ensures AllSpace(s[|TrimEnd(s)|..])
    ensures |TrimEnd(s)| > 0 ==> !IsSpace(TrimEnd(s)[|TrimEnd(s)| - 1])
    decreases |s|
  {
    if |s| > 0 && IsSpace(s[|s| - 1]) {
      TrimEndShape(s[..|s| - 1]);
      var k := |TrimEnd(s)|;
      assert s[k..] == s[..|s| - 1][k..] + [s[|s| - 1]];
    }
  }

  /** `str.strip()`. */
  function Strip(s: string): (r: string)
    ensures Trimmed(r)
    ensures |r| <= |s|
  {
    TrimStartShape(s);
    TrimEndShape(TrimStart(s));
    TrimEnd(TrimStart(s))
  }

  lemma {:induction false} TrimStartOfSpaces(w: string, s: string)
    requires AllSpace(w)
    ensures TrimStart(w + s) == TrimStart(s)
    decreases |w|
  {
    if |w| > 0 {
      assert (w + s)[1..] == w[1..] + s;
      TrimStartOfSpaces(w[1..], s);
    } else {
      assert w + s == s;
    }
  }

  lemma {:induction false} TrimEndOfSpaces(s: string, w: string)
    requires AllSpace(w)
    ensures TrimEnd(s + w) == TrimEnd(s)
    decreases |w|
  {
    if |w| > 0 {
      assert (s + w)[..|s + w| - 1] == s + w[..|w| - 1];
      TrimEndOfSpaces(s, w[..|w| - 1]);
    } else {
      assert s + w == s;
    }
  }

  /** `strip()` is characterised by its decomposition: whatever whitespace
      surrounds a trimmed core, stripping returns exactly that core. */
  lemma StripUnique(w1: string, core: string, w2: string)
    requires AllSpace(w1) && AllSpace(w2) && Trimmed(core)
    ensures Strip(w1 + core + w2) == core
  {
    if |core| == 0 {
      StripOfSpaces(w1, w2);
      assert w1 + core + w2 == w1 + w2;
    } else {
      StripAroundCore(w1, core, w2);
    }
  }

  lemma StripOfSpaces(w1: string, w2: string)
    requires AllSpace(w1) && AllSpace(w2)
    ensures Strip(w1 + w2) == []
  {
    TrimStartOfSpaces(w1 + w2, []);
    assert w1 + w2 + [] == w1 + w2;
  }

  lemma StripAroundCore(w1: string, core: string, w2: string)
    requires AllSpace(w1) && AllSpace(w2)
    requires |core| > 0 && !IsSpace(core[0]) && !IsSpace(core[|core| - 1])
    ensures Strip(w1 + core + w2) == core
  {
    assert w1 + core + w2 == w1 + (core + w2);
    TrimStartOfSpaces(w1, core + w2);
    assert (core + w2)[0] == core[0];
    assert TrimStart(core + w2) == core + w2;
    TrimEndOfSpaces(core, w2);
  }

  /** Every string is its stripped core surrounded by whitespace. */
  lemma StripSplits(s: string) returns (lead: string, trail: string)
    ensures AllSpace(lead) && AllSpace(trail)
    ensures s == lead + Strip(s) + trail
  {
    var t := TrimStart(s);
    var core := TrimEnd(t);
    TrimStartShape(s);
    TrimEndShape(t);
    lead := s[..|s| - |t|];
    trail := t[|core|..];
    SliceThree(s, t, core);
  }

  lemma SliceThree(s: string, t: string, core: string)
    requires |t| <= |s| && t == s[|s| - |t|..]
    requires |core| <= |t| && core == t[..|core|]
    ensures s == s[..|s| - |t|] + core + t[|core|..]
  {
    assert t == core + t[|core|..];
    assert s == s[..|s| - |t|] + t;
  }

  /** Padding with whitespace on either side does not change `strip()`. */
  lemma StripIgnoresPadding(w1: string, s: string, w2: string)
    requires AllSpace(w1) && AllSpace(w2)
    ensures Strip(w1 + s + w2) == Strip(s)
  {
    var lead, trail := StripSplits(s);
    Regroup(w1, lead, Strip(s), trail, w2);
    AllSpaceAppend(w1, lead);
    AllSpaceAppend(trail, w2);
    StripUnique(w1 + lead, Strip(s), trail + w2);
  }

  lemma Regroup(a: string, b: string, c: string, d: string, e: string)
    ensures a + (b + c + d) + e == (a + b) + c + (d + e)
  {
  }

  lemma AllSpaceAppend(a: string, b: string)
    requires AllSpace(a) && AllSpace(b)
    ensures AllSpace(a + b)
  {
  }

  /** Python's `str.lower()` on one character, for ASCII and the
      Latin-1 letters (the Portuguese accented capitals among them). */
  function LowerChar(c: char): char {
    if ('A' <= c <= 'Z') || ('\U{C0}' <= c <= '\U{DE}' && c != '\U{D7}')
    then (c as int + 32) as char
    else c
  }

  /** Python's `str.lower()`. */
  function Lower(s: string): (r: string)
    ensures |r| == |s|
    ensures forall i :: 0 <= i < |s| ==> r[i] == LowerChar(s[i])
  {
    seq(|s|, i requires 0 <= i < |s| => LowerChar(s[i]))
  }

  /** Case folding never turns whitespace into text or text into whitespace. */
  lemma LowerCharKeepsSpace(c: char)
    ensures IsSpace(LowerChar(c)) <==> IsSpace(c)
  {
  }

  lemma LowerIdempotent(s: string)
    ensures Lower(Lower(s)) == Lower(s)
  {
  }

  /** `s.strip().lower()` equals `s.lower().strip()`: the key is insensitive
      to the order of the two canonicalisations. */
  lemma StripLowerCommute(s: string)
    ensures Lower(Strip(s)) == Strip(Lower(s))
  {
    var lead, trail := StripSplits(s);
    var core := Strip(s);
    LowerConcat(lead, core, trail);
    LowerKeepsAllSpace(lead);
    LowerKeepsAllSpace(trail);
    LowerKeepsTrimmed(core);
    StripUnique(Lower(lead), Lower(core), Lower(trail));
  }

  lemma LowerConcat(a: string, b: string, c: string)
    ensures Lower(a + b + c) == Lower(a) + Lower(b) + Lower(c)
  {
  }

  lemma LowerKeepsAllSpace(w: string)
    requires AllSpace(w)
    ensures AllSpace(Lower(w))
  {
    forall i | 0 <= i < |w| ensures IsSpace(Lower(w)[i]) {
      LowerCharKeepsSpace(w[i]);
    }
  }

  lemma LowerKeepsTrimmed(core: string)
    requires Trimmed(core)
    ensures Trimmed(Lower(core))
  {
    if |core| > 0 {
      LowerCharKeepsSpace(core[0]);
      LowerCharKeepsSpace(core[|core| - 1]);
    }
  }

  /** Two strings that differ only in letter case. */
  predicate CaseVariant(a: string, b: string) {
    |a| == |b| && forall i :: 0 <= i < |a| ==> LowerChar(a[i]) == LowerChar(b[i])
  }

  /** Differing only in case and in surrounding whitespace leaves
      `strip().lower()` unchanged. */
  lemma CanonicalIgnoresCaseAndPadding(a: string, b: string, w1: string, w2: string)
    requires CaseVariant(a, b) && AllSpace(w1) && AllSpace(w2)
    ensures Lower(Strip(w1 + b + w2)) == Lower(Strip(a))
  {
    StripIgnoresPadding(w1, b, w2);
    StripLowerCommute(a);
    StripLowerCommute(b);
    assert Lower(a) == Lower(b);
  }

  /** Index of the first `c` in `s`, or `|s|`. */
  function IndexOf<T(==)>(s: seq<T>, c: T): (k: nat)
    ensures k <= |s|
    ensures c !in s[..k]
    ensures k < |s| ==> s[k] == c
  {
    if |s| == 0 then 0
    else if s[0] == c then 0
    else
      var k := 1 + IndexOf(s[1..], c);
      assert s[..k] == [s[0]] + s[1..][..k - 1];
      k
  }

  /** Index facts: the first occurrence is where the character is and
      nowhere before. */
  lemma IndexOfAt<T>(s: seq<T>, c: T, k: nat)
    requires k < |s| && s[k] == c && c !in s[..k]
    ensures IndexOf(s, c) == k
  {
    var j := IndexOf(s, c);
    assert s[..j] == s[..k] || j != k;
  }

  lemma IndexOfAbsent<T>(s: seq<T>, c: T)
    requires c !in s
    ensures IndexOf(s, c) == |s|
  {
  }

  /** A position of an element that is in a sequence. */
  lemma Position<T>(s: seq<T>, c: T) returns (i: nat)
    requires c in s
    ensures i < |s| && s[i] == c
  {
    i :| 0 <= i < |s| && s[i] == c;
  }

  predicate IsDigit(c: char) {
    '0' <= c <= '9'
  }

  predicate AllDigits(s: string) {
    forall i :: 0 <= i < |s| ==> IsDigit(s[i])
  }

  lemma AllDigitsAppend(a: string, b: string)
    requires AllDigits(a) && AllDigits(b)
    ensures AllDigits(a + b)
  {
  }

  function Pow10(n: nat): (r: nat)
    ensures r >= 1
  {
    if n == 0 then 1 else 10 * Pow10(n - 1)
  }

  /** The number an ASCII digit string denotes (Horner's rule). */
  function DigitsValue(ds: string): nat
    requires AllDigits(ds)
  {
    if |ds| == 0 then 0
    else DigitsValue(ds[..|ds| - 1]) * 10 + (ds[|ds| - 1] as int - '0' as int)
  }

  /** Appending one digit: the step of Horner's rule. */
  lemma DigitsSnoc(ds: string, c: char)
    requires AllDigits(ds) && IsDigit(c)
    ensures AllDigits(ds + [c])
    ensures DigitsValue(ds + [c]) == DigitsValue(ds) * 10 + (c as int - '0' as int)
  {
    assert (ds + [c])[..|ds|] == ds;
  }

  /** Shortest decimal notation of `n`. */
  function NatDigits(n: nat): (r: string)
    ensures AllDigits(r) && |r| >= 1
  {
    if n < 10 then [('0' as int + n) as char]
    else NatDigits(n / 10) + [('0' as int + n % 10) as char]
  }

  function Zeros(k: nat): (r: string)
    ensures |r| == k && AllDigits(r)
    ensures forall i :: 0 <= i < k ==> r[i] == '0'
  {
    seq(k, i => '0')
  }

  lemma {:induction false} DigitsNatRoundTrip(n: nat)
    ensures DigitsValue(NatDigits(n)) == n
    decreases n
  {
    if n >= 10 {
      var ds := NatDigits(n);
      assert ds[..|ds| - 1] == NatDigits(n / 10);
      DigitsNatRoundTrip(n / 10);
    }
  }

  lemma {:induction false} DigitsValueAppend(a: string, b: string)
    requires AllDigits(a) && AllDigits(b)
    ensures AllDigits(a + b)
    ensures DigitsValue(a + b) == DigitsValue(a) * Pow10(|b|) + DigitsValue(b)
    decreases |b|
  {
    if |b| == 0 {
      assert a + b == a;
    } else {
      var b' := b[..|b| - 1];
      var last := b[|b| - 1] as int - '0' as int;
      assert (a + b)[..|a + b| - 1] == a + b';
      assert DigitsValue(a + b) == DigitsValue(a + b') * 10 + last;
      assert DigitsValue(b) == DigitsValue(b') * 10 + last;
      DigitsValueAppend(a, b');
      HornerStep(DigitsValue(a), Pow10(|b'|), DigitsValue(b'), last);
    }
  }

  lemma HornerStep(x: int, p: int, y: int, d: int)
    ensures (x * p + y) * 10 + d == x * (p * 10) + (y * 10 + d)
  {
  }

  lemma {:induction false} ZerosValue(k: nat)
    ensures DigitsValue(Zeros(k)) == 0
    decreases k
  {
    if k > 0 {
      assert Zeros(k)[..k - 1] == Zeros(k - 1);
      ZerosValue(k - 1);
    }
  }

  /** Leading zeros do not change the value of a digit string. */
  lemma LeadingZeros(k: nat, ds: string)
    requires AllDigits(ds)
    ensures AllDigits(Zeros(k) + ds)
    ensures DigitsValue(Zeros(k) + ds) == DigitsValue(ds)
  {
    DigitsValueAppend(Zeros(k), ds);
    ZerosValue(k);
  }
}
