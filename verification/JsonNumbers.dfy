/** JSON number text: the scanner, and the grammar it accepts. */
module JsonNumbers {
  import opened Bytes
  import opened JsonText

  const DOT: Byte := 46
  const MINUS: Byte := 45
  const PLUS: Byte := 43
  const ZERO: Byte := 48

  predicate IsDigit(c: Byte) { 48 <= c <= 57 }
  predicate IsExp(c: Byte) { c == 101 || c == 69 }

  // ---- the grammar ----------------------------------------------------------------------------

  predicate Digits(s: Text) { s != [] && forall k :: 0 <= k < |s| ==> IsDigit(s[k]) }

  /** number = [ minus ] int [ frac ] [ exp ] */
  datatype Number = Number(neg: bool, whole: Text, frac: Option<Text>, exp: Option<Exponent>) {
    predicate Ok() {
      && Digits(whole) && (whole[0] == ZERO ==> |whole| == 1)
      && (frac.Some? ==> Digits(frac.value)) && (exp.Some? ==> exp.value.Ok())
    }

    function Text(): Text {
      (if neg then [MINUS] else []) + (whole + (FracText() + ExpText()))
    }

    function FracText(): Text { if frac.Some? then [DOT] + frac.value else [] }
    function ExpText(): Text { if exp.Some? then exp.value.Text() else [] }
  }

  datatype Exponent = Exponent(mark: Byte, sign: Option<Byte>, digits: Text) {
    predicate Ok() {
      IsExp(mark) && (sign.Some? ==> sign.value == PLUS || sign.value == MINUS) && Digits(digits)
    }

    function Text(): Text { [mark] + ((if sign.Some? then [sign.value] else []) + digits) }
  }

  ghost predicate Grammatical(s: Text) { exists n: Number :: n.Ok() && n.Text() == s }

  // ---- the scanner -----------------------------------------------------------------------------

  function SkipDigits(t: Text, i: nat): (j: nat)
    requires i <= |t|
    ensures i <= j <= |t| && (j < |t| ==> !IsDigit(t[j])) && forall k :: i <= k < j ==> IsDigit(t[k])
    decreases |t| - i
  {
    if i < |t| && IsDigit(t[i]) then SkipDigits(t, i + 1) else i
  }

  /** Digits, at least one; their end. */
  function ScanDigits(t: Text, i: nat): (r: Option<nat>)
    requires i <= |t|
    ensures r.Some? ==> i < r.value <= |t| && Digits(t[i..r.value])
  {
    var j := SkipDigits(t, i);
    if j == i then None else Some(j)
  }

  function ScanFrac(t: Text, i: nat): (r: Option<nat>)
    requires i <= |t|
    ensures r.Some? ==> i <= r.value <= |t|
  {
    if i < |t| && t[i] == DOT then ScanDigits(t, i + 1) else Some(i)
  }

  function ScanExp(t: Text, i: nat): (r: Option<nat>)
    requires i <= |t|
    ensures r.Some? ==> i <= r.value <= |t|
  {
    if i < |t| && IsExp(t[i]) then
      if i + 1 < |t| && (t[i + 1] == PLUS || t[i + 1] == MINUS) then ScanDigits(t, i + 2) else ScanDigits(t, i + 1)
    else Some(i)
  }

  /** The number at `i`; its end. */
  function ScanNumber(t: Text, i: nat): (r: Option<nat>)
    requires i < |t|
    ensures r.Some? ==> i < r.value <= |t|
  {
    var a := if t[i] == MINUS then i + 1 else i;
    var b := ScanDigits(t, a);
    if b.None? || (t[a] == ZERO && b.value - a > 1) then None
    else
      var c := ScanFrac(t, b.value);
      if c.None? then None else ScanExp(t, c.value)
  }

  /** Nothing at `i` could continue a number. */
  predicate Ends(t: Text, i: nat) {
    i < |t| ==> !IsDigit(t[i]) && t[i] != DOT && !IsExp(t[i])
  }

  // ---- grammatical text is scanned whole -----------------------------------------------------------

  lemma {:induction false} DigitsSkipped(t: Text, i: nat, j: nat)
    requires i <= j <= |t| && (forall k :: i <= k < j ==> IsDigit(t[k])) && (j < |t| ==> !IsDigit(t[j]))
    ensures SkipDigits(t, i) == j
    decreases j - i
  {
    if i < j { DigitsSkipped(t, i + 1, j); }
  }

  lemma DigitsScanned(t: Text, i: nat, s: Text)
    requires Has(t, i, s) && Digits(s) && (i + |s| < |t| ==> !IsDigit(t[i + |s|]))
    ensures ScanDigits(t, i) == Some(i + |s|) && t[i] == s[0]
  {
    forall k | i <= k < i + |s| ensures t[k] == s[k - i] { assert t[k] == t[i..i + |s|][k - i]; }
    DigitsSkipped(t, i, i + |s|);
  }

  lemma FirstByte(t: Text, i: nat, s: Text)
    requires Has(t, i, s) && s != []
    ensures i < |t| && t[i] == s[0]
  {
    assert t[i] == t[i..i + |s|][0];
  }

  lemma ExpScanned(t: Text, i: nat, n: Number)
    requires n.Ok() && Has(t, i, n.ExpText()) && Ends(t, i + |n.ExpText()|)
    ensures ScanExp(t, i) == Some(i + |n.ExpText()|)
    ensures i < |t| ==> !IsDigit(t[i]) && t[i] != DOT
  {
    hide Has, ScanDigits;
    if n.exp.Some? {
      var x := n.exp.value;
      var sign := if x.sign.Some? then [x.sign.value] else [];
      FirstByte(t, i, x.Text());
      HasParts(t, i, [x.mark], sign + x.digits);
      HasParts(t, i + 1, sign, x.digits);
      FirstByte(t, i + 1 + |sign|, x.digits);
      if x.sign.Some? { FirstByte(t, i + 1, sign); }
      DigitsScanned(t, i + 1 + |sign|, x.digits);
    }
  }

  lemma FracScanned(t: Text, i: nat, n: Number)
    requires n.Ok() && Has(t, i, n.FracText()) && (i + |n.FracText()| < |t| ==> !IsDigit(t[i + |n.FracText()|]))
    requires n.frac.None? && i < |t| ==> t[i] != DOT
    ensures ScanFrac(t, i) == Some(i + |n.FracText()|)
    ensures i < |t| ==> !IsDigit(t[i])
  {
    hide Has, ScanDigits;
    if n.frac.Some? {
      FirstByte(t, i, n.FracText());
      HasParts(t, i, [DOT], n.frac.value);
      DigitsScanned(t, i + 1, n.frac.value);
    }
  }

  /** Where the parts of a number lie. */
  lemma NumberParts(t: Text, i: nat, n: Number, a: nat, b: nat, c: nat)
    requires Has(t, i, n.Text()) && a == i + (if n.neg then 1 else 0) && b == a + |n.whole| && c == b + |n.FracText()|
    ensures Has(t, a, n.whole) && Has(t, b, n.FracText()) && Has(t, c, n.ExpText()) && i + |n.Text()| == c + |n.ExpText()|
    ensures n.neg ==> i < |t| && t[i] == MINUS
  {
    hide Has, Number.ExpText, Number.FracText;
    var sign := if n.neg then [MINUS] else [];
    HasParts(t, i, sign, n.whole + (n.FracText() + n.ExpText()));
    HasParts(t, a, n.whole, n.FracText() + n.ExpText());
    HasParts(t, b, n.FracText(), n.ExpText());
    if n.neg { FirstByte(t, i, sign); }
  }

  /** Grammatical text that nothing continues is scanned exactly. */
  lemma NumberScanned(t: Text, i: nat, n: Number)
    requires n.Ok() && Has(t, i, n.Text()) && Ends(t, i + |n.Text()|)
    ensures i < |t| && (t[i] == MINUS || IsDigit(t[i])) && ScanNumber(t, i) == Some(i + |n.Text()|)
  {
    hide Has, ScanDigits, ScanFrac, ScanExp, Number.ExpText, Number.FracText, Number.Text, Exponent.Ok;
    var a := i + if n.neg then 1 else 0;
    var b := a + |n.whole|;
    var c := b + |n.FracText()|;
    NumberParts(t, i, n, a, b, c);
    ExpScanned(t, c, n);
    NoFrac(n);
    FracScanned(t, b, n);
    DigitsScanned(t, a, n.whole);
    FirstByte(t, a, n.whole);
  }

  lemma NoFrac(n: Number)
    ensures n.frac.None? ==> n.FracText() == []
  {}

  // ---- what is scanned is grammatical ---------------------------------------------------------------

  lemma ScannedFrac(t: Text, i: nat) returns (frac: Option<Text>)
    requires i <= |t| && ScanFrac(t, i).Some?
    ensures frac.Some? ==> Digits(frac.value)
    ensures t[i..ScanFrac(t, i).value] == if frac.Some? then [DOT] + frac.value else []
  {
    var e := ScanFrac(t, i).value;
    if i < |t| && t[i] == DOT {
      frac := Some(t[i + 1..e]);
      assert t[i..e] == [DOT] + t[i + 1..e];
    } else {
      frac := None;
    }
  }

  lemma ScannedExp(t: Text, i: nat) returns (exp: Option<Exponent>)
    requires i <= |t| && ScanExp(t, i).Some?
    ensures exp.Some? ==> exp.value.Ok()
    ensures t[i..ScanExp(t, i).value] == if exp.Some? then exp.value.Text() else []
  {
    var e := ScanExp(t, i).value;
    if i < |t| && IsExp(t[i]) {
      if i + 1 < |t| && (t[i + 1] == PLUS || t[i + 1] == MINUS) {
        exp := Some(Exponent(t[i], Some(t[i + 1]), t[i + 2..e]));
        assert t[i..e] == [t[i]] + ([t[i + 1]] + t[i + 2..e]);
      } else {
        exp := Some(Exponent(t[i], None, t[i + 1..e]));
        assert t[i..e] == [t[i]] + ([] + t[i + 1..e]);
      }
    } else {
      exp := None;
    }
  }

  lemma FourParts(t: Text, i: nat, a: nat, b: nat, c: nat, e: nat)
    requires i <= a <= b <= c <= e <= |t|
    ensures t[i..e] == t[i..a] + (t[a..b] + (t[b..c] + t[c..e]))
  {
    assert t[b..e] == t[b..c] + t[c..e];
    assert t[a..e] == t[a..b] + t[b..e];
  }

  /** Whatever the scanner accepts is a number of the grammar. */
  lemma ScannedIsGrammatical(t: Text, i: nat)
    requires i < |t| && ScanNumber(t, i).Some?
    ensures Grammatical(t[i..ScanNumber(t, i).value])
  {
    hide ScanDigits, ScanFrac, ScanExp, Exponent.Text, Exponent.Ok;
    var a := if t[i] == MINUS then i + 1 else i;
    var b := ScanDigits(t, a).value;
    var c := ScanFrac(t, b).value;
    var e := ScanExp(t, c).value;
    var frac := ScannedFrac(t, b);
    var exp := ScannedExp(t, c);
    var n := Number(t[i] == MINUS, t[a..b], frac, exp);
    assert t[a..b][0] == t[a];
    FourParts(t, i, a, b, c, e);
    assert n.Ok() && n.Text() == t[i..e];
  }
}
