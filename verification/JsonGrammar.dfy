/** The grammar of JSON text (RFC 8259) as trees with a spelling and a meaning, and the strings of
    it: the parser accepts exactly the spellings and returns exactly the meanings. */
module JsonGrammar {
  import opened Bytes
  import opened JsonText
  import opened JsonNumbers

  // ---- code points ------------------------------------------------------------------------------

  predicate Tail(b: Byte) { 0x80 <= b <= 0xBF }

  /** The payload of a byte, past the bits that mark what it is. */
  function Bits(b: Byte, mark: nat): nat
    requires mark <= b
  {
    b - mark
  }

  /** The code point a byte sequence stands for: lead bytes, tails and payload bits as in section 3
      of RFC 3629, shortest forms only. */
  function CodePoint(s: Text): Option<nat> {
    if |s| == 1 && s[0] <= 0x7F then Some(s[0])
    else if |s| == 2 && 0xC2 <= s[0] <= 0xDF && Tail(s[1]) then Some(Bits(s[0], 0xC0) * 0x40 + Bits(s[1], 0x80))
    else if |s| == 3 && 0xE0 <= s[0] <= 0xEF && Tail(s[1]) && Tail(s[2]) && (s[0] == 0xE0 ==> s[1] >= 0xA0) then
      Some(Bits(s[0], 0xE0) * 0x1000 + Bits(s[1], 0x80) * 0x40 + Bits(s[2], 0x80))
    else if && |s| == 4 && 0xF0 <= s[0] <= 0xF4 && Tail(s[1]) && Tail(s[2]) && Tail(s[3])
            && (s[0] == 0xF0 ==> s[1] >= 0x90) && (s[0] == 0xF4 ==> s[1] <= 0x8F) then
      Some(Bits(s[0], 0xF0) * 0x4_0000 + Bits(s[1], 0x80) * 0x1000 + Bits(s[2], 0x80) * 0x40 + Bits(s[3], 0x80))
    else None
  }

  /** What is written for a code point is what stands for it, and nothing else does. */
  lemma Utf8Exactly(s: Text, cp: nat)
    ensures CodePoint(s) == Some(cp) <==> cp < 0x11_0000 && s == Utf8(cp)
  {
    if CodePoint(s) == Some(cp) { DecodedIs(s, cp); }
    if cp < 0x11_0000 && s == Utf8(cp) { EncodedIs(cp); }
  }

  lemma EncodedIs(cp: nat)
    requires cp < 0x11_0000
    ensures CodePoint(Utf8(cp)) == Some(cp)
  {
    assert cp == cp / 0x40 * 0x40 + cp % 0x40;
    assert cp / 0x40 == cp / 0x40 / 0x40 * 0x40 + cp / 0x40 % 0x40;
    assert cp / 0x40 / 0x40 == cp / 0x1000;
    assert cp / 0x1000 == cp / 0x1000 / 0x40 * 0x40 + cp / 0x1000 % 0x40;
    assert cp / 0x1000 / 0x40 == cp / 0x4_0000;
  }

  lemma DecodedIs(s: Text, cp: nat)
    requires CodePoint(s) == Some(cp)
    ensures cp < 0x11_0000 && s == Utf8(cp)
  {
    if |s| == 2 {
      Shift(Bits(s[0], 0xC0), Bits(s[1], 0x80));
    } else if |s| == 3 {
      Shift(Bits(s[0], 0xE0) * 0x40 + Bits(s[1], 0x80), Bits(s[2], 0x80));
      Shift(Bits(s[0], 0xE0), Bits(s[1], 0x80));
    } else if |s| == 4 {
      Shift((Bits(s[0], 0xF0) * 0x40 + Bits(s[1], 0x80)) * 0x40 + Bits(s[2], 0x80), Bits(s[3], 0x80));
      Shift(Bits(s[0], 0xF0) * 0x40 + Bits(s[1], 0x80), Bits(s[2], 0x80));
      Shift(Bits(s[0], 0xF0), Bits(s[1], 0x80));
      assert cp / 0x1000 == cp / 0x40 / 0x40;
      assert cp / 0x4_0000 == cp / 0x1000 / 0x40;
    }
  }

  lemma Shift(hi: nat, lo: nat)
    requires lo < 0x40
    ensures (hi * 0x40 + lo) / 0x40 == hi && (hi * 0x40 + lo) % 0x40 == lo
  {}

  /** The two halves of a code point beyond the first 0x10000, as UTF-16 splits it (section 2.1 of
      RFC 2781). */
  function Halves(cp: nat): (nat, nat)
    requires 0x1_0000 <= cp < 0x11_0000
  {
    (0xD800 + (cp - 0x1_0000) / 0x400, 0xDC00 + (cp - 0x1_0000) % 0x400)
  }

  function Joined(hi: nat, lo: nat): (cp: nat)
    requires 0xD800 <= hi < 0xDC00 <= lo < 0xE000
    ensures 0x1_0000 <= cp < 0x11_0000 && Halves(cp) == (hi, lo)
  {
    0x1_0000 + (hi - 0xD800) * 0x400 + (lo - 0xDC00)
  }

  // ---- strings ----------------------------------------------------------------------------------

  const LOWER: string := "0123456789abcdef"
  const UPPER: string := "0123456789ABCDEF"

  function Hex(v: nat, cap: bool): Byte
    requires v < 16
  {
    if cap then UPPER[v] as int else LOWER[v] as int
  }

  const LETTERS: string := "\"\\/bfnrt"
  const MEANT: Text := [0x22, 0x5C, 0x2F, 0x08, 0x0C, 0x0A, 0x0D, 0x09]

  /** A piece of a string: a byte as it is, a backslash and a letter, or `\u` and four digits in
      either case. */
  datatype Piece = Raw(c: Byte) | Letter(k: nat) | Unit(n: nat, caps: seq<bool>) {
    predicate Ok() {
      match this
      case Raw(c) => c != '\"' as int && c != '\\' as int
      case Letter(k) => k < 8
      case Unit(n, caps) => n < 0x1_0000 && |caps| == 4
    }

    function Spelling(): Text
      requires Ok()
    {
      match this
      case Raw(c) => [c]
      case Letter(k) => ['\\' as int, LETTERS[k] as int]
      case Unit(n, caps) => ['\\' as int, 'u' as int] + Four(n, caps)
    }
  }

  function Four(n: nat, caps: seq<bool>): (r: Text)
    requires n < 0x1_0000 && |caps| == 4
    ensures |r| == 4
  {
    [Hex(n / 0x1000, caps[0]), Hex(n / 0x100 % 16, caps[1]), Hex(n / 0x10 % 16, caps[2]), Hex(n % 16, caps[3])]
  }

  predicate AllOk(ps: seq<Piece>) { forall k :: 0 <= k < |ps| ==> ps[k].Ok() }

  function Spelled(ps: seq<Piece>): Text
    requires AllOk(ps)
  {
    if ps == [] then [] else ps[0].Spelling() + Spelled(ps[1..])
  }

  predicate IsHigh(n: nat) { 0xD800 <= n < 0xDC00 }
  predicate IsLow(n: nat) { 0xDC00 <= n < 0xE000 }

  predicate PairedUp(ps: seq<Piece>) {
    |ps| >= 2 && ps[0].Unit? && IsHigh(ps[0].n) && ps[1].Unit? && IsLow(ps[1].n)
  }

  /** What the pieces say, as bytes: two halves of a pair are one code point, half a pair on its
      own is U+FFFD. */
  function Said(ps: seq<Piece>): Text
    requires AllOk(ps)
    decreases |ps|, 1
  {
    if ps == [] then []
    else if PairedUp(ps) then Utf8(Joined(ps[0].n, ps[1].n)) + Said(ps[2..])
    else
      (match ps[0]
       case Raw(c) => [c]
       case Letter(k) => [MEANT[k]]
       case Unit(n, _) => Utf8(if IsHigh(n) || IsLow(n) then 0xFFFD else n)) + Said(ps[1..])
  }

  // ---- digits -----------------------------------------------------------------------------------

  lemma HexReads(v: nat, cap: bool)
    requires v < 16
    ensures HexValue(Hex(v, cap)) == Some(v)
  {}

  lemma HexBack(c: Byte) returns (cap: bool)
    requires HexValue(c).Some?
    ensures HexValue(c).value < 16 && Hex(HexValue(c).value, cap) == c
  {
    cap := 65 <= c <= 70;
  }

  /** Four digits are read as the number they spell. */
  lemma FourReads(t: Text, i: nat, n: nat, caps: seq<bool>)
    requires n < 0x1_0000 && |caps| == 4 && Has(t, i, Four(n, caps))
    ensures Hex4(t, i) == Some(n)
  {
    hide HexValue, Hex;
    var x := t[i..i + 4];
    assert t[i] == x[0] && t[i + 1] == x[1] && t[i + 2] == x[2] && t[i + 3] == x[3];
    HexReads(n / 0x1000, caps[0]);
    HexReads(n / 0x100 % 16, caps[1]);
    HexReads(n / 0x10 % 16, caps[2]);
    HexReads(n % 16, caps[3]);
    assert HexTo(t, i, 0) == Some(0);
    assert HexTo(t, i, 1) == Some(n / 0x1000);
    assert HexTo(t, i, 2) == Some(n / 0x100);
    assert HexTo(t, i, 3) == Some(n / 0x10);
    assert HexTo(t, i, 4) == Some(n);
  }

  /** And whatever is read as four digits is spelled so. */
  lemma FourBack(t: Text, i: nat) returns (caps: seq<bool>)
    requires Hex4(t, i).Some?
    ensures |caps| == 4 && i + 4 <= |t| && Has(t, i, Four(Hex4(t, i).value, caps))
  {
    hide HexValue, Hex;
    var n := Hex4(t, i).value;
    assert HexTo(t, i, 0) == Some(0);
    assert HexTo(t, i, 4).Some? && HexTo(t, i, 3).Some? && HexTo(t, i, 2).Some? && HexTo(t, i, 1).Some?;
    var a, b, c, d := HexValue(t[i]).value, HexValue(t[i + 1]).value, HexValue(t[i + 2]).value, HexValue(t[i + 3]).value;
    var p := HexBack(t[i]);
    var q := HexBack(t[i + 1]);
    var r := HexBack(t[i + 2]);
    var s := HexBack(t[i + 3]);
    caps := [p, q, r, s];
    assert n == ((a * 16 + b) * 16 + c) * 16 + d;
    Nibbles(a, b, c, d);
    assert t[i..i + 4] == [t[i], t[i + 1], t[i + 2], t[i + 3]];
  }

  lemma Nibbles(a: nat, b: nat, c: nat, d: nat)
    requires a < 16 && b < 16 && c < 16 && d < 16
    ensures var n := ((a * 16 + b) * 16 + c) * 16 + d;
            n / 0x1000 == a && n / 0x100 % 16 == b && n / 0x10 % 16 == c && n % 16 == d
  {}

  // ---- a spelled string is read as what it says ------------------------------------------------------

  /** A backslash and a letter is read as what the letter stands for. */
  lemma LetterReads(t: Text, i: nat, k: nat)
    requires k < 8 && Has(t, i, Letter(k).Spelling())
    ensures i + 2 <= |t| && t[i] == BACKSLASH && t[i + 1] != LOWER_U && Escape(t, i + 1) == At([MEANT[k]], i + 2)
  {
    var x := t[i..i + 2];
    assert t[i] == x[0] && t[i + 1] == x[1];
  }

  lemma UnitStarts(t: Text, i: nat, n: nat, caps: seq<bool>)
    requires n < 0x1_0000 && |caps| == 4 && Has(t, i, Unit(n, caps).Spelling())
    ensures i + 6 <= |t| && t[i] == BACKSLASH && t[i + 1] == LOWER_U && Hex4(t, i + 2) == Some(n)
  {
    hide Hex4, Four;
    HasParts(t, i, ['\\' as int, 'u' as int], Four(n, caps));
    var x := t[i..i + 2];
    assert t[i] == x[0] && t[i + 1] == x[1];
    FourReads(t, i + 2, n, caps);
  }

  /** What follows a piece does not start a `\u` escape unless it is one. */
  lemma NoUnit(t: Text, i: nat, ps: seq<Piece>)
    requires AllOk(ps) && Has(t, i, Spelled(ps) + [QUOTE]) && (ps == [] || !ps[0].Unit?)
    ensures i < |t| && !(i + 1 < |t| && t[i] == BACKSLASH && t[i + 1] == LOWER_U)
  {
    hide Has;
    if ps == [] {
      assert Spelled(ps) + [QUOTE] == [QUOTE];
      FirstByte(t, i, [QUOTE]);
    } else {
      assert Spelled(ps) + [QUOTE] == ps[0].Spelling() + (Spelled(ps[1..]) + [QUOTE]);
      HasParts(t, i, ps[0].Spelling(), Spelled(ps[1..]) + [QUOTE]);
      FirstByte(t, i, ps[0].Spelling());
      if ps[0].Letter? { LetterReads(t, i, ps[0].k); }
    }
  }

  lemma SpelledStep(t: Text, i: nat, ps: seq<Piece>)
    requires ps != [] && AllOk(ps) && Has(t, i, Spelled(ps) + [QUOTE])
    ensures Has(t, i, ps[0].Spelling()) && Has(t, i + |ps[0].Spelling()|, Spelled(ps[1..]) + [QUOTE])
    ensures |Spelled(ps)| == |ps[0].Spelling()| + |Spelled(ps[1..])|
  {
    hide Has;
    assert Spelled(ps) + [QUOTE] == ps[0].Spelling() + (Spelled(ps[1..]) + [QUOTE]);
    HasParts(t, i, ps[0].Spelling(), Spelled(ps[1..]) + [QUOTE]);
  }

  lemma EscapeStep(t: Text, i: nat, x: Text, j: nat)
    requires i < |t| && t[i] == BACKSLASH && Escape(t, i + 1) == At(x, j)
    ensures StringRest(t, i) == Prepend(x, StringRest(t, j))
  {
    hide Escape;
  }

  lemma {:induction false} SpelledReads(t: Text, i: nat, ps: seq<Piece>)
    requires AllOk(ps) && Has(t, i, Spelled(ps) + [QUOTE])
    ensures StringRest(t, i) == At(Said(ps), i + |Spelled(ps)| + 1)
    decreases |ps|, 1
  {
    hide Has, StringRest, Escape, Utf8, Four;
    if ps == [] {
      assert Spelled(ps) + [QUOTE] == [QUOTE];
      ClosingQuote(t, i);
    } else {
      SpelledStep(t, i, ps);
      var rest := ps[1..];
      match ps[0] {
        case Raw(c) =>
          FirstByte(t, i, ps[0].Spelling());
          SpelledReads(t, i + 1, rest);
          RawStep(t, i);
        case Letter(k) =>
          LetterReads(t, i, k);
          SpelledReads(t, i + 2, rest);
          EscapeStep(t, i, [MEANT[k]], i + 2);
        case Unit(n, caps) =>
          UnitStarts(t, i, n, caps);
          if PairedUp(ps) {
            PairReads(t, i, ps);
          } else {
            SpelledReads(t, i + 6, rest);
            LoneReads(t, i, ps);
            EscapeStep(t, i, Utf8(if IsHigh(n) || IsLow(n) then 0xFFFD else n), i + 6);
          }
      }
    }
  }

  lemma RawStep(t: Text, i: nat)
    requires i < |t| && t[i] != QUOTE && t[i] != BACKSLASH
    ensures StringRest(t, i) == Prepend([t[i]], StringRest(t, i + 1))
  {}

  /** Half a pair on its own, or a whole code point. */
  lemma LoneReads(t: Text, i: nat, ps: seq<Piece>)
    requires ps != [] && AllOk(ps) && ps[0].Unit? && !PairedUp(ps) && Has(t, i, Spelled(ps) + [QUOTE])
    ensures i + 6 <= |t| && t[i] == BACKSLASH
    ensures Escape(t, i + 1) == At(Utf8(if IsHigh(ps[0].n) || IsLow(ps[0].n) then 0xFFFD else ps[0].n), i + 6)
  {
    hide Has, Hex4, Utf8, Four, Spelled;
    var n, rest := ps[0].n, ps[1..];
    SpelledStep(t, i, ps);
    UnitStarts(t, i, n, ps[0].caps);
    if IsHigh(n) {
      if rest != [] && rest[0].Unit? {
        SpelledStep(t, i + 6, rest);
        UnitStarts(t, i + 6, rest[0].n, rest[0].caps);
      } else {
        NoUnit(t, i + 6, rest);
      }
    }
    assert Simple(LOWER_U).None?;
  }

  lemma {:induction false} PairReads(t: Text, i: nat, ps: seq<Piece>)
    requires AllOk(ps) && PairedUp(ps) && Has(t, i, Spelled(ps) + [QUOTE])
    ensures StringRest(t, i) == At(Said(ps), i + |Spelled(ps)| + 1)
    decreases |ps|, 0
  {
    hide Has, StringRest, Utf8, Four, Hex4, Spelled;
    var hi, lo, rest := ps[0].n, ps[1].n, ps[2..];
    SpelledStep(t, i, ps);
    UnitStarts(t, i, hi, ps[0].caps);
    SpelledStep(t, i + 6, ps[1..]);
    UnitStarts(t, i + 6, lo, ps[1].caps);
    assert ps[1..][1..] == rest;
    SpelledReads(t, i + 12, rest);
    assert Simple(LOWER_U).None?;
    assert Escape(t, i + 1) == At(Utf8(Joined(hi, lo)), i + 12);
    EscapeStep(t, i, Utf8(Joined(hi, lo)), i + 12);
  }

  // ---- whatever is read as a string is spelled ---------------------------------------------------------

  lemma Joins(t: Text, i: nat, x: Text, y: Text)
    requires Has(t, i, x) && Has(t, i + |x|, y)
    ensures Has(t, i, x + y)
  {
    assert t[i..i + |x + y|] == t[i..i + |x|] + t[i + |x|..i + |x| + |y|];
  }

  lemma SpelledMore(t: Text, i: nat, p: Piece, ps: seq<Piece>)
    requires p.Ok() && AllOk(ps) && Has(t, i, p.Spelling()) && Has(t, i + |p.Spelling()|, Spelled(ps) + [QUOTE])
    ensures AllOk([p] + ps) && Has(t, i, Spelled([p] + ps) + [QUOTE])
  {
    hide Has, Piece.Spelling;
    Joins(t, i, p.Spelling(), Spelled(ps) + [QUOTE]);
    assert ([p] + ps)[1..] == ps;
    assert Spelled([p] + ps) + [QUOTE] == p.Spelling() + (Spelled(ps) + [QUOTE]);
  }

  lemma SimpleBack(e: Byte) returns (k: nat)
    requires Simple(e).Some?
    ensures k < 8 && LETTERS[k] as int == e
  {
    k := if e == 34 then 0 else if e == 92 then 1 else if e == 47 then 2 else if e == 98 then 3
         else if e == 102 then 4 else if e == 110 then 5 else if e == 114 then 6 else 7;
  }

  lemma UnitBack(t: Text, i: nat) returns (p: Piece)
    requires i + 2 <= |t| && t[i] == BACKSLASH && t[i + 1] == LOWER_U && Hex4(t, i + 2).Some?
    ensures p.Unit? && p.Ok() && Has(t, i, p.Spelling()) && p.n == Hex4(t, i + 2).value
  {
    hide Hex4, Four;
    var caps := FourBack(t, i + 2);
    p := Unit(Hex4(t, i + 2).value, caps);
    assert t[i..i + 2] == ['\\' as int, 'u' as int];
    Joins(t, i, ['\\' as int, 'u' as int], Four(p.n, caps));
  }

  lemma {:induction false} StringBack(t: Text, i: nat) returns (ps: seq<Piece>)
    requires i <= |t| && StringRest(t, i).At?
    ensures AllOk(ps) && Has(t, i, Spelled(ps) + [QUOTE])
    decreases |t| - i
  {
    hide Has, Utf8, Hex4, Spelled, Piece.Spelling;
    if t[i] == QUOTE {
      ps := [];
      NothingSpelled(t, i);
    } else if t[i] != BACKSLASH {
      var rest := StringBack(t, i + 1);
      RawSpelled(t, i);
      SpelledMore(t, i, Raw(t[i]), rest);
      ps := [Raw(t[i])] + rest;
    } else {
      var e := Escape(t, i + 1);
      var rest := StringBack(t, e.i);
      if Simple(t[i + 1]).Some? {
        var k := SimpleBack(t[i + 1]);
        LetterSpelled(t, i, k);
        SpelledMore(t, i, Letter(k), rest);
        ps := [Letter(k)] + rest;
      } else {
        var p := UnitBack(t, i);
        SixBytes(p);
        if e.i == i + 6 {
          SpelledMore(t, i, p, rest);
          ps := [p] + rest;
        } else {
          var q := UnitBack(t, i + 6);
          SixBytes(q);
          SpelledMore(t, i + 6, q, rest);
          SpelledMore(t, i, p, [q] + rest);
          ps := [p] + ([q] + rest);
        }
      }
    }
  }

  lemma SixBytes(p: Piece)
    requires p.Unit? && p.Ok()
    ensures |p.Spelling()| == 6
  {}

  lemma NothingSpelled(t: Text, i: nat)
    requires i < |t| && t[i] == QUOTE
    ensures Has(t, i, Spelled([]) + [QUOTE])
  {
    assert Spelled([]) + [QUOTE] == [QUOTE];
    assert t[i..i + 1] == [QUOTE];
  }

  lemma RawSpelled(t: Text, i: nat)
    requires i < |t| && t[i] != QUOTE && t[i] != BACKSLASH
    ensures Raw(t[i]).Ok() && Has(t, i, Raw(t[i]).Spelling()) && |Raw(t[i]).Spelling()| == 1
  {}

  lemma LetterSpelled(t: Text, i: nat, k: nat)
    requires k < 8 && i + 2 <= |t| && t[i] == BACKSLASH && t[i + 1] == LETTERS[k] as int
    ensures Letter(k).Ok() && Has(t, i, Letter(k).Spelling()) && |Letter(k).Spelling()| == 2
  {
    assert t[i..i + 2] == [t[i], t[i + 1]];
  }

  /** Strings exactly: from after its opening quote a string is read, as `x` up to `j`, if and only
      if pieces spell it there, with the closing quote last, and say `x`. */
  lemma StringExactly(t: Text, i: nat, x: Text, j: nat)
    requires i <= |t|
    ensures StringRest(t, i) == At(x, j)
            <==> exists ps :: AllOk(ps) && Has(t, i, Spelled(ps) + [QUOTE]) && x == Said(ps) && j == i + |Spelled(ps)| + 1
  {
    hide StringRest, Has, Spelled, Said;
    if StringRest(t, i) == At(x, j) {
      var ps := StringBack(t, i);
      SpelledReads(t, i, ps);
    }
    if ps :| AllOk(ps) && Has(t, i, Spelled(ps) + [QUOTE]) && x == Said(ps) && j == i + |Spelled(ps)| + 1 {
      SpelledReads(t, i, ps);
    }
  }
}
