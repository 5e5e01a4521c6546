/** The lexical level of JSON text: whitespace, strings and numbers, over bytes. */
module JsonText {
  import opened Bytes

  type Text = seq<Byte>

  const QUOTE: Byte := 34
  const BACKSLASH: Byte := 92
  const LOWER_U: Byte := 117

  /** A parse: no luck, or a value and the offset after it. */
  datatype Parse<+T> = Bad | At(value: T, i: nat)

  // ---- whitespace ---------------------------------------------------------------------------

  predicate IsWs(c: Byte) { c == 32 || c == 9 || c == 10 || c == 13 }

  function SkipWs(t: Text, i: nat): (j: nat)
    requires i <= |t|
    ensures i <= j <= |t| && (j < |t| ==> !IsWs(t[j]))
    decreases |t| - i
  {
    if i < |t| && IsWs(t[i]) then SkipWs(t, i + 1) else i
  }

  /** Whitespace in front of something is skipped whole. */
  lemma {:induction false} WsSkipped(t: Text, i: nat, j: nat)
    requires i <= j <= |t| && forall k :: i <= k < j ==> IsWs(t[k])
    ensures SkipWs(t, i) == SkipWs(t, j)
    decreases j - i
  {
    if i < j { WsSkipped(t, i + 1, j); }
  }

  // ---- strings ------------------------------------------------------------------------------

  function HexValue(c: Byte): Option<nat> {
    if 48 <= c <= 57 then Some(c - 48)
    else if 97 <= c <= 102 then Some(c - 97 + 10)
    else if 65 <= c <= 70 then Some(c - 65 + 10)
    else None
  }

  function Pow16(k: nat): nat { if k == 0 then 1 else 16 * Pow16(k - 1) }

  /** The first `k` hex digits at `i`. */
  function HexTo(t: Text, i: nat, k: nat): (r: Option<nat>)
    requires i + k <= |t|
    ensures r.Some? ==> r.value < Pow16(k)
  {
    if k == 0 then Some(0)
    else
      var front, h := HexTo(t, i, k - 1), HexValue(t[i + k - 1]);
      if front.None? || h.None? then None else Some(front.value * 16 + h.value)
  }

  function Hex4(t: Text, i: nat): (r: Option<nat>)
    ensures r.Some? ==> i + 4 <= |t| && r.value < 0x1_0000
  {
    assert Pow16(4) == 0x1_0000;
    if i + 4 > |t| then None else HexTo(t, i, 4)
  }

  function Utf8(cp: nat): (s: Text)
    requires cp < 0x11_0000
  {
    if cp < 0x80 then [cp]
    else if cp < 0x800 then [0xC0 + cp / 0x40, 0x80 + cp % 0x40]
    else if cp < 0x1_0000 then [0xE0 + cp / 0x1000, 0x80 + cp / 0x40 % 0x40, 0x80 + cp % 0x40]
    else [0xF0 + cp / 0x4_0000, 0x80 + cp / 0x1000 % 0x40, 0x80 + cp / 0x40 % 0x40, 0x80 + cp % 0x40]
  }

  predicate HighSurrogate(cp: nat) { 0xD800 <= cp <= 0xDBFF }
  predicate LowSurrogate(cp: nat) { 0xDC00 <= cp <= 0xDFFF }

  const REPLACEMENT: nat := 0xFFFD

  /** After `\u`: four hex digits, and the second half of a surrogate pair if there is one.
      A broken pair becomes U+FFFD and what follows it is read on its own. */
  function Unicode(t: Text, i: nat): (r: Parse<Text>)
    ensures r.At? ==> i < r.i <= |t|
  {
    var cp := Hex4(t, i);
    if cp.None? then Bad
    else if HighSurrogate(cp.value) then
      if i + 10 <= |t| && t[i + 4] == BACKSLASH && t[i + 5] == LOWER_U then
        var lo := Hex4(t, i + 6);
        if lo.None? then Bad
        else if LowSurrogate(lo.value)
        then At(Utf8(0x1_0000 + (cp.value - 0xD800) * 0x400 + (lo.value - 0xDC00)), i + 10)
        else At(Utf8(REPLACEMENT), i + 4)
      else At(Utf8(REPLACEMENT), i + 4)
    else if LowSurrogate(cp.value) then At(Utf8(REPLACEMENT), i + 4)
    else At(Utf8(cp.value), i + 4)
  }

  /** What a one-letter escape stands for. */
  function Simple(e: Byte): Option<Byte> {
    if e == QUOTE then Some(QUOTE) else if e == BACKSLASH then Some(BACKSLASH) else if e == 47 then Some(47)
    else if e == 98 then Some(8) else if e == 102 then Some(12) else if e == 110 then Some(10)
    else if e == 114 then Some(13) else if e == 116 then Some(9) else None
  }

  /** After a backslash. */
  function Escape(t: Text, i: nat): (r: Parse<Text>)
    ensures r.At? ==> i < r.i <= |t|
  {
    if i >= |t| then Bad
    else if Simple(t[i]).Some? then At([Simple(t[i]).value], i + 1)
    else if t[i] == LOWER_U then Unicode(t, i + 1)
    else Bad
  }

  function Prepend<T>(front: seq<T>, r: Parse<seq<T>>): Parse<seq<T>> {
    if r.Bad? then Bad else At(front + r.value, r.i)
  }

  lemma PrependNothing<T>(r: Parse<seq<T>>)
    ensures Prepend([], r) == r
  {
    if r.At? { assert [] + r.value == r.value; }
  }

  lemma PrependTwice<T>(a: seq<T>, b: seq<T>, r: Parse<seq<T>>)
    ensures Prepend(a, Prepend(b, r)) == Prepend(a + b, r)
  {
    if r.At? { assert a + (b + r.value) == a + b + r.value; }
  }

  /** The rest of a string, after its opening quote. */
  function StringRest(t: Text, i: nat): (r: Parse<Text>)
    requires i <= |t|
    ensures r.At? ==> i < r.i <= |t|
    decreases |t| - i
  {
    if i >= |t| then Bad
    else if t[i] == QUOTE then At([], i + 1)
    else if t[i] != BACKSLASH then Prepend([t[i]], StringRest(t, i + 1))
    else
      var e := Escape(t, i + 1);
      if e.Bad? then Bad else Prepend(e.value, StringRest(t, e.i))
  }

  function HexDigit(v: nat): Byte
    requires v < 16
  {
    if v < 10 then 48 + v else 97 + v - 10
  }

  function EscapeByte(c: Byte): Text {
    if c == QUOTE then [BACKSLASH, QUOTE]
    else if c == BACKSLASH then [BACKSLASH, BACKSLASH]
    else if c == 10 then [BACKSLASH, 110]
    else if c == 13 then [BACKSLASH, 114]
    else if c == 9 then [BACKSLASH, 116]
    else if c == 8 then [BACKSLASH, 98]
    else if c == 12 then [BACKSLASH, 102]
    else if c < 0x20 then [BACKSLASH, LOWER_U, 48, 48, HexDigit(c / 16), HexDigit(c % 16)]
    else [c]
  }

  function Escaped(s: Text): Text {
    if s == [] then [] else EscapeByte(s[0]) + Escaped(s[1..])
  }

  function Quoted(s: Text): Text { [QUOTE] + Escaped(s) + [QUOTE] }

  lemma ClosingQuote(t: Text, i: nat)
    requires Has(t, i, [QUOTE])
    ensures StringRest(t, i) == At([], i + 1)
  {
    assert t[i] == t[i..i + 1][0];
  }
}
