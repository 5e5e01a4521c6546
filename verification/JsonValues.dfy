/** JSON values: the parser and the printer as functions, and how they undo each other. */
module JsonValues {
  import opened Bytes
  import opened JsonText
  import opened JsonNumbers

  const MAX_DEPTH: nat := 64
  const COMMA: Byte := 44
  const COLON: Byte := 58
  const OPEN_ARRAY: Byte := 91
  const CLOSE_ARRAY: Byte := 93
  const OPEN_OBJECT: Byte := 123
  const CLOSE_OBJECT: Byte := 125
  const LF: Byte := 10
  const SPACE: Byte := 32

  function TrueText(): Text { [116, 114, 117, 101] }
  function FalseText(): Text { [102, 97, 108, 115, 101] }
  function NullText(): Text { [110, 117, 108, 108] }

  /** A number is kept as its text; members keep their order and may repeat a key. */
  datatype Json = Null | Bool(b: bool) | Num(text: Text) | Str(s: Text) | Array(items: seq<Json>) | Object(members: seq<Member>)
  datatype Member = Member(key: Text, value: Json)

  /** Every number in it has grammatical text. */
  ghost predicate Printable(j: Json) {
    match j
    case Num(text) => Grammatical(text)
    case Array(items) => forall k :: 0 <= k < |items| ==> Printable(items[k])
    case Object(members) => forall k :: 0 <= k < |members| ==> Printable(members[k].value)
    case _ => true
  }

  /** It nests no deeper than `room` arrays and objects. */
  predicate Fits(j: Json, room: int) {
    match j
    case Array(items) => room > 0 && forall k :: 0 <= k < |items| ==> Fits(items[k], room - 1)
    case Object(members) => room > 0 && forall k :: 0 <= k < |members| ==> Fits(members[k].value, room - 1)
    case _ => true
  }

  // ---- the parser ------------------------------------------------------------------------------

  /** A value at `i`, inside `d` arrays and objects. */
  function Value(t: Text, i: nat, d: nat): (r: Parse<Json>)
    requires i <= |t|
    ensures r.At? ==> i < r.i <= |t|
    decreases |t| - i, 1
  {
    var i := SkipWs(t, i);
    if i >= |t| then Bad
    else if t[i] == OPEN_OBJECT then
      if d >= MAX_DEPTH then Bad
      else
        var k := SkipWs(t, i + 1);
        if k < |t| && t[k] == CLOSE_OBJECT then At(Object([]), k + 1)
        else
          var m := Members(t, i + 1, d + 1);
          if m.Bad? then Bad else At(Object(m.value), m.i)
    else if t[i] == OPEN_ARRAY then
      if d >= MAX_DEPTH then Bad
      else
        var k := SkipWs(t, i + 1);
        if k < |t| && t[k] == CLOSE_ARRAY then At(Array([]), k + 1)
        else
          var m := Items(t, i + 1, d + 1);
          if m.Bad? then Bad else At(Array(m.value), m.i)
    else Scalar(t, i)
  }

  function Scalar(t: Text, i: nat): (r: Parse<Json>)
    requires i < |t|
    ensures r.At? ==> i < r.i <= |t|
  {
    if t[i] == QUOTE then
      var s := StringRest(t, i + 1);
      if s.Bad? then Bad else At(Str(s.value), s.i)
    else if Has(t, i, TrueText()) then At(Bool(true), i + 4)
    else if Has(t, i, FalseText()) then At(Bool(false), i + 5)
    else if Has(t, i, NullText()) then At(Null, i + 4)
    else if t[i] == MINUS || IsDigit(t[i]) then
      var e := ScanNumber(t, i);
      if e.None? then Bad else At(Num(t[i..e.value]), e.value)
    else Bad
  }

  /** The items of an array from `i` on, to its closing bracket. */
  function Items(t: Text, i: nat, d: nat): (r: Parse<seq<Json>>)
    requires i <= |t|
    ensures r.At? ==> i < r.i <= |t|
    decreases |t| - i, 2
  {
    var v := Value(t, i, d);
    if v.Bad? then Bad
    else
      var k := SkipWs(t, v.i);
      if k < |t| && t[k] == COMMA then Prepend([v.value], Items(t, k + 1, d))
      else if k < |t| && t[k] == CLOSE_ARRAY then At([v.value], k + 1)
      else Bad
  }

  /** One `key : value` of an object. */
  function MemberAt(t: Text, i: nat, d: nat): (r: Parse<Member>)
    requires i <= |t|
    ensures r.At? ==> i < r.i <= |t|
    decreases |t| - i, 2
  {
    var i := SkipWs(t, i);
    if i >= |t| || t[i] != QUOTE then Bad
    else
      var key := StringRest(t, i + 1);
      if key.Bad? then Bad
      else
        var k := SkipWs(t, key.i);
        if k >= |t| || t[k] != COLON then Bad
        else
          var v := Value(t, k + 1, d);
          if v.Bad? then Bad else At(Member(key.value, v.value), v.i)
  }

  function Members(t: Text, i: nat, d: nat): (r: Parse<seq<Member>>)
    requires i <= |t|
    ensures r.At? ==> i < r.i <= |t|
    decreases |t| - i, 3
  {
    var m := MemberAt(t, i, d);
    if m.Bad? then Bad
    else
      var k := SkipWs(t, m.i);
      if k < |t| && t[k] == COMMA then Prepend([m.value], Members(t, k + 1, d))
      else if k < |t| && t[k] == CLOSE_OBJECT then At([m.value], k + 1)
      else Bad
  }

  /** Json::parse: one value and nothing after it but whitespace. */
  function ParseText(t: Text): Option<Json> {
    var v := Value(t, 0, 0);
    if v.At? && SkipWs(t, v.i) == |t| then Some(v.value) else None
  }

  // ---- the printer ---------------------------------------------------------------------------------

  function Spaces(n: nat): Text { seq(n, _ => SPACE) }

  /** A line break and indentation, when printing pretty. */
  function Break(indent: int, level: nat): Text {
    if indent < 0 then [] else [LF] + Spaces(indent * level)
  }

  predicate IsScalar(j: Json) { !j.Array? && !j.Object? }
  predicate Scalars(items: seq<Json>) { forall k :: 0 <= k < |items| ==> IsScalar(items[k]) }

  /** Arrays of scalars stay on one line. */
  function ItemBreak(indent: int, level: nat, flat: bool): Text { if flat then [] else Break(indent, level) }

  function Dump(j: Json, indent: int, level: nat): Text {
    match j
    case Null => NullText()
    case Bool(b) => if b then TrueText() else FalseText()
    case Num(text) => text
    case Str(s) => Quoted(s)
    case Array(items) => [OPEN_ARRAY] + (if items == [] then [CLOSE_ARRAY] else DumpItems(items, indent, level, Scalars(items)))
    case Object(members) => [OPEN_OBJECT] + (if members == [] then [CLOSE_OBJECT] else DumpMembers(members, indent, level))
  }

  /** The items from here on, and the closing bracket. */
  function DumpItems(items: seq<Json>, indent: int, level: nat, flat: bool): Text
    requires items != []
  {
    ItemBreak(indent, level + 1, flat) + (Dump(items[0], indent, level + 1)
      + if |items| == 1 then ItemBreak(indent, level, flat) + [CLOSE_ARRAY]
        else [COMMA] + DumpItems(items[1..], indent, level, flat))
  }

  function KeyText(key: Text, indent: int): Text {
    Quoted(key) + if indent < 0 then [COLON] else [COLON, SPACE]
  }

  function DumpMembers(members: seq<Member>, indent: int, level: nat): Text
    requires members != []
  {
    Break(indent, level + 1) + (KeyText(members[0].key, indent) + (Dump(members[0].value, indent, level + 1)
      + if |members| == 1 then Break(indent, level) + [CLOSE_OBJECT]
        else [COMMA] + DumpMembers(members[1..], indent, level)))
  }
}
