/** Parsing what was printed gives the value back, at any indentation: what is printed is a spelling
    of the value. */
module JsonRoundTrip {
  import opened Bytes
  import opened JsonText
  import opened JsonNumbers
  import opened JsonValues
  import opened JsonGrammar
  import opened JsonTrees

  // ---- strings ----------------------------------------------------------------------------------

  /** How the printer spells a byte. */
  function PieceOf(c: Byte): (p: Piece)
    ensures p.Ok()
  {
    if c == 0x22 then Letter(0) else if c == 0x5C then Letter(1) else if c == 0x08 then Letter(3) else if c == 0x0C then Letter(4)
    else if c == 0x0A then Letter(5) else if c == 0x0D then Letter(6) else if c == 0x09 then Letter(7)
    else if c < 0x20 then Unit(c, [false, false, false, false])
    else Raw(c)
  }

  function PiecesOf(s: Text): (ps: seq<Piece>)
    ensures |ps| == |s| && AllOk(ps)
  {
    seq(|s|, k requires 0 <= k < |s| => PieceOf(s[k]))
  }

  lemma PieceSpells(c: Byte)
    ensures PieceOf(c).Spelling() == EscapeByte(c)
  {
    hide Four;
    if PieceOf(c).Unit? { ControlSpells(c); }
  }

  lemma ControlSpells(c: Byte)
    requires c < 0x20
    ensures Four(c, [false, false, false, false]) == [48, 48, HexDigit(c / 16), HexDigit(c % 16)]
  {
    assert Hex(0, false) == 48;
    LowerDigit(c / 16);
    LowerDigit(c % 16);
    assert c / 0x10 % 16 == c / 16;
  }

  lemma LowerDigit(v: nat)
    requires v < 16
    ensures Hex(v, false) == HexDigit(v)
  {}

  lemma {:induction false} PiecesSay(s: Text)
    ensures Spelled(PiecesOf(s)) == Escaped(s) && Said(PiecesOf(s)) == s
  {
    hide Piece.Spelling, Utf8, EscapeByte;
    if s != [] {
      PiecesSay(s[1..]);
      assert PiecesOf(s)[1..] == PiecesOf(s[1..]);
      PieceSpells(s[0]);
      assert s == [s[0]] + s[1..];
      if PieceOf(s[0]).Unit? { ControlSays(s[0]); }
    }
  }

  lemma ControlSays(c: Byte)
    requires c < 0x20
    ensures Utf8(c) == [c]
  {}

  lemma QuotedIs(s: Text)
    ensures Quoted(s) == Quotes(PiecesOf(s)) && Said(PiecesOf(s)) == s
  {
    hide Escaped, Spelled, Said;
    PiecesSay(s);
    Characters();
    assert [QUOTE] + Escaped(s) + [QUOTE] == [QUOTE] + (Escaped(s) + [QUOTE]);
  }

  /** String round trip: any bytes at all, quoted, read back as themselves. */
  lemma QuotedReads(t: Text, i: nat, s: Text)
    requires Has(t, i, Quoted(s))
    ensures i < |t| && t[i] == QUOTE && StringRest(t, i + 1) == At(s, i + |Quoted(s)|)
  {
    hide StringRest, Has, Quoted, Quotes;
    QuotedIs(s);
    QuotesRead(t, i, PiecesOf(s));
  }

  // ---- values ------------------------------------------------------------------------------------

  ghost predicate AllPrintable(items: seq<Json>) { forall k :: 0 <= k < |items| ==> Printable(items[k]) }
  ghost predicate AllMembersPrintable(members: seq<Member>) { forall k :: 0 <= k < |members| ==> Printable(members[k].value) }

  lemma BreakIsWs(indent: int, level: nat, flat: bool)
    ensures AllWs(Break(indent, level)) && AllWs(ItemBreak(indent, level, flat))
  {}

  // ---- how it is laid out -------------------------------------------------------------------------

  /** Only what must be escaped is, with a letter where there is one. */
  predicate Sparing(p: Piece) {
    match p
    case Raw(c) => c >= 0x20
    case Letter(k) => k < 8 && LETTERS[k] != '/'
    case Unit(n, caps) => n < 0x20 && n !in MEANT && caps == [false, false, false, false]
  }

  function NewLine(n: int): Text { if n < 0 then Ascii("\n") else Ascii("\n") + seq(n, _ => ' ' as int) }

  /** The whitespace of a printed value: none when `indent` is negative; otherwise every pair, and
      every item of a list that holds a list or a table, on a line of its own, indented by its
      depth, and the closing bracket too; and a space after each colon. */
  predicate Tidy(tree: Tree, indent: int, level: nat) {
    match tree
    case Quote(ps) => forall k :: 0 <= k < |ps| ==> Sparing(ps[k])
    case List(gap, items) =>
      && gap == []
      && var flat := indent < 0 || forall k :: 0 <= k < |items| ==> Plain(items[k].tree);
      forall k :: 0 <= k < |items| ==>
        && items[k].before == (if flat then [] else NewLine(indent * (level + 1)))
        && items[k].after == (if flat || k < |items| - 1 then [] else NewLine(indent * level))
        && Tidy(items[k].tree, indent, level + 1)
    case Table(gap, pairs) =>
      && gap == []
      && forall k :: 0 <= k < |pairs| ==>
        && pairs[k].before == (if indent < 0 then [] else NewLine(indent * (level + 1)))
        && pairs[k].mid == [] && pairs[k].gap == (if indent < 0 then [] else Ascii(" "))
        && pairs[k].after == (if indent < 0 || k < |pairs| - 1 then [] else NewLine(indent * level))
        && (forall i :: 0 <= i < |pairs[k].key| ==> Sparing(pairs[k].key[i]))
        && Tidy(pairs[k].tree, indent, level + 1)
    case _ => true
  }

  predicate TidyItems(items: seq<Item>, indent: int, level: nat, flat: bool) {
    forall k :: 0 <= k < |items| ==>
      && items[k].before == (if flat then [] else NewLine(indent * (level + 1)))
      && items[k].after == (if flat || k < |items| - 1 then [] else NewLine(indent * level))
      && Tidy(items[k].tree, indent, level + 1)
  }

  predicate TidyPairs(pairs: seq<Pair>, indent: int, level: nat) {
    forall k :: 0 <= k < |pairs| ==>
      && pairs[k].before == (if indent < 0 then [] else NewLine(indent * (level + 1)))
      && pairs[k].mid == [] && pairs[k].gap == (if indent < 0 then [] else Ascii(" "))
      && pairs[k].after == (if indent < 0 || k < |pairs| - 1 then [] else NewLine(indent * level))
      && (forall i :: 0 <= i < |pairs[k].key| ==> Sparing(pairs[k].key[i]))
      && Tidy(pairs[k].tree, indent, level + 1)
  }

  lemma BreakIs(indent: int, level: nat)
    ensures Break(indent, level) == if indent < 0 then [] else NewLine(indent * level)
  {
    if indent >= 0 {
      assert indent * level >= 0;
      assert Ascii("\n") == [LF];
      assert Spaces(indent * level) == seq(indent * level, _ => ' ' as int);
    }
  }

  lemma PiecesSparing(s: Text)
    ensures forall k :: 0 <= k < |PiecesOf(s)| ==> Sparing(PiecesOf(s)[k])
  {
    forall k | 0 <= k < |s| ensures Sparing(PieceOf(s[k])) { PieceSparing(s[k]); }
  }

  lemma PieceSparing(c: Byte)
    ensures Sparing(PieceOf(c))
  {
  }

  lemma {:induction false} PlainIs(js: seq<Json>, items: seq<Item>)
    requires ProperItems(items) && ItemsMean(items) == js
    ensures Scalars(js) <==> forall k :: 0 <= k < |items| ==> Plain(items[k].tree)
  {
    forall k | 0 <= k < |items| ensures IsScalar(js[k]) <==> Plain(items[k].tree) { MeanAt(items, k); }
  }

  lemma {:induction false} MeanAt(items: seq<Item>, k: nat)
    requires ProperItems(items) && k < |items|
    ensures ItemsMean(items)[k] == Meaning(items[k].tree)
    decreases |items|
  {
    hide Meaning, Proper;
    if k > 0 { MeanAt(items[1..], k - 1); }
  }

  /** What is printed of a value is a spelling of it, laid out so. */
  lemma {:induction false} DumpSpells(j: Json, indent: int, level: nat) returns (tree: Tree)
    requires Printable(j)
    ensures Proper(tree) && Spell(tree) == Dump(j, indent, level) && Meaning(tree) == j && Tidy(tree, indent, level)
    decreases j, 1
  {
    if j.Array? {
      tree := ArraySpells(j, indent, level);
    } else if j.Object? {
      tree := ObjectSpells(j, indent, level);
    } else if j.Num? {
      var n: Number :| n.Ok() && n.Text() == j.text;
      tree := Numeral(n);
    } else if j.Str? {
      hide Quoted, Quotes, Said;
      QuotedIs(j.s);
      PiecesSparing(j.s);
      tree := Quote(PiecesOf(j.s));
    } else {
      hide Ascii;
      Words();
      tree := Word(j);
    }
  }

  lemma {:induction false} ArraySpells(j: Json, indent: int, level: nat) returns (tree: Tree)
    requires j.Array? && Printable(j)
    ensures Proper(tree) && Spell(tree) == Dump(j, indent, level) && Meaning(tree) == j && Tidy(tree, indent, level)
    decreases j, 0
  {
    hide DumpItems, SpellItems, ItemsMean, Ascii;
    Characters();
    if j.items == [] {
      tree := List([], []);
      assert [] + [CLOSE_ARRAY] == [CLOSE_ARRAY];
      assert ItemsMean([]) == [];
    } else {
      var items := ItemsSpell(j.items, indent, level, Scalars(j.items));
      tree := List([], items);
      ProperList(tree);
      PlainIs(j.items, items);
      TidyList(tree, indent, level);
    }
  }

  lemma {:induction false} ItemsSpell(js: seq<Json>, indent: int, level: nat, flat: bool) returns (items: seq<Item>)
    requires js != [] && AllPrintable(js)
    ensures items != [] && ProperItems(items) && SpellItems(items) == DumpItems(js, indent, level, flat) && ItemsMean(items) == js
    ensures TidyItems(items, indent, level, indent < 0 || flat)
    decreases js, 2
  {
    hide Dump, Printable, Proper, Spell, Meaning, AllWs, Break, ItemBreak, ProperItems, SpellItems, ItemsMean, Ascii, Tidy, TidyItems, NewLine;
    var tree := DumpSpells(js[0], indent, level + 1);
    BreakIsWs(indent, level + 1, flat);
    BreakIsWs(indent, level, flat);
    ItemBreakIs(indent, level + 1, flat);
    ItemBreakIs(indent, level, flat);
    var last := |js| == 1;
    var x := Item(ItemBreak(indent, level + 1, flat), tree, if last then ItemBreak(indent, level, flat) else []);
    NoWs();
    if last {
      items := [x];
      ItemsProper1(x, []);
      assert [x] + [] == items;
      TidyOne(x, [], indent, level, indent < 0 || flat);
      assert items[1..] == [] && [js[0]] == js;
      NoItems();
    } else {
      var rest := ItemsSpell(js[1..], indent, level, flat);
      items := [x] + rest;
      ItemsProper1(x, rest);
      TidyOne(x, rest, indent, level, indent < 0 || flat);
      assert items[1..] == rest && [js[0]] + js[1..] == js;
      assert [] + ([COMMA] + SpellItems(rest)) == [COMMA] + SpellItems(rest);
    }
    ItemsProper(items);
    ItemsText(items);
    ItemsMeant(items);
  }

  lemma ItemBreakIs(indent: int, level: nat, flat: bool)
    ensures ItemBreak(indent, level, flat) == if indent < 0 || flat then [] else NewLine(indent * level)
  {
    hide NewLine;
    BreakIs(indent, level);
  }

  lemma TidyList(tree: Tree, indent: int, level: nat)
    requires tree.List? && Proper(tree) && tree.gap == []
    requires TidyItems(tree.items, indent, level, indent < 0 || forall k :: 0 <= k < |tree.items| ==> Plain(tree.items[k].tree))
    ensures Tidy(tree, indent, level)
  {
    hide NewLine, Plain;
  }

  lemma TidyOne(x: Item, rest: seq<Item>, indent: int, level: nat, flat: bool)
    requires rest == [] || TidyItems(rest, indent, level, flat)
    requires Tidy(x.tree, indent, level + 1) && x.before == if flat then [] else NewLine(indent * (level + 1))
    requires x.after == if flat || rest != [] then [] else NewLine(indent * level)
    ensures TidyItems([x] + rest, indent, level, flat)
  {
    hide NewLine, Tidy;
    var items := [x] + rest;
    forall k | 0 <= k < |items|
      ensures && items[k].before == (if flat then [] else NewLine(indent * (level + 1)))
              && items[k].after == (if flat || k < |items| - 1 then [] else NewLine(indent * level))
              && Tidy(items[k].tree, indent, level + 1)
    {
      if k > 0 { assert items[k] == rest[k - 1]; }
    }
  }

  lemma NoWs()
    ensures AllWs([])
  {}

  lemma NoItems()
    ensures ProperItems([]) && ItemsMean([]) == []
  {}

  lemma NoPairs()
    ensures ProperPairs([]) && PairsMean([]) == []
  {}

  lemma {:induction false} ObjectSpells(j: Json, indent: int, level: nat) returns (tree: Tree)
    requires j.Object? && Printable(j)
    ensures Proper(tree) && Spell(tree) == Dump(j, indent, level) && Meaning(tree) == j && Tidy(tree, indent, level)
    decreases j, 0
  {
    hide DumpMembers, SpellPairs, PairsMean, Ascii;
    Characters();
    if j.members == [] {
      tree := Table([], []);
      assert [] + [CLOSE_OBJECT] == [CLOSE_OBJECT];
      NoPairs();
    } else {
      var pairs := PairsSpell(j.members, indent, level);
      tree := Table([], pairs);
      ProperTable(tree);
      TidyTable(tree, indent, level);
    }
  }

  lemma KeySpells(key: Text, indent: int, value: Text)
    ensures var gap := if indent < 0 then [] else [SPACE];
            AllWs(gap) && KeyText(key, indent) + value == Quotes(PiecesOf(key)) + ([] + ([COLON] + (gap + value)))
  {
    hide Quoted, Quotes;
    QuotedIs(key);
    var gap := if indent < 0 then [] else [SPACE];
    assert (if indent < 0 then [COLON] else [COLON, SPACE]) == [COLON] + gap;
    assert [] + ([COLON] + (gap + value)) == ([COLON] + gap) + value;
    assert (Quoted(key) + ([COLON] + gap)) + value == Quoted(key) + (([COLON] + gap) + value);
  }

  lemma {:induction false} PairsSpell(ms: seq<Member>, indent: int, level: nat) returns (pairs: seq<Pair>)
    requires ms != [] && AllMembersPrintable(ms)
    ensures pairs != [] && ProperPairs(pairs) && SpellPairs(pairs) == DumpMembers(ms, indent, level) && PairsMean(pairs) == ms
    ensures TidyPairs(pairs, indent, level)
    decreases ms, 2
  {
    hide Dump, Printable, Proper, Spell, Meaning, AllWs, Break, KeyText, ProperPairs, SpellPairs, PairsMean, Ascii, Quotes, Said, PiecesOf, Tidy, TidyPairs,
         NewLine, Sparing;
    var m := ms[0];
    var tree := DumpSpells(m.value, indent, level + 1);
    BreakIsWs(indent, level + 1, true);
    BreakIsWs(indent, level, true);
    KeySpells(m.key, indent, Dump(m.value, indent, level + 1));
    QuotedIs(m.key);
    PiecesSparing(m.key);
    BreakIs(indent, level + 1);
    BreakIs(indent, level);
    SpaceIs();
    var last := |ms| == 1;
    var x := Pair(Break(indent, level + 1), PiecesOf(m.key), [], if indent < 0 then [] else [SPACE], tree,
                  if last then Break(indent, level) else []);
    NoWs();
    assert Body(x) == KeyText(m.key, indent) + Dump(m.value, indent, level + 1);
    if last {
      pairs := [x];
      PairsProper1(x, []);
      assert [x] + [] == pairs;
      TidyPair(x, [], indent, level);
      assert pairs[1..] == [] && [ms[0]] == ms;
      NoPairs();
    } else {
      var rest := PairsSpell(ms[1..], indent, level);
      pairs := [x] + rest;
      PairsProper1(x, rest);
      TidyPair(x, rest, indent, level);
      assert pairs[1..] == rest && [ms[0]] + ms[1..] == ms;
      assert [] + ([COMMA] + SpellPairs(rest)) == [COMMA] + SpellPairs(rest);
    }
    PairsProper(pairs);
    PairsText(pairs);
    PairsMeant(pairs);
    MembersText(ms, indent, level);
  }

  lemma SpaceIs()
    ensures Ascii(" ") == [SPACE]
  {}

  lemma TidyTable(tree: Tree, indent: int, level: nat)
    requires tree.Table? && Proper(tree) && tree.gap == [] && TidyPairs(tree.pairs, indent, level)
    ensures Tidy(tree, indent, level)
  {
    hide NewLine, Sparing, Ascii;
  }

  lemma TidyPair(x: Pair, rest: seq<Pair>, indent: int, level: nat)
    requires rest == [] || TidyPairs(rest, indent, level)
    requires Tidy(x.tree, indent, level + 1) && x.before == if indent < 0 then [] else NewLine(indent * (level + 1))
    requires x.mid == [] && x.gap == (if indent < 0 then [] else Ascii(" ")) && forall i :: 0 <= i < |x.key| ==> Sparing(x.key[i])
    requires x.after == if indent < 0 || rest != [] then [] else NewLine(indent * level)
    ensures TidyPairs([x] + rest, indent, level)
  {
    hide NewLine, Tidy, Ascii, Sparing;
    var pairs := [x] + rest;
    forall k | 0 <= k < |pairs|
      ensures && pairs[k].before == (if indent < 0 then [] else NewLine(indent * (level + 1)))
              && pairs[k].mid == [] && pairs[k].gap == (if indent < 0 then [] else Ascii(" "))
              && pairs[k].after == (if indent < 0 || k < |pairs| - 1 then [] else NewLine(indent * level))
              && (forall i :: 0 <= i < |pairs[k].key| ==> Sparing(pairs[k].key[i]))
              && Tidy(pairs[k].tree, indent, level + 1)
    {
      if k > 0 { assert pairs[k] == rest[k - 1]; }
    }
  }

  lemma MembersText(ms: seq<Member>, indent: int, level: nat)
    requires ms != []
    ensures DumpMembers(ms, indent, level)
            == Break(indent, level + 1) + ((KeyText(ms[0].key, indent) + Dump(ms[0].value, indent, level + 1))
                 + if |ms| == 1 then Break(indent, level) + [CLOSE_OBJECT] else [COMMA] + DumpMembers(ms[1..], indent, level))
  {
    hide Dump, KeyText, Break;
    var key, first := KeyText(ms[0].key, indent), Dump(ms[0].value, indent, level + 1);
    var rest := if |ms| == 1 then Break(indent, level) + [CLOSE_OBJECT] else [COMMA] + DumpMembers(ms[1..], indent, level);
    assert key + (first + rest) == (key + first) + rest;
  }

  /** A printed value parses as itself, and ends where its text does, unless it nests too
      deep: then it does not parse. */
  lemma DumpReads(j: Json, indent: int, level: nat, t: Text, i: nat, d: nat)
    requires Printable(j) && Has(t, i, Dump(j, indent, level)) && Ends(t, i + |Dump(j, indent, level)|)
    ensures Value(t, i, d) == if Fits(j, MAX_DEPTH - d) then At(j, i + |Dump(j, indent, level)|) else Bad
  {
    hide Value, Has, Ends, Dump, Fits, Printable, Spell, Meaning, Proper;
    var tree := DumpSpells(j, indent, level);
    TreeReads(tree, t, i, d);
  }

  // ---- whole texts --------------------------------------------------------------------------------------

  /** JSON round trip: a value whose numbers have grammatical text parses back from its text,
      at any indentation, if and only if it nests at most 64 deep. */
  lemma RoundTrip(j: Json, indent: int)
    requires Printable(j)
    ensures ParseText(Dump(j, indent, 0)) == if Fits(j, MAX_DEPTH) then Some(j) else None
  {
    hide Value, Dump, Fits, Printable;
    var t := Dump(j, indent, 0);
    assert Has(t, 0, t);
    DumpReads(j, indent, 0, t, 0, 0);
  }

  // ---- whatever is parsed can be printed --------------------------------------------------------------------

  lemma {:induction false} ParsedPrints(t: Text, i: nat, d: nat)
    requires i <= |t| && Value(t, i, d).At?
    ensures Printable(Value(t, i, d).value) && Fits(Value(t, i, d).value, MAX_DEPTH - d)
    decreases |t| - i, 1
  {
    hide StringRest, ScanNumber, Grammatical;
    var a := SkipWs(t, i);
    var j := Value(t, i, d).value;
    if t[a] == OPEN_OBJECT {
      if j.members != [] { ParsedMembers(t, a + 1, d + 1); }
    } else if t[a] == OPEN_ARRAY {
      if j.items != [] { ParsedItems(t, a + 1, d + 1); }
    } else if j.Num? {
      ScannedIsGrammatical(t, a);
    }
  }

  lemma {:induction false} ParsedItems(t: Text, i: nat, d: nat)
    requires i <= |t| && Items(t, i, d).At?
    ensures AllPrintable(Items(t, i, d).value) && AllFit(Items(t, i, d).value, MAX_DEPTH - d)
    decreases |t| - i, 2
  {
    hide Value, Printable, Fits;
    ParsedPrints(t, i, d);
    var v := Value(t, i, d);
    var k := SkipWs(t, v.i);
    if t[k] == COMMA { ParsedItems(t, k + 1, d); }
  }

  lemma {:induction false} ParsedMembers(t: Text, i: nat, d: nat)
    requires i <= |t| && Members(t, i, d).At?
    ensures AllMembersPrintable(Members(t, i, d).value) && AllMembersFit(Members(t, i, d).value, MAX_DEPTH - d)
    decreases |t| - i, 3
  {
    hide Value, Printable, Fits, StringRest;
    var a := SkipWs(t, i);
    var key := StringRest(t, a + 1);
    ParsedPrints(t, SkipWs(t, key.i) + 1, d);
    var m := MemberAt(t, i, d);
    var k := SkipWs(t, m.i);
    if t[k] == COMMA { ParsedMembers(t, k + 1, d); }
  }

  /** Printing what was parsed, and parsing that, changes nothing more. */
  lemma ParseIsStable(t: Text, indent: int)
    requires ParseText(t).Some?
    ensures ParseText(Dump(ParseText(t).value, indent, 0)) == ParseText(t)
  {
    hide Value, Dump, Fits, Printable;
    ParsedPrints(t, 0, 0);
    RoundTrip(ParseText(t).value, indent);
  }
}
