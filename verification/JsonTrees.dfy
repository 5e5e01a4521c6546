/** JSON texts as trees (sections 2 to 7 of RFC 8259), with what they spell and what they mean: the
    parser reads exactly the spellings, as their meanings, down to 64 levels. */
module JsonTrees {
  import opened Bytes
  import opened JsonText
  import opened JsonNumbers
  import opened JsonValues
  import opened JsonGrammar

  /** A value: a word, a number, a string, or a list of values or of pairs. Whitespace may stand
      before and after every value, key and bracket. */
  datatype Tree =
    | Word(j: Json)
    | Numeral(n: Number)
    | Quote(ps: seq<Piece>)
    | List(gap: Text, items: seq<Item>)
    | Table(gap: Text, pairs: seq<Pair>)

  datatype Item = Item(before: Text, tree: Tree, after: Text)
  datatype Pair = Pair(before: Text, key: seq<Piece>, mid: Text, gap: Text, tree: Tree, after: Text)

  predicate AllWs(x: Text) {
    forall k :: 0 <= k < |x| ==> x[k] == ' ' as int || x[k] == '\t' as int || x[k] == '\n' as int || x[k] == '\r' as int
  }

  predicate Proper(tree: Tree) {
    match tree
    case Word(j) => j.Null? || j.Bool?
    case Numeral(n) => n.Ok()
    case Quote(ps) => AllOk(ps)
    case List(gap, items) => AllWs(gap) && forall k :: 0 <= k < |items| ==> AllWs(items[k].before) && Proper(items[k].tree) && AllWs(items[k].after)
    case Table(gap, pairs) => AllWs(gap) && forall k :: 0 <= k < |pairs| ==> ProperPair(pairs[k])
  }

  predicate ProperPair(p: Pair) {
    AllWs(p.before) && AllOk(p.key) && AllWs(p.mid) && AllWs(p.gap) && Proper(p.tree) && AllWs(p.after)
  }

  predicate ProperItems(items: seq<Item>) {
    forall k :: 0 <= k < |items| ==> AllWs(items[k].before) && Proper(items[k].tree) && AllWs(items[k].after)
  }

  predicate ProperPairs(pairs: seq<Pair>) { forall k :: 0 <= k < |pairs| ==> ProperPair(pairs[k]) }

  function Ascii(s: string): Text
    requires forall k :: 0 <= k < |s| ==> s[k] as int < 128
  {
    seq(|s|, k requires 0 <= k < |s| => s[k] as int)
  }

  // ---- what a tree spells -------------------------------------------------------------------------

  function Quotes(ps: seq<Piece>): Text
    requires AllOk(ps)
  {
    Ascii("\"") + (Spelled(ps) + Ascii("\""))
  }

  function Spell(tree: Tree): Text
    requires Proper(tree)
  {
    match tree
    case Word(j) => if j.Null? then Ascii("null") else if j.b then Ascii("true") else Ascii("false")
    case Numeral(n) => n.Text()
    case Quote(ps) => Quotes(ps)
    case List(gap, items) => Ascii("[") + if items == [] then gap + Ascii("]") else SpellItems(items)
    case Table(gap, pairs) => Ascii("{") + if pairs == [] then gap + Ascii("}") else SpellPairs(pairs)
  }

  function SpellItems(items: seq<Item>): Text
    requires items != [] && ProperItems(items)
  {
    var x := items[0];
    x.before + (Spell(x.tree) + (x.after + if |items| == 1 then Ascii("]") else Ascii(",") + SpellItems(items[1..])))
  }

  function SpellPairs(pairs: seq<Pair>): Text
    requires pairs != [] && ProperPairs(pairs)
  {
    var x := pairs[0];
    x.before + ((Quotes(x.key) + (x.mid + (Ascii(":") + (x.gap + Spell(x.tree)))))
                + (x.after + if |pairs| == 1 then Ascii("}") else Ascii(",") + SpellPairs(pairs[1..])))
  }

  // ---- what it means --------------------------------------------------------------------------------

  function Meaning(tree: Tree): Json
    requires Proper(tree)
  {
    match tree
    case Word(j) => j
    case Numeral(n) => Num(n.Text())
    case Quote(ps) => Str(Said(ps))
    case List(_, items) => Array(ItemsMean(items))
    case Table(_, pairs) => Object(PairsMean(pairs))
  }

  function ItemsMean(items: seq<Item>): (js: seq<Json>)
    requires ProperItems(items)
    ensures |js| == |items|
  {
    if items == [] then [] else [Meaning(items[0].tree)] + ItemsMean(items[1..])
  }

  function PairsMean(pairs: seq<Pair>): (ms: seq<Member>)
    requires ProperPairs(pairs)
    ensures |ms| == |pairs|
  {
    if pairs == [] then [] else [Member(Said(pairs[0].key), Meaning(pairs[0].tree))] + PairsMean(pairs[1..])
  }

  /** The bytes the parser looks for are those characters. */
  lemma Characters()
    ensures Ascii("[") == [OPEN_ARRAY] && Ascii("]") == [CLOSE_ARRAY] && Ascii("{") == [OPEN_OBJECT] && Ascii("}") == [CLOSE_OBJECT]
    ensures Ascii(",") == [COMMA] && Ascii(":") == [COLON] && Ascii("\"") == [QUOTE]
  {}

  lemma Words()
    ensures Ascii("true") == TrueText() && Ascii("false") == FalseText() && Ascii("null") == NullText()
  {}

  // ---- whitespace between tokens ----------------------------------------------------------------------

  lemma WsIs(c: Byte)
    ensures IsWs(c) <==> AllWs([c])
  {
    var x := [c];
    assert AllWs(x) <==> (x[0] == ' ' as int || x[0] == '\t' as int || x[0] == '\n' as int || x[0] == '\r' as int);
  }

  /** Skipping a stretch of whitespace. */
  lemma OverWs(t: Text, i: nat, x: Text)
    requires Has(t, i, x) && AllWs(x)
    ensures i + |x| <= |t| && SkipWs(t, i) == SkipWs(t, i + |x|)
  {
    forall k | i <= k < i + |x| ensures IsWs(t[k]) { assert t[k] == t[i..i + |x|][k - i]; }
    WsSkipped(t, i, i + |x|);
  }

  lemma ValueSkipsWs(t: Text, i: nat, j: nat, d: nat)
    requires i <= j <= |t| && SkipWs(t, i) == SkipWs(t, j)
    ensures Value(t, i, d) == Value(t, j, d)
  {}

  /** A token that is not whitespace is found where it starts. */
  lemma AtToken(t: Text, i: nat)
    requires i < |t| && !IsWs(t[i])
    ensures SkipWs(t, i) == i
  {}

  /** A byte a value can start with. */
  predicate Starts(c: Byte) {
    !IsWs(c) && c != CLOSE_ARRAY && c != CLOSE_OBJECT && c != COMMA
  }

  lemma StartsNotWs(c: Byte)
    requires Starts(c)
    ensures !IsWs(c)
  {}

  // ---- scalars ------------------------------------------------------------------------------------------

  lemma ScalarIsValue(t: Text, i: nat, d: nat)
    requires i < |t| && !IsWs(t[i]) && t[i] != OPEN_OBJECT && t[i] != OPEN_ARRAY
    ensures Value(t, i, d) == Scalar(t, i)
  {
    hide Scalar;
    AtToken(t, i);
  }

  lemma WordReads(t: Text, i: nat, x: Text, y: Text)
    requires Has(t, i, x) && x != [] && y != [] && x[0] != y[0]
    ensures i < |t| && t[i] == x[0] && !Has(t, i, y)
  {
    FirstByte(t, i, x);
    if Has(t, i, y) { FirstByte(t, i, y); }
  }

  predicate Plain(tree: Tree) { !tree.List? && !tree.Table? }

  lemma PlainReads(tree: Tree, t: Text, i: nat)
    requires Plain(tree) && Proper(tree) && Has(t, i, Spell(tree)) && Ends(t, i + |Spell(tree)|)
    ensures i < |t| && Starts(t[i]) && t[i] != OPEN_OBJECT && t[i] != OPEN_ARRAY
    ensures Scalar(t, i) == At(Meaning(tree), i + |Spell(tree)|) && forall room :: Fits(Meaning(tree), room)
  {
    hide Has, StringRest, ScanNumber, Spelled, Said, Number.Text, Number.Ok, Ascii;
    match tree
    case Word(j) =>
      Words();
      WordReads(t, i, Spell(tree), if j.Null? then TrueText() else NullText());
      if !(j.Bool? && j.b) { WordReads(t, i, Spell(tree), TrueText()); }
      if j.Null? { WordReads(t, i, Spell(tree), FalseText()); }
    case Quote(ps) =>
      QuotesRead(t, i, ps);
    case Numeral(n) =>
      NumberReads(t, i, n);
  }

  lemma QuotesRead(t: Text, i: nat, ps: seq<Piece>)
    requires AllOk(ps) && Has(t, i, Quotes(ps))
    ensures i < |t| && t[i] == QUOTE && StringRest(t, i + 1) == At(Said(ps), i + |Quotes(ps)|)
  {
    hide Has, StringRest, Spelled, Said, Ascii;
    Characters();
    HasParts(t, i, [QUOTE], Spelled(ps) + [QUOTE]);
    FirstByte(t, i, [QUOTE]);
    SpelledReads(t, i + 1, ps);
  }

  lemma NumberReads(t: Text, i: nat, n: Number)
    requires n.Ok() && Has(t, i, n.Text()) && Ends(t, i + |n.Text()|)
    ensures i < |t| && Starts(t[i]) && t[i] != OPEN_OBJECT && t[i] != OPEN_ARRAY && Scalar(t, i) == At(Num(n.Text()), i + |n.Text()|)
  {
    hide Has, StringRest, ScanNumber, Number.Text, Number.Ok;
    NumberScanned(t, i, n);
    if Has(t, i, TrueText()) { FirstByte(t, i, TrueText()); }
    if Has(t, i, FalseText()) { FirstByte(t, i, FalseText()); }
    if Has(t, i, NullText()) { FirstByte(t, i, NullText()); }
    assert t[i..i + |n.Text()|] == n.Text() by { HasIs(t, i, n.Text()); }
  }

  lemma HasIs(t: Text, i: nat, x: Text)
    requires Has(t, i, x)
    ensures i + |x| <= |t| && t[i..i + |x|] == x
  {}

  // ---- values, items and pairs ----------------------------------------------------------------------------

  predicate AllFit(items: seq<Json>, room: int) { forall k :: 0 <= k < |items| ==> Fits(items[k], room) }
  predicate AllMembersFit(members: seq<Member>, room: int) { forall k :: 0 <= k < |members| ==> Fits(members[k].value, room) }

  /** A spelled value is read as what it means, and ends where its text does, unless it nests too
      deep: then it is not read. */
  lemma {:induction false} TreeReads(tree: Tree, t: Text, i: nat, d: nat)
    requires Proper(tree) && Has(t, i, Spell(tree)) && Ends(t, i + |Spell(tree)|)
    ensures i < |t| && Starts(t[i])
    ensures Value(t, i, d) == if Fits(Meaning(tree), MAX_DEPTH - d) then At(Meaning(tree), i + |Spell(tree)|) else Bad
    decreases tree, 1
  {
    hide Value, Has, Scalar, Starts, Ends, Proper, Spell, Meaning;
    if Plain(tree) {
      PlainReads(tree, t, i);
      StartsNotWs(t[i]);
      ScalarIsValue(t, i, d);
    } else if tree.List? {
      ListReads(tree, t, i, d);
    } else {
      TableReads(tree, t, i, d);
    }
  }

  lemma BracketStarts(c: Byte)
    requires c == OPEN_ARRAY || c == OPEN_OBJECT
    ensures Starts(c)
  {}

  lemma EmptyArray(t: Text, i: nat, d: nat, gap: Text)
    requires Has(t, i, [OPEN_ARRAY] + (gap + [CLOSE_ARRAY])) && AllWs(gap)
    ensures i < |t| && t[i] == OPEN_ARRAY
    ensures Value(t, i, d) == if d < MAX_DEPTH then At(Array([]), i + |gap| + 2) else Bad
  {
    hide Has, AllWs, Items, Members;
    HasParts(t, i, [OPEN_ARRAY], gap + [CLOSE_ARRAY]);
    HasParts(t, i + 1, gap, [CLOSE_ARRAY]);
    FirstByte(t, i, [OPEN_ARRAY]);
    FirstByte(t, i + 1 + |gap|, [CLOSE_ARRAY]);
    OverWs(t, i + 1, gap);
    AtToken(t, i);
    AtToken(t, i + 1 + |gap|);
  }

  lemma FullArray(t: Text, i: nat, d: nat)
    requires i < |t| && t[i] == OPEN_ARRAY && !(SkipWs(t, i + 1) < |t| && t[SkipWs(t, i + 1)] == CLOSE_ARRAY)
    ensures Value(t, i, d) == if d >= MAX_DEPTH || Items(t, i + 1, d + 1).Bad? then Bad
                              else At(Array(Items(t, i + 1, d + 1).value), Items(t, i + 1, d + 1).i)
  {
    hide Items;
    AtToken(t, i);
  }

  lemma ListIs(tree: Tree, room: int)
    requires tree.List? && Proper(tree)
    ensures ProperItems(tree.items) && AllWs(tree.gap) && Meaning(tree) == Array(ItemsMean(tree.items))
    ensures Spell(tree) == [OPEN_ARRAY] + if tree.items == [] then tree.gap + [CLOSE_ARRAY] else SpellItems(tree.items)
    ensures Fits(Meaning(tree), room) <==> room > 0 && AllFit(ItemsMean(tree.items), room - 1)
  {
    hide Ascii, SpellItems, ItemsMean;
    Characters();
  }

  lemma {:induction false} ListReads(tree: Tree, t: Text, i: nat, d: nat)
    requires tree.List? && Proper(tree) && Has(t, i, Spell(tree))
    ensures i < |t| && Starts(t[i])
    ensures Value(t, i, d) == if Fits(Meaning(tree), MAX_DEPTH - d) then At(Meaning(tree), i + |Spell(tree)|) else Bad
    decreases tree, 0
  {
    hide Value, Has, Proper, Spell, Meaning, Fits, SpellItems, Items, Starts, ItemsMean, AllWs;
    ListIs(tree, MAX_DEPTH - d);
    BracketStarts(OPEN_ARRAY);
    if tree.items == [] {
      EmptyArray(t, i, d, tree.gap);
    } else {
      HasParts(t, i, [OPEN_ARRAY], SpellItems(tree.items));
      FirstByte(t, i, [OPEN_ARRAY]);
      ItemsRead(tree.items, t, i + 1, d + 1);
      NotClosing(t, SkipWs(t, i + 1));
      FullArray(t, i, d);
    }
  }

  lemma NotClosing(t: Text, k: nat)
    requires k < |t| && Starts(t[k])
    ensures t[k] != CLOSE_ARRAY && t[k] != CLOSE_OBJECT
  {}

  /** What comes after the first item's whitespace: a separator, and more. */
  function AfterItem(items: seq<Item>): (Byte, Text)
    requires items != [] && ProperItems(items)
  {
    if |items| == 1 then (CLOSE_ARRAY, []) else (COMMA, SpellItems(items[1..]))
  }

  lemma ItemsProper(items: seq<Item>)
    requires items != [] && ProperItems(items)
    ensures AllWs(items[0].before) && AllWs(items[0].after) && Proper(items[0].tree) && ProperItems(items[1..])
  {
    hide AllWs, Proper;
  }

  lemma ItemsText(items: seq<Item>)
    requires items != [] && ProperItems(items) && ProperItems(items[1..]) && Proper(items[0].tree)
    ensures var (sep, more) := AfterItem(items);
            var x := items[0];
            SpellItems(items) == x.before + (Spell(x.tree) + (x.after + ([sep] + more))) && (sep == CLOSE_ARRAY || sep == COMMA)
  {
    hide Spell, Ascii, ProperItems, Proper, AllWs;
    Characters();
    var (sep, more) := AfterItem(items);
    if |items| == 1 {
      assert [sep] + more == Ascii("]");
    } else {
      assert [sep] + more == Ascii(",") + SpellItems(items[1..]);
    }
  }

  lemma ItemsMeant(items: seq<Item>)
    requires items != [] && ProperItems(items) && ProperItems(items[1..]) && Proper(items[0].tree)
    ensures ItemsMean(items) == [Meaning(items[0].tree)] + ItemsMean(items[1..])
  {
    hide Meaning, ProperItems, Proper;
  }

  lemma {:induction false} ItemsRead(items: seq<Item>, t: Text, i: nat, d: nat)
    requires items != [] && ProperItems(items) && Has(t, i, SpellItems(items))
    ensures i <= |t| && SkipWs(t, i) < |t| && Starts(t[SkipWs(t, i)])
    ensures Items(t, i, d) == if AllFit(ItemsMean(items), MAX_DEPTH - d) then At(ItemsMean(items), i + |SpellItems(items)|) else Bad
    decreases items, 2
  {
    hide Value, Has, Spell, Fits, Proper, SpellItems, Items, Starts, Ends, SkipWs, AllWs, Meaning, ItemsMean, ProperItems;
    var x := items[0];
    ItemsProper(items);
    var a := i + |x.before|;
    var b := a + |Spell(x.tree)|;
    var (sep, more) := AfterItem(items);
    ItemsText(items);
    ItemsMeant(items);
    Laid(t, i, x.before, Spell(x.tree), x.after, sep, more, a, b);
    TreeReads(x.tree, t, a, d);
    StartsNotWs(t[a]);
    AtToken(t, a);
    ValueSkipsWs(t, i, a, d);
    FitRest(ItemsMean(items), MAX_DEPTH - d);
    if |items| == 1 {
      LastItem(ItemsMean(items), t, i, d, b, b + |x.after|);
    } else {
      ItemsRead(items[1..], t, b + |x.after| + 1, d);
      assert ItemsMean(items)[1..] == ItemsMean(items[1..]);
      NextItem(ItemsMean(items), t, i, d, b, b + |x.after|);
    }
  }

  lemma FitRest(items: seq<Json>, room: int)
    requires items != []
    ensures AllFit(items, room) <==> Fits(items[0], room) && AllFit(items[1..], room)
  {
    hide Fits;
    if Fits(items[0], room) && AllFit(items[1..], room) {
      forall k | 0 <= k < |items| ensures Fits(items[k], room) {
        if k > 0 { assert items[k] == items[1..][k - 1]; }
      }
    }
  }

  /** A body between whitespace and a separator: where it lies, and that nothing after it
      continues a number. */
  lemma Laid(t: Text, i: nat, gap: Text, body: Text, ws: Text, sep: Byte, more: Text, a: nat, b: nat)
    requires Has(t, i, gap + (body + (ws + ([sep] + more)))) && AllWs(gap) && AllWs(ws)
    requires sep == CLOSE_ARRAY || sep == CLOSE_OBJECT || sep == COMMA
    requires a == i + |gap| && b == a + |body|
    ensures Has(t, a, body) && a <= |t| && SkipWs(t, i) == SkipWs(t, a)
    ensures b < |t| && Ends(t, b) && SkipWs(t, b) == b + |ws| < |t| && t[b + |ws|] == sep
    ensures Has(t, b + |ws| + 1, more)
  {
    hide Has, Ends, SkipWs, AllWs;
    HasParts(t, i, gap, body + (ws + ([sep] + more)));
    HasParts(t, a, body, ws + ([sep] + more));
    HasParts(t, b, ws, [sep] + more);
    HasParts(t, b + |ws|, [sep], more);
    OverWs(t, i, gap);
    OverWs(t, b, ws);
    FirstByte(t, b + |ws|, [sep]);
    SepStops(t, b, ws, sep);
  }

  lemma SepStops(t: Text, b: nat, ws: Text, sep: Byte)
    requires Has(t, b, ws) && AllWs(ws) && b + |ws| < |t| && t[b + |ws|] == sep && SkipWs(t, b) == SkipWs(t, b + |ws|)
    requires sep == CLOSE_ARRAY || sep == CLOSE_OBJECT || sep == COMMA
    ensures Ends(t, b) && SkipWs(t, b) == b + |ws|
  {
    AtToken(t, b + |ws|);
    if ws != [] { FirstByte(t, b, ws); }
  }

  lemma LastItem(js: seq<Json>, t: Text, i: nat, d: nat, b: nat, c: nat)
    requires |js| == 1 && i <= b < |t| && SkipWs(t, b) == c < |t| && t[c] == CLOSE_ARRAY
    requires Value(t, i, d) == if Fits(js[0], MAX_DEPTH - d) then At(js[0], b) else Bad
    ensures Items(t, i, d) == if AllFit(js, MAX_DEPTH - d) then At(js, c + 1) else Bad
  {
    hide Value, Fits, SkipWs;
    assert [js[0]] == js;
  }

  lemma NextItem(js: seq<Json>, t: Text, i: nat, d: nat, b: nat, c: nat)
    requires |js| > 1 && i <= b < |t| && SkipWs(t, b) == c < |t| && t[c] == COMMA
    requires Value(t, i, d) == if Fits(js[0], MAX_DEPTH - d) then At(js[0], b) else Bad
    requires Items(t, c + 1, d).At? ==> Items(t, c + 1, d).value == js[1..]
    ensures Items(t, i, d) == if Fits(js[0], MAX_DEPTH - d) && Items(t, c + 1, d).At? then At(js, Items(t, c + 1, d).i) else Bad
  {
    hide Value, Fits, SkipWs;
    assert [js[0]] + js[1..] == js;
  }

  // ---- tables -----------------------------------------------------------------------------------------------

  lemma EmptyObject(t: Text, i: nat, d: nat, gap: Text)
    requires Has(t, i, [OPEN_OBJECT] + (gap + [CLOSE_OBJECT])) && AllWs(gap)
    ensures i < |t| && t[i] == OPEN_OBJECT
    ensures Value(t, i, d) == if d < MAX_DEPTH then At(Object([]), i + |gap| + 2) else Bad
  {
    hide Has, AllWs, Items, Members;
    HasParts(t, i, [OPEN_OBJECT], gap + [CLOSE_OBJECT]);
    HasParts(t, i + 1, gap, [CLOSE_OBJECT]);
    FirstByte(t, i, [OPEN_OBJECT]);
    FirstByte(t, i + 1 + |gap|, [CLOSE_OBJECT]);
    OverWs(t, i + 1, gap);
    AtToken(t, i);
    AtToken(t, i + 1 + |gap|);
  }

  lemma FullObject(t: Text, i: nat, d: nat)
    requires i < |t| && t[i] == OPEN_OBJECT && !(SkipWs(t, i + 1) < |t| && t[SkipWs(t, i + 1)] == CLOSE_OBJECT)
    ensures Value(t, i, d) == if d >= MAX_DEPTH || Members(t, i + 1, d + 1).Bad? then Bad
                              else At(Object(Members(t, i + 1, d + 1).value), Members(t, i + 1, d + 1).i)
  {
    hide Members;
    AtToken(t, i);
  }

  lemma TableIs(tree: Tree, room: int)
    requires tree.Table? && Proper(tree)
    ensures ProperPairs(tree.pairs) && AllWs(tree.gap) && Meaning(tree) == Object(PairsMean(tree.pairs))
    ensures Spell(tree) == [OPEN_OBJECT] + if tree.pairs == [] then tree.gap + [CLOSE_OBJECT] else SpellPairs(tree.pairs)
    ensures Fits(Meaning(tree), room) <==> room > 0 && AllMembersFit(PairsMean(tree.pairs), room - 1)
  {
    hide Ascii, SpellPairs, PairsMean;
    Characters();
  }

  lemma {:induction false} TableReads(tree: Tree, t: Text, i: nat, d: nat)
    requires tree.Table? && Proper(tree) && Has(t, i, Spell(tree))
    ensures i < |t| && Starts(t[i])
    ensures Value(t, i, d) == if Fits(Meaning(tree), MAX_DEPTH - d) then At(Meaning(tree), i + |Spell(tree)|) else Bad
    decreases tree, 0
  {
    hide Value, Has, Proper, Spell, Meaning, Fits, SpellPairs, Members, Starts, PairsMean, AllWs;
    TableIs(tree, MAX_DEPTH - d);
    BracketStarts(OPEN_OBJECT);
    if tree.pairs == [] {
      EmptyObject(t, i, d, tree.gap);
    } else {
      HasParts(t, i, [OPEN_OBJECT], SpellPairs(tree.pairs));
      FirstByte(t, i, [OPEN_OBJECT]);
      PairsRead(tree.pairs, t, i + 1, d + 1);
      NotClosing(t, SkipWs(t, i + 1));
      FullObject(t, i, d);
    }
  }

  function AfterPair(pairs: seq<Pair>): (Byte, Text)
    requires pairs != [] && ProperPairs(pairs)
  {
    if |pairs| == 1 then (CLOSE_OBJECT, []) else (COMMA, SpellPairs(pairs[1..]))
  }

  /** A pair without the whitespace around it. */
  function Body(x: Pair): Text
    requires ProperPair(x)
  {
    Quotes(x.key) + (x.mid + ([COLON] + (x.gap + Spell(x.tree))))
  }

  lemma PairsProper(pairs: seq<Pair>)
    requires pairs != [] && ProperPairs(pairs)
    ensures ProperPair(pairs[0]) && ProperPairs(pairs[1..])
  {
    hide ProperPair;
  }

  lemma PairsText(pairs: seq<Pair>)
    requires pairs != [] && ProperPairs(pairs) && ProperPairs(pairs[1..]) && ProperPair(pairs[0])
    ensures var (sep, more) := AfterPair(pairs);
            var x := pairs[0];
            SpellPairs(pairs) == x.before + (Body(x) + (x.after + ([sep] + more))) && (sep == CLOSE_OBJECT || sep == COMMA)
  {
    hide Spell, Ascii, Proper, AllWs, Quotes, AllOk, ProperPairs;
    Characters();
    var (sep, more) := AfterPair(pairs);
    if |pairs| == 1 {
      assert [sep] + more == Ascii("}");
    } else {
      assert [sep] + more == Ascii(",") + SpellPairs(pairs[1..]);
    }
  }

  lemma PairsMeant(pairs: seq<Pair>)
    requires pairs != [] && ProperPairs(pairs) && ProperPairs(pairs[1..]) && ProperPair(pairs[0])
    ensures PairsMean(pairs) == [Member(Said(pairs[0].key), Meaning(pairs[0].tree))] + PairsMean(pairs[1..])
  {
    hide Meaning, ProperPairs, Proper, Said, AllOk;
  }

  /** A key, its colon at `k`, and the value at `v`. */
  lemma BodyLies(t: Text, a: nat, x: Pair, k: nat, v: nat)
    requires ProperPair(x) && Has(t, a, Body(x)) && k == a + |Quotes(x.key)| + |x.mid| && v == k + 1 + |x.gap|
    ensures a < |t| && SkipWs(t, a) == a && t[a] == QUOTE
    ensures StringRest(t, a + 1).At? && StringRest(t, a + 1).value == Said(x.key) && SkipWs(t, StringRest(t, a + 1).i) == k < |t| && t[k] == COLON
    ensures v <= |t| && SkipWs(t, k + 1) == SkipWs(t, v) && Has(t, v, Spell(x.tree)) && a + |Body(x)| == v + |Spell(x.tree)|
  {
    hide Has, StringRest, Quotes, Spell, Said, AllWs, AllOk, Proper, SkipWs, Starts;
    var q, last := Quotes(x.key), Spell(x.tree);
    FiveParts(t, a, q, x.mid, x.gap, last);
    QuotesRead(t, a, x.key);
    NotSpace(t, a);
    OverWs(t, a + |q|, x.mid);
    FirstByte(t, k, [COLON]);
    NotSpace(t, k);
    OverWs(t, k + 1, x.gap);
  }

  /** The parts of a pair lie one after another. */
  lemma FiveParts(t: Text, a: nat, q: Text, mid: Text, gap: Text, last: Text)
    requires Has(t, a, q + (mid + ([COLON] + (gap + last))))
    ensures var k := a + |q| + |mid|;
            Has(t, a, q) && Has(t, a + |q|, mid) && Has(t, k, [COLON]) && Has(t, k + 1, gap) && Has(t, k + 1 + |gap|, last)
    ensures |q + (mid + ([COLON] + (gap + last)))| == |q| + |mid| + 1 + |gap| + |last|
  {
    hide Has;
    var c := [COLON] + (gap + last);
    HasParts(t, a, q, mid + c);
    HasParts(t, a + |q|, mid, c);
    HasParts(t, a + |q| + |mid|, [COLON], gap + last);
    HasParts(t, a + |q| + |mid| + 1, gap, last);
  }

  lemma NotSpace(t: Text, i: nat)
    requires i < |t| && (t[i] == QUOTE || t[i] == COLON)
    ensures SkipWs(t, i) == i && Starts(t[i])
  {}

  lemma {:induction false} PairsRead(pairs: seq<Pair>, t: Text, i: nat, d: nat)
    requires pairs != [] && ProperPairs(pairs) && Has(t, i, SpellPairs(pairs))
    ensures i <= |t| && SkipWs(t, i) < |t| && Starts(t[SkipWs(t, i)])
    ensures Members(t, i, d)
            == if AllMembersFit(PairsMean(pairs), MAX_DEPTH - d) then At(PairsMean(pairs), i + |SpellPairs(pairs)|) else Bad
    decreases pairs, 2
  {
    hide Value, Has, Spell, Fits, Proper, SpellPairs, Members, MemberAt, Starts, Ends, SkipWs, AllWs, Meaning, PairsMean, ProperPairs,
         StringRest, Said, Quotes, Body, AllOk;
    var x := pairs[0];
    PairsProper(pairs);
    PairsText(pairs);
    PairsMeant(pairs);
    var a := i + |x.before|;
    var b := a + |Body(x)|;
    var (sep, more) := AfterPair(pairs);
    Laid(t, i, x.before, Body(x), x.after, sep, more, a, b);
    var k := a + |Quotes(x.key)| + |x.mid|;
    var v := k + 1 + |x.gap|;
    BodyLies(t, a, x, k, v);
    NotSpace(t, a);
    TreeReads(x.tree, t, v, d);
    MemberReads(t, i, a, Said(x.key), k, v, d);
    var ms := PairsMean(pairs);
    MembersFitRest(ms, MAX_DEPTH - d);
    if |pairs| == 1 {
      LastMember(ms, t, i, d, b, b + |x.after|);
    } else {
      PairsRead(pairs[1..], t, b + |x.after| + 1, d);
      assert ms[1..] == PairsMean(pairs[1..]);
      NextMember(ms, t, i, d, b, b + |x.after|);
    }
  }

  lemma MemberReads(t: Text, i: nat, a: nat, key: Text, k: nat, v: nat, d: nat)
    requires i <= |t| && a < |t| && SkipWs(t, i) == SkipWs(t, a) == a && t[a] == QUOTE
    requires StringRest(t, a + 1).At? && StringRest(t, a + 1).value == key && SkipWs(t, StringRest(t, a + 1).i) == k < |t| && t[k] == COLON
    requires k + 1 <= v <= |t| && SkipWs(t, k + 1) == SkipWs(t, v)
    ensures MemberAt(t, i, d) == if Value(t, v, d).Bad? then Bad else At(Member(key, Value(t, v, d).value), Value(t, v, d).i)
  {
    hide Value, SkipWs, StringRest;
    ValueSkipsWs(t, k + 1, v, d);
  }

  lemma MembersFitRest(members: seq<Member>, room: int)
    requires members != []
    ensures AllMembersFit(members, room) <==> Fits(members[0].value, room) && AllMembersFit(members[1..], room)
  {
    hide Fits;
    if Fits(members[0].value, room) && AllMembersFit(members[1..], room) {
      forall k | 0 <= k < |members| ensures Fits(members[k].value, room) {
        if k > 0 { assert members[k] == members[1..][k - 1]; }
      }
    }
  }

  lemma LastMember(ms: seq<Member>, t: Text, i: nat, d: nat, b: nat, c: nat)
    requires |ms| == 1 && i <= b < |t| && SkipWs(t, b) == c < |t| && t[c] == CLOSE_OBJECT
    requires MemberAt(t, i, d) == if Fits(ms[0].value, MAX_DEPTH - d) then At(ms[0], b) else Bad
    ensures Members(t, i, d) == if AllMembersFit(ms, MAX_DEPTH - d) then At(ms, c + 1) else Bad
  {
    hide MemberAt, Fits, SkipWs;
    assert [ms[0]] == ms;
  }

  lemma NextMember(ms: seq<Member>, t: Text, i: nat, d: nat, b: nat, c: nat)
    requires |ms| > 1 && i <= b < |t| && SkipWs(t, b) == c < |t| && t[c] == COMMA
    requires MemberAt(t, i, d) == if Fits(ms[0].value, MAX_DEPTH - d) then At(ms[0], b) else Bad
    requires Members(t, c + 1, d).At? ==> Members(t, c + 1, d).value == ms[1..]
    ensures Members(t, i, d) == if Fits(ms[0].value, MAX_DEPTH - d) && Members(t, c + 1, d).At? then At(ms, Members(t, c + 1, d).i) else Bad
  {
    hide MemberAt, Fits, SkipWs;
    assert [ms[0]] + ms[1..] == ms;
  }

  // ---- whatever is read is spelled ------------------------------------------------------------------------------

  /** The whitespace skipped at `i`. */
  function Skipped(t: Text, i: nat): Text
    requires i <= |t|
  {
    t[i..SkipWs(t, i)]
  }

  lemma {:induction false} SkippedIs(t: Text, i: nat)
    requires i <= |t|
    ensures AllWs(Skipped(t, i)) && Has(t, i, Skipped(t, i)) && i + |Skipped(t, i)| == SkipWs(t, i)
    decreases |t| - i
  {
    if i < |t| && IsWs(t[i]) {
      SkippedIs(t, i + 1);
      WsIs(t[i]);
      assert Skipped(t, i) == [t[i]] + Skipped(t, i + 1);
    }
  }

  lemma OneByte(t: Text, i: nat, c: Byte)
    requires i < |t| && t[i] == c
    ensures Has(t, i, [c])
  {
    assert t[i..i + 1] == [c];
  }

  lemma {:induction false} TreeBack(t: Text, i: nat, d: nat) returns (tree: Tree)
    requires i <= |t| && Value(t, i, d).At?
    ensures Proper(tree) && Has(t, SkipWs(t, i), Spell(tree)) && Value(t, i, d).i == SkipWs(t, i) + |Spell(tree)|
    decreases |t| - i, 1
  {
    var a := SkipWs(t, i);
    if t[a] == OPEN_ARRAY {
      tree := ListBack(t, i, a, d);
    } else if t[a] == OPEN_OBJECT {
      tree := TableBack(t, i, a, d);
    } else {
      hide Scalar;
      tree := PlainBack(t, a);
    }
  }

  lemma QuotesBack(t: Text, i: nat) returns (ps: seq<Piece>)
    requires i < |t| && t[i] == QUOTE && StringRest(t, i + 1).At?
    ensures AllOk(ps) && Has(t, i, Quotes(ps)) && StringRest(t, i + 1) == At(Said(ps), i + |Quotes(ps)|)
  {
    hide Has, StringRest, Ascii, Spelled, Said;
    ps := StringBack(t, i + 1);
    SpelledReads(t, i + 1, ps);
    Characters();
    OneByte(t, i, QUOTE);
    Joins(t, i, [QUOTE], Spelled(ps) + [QUOTE]);
  }

  lemma PlainBack(t: Text, i: nat) returns (tree: Tree)
    requires i < |t| && Scalar(t, i).At?
    ensures Proper(tree) && Has(t, i, Spell(tree)) && Scalar(t, i).i == i + |Spell(tree)|
  {
    hide Has, StringRest, ScanNumber, Ascii, Spelled, Said, Number.Text, Number.Ok;
    if t[i] == QUOTE {
      var ps := QuotesBack(t, i);
      tree := Quote(ps);
    } else if Has(t, i, TrueText()) || Has(t, i, FalseText()) || Has(t, i, NullText()) {
      Words();
      tree := Word(Scalar(t, i).value);
    } else {
      ScannedIsGrammatical(t, i);
      var x := t[i..ScanNumber(t, i).value];
      var n: Number :| n.Ok() && n.Text() == x;
      tree := Numeral(n);
      assert Has(t, i, x) by { SliceHas(t, i, ScanNumber(t, i).value); }
    }
  }

  lemma SliceHas(t: Text, i: nat, j: nat)
    requires i <= j <= |t|
    ensures Has(t, i, t[i..j])
  {}

  /** How an array was read: empty, or by its items. */
  lemma ArrayCase(t: Text, i: nat, d: nat)
    requires i <= |t| && SkipWs(t, i) < |t| && t[SkipWs(t, i)] == OPEN_ARRAY && Value(t, i, d).At?
    ensures var a := SkipWs(t, i);
            var k := SkipWs(t, a + 1);
            if k < |t| && t[k] == CLOSE_ARRAY then Value(t, i, d).i == k + 1
            else Items(t, a + 1, d + 1).At? && Value(t, i, d).i == Items(t, a + 1, d + 1).i
  {
    hide SkipWs, Items, Members, Scalar;
  }

  lemma {:induction false} ListBack(t: Text, i: nat, a: nat, d: nat) returns (tree: Tree)
    requires i <= |t| && a == SkipWs(t, i) < |t| && t[a] == OPEN_ARRAY && Value(t, i, d).At?
    ensures Proper(tree) && Has(t, a, Spell(tree)) && Value(t, i, d).i == a + |Spell(tree)|
    decreases |t| - i, 0
  {
    hide Has, SkipWs, Ascii, AllWs, Spell, Items, Members, Value, ProperItems, SpellItems;
    ArrayCase(t, i, d);
    OneByte(t, a, OPEN_ARRAY);
    var k := SkipWs(t, a + 1);
    if k < |t| && t[k] == CLOSE_ARRAY {
      SkippedIs(t, a + 1);
      OneByte(t, k, CLOSE_ARRAY);
      Joins(t, a + 1, Skipped(t, a + 1), [CLOSE_ARRAY]);
      tree := List(Skipped(t, a + 1), []);
      Joins(t, a, [OPEN_ARRAY], tree.gap + [CLOSE_ARRAY]);
    } else {
      AfterSkip(t, i);
      var items := ItemsBack(t, a + 1, d + 1);
      tree := List([], items);
      ProperList(tree);
      Joins(t, a, [OPEN_ARRAY], SpellItems(items));
    }
    ListIs(tree, 0);
  }

  lemma AfterSkip(t: Text, i: nat)
    requires i <= |t|
    ensures i <= SkipWs(t, i)
  {}

  lemma ProperList(tree: Tree)
    requires tree.List? && tree.gap == [] && ProperItems(tree.items)
    ensures Proper(tree)
  {}

  lemma {:induction false} ItemsBack(t: Text, i: nat, d: nat) returns (items: seq<Item>)
    requires i <= |t| && Items(t, i, d).At?
    ensures items != [] && ProperItems(items) && Has(t, i, SpellItems(items)) && Items(t, i, d).i == i + |SpellItems(items)|
    decreases |t| - i, 2
  {
    hide Has, SkipWs, Ascii, AllWs, Spell, Value, SpellItems, Proper, ProperItems;
    var tree := TreeBack(t, i, d);
    var b := Value(t, i, d).i;
    var c := SkipWs(t, b);
    SkippedIs(t, i);
    SkippedIs(t, b);
    var x := Item(Skipped(t, i), tree, Skipped(t, b));
    if t[c] == COMMA {
      var rest := ItemsBack(t, c + 1, d);
      items := [x] + rest;
      ItemsProper1(x, rest);
      FourJoin(t, i, x.before, Spell(tree), x.after, COMMA, SpellItems(rest));
      assert items[1..] == rest;
    } else {
      items := [x];
      ItemsProper1(x, []);
      assert items == [x] + [];
      FourJoin(t, i, x.before, Spell(tree), x.after, CLOSE_ARRAY, []);
    }
    ItemsProper(items);
    ItemsText(items);
  }

  lemma ItemsProper1(x: Item, rest: seq<Item>)
    requires AllWs(x.before) && Proper(x.tree) && AllWs(x.after) && (rest == [] || ProperItems(rest))
    ensures ProperItems([x] + rest)
  {
    hide AllWs, Proper;
  }

  /** Four parts one after another. */
  lemma FourJoin(t: Text, i: nat, before: Text, body: Text, after: Text, sep: Byte, more: Text)
    requires Has(t, i, before) && Has(t, i + |before|, body) && Has(t, i + |before| + |body|, after)
    requires var c := i + |before| + |body| + |after|; c < |t| && t[c] == sep && (more == [] || Has(t, c + 1, more))
    ensures Has(t, i, before + (body + (after + ([sep] + more))))
  {
    hide Has;
    var b := i + |before| + |body|;
    var c := b + |after|;
    OneByte(t, c, sep);
    if more == [] { assert [sep] + more == [sep]; } else { Joins(t, c, [sep], more); }
    Joins(t, b, after, [sep] + more);
    Joins(t, i + |before|, body, after + ([sep] + more));
    Joins(t, i, before, body + (after + ([sep] + more)));
  }

  /** How an object was read: empty, or by its members. */
  lemma ObjectCase(t: Text, i: nat, d: nat)
    requires i <= |t| && SkipWs(t, i) < |t| && t[SkipWs(t, i)] == OPEN_OBJECT && Value(t, i, d).At?
    ensures var a := SkipWs(t, i);
            var k := SkipWs(t, a + 1);
            if k < |t| && t[k] == CLOSE_OBJECT then Value(t, i, d).i == k + 1
            else Members(t, a + 1, d + 1).At? && Value(t, i, d).i == Members(t, a + 1, d + 1).i
  {
    hide SkipWs, Items, Members, Scalar;
  }

  lemma {:induction false} TableBack(t: Text, i: nat, a: nat, d: nat) returns (tree: Tree)
    requires i <= |t| && a == SkipWs(t, i) < |t| && t[a] == OPEN_OBJECT && Value(t, i, d).At?
    ensures Proper(tree) && Has(t, a, Spell(tree)) && Value(t, i, d).i == a + |Spell(tree)|
    decreases |t| - i, 0
  {
    hide Has, SkipWs, Ascii, AllWs, Spell, Items, Members, Value, ProperPairs, SpellPairs;
    ObjectCase(t, i, d);
    OneByte(t, a, OPEN_OBJECT);
    var k := SkipWs(t, a + 1);
    if k < |t| && t[k] == CLOSE_OBJECT {
      SkippedIs(t, a + 1);
      OneByte(t, k, CLOSE_OBJECT);
      Joins(t, a + 1, Skipped(t, a + 1), [CLOSE_OBJECT]);
      tree := Table(Skipped(t, a + 1), []);
      Joins(t, a, [OPEN_OBJECT], tree.gap + [CLOSE_OBJECT]);
    } else {
      AfterSkip(t, i);
      var pairs := PairsBack(t, a + 1, d + 1);
      tree := Table([], pairs);
      ProperTable(tree);
      Joins(t, a, [OPEN_OBJECT], SpellPairs(pairs));
    }
    TableIs(tree, 0);
  }

  lemma ProperTable(tree: Tree)
    requires tree.Table? && tree.gap == [] && ProperPairs(tree.pairs)
    ensures Proper(tree)
  {}

  lemma {:induction false} PairBack(t: Text, i: nat, d: nat, after: Text) returns (x: Pair)
    requires i <= |t| && MemberAt(t, i, d).At? && AllWs(after)
    ensures ProperPair(x) && x.before == Skipped(t, i) && x.after == after
    ensures Has(t, SkipWs(t, i), Body(x)) && MemberAt(t, i, d).i == SkipWs(t, i) + |Body(x)|
    decreases |t| - i, 2
  {
    hide Has, SkipWs, Ascii, AllWs, Spell, Value, Proper, StringRest, Spelled, AllOk, Said;
    var a := SkipWs(t, i);
    var ps := StringBack(t, a + 1);
    SpelledReads(t, a + 1, ps);
    var e := StringRest(t, a + 1).i;
    var k := SkipWs(t, e);
    AfterSkip(t, i);
    var tree := TreeBack(t, k + 1, d);
    SkippedIs(t, i);
    SkippedIs(t, e);
    SkippedIs(t, k + 1);
    x := Pair(Skipped(t, i), ps, Skipped(t, e), Skipped(t, k + 1), tree, after);
    Characters();
    OneByte(t, a, QUOTE);
    Joins(t, a, [QUOTE], Spelled(ps) + [QUOTE]);
    OneByte(t, k, COLON);
    Joins(t, k + 1, x.gap, Spell(tree));
    Joins(t, k, [COLON], x.gap + Spell(tree));
    Joins(t, e, x.mid, [COLON] + (x.gap + Spell(tree)));
    Joins(t, a, Quotes(ps), x.mid + ([COLON] + (x.gap + Spell(tree))));
  }

  lemma {:induction false} PairsBack(t: Text, i: nat, d: nat) returns (pairs: seq<Pair>)
    requires i <= |t| && Members(t, i, d).At?
    ensures pairs != [] && ProperPairs(pairs) && Has(t, i, SpellPairs(pairs)) && Members(t, i, d).i == i + |SpellPairs(pairs)|
    decreases |t| - i, 3
  {
    hide Has, SkipWs, AllWs, Spell, MemberAt, SpellPairs, ProperPair, ProperPairs, Body;
    var b := MemberAt(t, i, d).i;
    var c := SkipWs(t, b);
    SkippedIs(t, i);
    SkippedIs(t, b);
    var x := PairBack(t, i, d, Skipped(t, b));
    if t[c] == COMMA {
      var rest := PairsBack(t, c + 1, d);
      pairs := [x] + rest;
      PairsProper1(x, rest);
      FourJoin(t, i, x.before, Body(x), x.after, COMMA, SpellPairs(rest));
      assert pairs[1..] == rest;
    } else {
      pairs := [x];
      PairsProper1(x, []);
      assert pairs == [x] + [];
      FourJoin(t, i, x.before, Body(x), x.after, CLOSE_OBJECT, []);
    }
    PairsProper(pairs);
    PairsText(pairs);
  }

  lemma PairsProper1(x: Pair, rest: seq<Pair>)
    requires ProperPair(x) && (rest == [] || ProperPairs(rest))
    ensures ProperPairs([x] + rest)
  {
    hide ProperPair;
  }

  // ---- whole texts ------------------------------------------------------------------------------------------------

  /** A text of the grammar: a value, and whitespace around it. */
  ghost predicate TextOf(t: Text, tree: Tree) {
    && Proper(tree)
    && exists before, after :: AllWs(before) && AllWs(after) && t == before + (Spell(tree) + after)
  }

  lemma SpelledText(t: Text, tree: Tree, before: Text, after: Text)
    requires Proper(tree) && AllWs(before) && AllWs(after) && t == before + (Spell(tree) + after)
    ensures ParseText(t) == if Fits(Meaning(tree), MAX_DEPTH) then Some(Meaning(tree)) else None
  {
    hide Has, Value, Spell, Meaning, Proper, Fits, AllWs, SkipWs;
    HasWhole(t);
    HasParts(t, 0, before, Spell(tree) + after);
    HasParts(t, |before|, Spell(tree), after);
    OverWs(t, 0, before);
    var e := |before| + |Spell(tree)|;
    OverWs(t, e, after);
    EndOfText(t, e, after);
    TreeReads(tree, t, |before|, 0);
    ValueSkipsWs(t, 0, |before|, 0);
  }

  lemma EndOfText(t: Text, e: nat, after: Text)
    requires e + |after| == |t| && Has(t, e, after) && AllWs(after)
    ensures Ends(t, e) && SkipWs(t, |t|) == |t|
  {
    if after != [] { FirstByte(t, e, after); }
  }

  /** The parser exactly: a text is accepted, as `j`, if and only if it is a text of the grammar
      that means `j`, nesting at most 64 deep. */
  lemma ParsesExactly(t: Text, j: Json)
    ensures ParseText(t) == Some(j) <==> Fits(j, MAX_DEPTH) && exists tree :: TextOf(t, tree) && Meaning(tree) == j
  {
    hide Value, Spell, Meaning, Proper, Fits, AllWs, SkipWs;
    if ParseText(t) == Some(j) {
      var tree := TreeBack(t, 0, 0);
      var e := Value(t, 0, 0).i;
      SkippedIs(t, 0);
      SkippedIs(t, e);
      var before, after := Skipped(t, 0), Skipped(t, e);
      assert t == before + (Spell(tree) + after);
      SpelledText(t, tree, before, after);
      assert TextOf(t, tree);
    }
    if Fits(j, MAX_DEPTH) && exists tree :: TextOf(t, tree) && Meaning(tree) == j {
      var tree :| TextOf(t, tree) && Meaning(tree) == j;
      var before, after :| AllWs(before) && AllWs(after) && t == before + (Spell(tree) + after);
      SpelledText(t, tree, before, after);
    }
  }
}
