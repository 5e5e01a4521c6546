/** The parser as an object that advances through the text, and the printer that appends:
    both proved equal to the functions. */
module JsonParser {
  import opened Bytes
  import opened JsonText
  import opened JsonNumbers
  import opened JsonValues
  import opened JsonGrammar
  import opened JsonTrees

  /** The first thing that went wrong, and where. */
  datatype Failure = Failure(what: string, at: nat)

  class Parser {
    const t: Text
    var i: nat
    var depth: nat
    var err: Option<Failure>

    ghost predicate Valid()
      reads this
    {
      i <= |t|
    }

    constructor (t: Text)
      ensures Valid() && this.t == t && i == 0 && depth == 0 && err == None
    {
      this.t, i, depth, err := t, 0, 0, None;
    }

    method Fail(what: string)
      modifies this`err
      ensures err.Some? && (old(err).Some? ==> err == old(err))
    {
      if err.None? { err := Some(Failure(what, i)); }
    }

    method Ws()
      requires Valid()
      modifies this`i
      ensures Valid() && i == SkipWs(t, old(i))
    {
      while i < |t| && IsWs(t[i])
        invariant Valid() && SkipWs(t, i) == SkipWs(t, old(i))
        decreases |t| - i
      {
        i := i + 1;
      }
    }

    method ParseHex4() returns (ok: bool, v: nat)
      requires Valid()
      modifies this`i, this`err
      ensures Valid() && old(i) <= i && (ok <==> Hex4(t, old(i)).Some?)
      ensures ok ==> v == Hex4(t, old(i)).value && i == old(i) + 4 && err == old(err)
      ensures !ok ==> err.Some?
    {
      v := 0;
      if i + 4 > |t| {
        Fail("truncated \\u escape");
        return false, v;
      }
      var start := i;
      for k := 0 to 4
        invariant i == start + k && start + 4 <= |t| && HexTo(t, start, k) == Some(v) && err == old(err)
      {
        var h := HexValue(t[i]);
        i := i + 1;
        if h.None? {
          HexStops(t, start, k + 1, 4);
          Fail("bad \\u escape");
          return false, v;
        }
        v := v * 16 + h.value;
      }
      return true, v;
    }

    /** The rest of a string, its opening quote read. */
    method ParseString() returns (ok: bool, s: Text)
      requires Valid()
      modifies this`i, this`err
      ensures Valid() && old(i) <= i
      ensures var r := if old(i) < |t| && t[old(i)] == QUOTE then StringRest(t, old(i) + 1) else Bad;
              && (ok <==> r.At?) && (ok ==> s == r.value && i == r.i && err == old(err))
      ensures !ok ==> err.Some?
      ensures ok ==> exists ps :: AllOk(ps) && Has(t, old(i), Quotes(ps)) && s == Said(ps) && i == old(i) + |Quotes(ps)|
    {
      hide StringRest, Escape, Has, Quotes, Said;
      ghost var start := i;
      if i < |t| && t[i] == QUOTE && StringRest(t, i + 1).At? { ghost var ps := QuotesBack(t, i); }
      s := [];
      if i >= |t| || t[i] != QUOTE {
        Fail("expected string");
        return false, s;
      }
      i := i + 1;
      ghost var want := StringRest(t, i);
      PrependNothing(want);
      while i < |t|
        invariant Valid() && old(i) < i && want == Prepend(s, StringRest(t, i)) && err == old(err)
        decreases |t| - i
      {
        StringStep(t, i);
        var c := t[i];
        i := i + 1;
        if c == QUOTE { return true, s; }
        if c != BACKSLASH {
          PrependTwice(s, [c], StringRest(t, i));
          s := s + [c];
          continue;
        }
        var good, x := ParseEscape();
        if !good { return false, s; }
        PrependTwice(s, x, StringRest(t, i));
        s := s + x;
      }
      StringEnd(t);
      Fail("unterminated string");
      return false, s;
    }

    /** After a backslash. */
    method ParseEscape() returns (ok: bool, x: Text)
      requires Valid()
      modifies this`i, this`err
      ensures Valid() && old(i) <= i && (ok <==> Escape(t, old(i)).At?)
      ensures ok ==> x == Escape(t, old(i)).value && i == Escape(t, old(i)).i && err == old(err)
      ensures !ok ==> err.Some?
    {
      hide Unicode;
      x := [];
      if i >= |t| {
        Fail("truncated escape");
        return false, x;
      }
      var e := t[i];
      i := i + 1;
      if Simple(e).Some? { return true, [Simple(e).value]; }
      if e != LOWER_U {
        Fail("unknown escape");
        return false, x;
      }
      ok, x := ParseUnicode();
    }

    method ParseUnicode() returns (ok: bool, x: Text)
      requires Valid()
      modifies this`i, this`err
      ensures Valid() && old(i) <= i && (ok <==> Unicode(t, old(i)).At?)
      ensures ok ==> x == Unicode(t, old(i)).value && i == Unicode(t, old(i)).i && err == old(err)
      ensures !ok ==> err.Some?
    {
      hide Hex4, Utf8;
      x := [];
      var cp, lo;
      ok, cp := ParseHex4();
      if !ok { return; }
      if HighSurrogate(cp) {
        if i + 6 <= |t| && t[i] == BACKSLASH && t[i + 1] == LOWER_U {
          var save := i;
          i := i + 2;
          ok, lo := ParseHex4();
          if !ok { return; }
          if LowSurrogate(lo) {
            cp := 0x1_0000 + (cp - 0xD800) * 0x400 + (lo - 0xDC00);
          } else {
            cp := REPLACEMENT;
            i := save;
          }
        } else {
          cp := REPLACEMENT;
        }
      } else if LowSurrogate(cp) {
        cp := REPLACEMENT;
      }
      x := Utf8(cp);
    }

    method ParseNumber() returns (ok: bool, j: Json)
      requires Valid() && i < |t|
      modifies this`i, this`err
      ensures Valid() && old(i) <= i && (ok <==> ScanNumber(t, old(i)).Some?)
      ensures ok ==> i == ScanNumber(t, old(i)).value && j == Num(t[old(i)..i]) && err == old(err)
      ensures !ok ==> err.Some?
    {
      hide ScanDigits, ScanFrac, ScanExp;
      j := Null;
      var start := i;
      if t[i] == MINUS { i := i + 1; }
      var intStart := i;
      ok := ParseDigits("bad number");
      if !ok { return; }
      if t[intStart] == ZERO && i - intStart > 1 {
        Fail("leading zero");
        ok := false;
        return;
      }
      ok := ParseFrac();
      if !ok { return; }
      ok := ParseExp();
      j := Num(t[start..i]);
    }

    method ParseFrac() returns (ok: bool)
      requires Valid()
      modifies this`i, this`err
      ensures Valid() && old(i) <= i && (ok <==> ScanFrac(t, old(i)).Some?)
      ensures ok ==> i == ScanFrac(t, old(i)).value && err == old(err)
      ensures !ok ==> err.Some?
    {
      hide ScanDigits;
      if i >= |t| || t[i] != DOT { return true; }
      i := i + 1;
      ok := ParseDigits("bad fraction");
    }

    method ParseExp() returns (ok: bool)
      requires Valid()
      modifies this`i, this`err
      ensures Valid() && old(i) <= i && (ok <==> ScanExp(t, old(i)).Some?)
      ensures ok ==> i == ScanExp(t, old(i)).value && err == old(err)
      ensures !ok ==> err.Some?
    {
      hide ScanDigits;
      if i >= |t| || !IsExp(t[i]) { return true; }
      i := i + 1;
      if i < |t| && (t[i] == PLUS || t[i] == MINUS) { i := i + 1; }
      ok := ParseDigits("bad exponent");
    }

    /** A run of digits, at least one. */
    method ParseDigits(what: string) returns (ok: bool)
      requires Valid()
      modifies this`i, this`err
      ensures Valid() && old(i) <= i && (ok <==> ScanDigits(t, old(i)).Some?)
      ensures ok ==> i == ScanDigits(t, old(i)).value && err == old(err)
      ensures !ok ==> err.Some?
    {
      var start := i;
      while i < |t| && IsDigit(t[i])
        invariant Valid() && start <= i && SkipDigits(t, i) == SkipDigits(t, start) && err == old(err)
        decreases |t| - i
      {
        i := i + 1;
      }
      ok := i != start;
      if !ok { Fail(what); }
    }

    method ParseScalar() returns (ok: bool, j: Json)
      requires Valid() && i < |t|
      modifies this`i, this`err
      ensures Valid() && old(i) <= i && (ok <==> Scalar(t, old(i)).At?)
      ensures ok ==> j == Scalar(t, old(i)).value && i == Scalar(t, old(i)).i && err == old(err)
      ensures !ok ==> err.Some?
    {
      hide StringRest, ScanNumber;
      ok, j := true, Null;
      if t[i] == QUOTE {
        var s;
        ok, s := ParseString();
        j := Str(s);
      } else if Has(t, i, TrueText()) {
        i, j := i + 4, Bool(true);
      } else if Has(t, i, FalseText()) {
        i, j := i + 5, Bool(false);
      } else if Has(t, i, NullText()) {
        i := i + 4;
      } else if t[i] == MINUS || IsDigit(t[i]) {
        ok, j := ParseNumber();
      } else {
        Fail("unexpected character");
        ok := false;
      }
    }

    /** One value. It terminates on every text, leaves the depth as it found it, and agrees
        with the function whatever the text; a failure always has a reason. */
    method ParseValue() returns (ok: bool, j: Json)
      requires Valid()
      modifies this
      ensures Valid() && old(i) <= i && depth == old(depth) && (ok <==> Value(t, old(i), depth).At?)
      ensures ok ==> j == Value(t, old(i), depth).value && i == Value(t, old(i), depth).i && err == old(err)
      ensures !ok ==> err.Some?
      decreases |t| - i, 1
    {
      hide Scalar, Items, Members, SkipWs;
      j := Null;
      Ws();
      if i >= |t| {
        Fail("unexpected end");
        return false, j;
      }
      if (t[i] == OPEN_OBJECT || t[i] == OPEN_ARRAY) && depth >= MAX_DEPTH {
        Fail("nesting too deep");
        return false, j;
      }
      if t[i] == OPEN_OBJECT {
        ok, j := ParseObject();
      } else if t[i] == OPEN_ARRAY {
        ok, j := ParseArray();
      } else {
        ok, j := ParseScalar();
      }
    }

    method ParseArray() returns (ok: bool, j: Json)
      requires Valid() && i < |t| && t[i] == OPEN_ARRAY
      modifies this
      ensures Valid() && old(i) < i && depth == old(depth)
      ensures var k := SkipWs(t, old(i) + 1);
              var r := if k < |t| && t[k] == CLOSE_ARRAY then At([], k + 1) else Items(t, old(i) + 1, depth + 1);
              && (ok <==> r.At?) && (ok ==> j == Array(r.value) && i == r.i && err == old(err))
      ensures !ok ==> err.Some?
      decreases |t| - i, 0
    {
      hide Value, Items, SkipWs;
      depth := depth + 1;
      i := i + 1;
      ghost var first := i;
      ghost var want := Items(t, first, depth);
      var items := [];
      Ws();
      if i < |t| && t[i] == CLOSE_ARRAY {
        i := i + 1;
        depth := depth - 1;
        return true, Array([]);
      }
      ItemsSkipWs(t, first, i, depth);
      PrependNothing(want);
      while true
        invariant Valid() && old(i) < i && depth == old(depth) + 1 && err == old(err)
        invariant want == Prepend(items, Items(t, i, depth))
        decreases |t| - i
      {
        ItemsStep(t, i, depth);
        ghost var rest := Items(t, i, depth);
        var good, v := ParseValue();
        if !good {
          depth := depth - 1;
          return false, Null;
        }
        Ws();
        if i < |t| && t[i] == COMMA {
          i := i + 1;
          PrependTwice(items, [v], Items(t, i, depth));
          items := items + [v];
          continue;
        }
        items := items + [v];
        depth := depth - 1;
        if i < |t| && t[i] == CLOSE_ARRAY {
          i := i + 1;
          return true, Array(items);
        }
        Fail("expected ',' or ']'");
        return false, Null;
      }
    }

    method ParseObject() returns (ok: bool, j: Json)
      requires Valid() && i < |t| && t[i] == OPEN_OBJECT
      modifies this
      ensures Valid() && old(i) < i && depth == old(depth)
      ensures var k := SkipWs(t, old(i) + 1);
              var r := if k < |t| && t[k] == CLOSE_OBJECT then At([], k + 1) else Members(t, old(i) + 1, depth + 1);
              && (ok <==> r.At?) && (ok ==> j == Object(r.value) && i == r.i && err == old(err))
      ensures !ok ==> err.Some?
      decreases |t| - i, 0
    {
      hide Value, Members, MemberAt, SkipWs;
      depth := depth + 1;
      i := i + 1;
      ghost var first := i;
      ghost var want := Members(t, first, depth);
      var members := [];
      Ws();
      if i < |t| && t[i] == CLOSE_OBJECT {
        i := i + 1;
        depth := depth - 1;
        return true, Object([]);
      }
      MembersSkipWs(t, first, i, depth);
      PrependNothing(want);
      while true
        invariant Valid() && old(i) < i && depth == old(depth) + 1 && err == old(err)
        invariant want == Prepend(members, Members(t, i, depth))
        decreases |t| - i
      {
        MembersStep(t, i, depth);
        var good, m := ParseMember();
        if !good {
          depth := depth - 1;
          return false, Null;
        }
        Ws();
        if i < |t| && t[i] == COMMA {
          i := i + 1;
          PrependTwice(members, [m], Members(t, i, depth));
          members := members + [m];
          continue;
        }
        members := members + [m];
        depth := depth - 1;
        if i < |t| && t[i] == CLOSE_OBJECT {
          i := i + 1;
          return true, Object(members);
        }
        Fail("expected ',' or '}'");
        return false, Null;
      }
    }

    /** `key : value` of an object. */
    method ParseMember() returns (ok: bool, m: Member)
      requires Valid()
      modifies this
      ensures Valid() && old(i) <= i && depth == old(depth) && (ok <==> MemberAt(t, old(i), depth).At?)
      ensures ok ==> m == MemberAt(t, old(i), depth).value && i == MemberAt(t, old(i), depth).i && err == old(err)
      ensures !ok ==> err.Some?
      decreases |t| - i, 2
    {
      hide Value, StringRest, SkipWs, AllOk, Has, Quotes, Said;
      m := Member([], Null);
      Ws();
      var key, v;
      ok, key := ParseString();
      if !ok { return; }
      Ws();
      if i >= |t| || t[i] != COLON {
        Fail("expected ':'");
        ok := false;
        return;
      }
      i := i + 1;
      ok, v := ParseValue();
      m := Member(key, v);
    }
  }

  lemma ItemsStep(t: Text, i: nat, d: nat)
    requires i <= |t|
    ensures var v := Value(t, i, d);
            Items(t, i, d)
            == if v.Bad? then Bad
               else var k := SkipWs(t, v.i);
                    if k < |t| && t[k] == COMMA then Prepend([v.value], Items(t, k + 1, d))
                    else if k < |t| && t[k] == CLOSE_ARRAY then At([v.value], k + 1) else Bad
  {
    hide Value;
  }

  lemma MembersStep(t: Text, i: nat, d: nat)
    requires i <= |t|
    ensures var m := MemberAt(t, i, d);
            Members(t, i, d)
            == if m.Bad? then Bad
               else var k := SkipWs(t, m.i);
                    if k < |t| && t[k] == COMMA then Prepend([m.value], Members(t, k + 1, d))
                    else if k < |t| && t[k] == CLOSE_OBJECT then At([m.value], k + 1) else Bad
  {
    hide MemberAt;
  }

  /** Whitespace before the first item or key makes no difference. */
  lemma ItemsSkipWs(t: Text, i: nat, j: nat, d: nat)
    requires i <= |t| && j == SkipWs(t, i)
    ensures Items(t, i, d) == Items(t, j, d)
  {
    assert SkipWs(t, j) == j;
    assert Value(t, i, d) == Value(t, j, d);
    ItemsStep(t, i, d);
    ItemsStep(t, j, d);
  }

  lemma MembersSkipWs(t: Text, i: nat, j: nat, d: nat)
    requires i <= |t| && j == SkipWs(t, i)
    ensures Members(t, i, d) == Members(t, j, d)
  {
    hide Members, MemberAt, Value, StringRest;
    assert SkipWs(t, j) == j;
    SameMember(t, i, j, d);
    MembersStep(t, i, d);
    MembersStep(t, j, d);
  }

  lemma SameMember(t: Text, i: nat, j: nat, d: nat)
    requires i <= |t| && j <= |t| && SkipWs(t, i) == SkipWs(t, j)
    ensures MemberAt(t, i, d) == MemberAt(t, j, d)
  {
    hide Value, StringRest, SkipWs;
  }

  lemma {:induction false} HexStops(t: Text, i: nat, k: nat, n: nat)
    requires k <= n && i + n <= |t| && HexTo(t, i, k).None?
    ensures HexTo(t, i, n).None?
    decreases n - k
  {
    if k < n { HexStops(t, i, k + 1, n); }
  }

  lemma StringStep(t: Text, i: nat)
    requires i < |t|
    ensures t[i] == QUOTE ==> StringRest(t, i) == At([], i + 1)
    ensures t[i] != QUOTE && t[i] != BACKSLASH ==> StringRest(t, i) == Prepend([t[i]], StringRest(t, i + 1))
    ensures t[i] == BACKSLASH ==>
              StringRest(t, i) == if Escape(t, i + 1).Bad? then Bad
                                  else Prepend(Escape(t, i + 1).value, StringRest(t, Escape(t, i + 1).i))
  {}

  lemma StringEnd(t: Text)
    ensures StringRest(t, |t|) == Bad
  {}

  /** Json::parse. */
  method ParseJson(t: Text) returns (r: Option<Json>, err: Option<Failure>)
    ensures r == ParseText(t) && (r.None? <==> err.Some?)
    ensures forall j :: r == Some(j) <==> Fits(j, 64) && exists tree :: TextOf(t, tree) && Meaning(tree) == j
  {
    hide Value, SkipWs, Meaning, Fits, Proper;
    forall j ensures ParseText(t) == Some(j) <==> Fits(j, 64) && exists tree :: TextOf(t, tree) && Meaning(tree) == j { ParsesExactly(t, j); }
    var p := new Parser(t);
    var ok, j := p.ParseValue();
    if !ok { return None, p.err; }
    p.Ws();
    if p.i != |t| { return None, Some(Failure("trailing characters", p.i)); }
    return Some(j), None;
  }

  // ---- the printer ---------------------------------------------------------------------------------

  method JsonEscape(s: Text) returns (out: Text)
    ensures out == Escaped(s)
  {
    hide EscapeByte;
    out := [];
    for k := 0 to |s|
      invariant out + Escaped(s[k..]) == Escaped(s)
    {
      assert s[k..][0] == s[k] && s[k..][1..] == s[k + 1..];
      out := out + EscapeByte(s[k]);
    }
    assert s[|s|..] == [];
  }

  /** What is still to be written when `k` items have been. */
  ghost function ItemsLeft(items: seq<Json>, k: nat, indent: int, level: nat, flat: bool): Text
    requires k <= |items|
  {
    if k == |items| then (if k == 0 then [] else ItemBreak(indent, level, flat)) + [CLOSE_ARRAY]
    else (if k == 0 then [] else [COMMA]) + DumpItems(items[k..], indent, level, flat)
  }

  lemma ItemsLeftStep(items: seq<Json>, k: nat, indent: int, level: nat, flat: bool)
    requires k < |items|
    ensures ItemsLeft(items, k, indent, level, flat)
            == (if k == 0 then [] else [COMMA]) + ItemBreak(indent, level + 1, flat) + Dump(items[k], indent, level + 1)
               + ItemsLeft(items, k + 1, indent, level, flat)
  {
    hide Dump, ItemBreak, ItemsLeft;
    var gap, first, rest := ItemBreak(indent, level + 1, flat), Dump(items[k], indent, level + 1), ItemsLeft(items, k + 1, indent, level, flat);
    assert DumpItems(items[k..], indent, level, flat) == gap + (first + rest) by { ItemsFrom(items, k, indent, level, flat); }
    ItemsLeftIs(items, k, indent, level, flat);
  }

  lemma ItemsLeftIs(items: seq<Json>, k: nat, indent: int, level: nat, flat: bool)
    requires k < |items|
    ensures ItemsLeft(items, k, indent, level, flat) == (if k == 0 then [] else [COMMA]) + DumpItems(items[k..], indent, level, flat)
  {
    hide DumpItems;
  }

  lemma ItemsFrom(items: seq<Json>, k: nat, indent: int, level: nat, flat: bool)
    requires k < |items|
    ensures DumpItems(items[k..], indent, level, flat)
            == ItemBreak(indent, level + 1, flat) + (Dump(items[k], indent, level + 1) + ItemsLeft(items, k + 1, indent, level, flat))
  {
    hide Dump, ItemBreak;
    assert items[k..][0] == items[k] && items[k..][1..] == items[k + 1..];
  }

  ghost function MembersLeft(members: seq<Member>, k: nat, indent: int, level: nat): Text
    requires k <= |members|
  {
    if k == |members| then (if k == 0 then [] else Break(indent, level)) + [CLOSE_OBJECT]
    else (if k == 0 then [] else [COMMA]) + DumpMembers(members[k..], indent, level)
  }

  lemma MembersLeftStep(members: seq<Member>, k: nat, indent: int, level: nat)
    requires k < |members|
    ensures MembersLeft(members, k, indent, level)
            == (if k == 0 then [] else [COMMA]) + Break(indent, level + 1) + KeyText(members[k].key, indent)
               + Dump(members[k].value, indent, level + 1) + MembersLeft(members, k + 1, indent, level)
  {
    hide Dump, Break, KeyText, MembersLeft;
    MembersFrom(members, k, indent, level);
    MembersLeftIs(members, k, indent, level);
    var gap, key := Break(indent, level + 1), KeyText(members[k].key, indent);
    var first, rest := Dump(members[k].value, indent, level + 1), MembersLeft(members, k + 1, indent, level);
    assert DumpMembers(members[k..], indent, level) == gap + (key + (first + rest));
    assert gap + (key + (first + rest)) == gap + key + first + rest;
  }

  lemma MembersLeftIs(members: seq<Member>, k: nat, indent: int, level: nat)
    requires k < |members|
    ensures MembersLeft(members, k, indent, level) == (if k == 0 then [] else [COMMA]) + DumpMembers(members[k..], indent, level)
  {
    hide DumpMembers;
  }

  lemma MembersFrom(members: seq<Member>, k: nat, indent: int, level: nat)
    requires k < |members|
    ensures DumpMembers(members[k..], indent, level)
            == Break(indent, level + 1) + (KeyText(members[k].key, indent)
               + (Dump(members[k].value, indent, level + 1) + MembersLeft(members, k + 1, indent, level)))
  {
    hide Dump, Break, KeyText;
    assert members[k..][0] == members[k] && members[k..][1..] == members[k + 1..];
  }

  /** dumpInto: append the text of a value. */
  method DumpInto(j: Json, out0: Text, indent: int, level: nat) returns (out: Text)
    ensures out == out0 + Dump(j, indent, level)
    decreases j, 1
  {
    hide Quoted, DumpItems, DumpMembers;
    match j
    case Null => out := out0 + NullText();
    case Bool(b) => out := out0 + if b then TrueText() else FalseText();
    case Num(text) => out := out0 + text;
    case Str(s) => out := AppendQuoted(out0, s);
    case Array(items) => out := DumpArray(items, out0, indent, level); ArrayLeft(items, indent, level);
    case Object(members) => out := DumpObject(members, out0, indent, level); ObjectLeft(members, indent, level);
  }

  method AppendQuoted(out0: Text, s: Text) returns (out: Text)
    ensures out == out0 + Quoted(s)
  {
    var e := JsonEscape(s);
    out := out0 + [QUOTE];
    out := out + e;
    out := out + [QUOTE];
  }

  lemma ArrayLeft(items: seq<Json>, indent: int, level: nat)
    ensures Dump(Array(items), indent, level) == [OPEN_ARRAY] + ItemsLeft(items, 0, indent, level, Scalars(items))
  {
    hide DumpItems;
    assert items[0..] == items;
  }

  lemma ObjectLeft(members: seq<Member>, indent: int, level: nat)
    ensures Dump(Object(members), indent, level) == [OPEN_OBJECT] + MembersLeft(members, 0, indent, level)
  {
    hide DumpMembers;
    assert members[0..] == members;
  }

  method DumpArray(items: seq<Json>, out0: Text, indent: int, level: nat) returns (out: Text)
    ensures out == out0 + ([OPEN_ARRAY] + ItemsLeft(items, 0, indent, level, Scalars(items)))
    decreases items, 0
  {
    hide Dump, ItemsLeft, Break;
    out := out0 + [OPEN_ARRAY];
    var flat := Scalars(items);
    ghost var goal := out0 + ([OPEN_ARRAY] + ItemsLeft(items, 0, indent, level, flat));
    for k := 0 to |items|
      invariant out + ItemsLeft(items, k, indent, level, flat) == goal
    {
      ItemsLeftStep(items, k, indent, level, flat);
      if k > 0 { out := out + [COMMA]; }
      if !flat { out := out + Break(indent, level + 1); }
      out := DumpInto(items[k], out, indent, level + 1);
    }
    NoItemsLeft(items, indent, level, flat);
    if !flat && items != [] { out := out + Break(indent, level); }
    out := out + [CLOSE_ARRAY];
  }

  lemma NoItemsLeft(items: seq<Json>, indent: int, level: nat, flat: bool)
    ensures ItemsLeft(items, |items|, indent, level, flat)
            == (if items == [] || flat then [] else Break(indent, level)) + [CLOSE_ARRAY]
  {}

  method DumpObject(members: seq<Member>, out0: Text, indent: int, level: nat) returns (out: Text)
    ensures out == out0 + ([OPEN_OBJECT] + MembersLeft(members, 0, indent, level))
    decreases members, 0
  {
    hide Dump, MembersLeft, Break, Quoted;
    out := out0 + [OPEN_OBJECT];
    ghost var goal := out0 + ([OPEN_OBJECT] + MembersLeft(members, 0, indent, level));
    for k := 0 to |members|
      invariant out + MembersLeft(members, k, indent, level) == goal
    {
      MembersLeftStep(members, k, indent, level);
      if k > 0 { out := out + [COMMA]; }
      out := out + Break(indent, level + 1);
      out := AppendQuoted(out, members[k].key);
      out := out + if indent < 0 then [COLON] else [COLON, SPACE];
      out := DumpInto(members[k].value, out, indent, level + 1);
    }
    NoMembersLeft(members, indent, level);
    if members != [] { out := out + Break(indent, level); }
    out := out + [CLOSE_OBJECT];
  }

  lemma NoMembersLeft(members: seq<Member>, indent: int, level: nat)
    ensures MembersLeft(members, |members|, indent, level)
            == (if members == [] then [] else Break(indent, level)) + [CLOSE_OBJECT]
  {}
}
