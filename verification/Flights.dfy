/** Reads parked behind ranges that are already on the wire. */
module Flights {
  import opened Bytes
  import opened Pages
  import opened Stages
  import opened Reads
  import opened Ranges

  /** A range is usable: not empty and inside the file. */
  predicate InFile(g: Geometry, r: (nat, nat)) { r.1 > 0 && r.0 + r.1 <= g.fileSize }

  predicate Touches(g: Geometry, r: (nat, nat), p: nat)
    requires g.Valid() && InFile(g, r)
  {
    g.PageOf(r.0) <= p <= g.PageOf(r.0 + r.1 - 1)
  }

  /** Some usable range asks for page `p`, which is neither present nor staged. */
  ghost predicate Wanted(g: Geometry, present: set<nat>, s: Stage, ranges: seq<(nat, nat)>, p: nat)
    requires g.Valid()
  {
    p !in present && !s.Holds(p)
    && exists k :: 0 <= k < |ranges| && InFile(g, ranges[k]) && Touches(g, ranges[k], p)
  }

  /** When a reader may park: something is in flight, its ranges are usable, at least one
      page is missing, and every missing page is on the wire. */
  ghost predicate MayPark(g: Geometry, present: set<nat>, s: Stage, flight: Flight, ranges: seq<(nat, nat)>)
    requires g.Valid()
  {
    && flight != []
    && (forall k :: 0 <= k < |ranges| ==> InFile(g, ranges[k]))
    && (exists p: nat :: Wanted(g, present, s, ranges, p))
    && (forall p: nat :: Wanted(g, present, s, ranges, p) ==> InFlight(flight, p))
  }

  // ---- one range ------------------------------------------------------------------------------

  predicate Here(present: set<nat>, s: Stage, p: nat) { p in present || s.Holds(p) }

  /** How the walk over the pages of a range ends: at a missing page that is not on the wire, at
      a look past the end of the presence table, or at the last page. */
  datatype Walk = Gap | PastTable | Walked(saw: bool)

  /** A missing page of [first, last] that is not on the wire. */
  ghost predicate HasGap(present: set<nat>, s: Stage, flight: Flight, first: nat, last: nat) {
    exists p: nat :: first <= p <= last && !Here(present, s, p) && !InFlight(flight, p)
  }

  ghost predicate HasMissing(present: set<nat>, s: Stage, first: nat, last: nat) {
    exists p: nat :: first <= p <= last && !Here(present, s, p)
  }

  const TOP: nat := 0x1_0000_0000_0000_0000

  /** How many pages `x` bytes take, in wrapping arithmetic. */
  function Ceil64(g: Geometry, x: nat): nat
    requires g.Valid()
  {
    g.PageOf(Add64(x, g.pageSize - 1))
  }

  /** The pages the presence table has a bit for: its size is that of the file in whole bytes,
      computed in wrapping arithmetic. */
  function Table(g: Geometry): nat
    requires g.Valid()
  {
    (Ceil64(g, g.fileSize) + 7) / 8 * 8
  }

  /** A missing page not on the wire, with a page that is here behind it inside the table: a gap
      that is noticed before the walk leaves the table. */
  ghost predicate HasEarlyGap(g: Geometry, present: set<nat>, s: Stage, flight: Flight, first: nat)
    requires g.Valid()
  {
    exists p: nat, q: nat :: first <= p < q < Table(g) && !Here(present, s, p) && !InFlight(flight, p) && Here(present, s, q)
  }

  ghost function WalkOf(g: Geometry, present: set<nat>, s: Stage, flight: Flight, first: nat, last: nat): Walk
    requires g.Valid()
  {
    if first > last then Walked(false)
    else if last >= Table(g) then if HasEarlyGap(g, present, s, flight, first) then Gap else PastTable
    else if HasGap(present, s, flight, first, last) then Gap
    else Walked(HasMissing(present, s, first, last))
  }

  /** Walk the pages of a range, missing run by missing run. */
  method WalkRange(g: Geometry, present: set<nat>, s: Stage, flight: Flight, first: nat, last: nat) returns (w: Walk)
    requires g.Valid()
    ensures w == WalkOf(g, present, s, flight, first, last)
  {
    hide Table, InFlight, Here;
    var saw := false;
    var i := first;
    while i <= last
      invariant first <= i && (i <= last + 1 || i == first) && (i > first ==> i <= Table(g))
      invariant forall p: nat :: first <= p < i && !Here(present, s, p) ==> InFlight(flight, p)
      invariant saw <==> exists p: nat :: first <= p < i && !Here(present, s, p)
      decreases last + 1 - i
    {
      if i >= Table(g) { return PastTable; }
      if Here(present, s, i) {
        i := i + 1;
        continue;
      }
      var j := i;
      while j <= last && (j >= Table(g) || !Here(present, s, j))
        invariant i <= j <= Table(g) && (j > i ==> j <= last + 1)
        invariant forall p: nat :: i <= p < j ==> !Here(present, s, p)
        decreases last + 1 - j
      {
        if j >= Table(g) { return PastTable; }
        j := j + 1;
      }
      var covered := CoveredByFlight(flight, i, j);
      if !covered {
        ghost var p: nat :| i <= p < j && !InFlight(flight, p);
        return Gap;
      }
      assert i < j && !Here(present, s, i);
      saw := true;
      i := j;
    }
    w := Walked(saw);
  }

  // ---- several ranges -----------------------------------------------------------------------------

  /** Sizes for which page numbers and the presence table stay below 2^64. */
  predicate Sane(g: Geometry) { g.Valid() && g.fileSize + 8 * g.pageSize <= TOP }

  type Range = r: (nat, nat) | r.0 < TOP && r.1 < TOP witness (0, 0)

  predicate Wraps(r: Range) { r.0 + r.1 >= TOP }

  /** The range test as it is written: in wrapping arithmetic, without a test for the wrap. */
  predicate Refused(g: Geometry, r: Range) { r.1 == 0 || Add64(r.0, r.1) > g.fileSize }

  function FirstPage(g: Geometry, r: Range): nat
    requires g.Valid()
  {
    g.PageOf(r.0)
  }

  /** (off + len - 1) / P in wrapping arithmetic. */
  function LastPage(g: Geometry, r: Range): nat
    requires g.Valid()
  {
    g.PageOf(if Add64(r.0, r.1) == 0 then TOP - 1 else Add64(r.0, r.1) - 1)
  }

  datatype Parking = Parks | Declines | ReadsPast

  ghost function RangeWalk(g: Geometry, present: set<nat>, s: Stage, flight: Flight, r: Range): Walk
    requires g.Valid()
  {
    WalkOf(g, present, s, flight, FirstPage(g, r), LastPage(g, r))
  }

  /** What the call does with the ranges left, when some page has been seen missing or not. */
  ghost function ParkingOf(g: Geometry, present: set<nat>, s: Stage, flight: Flight, ranges: seq<Range>, saw: bool): Parking
    requires g.Valid()
  {
    if ranges == [] then if saw then Parks else Declines
    else if Refused(g, ranges[0]) then Declines
    else
      match RangeWalk(g, present, s, flight, ranges[0])
      case Gap => Declines
      case PastTable => ReadsPast
      case Walked(w) => ParkingOf(g, present, s, flight, ranges[1..], saw || w)
  }

  ghost function Called(g: Geometry, present: set<nat>, s: Stage, flight: Flight, ranges: seq<Range>): Parking
    requires g.Valid()
  {
    if flight == [] then Declines else ParkingOf(g, present, s, flight, ranges, false)
  }

  /** The in-flight table of an entry. `parked` and `fired` list the callbacks ever parked
      and ever woken, in order. */
  class Wire {
    const g: Geometry
    var flight: Flight
    var waiters: seq<nat>
    ghost var parked: seq<nat>
    ghost var fired: seq<nat>

    /** Nobody is parked without something in flight, and every callback parked so far has
        either been woken exactly once or is waiting, in order. */
    ghost predicate Valid()
      reads this
    {
      && g.Valid() && g.fileSize < TOP
      && (waiters != [] ==> flight != [])
      && parked == fired + waiters
    }

    constructor (g: Geometry)
      requires g.Valid() && g.fileSize < TOP
      ensures Valid() && this.g == g && flight == [] && waiters == [] && parked == []
    {
      this.g := g;
      flight, waiters, parked, fired := [], [], [], [];
    }

    /** From now on exactly the pages the range meets are in flight besides those that were. */
    method Note(off: nat, len: nat)
      requires Valid() && off < TOP && len < TOP
      modifies this
      ensures Valid() && waiters == old(waiters) && parked == old(parked)
      ensures flight == old(flight) + if Key(g, off, len).Some? then [Key(g, off, len).value] else []
      ensures Sane(g) ==> forall p: nat :: InFlight(flight, p) <==> InFlight(old(flight), p) || Meets(g, off, len, p)
    {
      var k := Key(g, off, len);
      forall p: nat | Sane(g) ensures InFlight(if k.Some? then flight + [k.value] else flight, p) <==> InFlight(flight, p) || Meets(g, off, len, p) {
        KeyMeets(g, off, len, p);
        if k.Some? { OneMoreFlight(flight, k.value, p); }
      }
      if k.Some? { flight := flight + [k.value]; }
    }

    /** Park behind the wire, or not at all; or, when the wrapping range test lets a range
        through that it should not, read past the presence table, of which nothing is said. */
    method Wait(present: set<nat>, s: Stage, ranges: seq<Range>, cb: nat) returns (r: Parking)
      requires Valid()
      modifies this
      ensures Valid() && flight == old(flight) && fired == old(fired)
      ensures r == Called(g, present, s, flight, ranges)
      ensures waiters == old(waiters) + if r == Parks then [cb] else []
      ensures Sane(g) && (forall x <- ranges :: !Wraps(x)) ==> r == if MayPark(g, present, s, flight, ranges) then Parks else Declines
    {
      hide WalkOf, MayPark, Refused, FirstPage, LastPage;
      if Sane(g) && forall x <- ranges :: !Wraps(x) { RightWithoutWrap(g, present, s, flight, ranges); }
      if flight == [] { return Declines; }
      var sawAbsent := false;
      assert ranges[0..] == ranges;
      for k := 0 to |ranges|
        invariant flight == old(flight) && waiters == old(waiters) && parked == old(parked) && fired == old(fired)
        invariant ParkingOf(g, present, s, flight, ranges[k..], sawAbsent) == Called(g, present, s, flight, ranges)
      {
        assert ranges[k..][0] == ranges[k] && ranges[k..][1..] == ranges[k + 1..];
        if Refused(g, ranges[k]) { return Declines; }
        var w := WalkRange(g, present, s, flight, FirstPage(g, ranges[k]), LastPage(g, ranges[k]));
        if w == Gap { return Declines; }
        if w == PastTable { return ReadsPast; }
        sawAbsent := sawAbsent || w.saw;
      }
      assert ranges[|ranges|..] == [];
      if !sawAbsent { return Declines; }
      waiters := waiters + [cb];
      parked := parked + [cb];
      r := Parks;
    }

    /** Withdraw the ranges of a request and wake everybody. */
    method Clear(ranges: seq<(nat, nat)>) returns (wake: seq<nat>)
      requires Valid()
      modifies this
      ensures Valid() && waiters == [] && wake == old(waiters)
      ensures fired == old(fired) + old(waiters) && parked == old(parked)
      ensures flight == Withdraw(g, old(flight), ranges)
    {
      for k := 0 to |ranges|
        invariant waiters == old(waiters) && parked == old(parked) && fired == old(fired)
        invariant flight == Withdraw(g, old(flight), ranges[..k])
      {
        assert ranges[..k + 1][..k] == ranges[..k];
        var key := Key(g, ranges[k].0, ranges[k].1);
        if key.Some? { flight := Erase(flight, key.value); }
      }
      assert ranges[..|ranges|] == ranges;
      wake := waiters;
      waiters := [];
      fired := fired + wake;
    }

    /** Withdraw one range: an unusable one wakes nobody, any other everybody, whether or not it
        was registered. */
    method ClearOne(off: nat, len: nat) returns (wake: seq<nat>)
      requires Valid()
      modifies this
      ensures Valid() && parked == old(parked) && flight == Withdraw(g, old(flight), [(off, len)])
      ensures Key(g, off, len).None? ==> waiters == old(waiters) && wake == [] && fired == old(fired)
      ensures Key(g, off, len).Some? ==> waiters == [] && wake == old(waiters) && fired == old(fired) + old(waiters)
    {
      hide Withdraw, Key, Erase;
      WithdrawOne(g, flight, off, len);
      wake := [];
      var key := Key(g, off, len);
      if key.None? { return; }
      flight := Erase(flight, key.value);
      wake := waiters;
      waiters := [];
      fired := fired + wake;
    }
  }

  // ---- when the parking rule holds ---------------------------------------------------------------

  lemma OneMoreFlight(flight: Flight, k: (nat, nat), p: nat)
    ensures InFlight(flight + [k], p) <==> InFlight(flight, p) || Within1(k, p)
  {
    var more := flight + [k];
    if InFlight(flight, p) {
      var j :| 0 <= j < |flight| && Within1(flight[j], p);
      assert Within1(more[j], p);
    }
    if Within1(k, p) { assert Within1(more[|flight|], p); }
    if InFlight(more, p) {
      var j :| 0 <= j < |more| && Within1(more[j], p);
      if j < |flight| { assert Within1(flight[j], p); }
    }
  }

  /** Page `p` shares a byte with [off, off + len) inside the file; a length that wraps meets
      nothing. */
  predicate Meets(g: Geometry, off: nat, len: nat, p: nat)
    requires g.Valid()
  {
    len > 0 && off + len < TOP && off < Min(off + len, g.fileSize)
    && off < g.Start(p) + g.pageSize && g.Start(p) < Min(off + len, g.fileSize)
  }

  /** The interval registered is exactly the pages the range meets. */
  lemma KeyMeets(g: Geometry, off: nat, len: nat, p: nat)
    requires Sane(g) && off < TOP && len < TOP
    ensures Meets(g, off, len, p) <==> Key(g, off, len).Some? && Within1(Key(g, off, len).value, p)
  {
    hide Ceil64, Add64;
    Add64Is(off, len);
    if Key(g, off, len).Some? {
      var end := Min(off + len, g.fileSize);
      Ceil64Is(g, end);
      CeilDiv(end, g.pageSize, p);
      FloorDiv(off, g.pageSize, p);
      Next(p, g.pageSize);
    }
  }

  lemma Add64Is(a: nat, b: nat)
    requires a < TOP && b < TOP
    ensures Add64(a, b) == if a + b < TOP then a + b else a + b - TOP
  {}

  lemma Ceil64Is(g: Geometry, x: nat)
    requires Sane(g) && x <= g.fileSize
    ensures Ceil64(g, x) == (x + g.pageSize - 1) / g.pageSize
  {
    SmallMod(x + g.pageSize - 1);
  }

  lemma SmallMod(n: nat)
    requires n < TOP
    ensures n % TOP == n
  {}

  lemma Next(p: nat, size: nat)
    ensures (p + 1) * size == p * size + size
  {}

  /** Pages missing of the ranges left, in the order they are walked. */
  ghost predicate AllCovered(g: Geometry, present: set<nat>, s: Stage, flight: Flight, ranges: seq<Range>)
    requires g.Valid()
  {
    forall p: nat :: Wanted(g, present, s, ranges, p) ==> InFlight(flight, p)
  }

  /** For a range inside the file the walk is over the pages it touches. */
  lemma InFileWalk(g: Geometry, present: set<nat>, s: Stage, flight: Flight, r: Range)
    requires Sane(g) && !Wraps(r)
    ensures Refused(g, r) <==> !InFile(g, r)
    ensures InFile(g, r) ==>
              && FirstPage(g, r) == g.PageOf(r.0) <= LastPage(g, r) == g.PageOf(r.0 + r.1 - 1) < g.Npages()
              && RangeWalk(g, present, s, flight, r)
                 == if HasGap(present, s, flight, FirstPage(g, r), LastPage(g, r)) then Gap
                    else Walked(HasMissing(present, s, FirstPage(g, r), LastPage(g, r)))
  {
    hide Table, Geometry.Npages, Geometry.PageOf, HasGap, HasMissing, HasEarlyGap, Add64;
    Add64Is(r.0, r.1);
    TableBelowTop(g);
    if InFile(g, r) {
      FirstBeforeLast(g, r.0, r.0 + r.1 - 1);
      g.PageOfFacts(r.0 + r.1 - 1);
    }
  }

  lemma WantedFirst(g: Geometry, present: set<nat>, s: Stage, ranges: seq<Range>, p: nat)
    requires g.Valid() && ranges != [] && InFile(g, ranges[0])
    ensures Wanted(g, present, s, ranges, p)
            <==> Wanted(g, present, s, ranges[1..], p) || (!Here(present, s, p) && Touches(g, ranges[0], p))
  {
    var rest := ranges[1..];
    if Wanted(g, present, s, ranges, p) {
      var k :| 0 <= k < |ranges| && InFile(g, ranges[k]) && Touches(g, ranges[k], p);
      if k > 0 { assert rest[k - 1] == ranges[k]; }
    }
    if Wanted(g, present, s, rest, p) {
      var k :| 0 <= k < |rest| && InFile(g, rest[k]) && Touches(g, rest[k], p);
      assert ranges[k + 1] == rest[k];
    }
  }

  lemma {:induction false} ParkingMeans(g: Geometry, present: set<nat>, s: Stage, flight: Flight, ranges: seq<Range>, saw: bool)
    requires Sane(g) && forall x <- ranges :: !Wraps(x)
    ensures ParkingOf(g, present, s, flight, ranges, saw)
            == if (forall x <- ranges :: InFile(g, x)) && (saw || exists p: nat :: Wanted(g, present, s, ranges, p))
                  && AllCovered(g, present, s, flight, ranges)
               then Parks else Declines
    decreases |ranges|
  {
    hide Geometry.PageOf, Geometry.Npages, InFlight, Here, WalkOf;
    if ranges != [] {
      var r, rest := ranges[0], ranges[1..];
      assert ranges == [r] + rest;
      InFileWalk(g, present, s, flight, r);
      assert r in ranges;
      if InFile(g, r) {
        forall p: nat ensures Wanted(g, present, s, ranges, p) <==> Wanted(g, present, s, rest, p) || (!Here(present, s, p) && Touches(g, r, p)) {
          WantedFirst(g, present, s, ranges, p);
        }
        hide Wanted;
        ParkingMeans(g, present, s, flight, rest, saw || HasMissing(present, s, FirstPage(g, r), LastPage(g, r)));
      }
    }
  }

  /** Without a wrap the call parks exactly when the rule says so, and stays inside the table. */
  lemma RightWithoutWrap(g: Geometry, present: set<nat>, s: Stage, flight: Flight, ranges: seq<Range>)
    requires Sane(g) && forall x <- ranges :: !Wraps(x)
    ensures Called(g, present, s, flight, ranges) == if MayPark(g, present, s, flight, ranges) then Parks else Declines
  {
    hide Wanted, InFile, ParkingOf;
    ParkingMeans(g, present, s, flight, ranges, false);
    assert (forall x <- ranges :: InFile(g, x)) <==> forall k :: 0 <= k < |ranges| ==> InFile(g, ranges[k]);
  }

  // ---- and when it does not ------------------------------------------------------------------------

  /** The range whose end is exactly 2^64. */
  predicate EndsAtTop(r: Range) { r.0 + r.1 == TOP }

  /** Some page is walked at all. */
  predicate WalksSome(g: Geometry, r: Range)
    requires g.Valid()
  {
    FirstPage(g, r) <= LastPage(g, r)
  }

  /** The ranges for which the missing wrap test can mislead the call: one ends at exactly 2^64
      and is not preceded by a refused one, or, with none refused, one wraps and one is
      walked. */
  ghost predicate Misled(g: Geometry, ranges: seq<Range>)
    requires g.Valid()
  {
    || (exists k :: 0 <= k < |ranges| && EndsAtTop(ranges[k]) && forall j :: 0 <= j < k ==> !Refused(g, ranges[j]))
    || ((forall x <- ranges :: !Refused(g, x)) && (exists x <- ranges :: Wraps(x)) && (exists x <- ranges :: WalksSome(g, x)))
  }

  /** A walk that stays below the end at 2^64 stays inside the table. */
  lemma OrdinaryWalk(g: Geometry, present: set<nat>, s: Stage, flight: Flight, r: Range)
    requires Sane(g) && !Refused(g, r) && !EndsAtTop(r)
    ensures LastPage(g, r) < g.Npages() <= Table(g) && RangeWalk(g, present, s, flight, r) != PastTable
    ensures !WalksSome(g, r) ==> RangeWalk(g, present, s, flight, r) == Walked(false)
  {
    hide Table, Geometry.Npages, Geometry.PageOf, HasGap, HasMissing, HasEarlyGap, Add64;
    Add64Is(r.0, r.1);
    TableBelowTop(g);
    g.PageOfFacts(Add64(r.0, r.1) - 1);
  }

  /** A range that ends at 2^64 is let through and walked past the table, unless a gap is noticed
      first. */
  lemma TopWalk(g: Geometry, present: set<nat>, s: Stage, flight: Flight, r: Range)
    requires Sane(g) && EndsAtTop(r)
    ensures !Refused(g, r) && Wraps(r) && Table(g) <= LastPage(g, r) && WalksSome(g, r)
    ensures RangeWalk(g, present, s, flight, r) == if HasEarlyGap(g, present, s, flight, FirstPage(g, r)) then Gap else PastTable
  {
    hide Table, Geometry.Npages, HasEarlyGap;
    var last := g.PageOf(TOP - 1);
    FirstBeforeLast(g, r.0, TOP - 1);
    TableBelowTop(g);
    if Table(g) > 0 {
      FloorDiv(TOP - 1, g.pageSize, Table(g) - 1);
      MulMono(Table(g), g.Npages() + 7, g.pageSize);
    }
  }

  /** A range that is let through only by its wrap is not inside the file. */
  lemma WrapNotInFile(g: Geometry, r: Range)
    requires Sane(g) && (Wraps(r) || Refused(g, r))
    ensures !InFile(g, r)
  {}

  /** The rule, as an answer. */
  ghost function Ruled(g: Geometry, present: set<nat>, s: Stage, flight: Flight, ranges: seq<Range>): Parking
    requires g.Valid()
  {
    if MayPark(g, present, s, flight, ranges) then Parks else Declines
  }

  lemma {:induction false} DeclinesAtRefused(g: Geometry, present: set<nat>, s: Stage, flight: Flight, ranges: seq<Range>, saw: bool, k: nat)
    requires Sane(g) && k < |ranges| && Refused(g, ranges[k])
    requires forall j :: 0 <= j < k ==> Refused(g, ranges[j]) || !EndsAtTop(ranges[j])
    ensures ParkingOf(g, present, s, flight, ranges, saw) == Declines
    decreases |ranges|
  {
    hide Refused, EndsAtTop, RangeWalk;
    if k > 0 && !Refused(g, ranges[0]) {
      OrdinaryWalk(g, present, s, flight, ranges[0]);
      var rest := ranges[1..];
      assert rest[k - 1] == ranges[k];
      forall j | 0 <= j < k - 1 ensures Refused(g, rest[j]) || !EndsAtTop(rest[j]) { assert rest[j] == ranges[j + 1]; }
      var w := RangeWalk(g, present, s, flight, ranges[0]);
      if w.Walked? { DeclinesAtRefused(g, present, s, flight, rest, saw || w.saw, k - 1); }
    }
  }

  lemma {:induction false} DeclinesUnwalked(g: Geometry, present: set<nat>, s: Stage, flight: Flight, ranges: seq<Range>)
    requires Sane(g) && forall x <- ranges :: !Refused(g, x) && !EndsAtTop(x) && !WalksSome(g, x)
    ensures ParkingOf(g, present, s, flight, ranges, false) == Declines
    decreases |ranges|
  {
    hide Refused, EndsAtTop, RangeWalk, WalksSome;
    if ranges != [] {
      assert ranges[0] in ranges;
      OrdinaryWalk(g, present, s, flight, ranges[0]);
      DeclinesUnwalked(g, present, s, flight, ranges[1..]);
    }
  }

  /** Ranges that are not of that kind never mislead the call. */
  lemma RightUnlessMisled(g: Geometry, present: set<nat>, s: Stage, flight: Flight, ranges: seq<Range>)
    requires Sane(g) && !Misled(g, ranges)
    ensures Called(g, present, s, flight, ranges) == Ruled(g, present, s, flight, ranges)
  {
    hide Refused, EndsAtTop, RangeWalk, WalksSome, Wraps, Wanted, InFile, ParkingOf;
    if k :| 0 <= k < |ranges| && Refused(g, ranges[k]) {
      var first := FirstRefused(g, ranges, k);
      WrapNotInFile(g, ranges[first]);
      DeclinesAtRefused(g, present, s, flight, ranges, false, first);
    } else {
      forall x <- ranges ensures !Refused(g, x) && !EndsAtTop(x) { assert x in ranges; }
      if x :| x in ranges && Wraps(x) {
        WrapNotInFile(g, x);
        var k :| 0 <= k < |ranges| && ranges[k] == x;
        DeclinesUnwalked(g, present, s, flight, ranges);
      } else {
        RightWithoutWrap(g, present, s, flight, ranges);
      }
    }
  }

  lemma FirstRefused(g: Geometry, ranges: seq<Range>, k: nat) returns (first: nat)
    requires k < |ranges| && Refused(g, ranges[k])
    ensures first <= k && Refused(g, ranges[first]) && forall j :: 0 <= j < first ==> !Refused(g, ranges[j])
  {
    hide Refused;
    first := 0;
    while !Refused(g, ranges[first])
      invariant first <= k && forall j :: 0 <= j < first ==> !Refused(g, ranges[j])
      decreases k - first
    {
      first := first + 1;
    }
  }

  // The state that shows it: nothing here, and every page on the wire.

  lemma AllOnWire(p: nat)
    requires p < TOP
    ensures InFlight([(0, TOP)], p)
  {
    assert Within1([(0, TOP)][0], p);
  }

  lemma WalkAllOnWire(g: Geometry, r: Range)
    requires Sane(g) && !Refused(g, r)
    ensures RangeWalk(g, {}, EmptyStage(), [(0, TOP)], r) == if EndsAtTop(r) then PastTable else Walked(WalksSome(g, r))
  {
    var s, flight := EmptyStage(), [(0, TOP)];
    forall p: nat | p < TOP ensures InFlight(flight, p) { AllOnWire(p); }
    var first, last := FirstPage(g, r), LastPage(g, r);
    g.PageOfFacts(TOP - 1);
    if EndsAtTop(r) {
      TopWalk(g, {}, s, flight, r);
      TableBelowTop(g);
    } else {
      OrdinaryWalk(g, {}, s, flight, r);
      TableBelowTop(g);
      if first <= last { assert !Here({}, s, first); }
    }
  }

  lemma LastRoom(n: nat, size: nat)
    requires n > 0
    ensures (n + 7) * size == (n - 1) * size + 8 * size
  {}

  lemma TableBelowTop(g: Geometry)
    requires Sane(g)
    ensures g.Npages() <= TOP && g.Npages() <= Table(g) < g.Npages() + 8 && Table(g) % 8 == 0 && (g.Npages() > 0 ==> (g.Npages() + 7) * g.pageSize < TOP) && (g.Npages() == 0 ==> Table(g) == 0)
  {
    var n := g.Npages();
    Ceil64Is(g, g.fileSize);
    hide Ceil64, Geometry.Npages;
    if n > 0 {
      g.InRange(n - 1);
      MulMono(1, g.pageSize, n - 1);
      LastRoom(n, g.pageSize);
    }
  }

  lemma {:induction false} TopReadsPast(g: Geometry, ranges: seq<Range>, saw: bool, k: nat)
    requires Sane(g) && k < |ranges| && EndsAtTop(ranges[k]) && forall j :: 0 <= j < k ==> !Refused(g, ranges[j])
    ensures ParkingOf(g, {}, EmptyStage(), [(0, TOP)], ranges, saw) == ReadsPast
    decreases |ranges|
  {
    hide Refused, EndsAtTop, RangeWalk, WalksSome;
    TopWalk(g, {}, EmptyStage(), [(0, TOP)], ranges[k]);
    WalkAllOnWire(g, ranges[0]);
    if !EndsAtTop(ranges[0]) {
      var rest := ranges[1..];
      assert rest[k - 1] == ranges[k];
      forall j | 0 <= j < k - 1 ensures !Refused(g, rest[j]) { assert rest[j] == ranges[j + 1]; }
      TopReadsPast(g, rest, saw || WalksSome(g, ranges[0]), k - 1);
    }
  }

  lemma {:induction false} WalkedParks(g: Geometry, ranges: seq<Range>, saw: bool)
    requires Sane(g) && forall x <- ranges :: !Refused(g, x) && !EndsAtTop(x)
    requires saw || exists x <- ranges :: WalksSome(g, x)
    ensures ParkingOf(g, {}, EmptyStage(), [(0, TOP)], ranges, saw) == Parks
    decreases |ranges|
  {
    hide Refused, EndsAtTop, RangeWalk, WalksSome;
    if ranges != [] {
      assert ranges[0] in ranges;
      WalkAllOnWire(g, ranges[0]);
      assert ranges == [ranges[0]] + ranges[1..];
      WalkedParks(g, ranges[1..], saw || WalksSome(g, ranges[0]));
    }
  }

  /** The parking rule holds of a request whatever the cache holds and whatever is in flight, if
      and only if its ranges are not of the misleading kind. */
  lemma ParkingRuleExactly(g: Geometry, ranges: seq<Range>)
    requires Sane(g)
    ensures (forall present, s, flight :: Called(g, present, s, flight, ranges) == Ruled(g, present, s, flight, ranges))
            <==> !Misled(g, ranges)
  {
    hide Called, Ruled, Refused, EndsAtTop, WalksSome, Wraps;
    if Misled(g, ranges) {
      MisledIsWrong(g, ranges);
    } else {
      forall present, s, flight ensures Called(g, present, s, flight, ranges) == Ruled(g, present, s, flight, ranges) {
        RightUnlessMisled(g, present, s, flight, ranges);
      }
    }
  }

  lemma MisledIsWrong(g: Geometry, ranges: seq<Range>)
    requires Sane(g) && Misled(g, ranges)
    ensures Called(g, {}, EmptyStage(), [(0, TOP)], ranges) != Ruled(g, {}, EmptyStage(), [(0, TOP)], ranges)
  {
    hide Refused, EndsAtTop, WalksSome, Wraps, ParkingOf, InFile, Wanted;
    if k :| 0 <= k < |ranges| && EndsAtTop(ranges[k]) && forall j :: 0 <= j < k ==> !Refused(g, ranges[j]) {
      TopReadsPast(g, ranges, false, k);
    } else {
      var x :| x in ranges && Wraps(x);
      WrapNotInFile(g, x);
      var k :| 0 <= k < |ranges| && ranges[k] == x;
      forall y <- ranges ensures !EndsAtTop(y) {
        var j :| 0 <= j < |ranges| && ranges[j] == y;
        assert forall i :: 0 <= i < j ==> ranges[i] in ranges;
      }
      WalkedParks(g, ranges, false);
    }
  }

  /** One such request: a single range from any offset up to exactly 2^64 reads past the table of
      a file all of whose pages are here. */
  lemma TopOfRange(g: Geometry, off: nat, flight: Flight, present: set<nat>)
    requires Sane(g) && 0 < off < TOP && flight != [] && forall p: nat :: p < g.Npages() <==> p in present
    ensures Called(g, present, EmptyStage(), flight, [(off, TOP - off)]) == ReadsPast
  {
    var r: Range := (off, TOP - off);
    var ranges: seq<Range> := [r];
    TopWalk(g, present, EmptyStage(), flight, r);
    assert ParkingOf(g, present, EmptyStage(), flight, ranges, false) == ReadsPast;
  }

  /** The pages of a byte range, as a table entry; None when the range is unusable. */
  function Key(g: Geometry, off: nat, len: nat): Option<(nat, nat)>
    requires g.Valid()
  {
    if len == 0 || Add64(off, len) < off || off >= Min(Add64(off, len), g.fileSize) then None
    else Some((g.PageOf(off), Ceil64(g, Min(Add64(off, len), g.fileSize))))
  }

  /** What is left of the table once each usable range has taken one equal entry out. */
  function Withdraw(g: Geometry, flight: Flight, ranges: seq<(nat, nat)>): Flight
    requires g.Valid()
  {
    if ranges == [] then flight
    else
      var rest := Withdraw(g, flight, ranges[..|ranges| - 1]);
      var key := Key(g, ranges[|ranges| - 1].0, ranges[|ranges| - 1].1);
      if key.Some? then Erase(rest, key.value) else rest
  }

  lemma WithdrawOne(g: Geometry, flight: Flight, off: nat, len: nat)
    requires g.Valid()
    ensures Withdraw(g, flight, [(off, len)]) == if Key(g, off, len).Some? then Erase(flight, Key(g, off, len).value) else flight
  {
    var one := [(off, len)];
    assert one[..0] == [];
    assert Withdraw(g, flight, one[..0]) == flight;
  }

  /** How many of the ranges stand for the entry `k`. */
  function Asking(g: Geometry, ranges: seq<(nat, nat)>, k: (nat, nat)): nat
    requires g.Valid()
  {
    if ranges == [] then 0
    else Asking(g, ranges[..|ranges| - 1], k) + if Key(g, ranges[|ranges| - 1].0, ranges[|ranges| - 1].1) == Some(k) then 1 else 0
  }

  /** Each range takes one equal entry out, as long as there is one, and nothing else goes. */
  lemma {:induction false} WithdrawCounts(g: Geometry, flight: Flight, ranges: seq<(nat, nat)>, k: (nat, nat))
    requires g.Valid()
    ensures multiset(Withdraw(g, flight, ranges))[k] == Max(0, multiset(flight)[k] as int - Asking(g, ranges, k))
    decreases |ranges|
  {
    hide Key, Erase;
    if ranges != [] {
      var front := ranges[..|ranges| - 1];
      WithdrawCounts(g, flight, front, k);
      var key := Key(g, ranges[|ranges| - 1].0, ranges[|ranges| - 1].1);
      if key.Some? { EraseCounts(Withdraw(g, flight, front), key.value, k); }
    }
  }

  lemma {:induction false} EraseCounts(flight: Flight, key: (nat, nat), k: (nat, nat))
    ensures multiset(Erase(flight, key))[k] == Max(0, multiset(flight)[k] as int - if k == key then 1 else 0)
    decreases |flight|
  {
    if flight != [] {
      assert flight == [flight[0]] + flight[1..];
      if flight[0] != key { EraseCounts(flight[1..], key, k); }
    }
  }

  /** Noting a range and later withdrawing it leaves the table with the same entries. */
  lemma NoteThenWithdraw(g: Geometry, flight: Flight, off: nat, len: nat)
    requires g.Valid() && Key(g, off, len).Some?
    ensures multiset(Withdraw(g, flight + [Key(g, off, len).value], [(off, len)])) == multiset(flight)
  {
    WithdrawOne(g, flight + [Key(g, off, len).value], off, len);
  }

  /** Erase the first entry equal to `key`, if there is one. */
  function Erase(flight: Flight, key: (nat, nat)): (r: Flight)
    ensures multiset(r) == multiset(flight) - multiset{key}
  {
    if flight == [] then []
    else if flight[0] == key then
      assert flight == [flight[0]] + flight[1..];
      flight[1..]
    else
      assert flight == [flight[0]] + flight[1..];
      [flight[0]] + Erase(flight[1..], key)
  }
}
