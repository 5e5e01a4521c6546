/** Which pages of a byte range are missing, and waiting for those already on the wire. */
module Ranges {
  import opened Bytes
  import opened Pages
  import opened Stages
  import opened Reads

  /** Page ranges [first, end) that wire requests are fetching. */
  type Flight = seq<(nat, nat)>

  predicate Within1(f: (nat, nat), p: nat) { f.0 <= p < f.1 }

  ghost predicate InFlight(flight: Flight, p: nat) {
    exists k :: 0 <= k < |flight| && Within1(flight[k], p)
  }

  method PageInFlight(flight: Flight, p: nat) returns (b: bool)
    ensures b <==> InFlight(flight, p)
  {
    for k := 0 to |flight|
      invariant forall j :: 0 <= j < k ==> !Within1(flight[j], p)
    {
      if flight[k].0 <= p < flight[k].1 { return true; }
    }
    b := false;
  }

  /** Is every page of [first, end) on the wire, in whatever pieces? */
  method CoveredByFlight(flight: Flight, first: nat, end: nat) returns (b: bool)
    ensures b <==> forall p: nat :: first <= p < end ==> InFlight(flight, p)
  {
    var at, moved := first, true;
    while at < end && moved
      invariant first <= at
      invariant forall p: nat :: first <= p < at && p < end ==> InFlight(flight, p)
      invariant !moved && at < end ==> !InFlight(flight, at)
      decreases end - at, moved
    {
      moved := false;
      for k := 0 to |flight|
        invariant !moved && forall j :: 0 <= j < k ==> !Within1(flight[j], at)
      {
        if flight[k].0 <= at && flight[k].1 > at {
          assert forall p: nat :: at <= p < flight[k].1 ==> Within1(flight[k], p);
          at := flight[k].1;
          moved := true;
          break;
        }
      }
    }
    b := at >= end;
  }

  /** Neither present nor staged (nor, when asked, on the wire). */
  ghost predicate Missing(present: set<nat>, s: Stage, flight: Flight, skip: bool, p: nat) {
    p !in present && !s.Holds(p) && !(skip && InFlight(flight, p))
  }

  /** hasRange: every page of a non-empty range inside the file is here. */
  method HasRange(g: Geometry, present: set<nat>, s: Stage, off: nat, len: nat) returns (b: bool)
    requires g.Valid() && off < 0x1_0000_0000_0000_0000 && len < 0x1_0000_0000_0000_0000
    ensures b <==> len > 0 && off + len <= g.fileSize && off + len < 0x1_0000_0000_0000_0000
                   && forall p: nat :: g.PageOf(off) <= p <= g.PageOf(off + len - 1) ==> p in present || s.Holds(p)
  {
    if len == 0 || Add64(off, len) < off || Add64(off, len) > g.fileSize { return false; }
    var first, last := g.PageOf(off), g.PageOf(off + len - 1);
    FirstBeforeLast(g, off, off + len - 1);
    for i := first to last + 1
      invariant forall p: nat :: first <= p < i ==> p in present || s.Holds(p)
    {
      if i !in present && !s.Holds(i) { return false; }
    }
    b := true;
  }

  /** Byte runs `runs` are the page spans `spans`: ascending, never touching, each page of
      [first, stop) that is missing in one of them and no other page in any. */
  ghost predicate SpansOf(g: Geometry, runs: seq<(nat, nat)>, spans: seq<(nat, nat)>, first: nat, stop: nat,
                          miss: set<nat>)
    requires g.Valid() && stop <= g.Npages()
  {
    && |runs| == |spans|
    && (forall k :: 0 <= k < |spans| ==>
          && first <= spans[k].0 <= spans[k].1 < stop
          && runs[k] == (g.Start(spans[k].0), g.RunBytes(spans[k].0, spans[k].1)))
    && (forall j, k :: 0 <= j < k < |spans| ==> spans[j].1 + 1 < spans[k].0)
    && (forall p: nat {:trigger p in miss} :: p in miss <==> InSpans(spans, p))
  }

  predicate InSpan(span: (nat, nat), p: nat) { span.0 <= p <= span.1 }
  ghost predicate InSpans(spans: seq<(nat, nat)>, p: nat) { exists k :: 0 <= k < |spans| && InSpan(spans[k], p) }

  /** The last span grows by the next page, or a new one of that page follows. */
  lemma SpansGrow(spans: seq<(nat, nat)>, i: nat, p: nat)
    ensures InSpans(spans + [(i, i)], p) <==> InSpans(spans, p) || p == i
    ensures spans != [] && spans[|spans| - 1].0 <= spans[|spans| - 1].1 && spans[|spans| - 1].1 + 1 == i ==>
              (InSpans(spans[|spans| - 1 := (spans[|spans| - 1].0, i)], p) <==> InSpans(spans, p) || p == i)
  {
    var more := spans + [(i, i)];
    if InSpans(spans, p) {
      var k :| 0 <= k < |spans| && InSpan(spans[k], p);
      assert InSpan(more[k], p);
    }
    if p == i { assert InSpan(more[|spans|], p); }
    if InSpans(more, p) {
      var k :| 0 <= k < |more| && InSpan(more[k], p);
      if k < |spans| { assert InSpan(spans[k], p); }
    }
    if spans != [] && spans[|spans| - 1].0 <= spans[|spans| - 1].1 && spans[|spans| - 1].1 + 1 == i {
      LastGrows(spans, i, p);
    }
  }

  lemma LastGrows(spans: seq<(nat, nat)>, i: nat, p: nat)
    requires spans != [] && spans[|spans| - 1].0 <= spans[|spans| - 1].1 && spans[|spans| - 1].1 + 1 == i
    ensures InSpans(spans[|spans| - 1 := (spans[|spans| - 1].0, i)], p) <==> InSpans(spans, p) || p == i
  {
    var n := |spans| - 1;
    var grown := spans[n := (spans[n].0, i)];
    if InSpans(spans, p) {
      var k :| 0 <= k < |spans| && InSpan(spans[k], p);
      assert InSpan(grown[k], p);
    }
    if p == i { assert InSpan(grown[n], p); }
    if InSpans(grown, p) && p != i {
      var k :| 0 <= k < |grown| && InSpan(grown[k], p);
      assert InSpan(spans[k], p);
    }
  }

  lemma EmptySpans(g: Geometry, first: nat)
    requires g.Valid() && first <= g.Npages()
    ensures SpansOf(g, [], [], first, first, {})
  {}

  lemma LongerStop(g: Geometry, runs: seq<(nat, nat)>, spans: seq<(nat, nat)>, first: nat, stop: nat, miss: set<nat>)
    requires g.Valid() && stop < g.Npages() && SpansOf(g, runs, spans, first, stop, miss)
    ensures SpansOf(g, runs, spans, first, stop + 1, miss)
  {}

  /** Whether page `i` continues the last run is decided by bytes; it is the same as
      following its last page. */
  lemma Adjacent(g: Geometry, a: nat, b: nat, i: nat)
    requires g.Valid() && a <= b < i < g.Npages()
    ensures g.Start(a) + g.RunBytes(a, b) == g.Start(i) <==> b + 1 == i
    ensures b + 1 == i ==> g.RunBytes(a, b) + g.PageBytes(i) == g.RunBytes(a, i)
  {
    g.EndIsNextStart(b);
    g.StartMono(a, b);
    if b + 1 < i { g.StartMono(b + 1, i); }
  }

  lemma GrowSpan(g: Geometry, runs: seq<(nat, nat)>, spans: seq<(nat, nat)>, first: nat, i: nat, miss: set<nat>)
    requires g.Valid() && first <= i < g.Npages() && SpansOf(g, runs, spans, first, i, miss)
    requires runs != [] && spans[|spans| - 1].1 + 1 == i
    ensures var n := |runs| - 1;
            SpansOf(g, runs[n := (runs[n].0, runs[n].1 + g.PageBytes(i))], spans[n := (spans[n].0, i)], first, i + 1, miss + {i})
  {
    var n := |runs| - 1;
    Adjacent(g, spans[n].0, spans[n].1, i);
    hide Geometry.Npages, Geometry.PageBytes, Geometry.Start, Geometry.RunBytes;
    var spans', miss' := spans[n := (spans[n].0, i)], miss + {i};
    forall p: nat ensures p in miss' <==> InSpans(spans', p) { SpansGrow(spans, i, p); }
    hide InSpans;
  }

  lemma NewSpan(g: Geometry, runs: seq<(nat, nat)>, spans: seq<(nat, nat)>, first: nat, i: nat, miss: set<nat>)
    requires g.Valid() && first <= i < g.Npages() && SpansOf(g, runs, spans, first, i, miss)
    requires runs != [] ==> spans[|spans| - 1].1 + 1 < i
    ensures SpansOf(g, runs + [(g.Start(i), g.PageBytes(i))], spans + [(i, i)], first, i + 1, miss + {i})
  {
    assert g.RunBytes(i, i) == g.PageBytes(i);
    hide Geometry.Npages, Geometry.PageBytes, Geometry.Start, Geometry.RunBytes;
    var spans', miss' := spans + [(i, i)], miss + {i};
    forall p: nat ensures p in miss' <==> InSpans(spans', p) { SpansGrow(spans, i, p); }
    hide InSpans;
    forall j, k | 0 <= j < k < |spans'| ensures spans'[j].1 + 1 < spans'[k].0 {
      if k == |spans| && j < |spans| - 1 { assert spans[j].1 + 1 < spans[|spans| - 1].0; }
    }
  }

  lemma LastSpan(g: Geometry, runs: seq<(nat, nat)>, spans: seq<(nat, nat)>, first: nat, i: nat, miss: set<nat>)
    requires g.Valid() && first <= i < g.Npages() && SpansOf(g, runs, spans, first, i, miss)
    ensures |runs| == |spans|
    ensures runs != [] ==> var n := |runs| - 1;
                           && (runs[n].0 + runs[n].1 == g.Start(i) <==> spans[n].1 + 1 == i)
                           && spans[n].1 + 1 <= i
  {
    if runs != [] { Adjacent(g, spans[|spans| - 1].0, spans[|spans| - 1].1, i); }
  }

  /** Some byte run holds offset `x`. */
  ghost predicate InSome(runs: seq<(nat, nat)>, x: nat) {
    exists k :: 0 <= k < |runs| && runs[k].0 <= x < runs[k].0 + runs[k].1
  }

  /** Page `p` meets [off, off + len) inside the file, and is missing; a length that wraps
      asks for nothing. */
  ghost predicate Asked(g: Geometry, present: set<nat>, s: Stage, flight: Flight, skip: bool, off: nat, len: nat, p: nat)
    requires g.Valid()
  {
    var end := Min(off + len, g.fileSize);
    && len > 0 && off + len < 0x1_0000_0000_0000_0000 && off < end
    && g.PageOf(off) <= p <= g.PageOf(end - 1) && Missing(present, s, flight, skip, p)
  }

  ghost predicate Boundary(g: Geometry, x: nat) { exists i: nat :: x == g.Start(i) }

  /** Runs of whole pages, ascending, with a gap between any two. */
  ghost predicate PageRuns(g: Geometry, runs: seq<(nat, nat)>)
    requires g.Valid()
  {
    && (forall k :: 0 <= k < |runs| ==>
          && runs[k].1 > 0 && runs[k].0 + runs[k].1 <= g.fileSize && Boundary(g, runs[k].0)
          && (Boundary(g, runs[k].0 + runs[k].1) || runs[k].0 + runs[k].1 == g.fileSize))
    && (forall j, k :: 0 <= j < k < |runs| ==> runs[j].0 + runs[j].1 < runs[k].0)
  }

  /** absentRuns: page-aligned byte runs, ascending and never touching, whose pages are
      exactly the missing pages of the range. */
  method AbsentRuns(g: Geometry, present: set<nat>, s: Stage, flight: Flight, off: nat, len: nat, skip: bool)
    returns (runs: seq<(nat, nat)>)
    requires g.Valid() && off < 0x1_0000_0000_0000_0000 && len < 0x1_0000_0000_0000_0000
    ensures PageRuns(g, runs)
    ensures forall p: nat :: p < g.Npages() ==>
              (InSome(runs, g.Start(p)) <==> Asked(g, present, s, flight, skip, off, len, p))
    ensures runs == [] <==> forall p: nat :: p < g.Npages() ==> !Asked(g, present, s, flight, skip, off, len, p)
  {
    hide Geometry.Npages, Geometry.PageBytes, Geometry.Start, Geometry.RunBytes, Geometry.PageOf, SpansOf, Missing, InSome, PageRuns;
    runs := [];
    ghost var spans: seq<(nat, nat)>, miss: set<nat> := [], {};
    EmptySpans(g, 0);
    Widen(g, runs, spans, 0, 0, miss);
    if len != 0 && Add64(off, len) >= off && off < Min(off + len, g.fileSize) {
      var end := Min(off + len, g.fileSize);
      FirstBeforeLast(g, off, end - 1);
      g.PageOfFacts(end - 1);
      runs, spans, miss := Collect(g, present, s, flight, skip, g.PageOf(off), g.PageOf(end - 1));
    }
    SpansMean(g, runs, spans, miss);
  }

  /** For a non-empty request inside the file, everything is here exactly when no page is
      absent: the answers of hasRange and absentRuns agree. */
  lemma HereIffNoneAsked(g: Geometry, present: set<nat>, s: Stage, flight: Flight, off: nat, len: nat)
    requires g.Valid() && len > 0 && off + len <= g.fileSize < 0x1_0000_0000_0000_0000
    ensures (forall p: nat :: g.PageOf(off) <= p <= g.PageOf(off + len - 1) ==> p in present || s.Holds(p))
            <==> forall p: nat :: p < g.Npages() ==> !Asked(g, present, s, flight, false, off, len, p)
  {
    hide Geometry.Npages, Geometry.PageOf;
    g.PageOfFacts(off + len - 1);
    var last := g.PageOf(off + len - 1);
    if forall p: nat :: p < g.Npages() ==> !Asked(g, present, s, flight, false, off, len, p) {
      forall p: nat | g.PageOf(off) <= p <= last ensures p in present || s.Holds(p) {
        assert !Asked(g, present, s, flight, false, off, len, p);
      }
    }
  }

  /** The walk over the pages [first, last]. */
  method Collect(g: Geometry, present: set<nat>, s: Stage, flight: Flight, skip: bool, first: nat, last: nat)
    returns (runs: seq<(nat, nat)>, ghost spans: seq<(nat, nat)>, ghost miss: set<nat>)
    requires g.Valid() && first <= last < g.Npages()
    ensures SpansOf(g, runs, spans, 0, g.Npages(), miss) && (runs == [] <==> miss == {})
    ensures forall p: nat {:trigger p in miss} :: p in miss <==> first <= p <= last && Missing(present, s, flight, skip, p)
  {
    hide Geometry.Npages, Geometry.PageBytes, Geometry.Start, Geometry.RunBytes, Geometry.PageOf, SpansOf, InFlight;
    runs, spans, miss := [], [], {};
    EmptySpans(g, first);
    var i := first;
    while i <= last
      invariant first <= i <= last + 1 <= g.Npages()
      invariant SpansOf(g, runs, spans, first, i, miss)
      invariant forall p: nat {:trigger p in miss} :: p in miss <==> first <= p < i && Missing(present, s, flight, skip, p)
    {
      var here := i in present || s.Holds(i);
      if !here && skip { here := PageInFlight(flight, i); }
      if here {
        LongerStop(g, runs, spans, first, i, miss);
      } else {
        LastSpan(g, runs, spans, first, i, miss);
        if runs != [] && runs[|runs| - 1].0 + runs[|runs| - 1].1 == g.Start(i) {
          GrowSpan(g, runs, spans, first, i, miss);
          ghost var n := |spans| - 1;
          runs := runs[|runs| - 1 := (runs[|runs| - 1].0, runs[|runs| - 1].1 + g.PageBytes(i))];
          spans := spans[n := (spans[n].0, i)];
        } else {
          NewSpan(g, runs, spans, first, i, miss);
          runs := runs + [(g.Start(i), g.PageBytes(i))];
          spans := spans + [(i, i)];
        }
        miss := miss + {i};
      }
      i := i + 1;
    }
    Widen(g, runs, spans, first, i, miss);
  }

  /** Page spans, read as byte runs. */
  lemma SpansMean(g: Geometry, runs: seq<(nat, nat)>, spans: seq<(nat, nat)>, miss: set<nat>)
    requires g.Valid() && SpansOf(g, runs, spans, 0, g.Npages(), miss)
    ensures PageRuns(g, runs)
    ensures forall p: nat :: p < g.Npages() ==> (InSome(runs, g.Start(p)) <==> p in miss)
    ensures forall p <- miss :: p < g.Npages()
  {
    hide Geometry.Npages, Geometry.PageBytes, Geometry.Start, Geometry.RunBytes;
    forall k | 0 <= k < |runs|
      ensures runs[k].1 > 0 && runs[k].0 + runs[k].1 <= g.fileSize && Boundary(g, runs[k].0)
      ensures Boundary(g, runs[k].0 + runs[k].1) || runs[k].0 + runs[k].1 == g.fileSize
    {
      SpanBytes(g, spans[k].0, spans[k].1);
    }
    forall j, k | 0 <= j < k < |runs| ensures runs[j].0 + runs[j].1 < runs[k].0 {
      SpanGap(g, spans[j].0, spans[j].1, spans[k].0);
    }
    forall p: nat | p < g.Npages() ensures InSome(runs, g.Start(p)) <==> p in miss {
      forall k | 0 <= k < |runs| ensures runs[k].0 <= g.Start(p) < runs[k].0 + runs[k].1 <==> InSpan(spans[k], p) {
        SpanHolds(g, spans[k].0, spans[k].1, p);
      }
    }
  }

  lemma SpanBytes(g: Geometry, a: nat, b: nat)
    requires g.Valid() && a <= b < g.Npages()
    ensures g.RunBytes(a, b) > 0 && g.Start(a) + g.RunBytes(a, b) <= g.fileSize && Boundary(g, g.Start(a))
    ensures Boundary(g, g.Start(a) + g.RunBytes(a, b)) || g.Start(a) + g.RunBytes(a, b) == g.fileSize
  {
    g.StartMono(a, b);
    g.EndIsNextStart(b);
    assert b + 1 < g.Npages() ==> g.Start(a) + g.RunBytes(a, b) == g.Start(b + 1);
  }

  lemma SpanGap(g: Geometry, a: nat, b: nat, c: nat)
    requires g.Valid() && a <= b && b + 1 < c < g.Npages()
    ensures g.Start(a) + g.RunBytes(a, b) < g.Start(c)
  {
    g.EndIsNextStart(b);
    g.StartMono(b + 1, c);
    g.StartMono(a, b);
  }

  lemma SpanHolds(g: Geometry, a: nat, b: nat, p: nat)
    requires g.Valid() && a <= b < g.Npages() && p < g.Npages()
    ensures g.Start(a) <= g.Start(p) < g.Start(a) + g.RunBytes(a, b) <==> a <= p <= b
  {
    g.EndIsNextStart(b);
    g.StartMono(a, b);
    if p < a { g.StartMono(p, a); } else { g.StartMono(a, p); }
    if p > b { g.PageOrder(b, p); } else { g.StartMono(p, b); }
  }

  lemma Widen(g: Geometry, runs: seq<(nat, nat)>, spans: seq<(nat, nat)>, first: nat, stop: nat, miss: set<nat>)
    requires g.Valid() && stop <= g.Npages() && SpansOf(g, runs, spans, first, stop, miss)
    ensures SpansOf(g, runs, spans, 0, g.Npages(), miss)
    ensures runs == [] <==> miss == {}
  {
    if runs != [] { assert InSpan(spans[0], spans[0].0) && spans[0].0 in miss; }
    else { assert forall p: nat :: p !in miss; }
  }
}
