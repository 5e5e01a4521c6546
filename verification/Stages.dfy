/** The fill buffer: pages staged in RAM, some of them speculative, the snapshot a
    flush is writing, and the byte counts kept beside them. */
module Stages {
  import opened Bytes
  import opened Pages

  /** A staged page; `spec` marks a prediction no reader has confirmed. */
  datatype Staged = Staged(data: seq<Byte>, crc: U32, spec: bool, touched: bool)

  /** The two stage maps and their counters. `owedBuf` and `owedSpec` are what the
      threads that changed the stage have yet to add to the process totals. */
  datatype Stage = Stage(buf: map<nat, Staged>, flushing: map<nat, Staged>,
                         bufBytes: int, specBytes: int, snapBytes: int,
                         owedBuf: int, owedSpec: int)
  {
    predicate Holds(p: nat) { p in buf || p in flushing }
  }

  function EmptyStage(): Stage { Stage(map[], map[], 0, 0, 0, 0, 0) }

  function Real(buf: map<nat, Staged>): set<nat> { set p | p in buf && !buf[p].spec }
  function Marked(buf: map<nat, Staged>): set<nat> { set p | p in buf && buf[p].spec }

  // ---- one page at a time -----------------------------------------------------------

  /** A confirmed prediction becomes a real page: its bytes change pools. */
  function Unmark(s: Stage, p: nat, nb: nat): Stage
    requires p in s.buf
  {
    s.(buf := s.buf[p := s.buf[p].(spec := false)],
       specBytes := s.specBytes - nb, bufBytes := s.bufBytes + nb,
       owedSpec := s.owedSpec - nb, owedBuf := s.owedBuf + nb)
  }

  /** A demand fill of one whole page. */
  function FillPage(s: Stage, p: nat, nb: nat, page: Staged, present: bool): Stage {
    if p in s.buf then
      if s.buf[p].spec then Unmark(s, p, nb) else s
    else if present || p in s.flushing then s
    else
      s.(buf := s.buf[p := page.(spec := false)],
         bufBytes := s.bufBytes + nb, owedBuf := s.owedBuf + nb)
  }

  /** A prefetched page, taken only where nothing is yet. */
  function SpeculatePage(s: Stage, p: nat, nb: nat, page: Staged, present: bool): Stage {
    if present || s.Holds(p) then s
    else
      s.(buf := s.buf[p := page.(spec := true)],
         specBytes := s.specBytes + nb, owedSpec := s.owedSpec + nb)
  }

  /** An accounted read served the page from the stage. */
  function ServePage(s: Stage, p: nat, nb: nat): Stage {
    if p in s.buf && s.buf[p].spec then Unmark(s, p, nb) else s
  }

  /** A page still marked is dropped, or consumed, unwritten. */
  function DropPage(s: Stage, p: nat, nb: nat): Stage {
    if p in s.buf && s.buf[p].spec then
      s.(buf := s.buf - {p}, specBytes := s.specBytes - nb, owedSpec := s.owedSpec - nb)
    else s
  }

  /** The cache used part of a marked edge page. */
  function TouchPage(s: Stage, p: nat): Stage {
    if p in s.buf && s.buf[p].spec then s.(buf := s.buf[p := s.buf[p].(touched := true)]) else s
  }

  /** A released range takes the page out of the stage, whichever pool it is in. */
  function ReleasePage(s: Stage, p: nat, nb: nat): Stage {
    if p !in s.buf then s
    else if s.buf[p].spec then
      s.(buf := s.buf - {p}, specBytes := s.specBytes - nb, owedSpec := s.owedSpec - nb)
    else
      s.(buf := s.buf - {p}, bufBytes := s.bufBytes - nb, owedBuf := s.owedBuf - nb)
  }

  /** Take every real page for writing; marked ones stay. */
  function BeginFlush(s: Stage): Stage
    requires s.flushing == map[]
  {
    s.(flushing := map p | p in s.buf && !s.buf[p].spec :: s.buf[p],
       buf := map p | p in s.buf && s.buf[p].spec :: s.buf[p],
       snapBytes := s.bufBytes, bufBytes := 0)
  }

  /** The flush is over, written or failed: its pages leave the stage. */
  function EndFlush(s: Stage): Stage {
    s.(flushing := map[], snapBytes := 0, owedBuf := s.owedBuf - s.snapBytes)
  }

  // ---- what every operation keeps -----------------------------------------------------

  ghost predicate Inside(g: Geometry, s: Stage)
    requires g.Valid()
  {
    Within(g, Real(s.buf)) && Within(g, Marked(s.buf)) && Within(g, s.flushing.Keys)
  }

  /** The counters are the sums they stand for; a page being written is never marked
      and never staged again. */
  ghost predicate StageInv(g: Geometry, s: Stage)
    requires g.Valid()
  {
    && Inside(g, s)
    && s.bufBytes == SumBytes(g, Real(s.buf))
    && s.specBytes == SumBytes(g, Marked(s.buf))
    && s.snapBytes == SumBytes(g, s.flushing.Keys)
    && (forall p <- s.flushing :: !s.flushing[p].spec)
    && s.buf.Keys !! s.flushing.Keys
  }

  /** What this entry has contributed to the process totals so far. */
  function PaidBuf(s: Stage): int { s.bufBytes + s.snapBytes - s.owedBuf }
  function PaidSpec(s: Stage): int { s.specBytes - s.owedSpec }

  ghost predicate SamePaid(s: Stage, s': Stage) {
    PaidBuf(s') == PaidBuf(s) && PaidSpec(s') == PaidSpec(s)
  }

  lemma UnmarkKeeps(g: Geometry, s: Stage, p: nat)
    requires g.Valid() && StageInv(g, s) && p in s.buf && s.buf[p].spec && p < g.Npages()
    ensures StageInv(g, Unmark(s, p, g.PageBytes(p))) && SamePaid(s, Unmark(s, p, g.PageBytes(p)))
    ensures Real(Unmark(s, p, g.PageBytes(p)).buf) == Real(s.buf) + {p}
  {
    var s' := Unmark(s, p, g.PageBytes(p));
    assert Real(s'.buf) == Real(s.buf) + {p};
    assert Marked(s'.buf) == Marked(s.buf) - {p};
    SumAdd(g, Real(s.buf), p);
    SumTake(g, Marked(s.buf), p);
  }

  lemma FillKeeps(g: Geometry, s: Stage, p: nat, page: Staged, present: bool)
    requires g.Valid() && StageInv(g, s) && p < g.Npages()
    ensures var s' := FillPage(s, p, g.PageBytes(p), page, present);
            && StageInv(g, s') && SamePaid(s, s') && Real(s'.buf) <= Real(s.buf) + {p} && s'.flushing == s.flushing
            && s'.buf == if p in s.buf then s.buf[p := s.buf[p].(spec := false)]
                         else if present || p in s.flushing then s.buf else s.buf[p := page.(spec := false)]
  {
    var s' := FillPage(s, p, g.PageBytes(p), page, present);
    if p in s.buf {
      if s.buf[p].spec { UnmarkKeeps(g, s, p); }
    } else if !present && p !in s.flushing {
      assert Real(s'.buf) == Real(s.buf) + {p};
      assert Marked(s'.buf) == Marked(s.buf);
      SumAdd(g, Real(s.buf), p);
    }
  }

  lemma SpeculateKeeps(g: Geometry, s: Stage, p: nat, page: Staged, present: bool)
    requires g.Valid() && StageInv(g, s) && p < g.Npages()
    ensures var s' := SpeculatePage(s, p, g.PageBytes(p), page, present);
            && StageInv(g, s') && SamePaid(s, s') && Real(s'.buf) == Real(s.buf) && s'.flushing == s.flushing
            && s'.buf == if present || p in s.buf || p in s.flushing then s.buf else s.buf[p := page.(spec := true)]
  {
    var s' := SpeculatePage(s, p, g.PageBytes(p), page, present);
    assert Real(s'.buf) == Real(s.buf);
    if !present && !s.Holds(p) {
      assert Marked(s'.buf) == Marked(s.buf) + {p};
      SumAdd(g, Marked(s.buf), p);
    }
  }

  lemma ServeKeeps(g: Geometry, s: Stage, p: nat)
    requires g.Valid() && StageInv(g, s) && p < g.Npages()
    ensures var s' := ServePage(s, p, g.PageBytes(p));
            && StageInv(g, s') && SamePaid(s, s') && Real(s'.buf) <= Real(s.buf) + {p} && s'.flushing == s.flushing
            && s'.buf == if p in s.buf then s.buf[p := s.buf[p].(spec := false)] else s.buf
  {
    if p in s.buf && s.buf[p].spec { UnmarkKeeps(g, s, p); }
  }

  lemma DropKeeps(g: Geometry, s: Stage, p: nat)
    requires g.Valid() && StageInv(g, s) && p < g.Npages()
    ensures var s' := DropPage(s, p, g.PageBytes(p));
            && StageInv(g, s') && SamePaid(s, s') && Real(s'.buf) == Real(s.buf) && s'.flushing == s.flushing
            && s'.buf == if p in s.buf && s.buf[p].spec then s.buf - {p} else s.buf
  {
    var s' := DropPage(s, p, g.PageBytes(p));
    assert Real(s'.buf) == Real(s.buf);
    if p in s.buf && s.buf[p].spec {
      assert Marked(s'.buf) == Marked(s.buf) - {p};
      SumTake(g, Marked(s.buf), p);
    }
  }

  lemma TouchKeeps(g: Geometry, s: Stage, p: nat)
    requires g.Valid() && StageInv(g, s)
    ensures StageInv(g, TouchPage(s, p)) && SamePaid(s, TouchPage(s, p)) && Real(TouchPage(s, p).buf) == Real(s.buf)
    ensures TouchPage(s, p).flushing == s.flushing && TouchPage(s, p).bufBytes == s.bufBytes && TouchPage(s, p).specBytes == s.specBytes
    ensures TouchPage(s, p).buf == if p in s.buf && s.buf[p].spec then s.buf[p := s.buf[p].(touched := true)] else s.buf
  {
    var s' := TouchPage(s, p);
    assert Real(s'.buf) == Real(s.buf) && Marked(s'.buf) == Marked(s.buf);
  }

  lemma ReleaseKeeps(g: Geometry, s: Stage, p: nat)
    requires g.Valid() && StageInv(g, s) && p < g.Npages()
    ensures var s' := ReleasePage(s, p, g.PageBytes(p));
            && StageInv(g, s') && SamePaid(s, s') && Real(s'.buf) <= Real(s.buf)
            && s'.buf == s.buf - {p} && s'.flushing == s.flushing
  {
    var s' := ReleasePage(s, p, g.PageBytes(p));
    if p in s.buf {
      assert Real(s'.buf) == Real(s.buf) - {p};
      assert Marked(s'.buf) == Marked(s.buf) - {p};
      if s.buf[p].spec {
        assert Real(s'.buf) == Real(s.buf);
        SumTake(g, Marked(s.buf), p);
      } else {
        assert Marked(s'.buf) == Marked(s.buf);
        SumTake(g, Real(s.buf), p);
      }
    }
  }

  lemma BeginFlushKeeps(g: Geometry, s: Stage)
    requires g.Valid() && StageInv(g, s) && s.flushing == map[]
    ensures StageInv(g, BeginFlush(s)) && SamePaid(s, BeginFlush(s))
    ensures BeginFlush(s).flushing.Keys == Real(s.buf) && Real(BeginFlush(s).buf) == {}
    ensures BeginFlush(s).buf == (map p | p in s.buf && s.buf[p].spec :: s.buf[p]) && forall p <- BeginFlush(s).flushing :: BeginFlush(s).flushing[p] == s.buf[p]
  {
    var s' := BeginFlush(s);
    assert Real(s'.buf) == {} && Marked(s'.buf) == Marked(s.buf) && s'.flushing.Keys == Real(s.buf);
  }

  lemma EndFlushKeeps(g: Geometry, s: Stage)
    requires g.Valid() && StageInv(g, s)
    ensures StageInv(g, EndFlush(s)) && SamePaid(s, EndFlush(s)) && EndFlush(s).flushing == map[] && EndFlush(s).buf == s.buf
  {}

  lemma EmptyInv(g: Geometry)
    requires g.Valid()
    ensures StageInv(g, EmptyStage())
  {
    assert Real(EmptyStage().buf) == {} && Marked(EmptyStage().buf) == {};
  }
}
