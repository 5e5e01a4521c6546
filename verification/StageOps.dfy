/** Operations on the fill buffer over byte ranges: the loops that walk the whole pages
    of a span, proved page by page. */
module StageOps {
  import opened Bytes
  import opened Pages
  import opened Stages

  /** Where the span [off, off + len) ends inside the file. */
  function SpanEnd(g: Geometry, off: nat, len: nat): nat { Min(Add64(off, len), g.fileSize) }

  /** Page `p` lies wholly inside [off, end). */
  predicate Whole(g: Geometry, off: nat, end: nat, p: nat)
    requires g.Valid()
  {
    p < g.Npages() && off <= g.Start(p) && g.End(p) <= end
  }

  function FirstWhole(g: Geometry, off: nat): nat
    requires g.Valid()
  {
    (off + g.pageSize - 1) / g.pageSize
  }

  /** One past the last whole page; the file's tail page counts as whole. */
  function StopWhole(g: Geometry, end: nat): nat
    requires g.Valid()
  {
    if end == g.fileSize then (end + g.pageSize - 1) / g.pageSize else end / g.pageSize
  }

  /** The page range the loops walk is exactly the whole pages of the span. */
  lemma WholeRange(g: Geometry, off: nat, end: nat, p: nat)
    requires g.Valid() && off < end <= g.fileSize
    ensures FirstWhole(g, off) <= p < StopWhole(g, end) <==> Whole(g, off, end, p)
  {
    CeilDiv(off, g.pageSize, p);
    g.InRange(p);
    if p < g.Npages() {
      g.EndIsNextStart(p);
      g.StartNext(p);
      FloorDiv(end, g.pageSize, p);
    } else if end != g.fileSize {
      FloorDiv(end, g.pageSize, p);
      g.StartNext(p);
    }
  }

  /** The span [off, off + len) as far as it lies in the file; none of it if its end wraps. */
  function SpanIn(g: Geometry, off: nat, len: nat): nat {
    if off + len < 0x1_0000_0000_0000_0000 then Min(off + len, g.fileSize) else 0
  }

  /** The end in wrapping arithmetic has the same whole pages before it. */
  lemma SpanEndIs(g: Geometry, off: nat, len: nat, p: nat)
    requires g.Valid() && off < 0x1_0000_0000_0000_0000 && len < 0x1_0000_0000_0000_0000
    ensures Whole(g, off, SpanEnd(g, off, len), p) <==> Whole(g, off, SpanIn(g, off, len), p)
    ensures SpanIn(g, off, len) <= off + len
  {
    hide Geometry.Npages, Geometry.PageBytes, Geometry.Start;
    if off + len >= 0x1_0000_0000_0000_0000 && p < g.Npages() { g.EndIsNextStart(p); }
  }

  /** What the stage holds for one page, outside the flush in progress. */
  function BufAt(s: Stage, p: nat): Option<Staged> { if p in s.buf then Some(s.buf[p]) else None }

  function StagePage(s: Stage, p: nat, nb: nat, page: Staged, present: bool, spec: bool): Stage {
    if spec then SpeculatePage(s, p, nb, page, present) else FillPage(s, p, nb, page, present)
  }

  /** The page of an input buffer that starts at file offset `off`. */
  function InputPage(g: Geometry, crc: Crc, off: nat, bytes: seq<Byte>, p: nat, spec: bool): Staged
    requires g.Valid() && p < g.Npages() && off <= g.Start(p) && g.End(p) <= off + |bytes|
  {
    var data := bytes[g.Start(p) - off..g.End(p) - off];
    Staged(data, crc(data), spec, false)
  }

  /** Page `p` once the bytes `data` were staged over it. A demand fill makes a page that is
      already staged real, as it is; where nothing is staged, and nothing is present or being
      written, the bytes are taken, real or as a prediction; a prediction changes nothing
      else. */
  ghost predicate PageStaged(crc: Crc, s0: Stage, s: Stage, present: bool, data: seq<Byte>, spec: bool, p: nat) {
    if p in s0.buf && !spec then
      && p in s.buf && !s.buf[p].spec
      && s.buf[p].data == s0.buf[p].data && s.buf[p].crc == s0.buf[p].crc && s.buf[p].touched == s0.buf[p].touched
    else if p !in s0.buf && !present && p !in s0.flushing then
      && p in s.buf && s.buf[p].spec == spec && !s.buf[p].touched
      && s.buf[p].data == data && s.buf[p].crc == crc(data)
    else
      && (p in s.buf <==> p in s0.buf)
      && (p in s.buf ==> s.buf[p] == s0.buf[p])
  }

  /** Staging a span, page by page: exactly its whole pages are staged, and nothing else in the
      stage changes. */
  ghost predicate StagedSpan(g: Geometry, crc: Crc, s0: Stage, s: Stage, present: set<nat>,
                             off: nat, bytes: seq<Byte>, end: nat, spec: bool, lo: nat, hi: nat)
    requires g.Valid() && end <= off + |bytes|
  {
    forall p: nat {:trigger BufAt(s, p)} ::
      if lo <= p < hi && Whole(g, off, end, p)
      then PageStaged(crc, s0, s, p in present, bytes[g.Start(p) - off..g.End(p) - off], spec, p)
      else BufAt(s, p) == BufAt(s0, p)
  }

  /** Staging one page over what the stage holds of it. */
  lemma StagesPage(crc: Crc, s0: Stage, s: Stage, p: nat, nb: nat, data: seq<Byte>, present: bool, spec: bool)
    requires BufAt(s, p) == BufAt(s0, p) && s.flushing == s0.flushing
    ensures PageStaged(crc, s0, StagePage(s, p, nb, Staged(data, crc(data), spec, false), present, spec), present, data, spec, p)
  {
    assert p in s.buf <==> BufAt(s, p).Some?;
    assert p in s0.buf <==> BufAt(s0, p).Some?;
  }

  /** What a page came to is a matter of its own entry. */
  lemma SameStaged(crc: Crc, s0: Stage, s: Stage, t: Stage, present: bool, data: seq<Byte>, spec: bool, p: nat)
    requires BufAt(s, p) == BufAt(t, p)
    ensures PageStaged(crc, s0, s, present, data, spec, p) == PageStaged(crc, s0, t, present, data, spec, p)
  {
    assert p in s.buf <==> BufAt(s, p).Some?;
    assert p in t.buf <==> BufAt(t, p).Some?;
  }

  lemma StagePageKeeps(g: Geometry, s: Stage, p: nat, page: Staged, present: bool, spec: bool)
    requires g.Valid() && StageInv(g, s) && p < g.Npages()
    ensures var s' := StagePage(s, p, g.PageBytes(p), page, present, spec);
            && StageInv(g, s') && SamePaid(s, s') && s'.flushing == s.flushing
            && (forall q: nat {:trigger BufAt(s', q)} :: q != p ==> BufAt(s', q) == BufAt(s, q))
  {
    if spec { SpeculateKeeps(g, s, p, page, present); } else { FillKeeps(g, s, p, page, present); }
  }

  /** writePages and stageSpeculative: stage every whole page of the span. */
  method StageSpan(g: Geometry, crc: Crc, s0: Stage, present: set<nat>, off: nat, bytes: seq<Byte>, spec: bool)
    returns (s: Stage)
    requires g.Valid() && StageInv(g, s0)
    requires off < 0x1_0000_0000_0000_0000 && |bytes| < 0x1_0000_0000_0000_0000
    ensures StageInv(g, s) && SamePaid(s0, s) && s.flushing == s0.flushing
    ensures SpanIn(g, off, |bytes|) <= off + |bytes|
    ensures StagedSpan(g, crc, s0, s, present, off, bytes, SpanIn(g, off, |bytes|), spec, 0, g.Npages())
  {
    hide StageInv, SumBytes, StagePage, PageStaged, Geometry.Npages, Geometry.PageBytes, Geometry.Start;
    var end := SpanEnd(g, off, |bytes|);
    s := s0;
    if |bytes| == 0 || off >= end {
      NoneWhole(g, off, end);
      SameStagedSpan(g, crc, s0, s, present, off, bytes, spec);
      return;
    }
    var i := FirstWhole(g, off);
    ghost var first := i;
    g.InRange(i);
    while g.Start(i) < end
      invariant first <= i && (i < g.Npages() <==> g.Start(i) < g.fileSize)
      invariant StageInv(g, s) && SamePaid(s0, s) && s.flushing == s0.flushing
      invariant StagedSpan(g, crc, s0, s, present, off, bytes, end, spec, first, i)
      decreases end - g.Start(i)
    {
      if g.End(i) > end { break; }
      CeilDiv(off, g.pageSize, i);
      assert off <= g.Start(i) by { StartIs(g, i); }
      var page := InputPage(g, crc, off, bytes, i, spec);
      StagePageKeeps(g, s, i, page, i in present, spec);
      assert BufAt(s, i) == BufAt(s0, i);
      StagesPage(crc, s0, s, i, g.PageBytes(i), page.data, i in present, spec);
      ghost var t := s;
      s := StagePage(s, i, g.PageBytes(i), page, i in present, spec);
      OneMoreStaged(g, crc, s0, t, s, present, off, bytes, end, spec, first, i);
      g.StartNext(i);
      i := i + 1;
      g.InRange(i);
    }
    AllStaged(g, crc, s0, s, present, off, bytes, end, spec, i);
    SameStagedSpan(g, crc, s0, s, present, off, bytes, spec);
  }

  lemma SameStagedSpan(g: Geometry, crc: Crc, s0: Stage, s: Stage, present: set<nat>, off: nat, bytes: seq<Byte>, spec: bool)
    requires g.Valid() && off < 0x1_0000_0000_0000_0000 && |bytes| < 0x1_0000_0000_0000_0000 && SpanEnd(g, off, |bytes|) <= off + |bytes|
    requires StagedSpan(g, crc, s0, s, present, off, bytes, SpanEnd(g, off, |bytes|), spec, 0, g.Npages())
    ensures SpanIn(g, off, |bytes|) <= off + |bytes|
    ensures StagedSpan(g, crc, s0, s, present, off, bytes, SpanIn(g, off, |bytes|), spec, 0, g.Npages())
  {
    hide PageStaged, Geometry.Npages, Geometry.PageBytes, Geometry.Start, SpanEnd, SpanIn;
    SpanEndIs(g, off, |bytes|, 0);
    forall p: nat
      ensures if p < g.Npages() && Whole(g, off, SpanIn(g, off, |bytes|), p)
              then PageStaged(crc, s0, s, p in present, bytes[g.Start(p) - off..g.End(p) - off], spec, p)
              else BufAt(s, p) == BufAt(s0, p)
    {
      SpanEndIs(g, off, |bytes|, p);
      assert BufAt(s, p) == BufAt(s, p);
    }
  }

  lemma AllStaged(g: Geometry, crc: Crc, s0: Stage, s: Stage, present: set<nat>,
                  off: nat, bytes: seq<Byte>, end: nat, spec: bool, i: nat)
    requires g.Valid() && end <= off + |bytes| && end <= g.fileSize
    requires g.Start(i) >= end || (i < g.Npages() && g.End(i) > end)
    requires StagedSpan(g, crc, s0, s, present, off, bytes, end, spec, FirstWhole(g, off), i)
    ensures StagedSpan(g, crc, s0, s, present, off, bytes, end, spec, 0, g.Npages())
  {
    hide PageStaged, FirstWhole, Geometry.Npages, Geometry.PageBytes, Geometry.Start;
    forall p: nat
      ensures if p < g.Npages() && Whole(g, off, end, p)
              then PageStaged(crc, s0, s, p in present, bytes[g.Start(p) - off..g.End(p) - off], spec, p)
              else BufAt(s, p) == BufAt(s0, p)
    {
      OutsideSpan(g, off, end, i, p);
      assert BufAt(s, p) == BufAt(s, p);
    }
  }

  lemma OneMoreStaged(g: Geometry, crc: Crc, s0: Stage, t: Stage, s: Stage, present: set<nat>,
                      off: nat, bytes: seq<Byte>, end: nat, spec: bool, first: nat, i: nat)
    requires g.Valid() && end <= off + |bytes| && first <= i && Whole(g, off, end, i)
    requires StagedSpan(g, crc, s0, t, present, off, bytes, end, spec, first, i)
    requires forall p: nat :: p != i ==> BufAt(s, p) == BufAt(t, p)
    requires PageStaged(crc, s0, s, i in present, bytes[g.Start(i) - off..g.End(i) - off], spec, i)
    ensures StagedSpan(g, crc, s0, s, present, off, bytes, end, spec, first, i + 1)
  {
    hide PageStaged, Geometry.Npages, Geometry.PageBytes, Geometry.Start;
    forall p: nat
      ensures if first <= p < i + 1 && Whole(g, off, end, p)
              then PageStaged(crc, s0, s, p in present, bytes[g.Start(p) - off..g.End(p) - off], spec, p)
              else BufAt(s, p) == BufAt(s0, p)
    {
      if p != i {
        assert BufAt(t, p) == BufAt(s, p);
        if first <= p < i && Whole(g, off, end, p) {
          SameStaged(crc, s0, s, t, p in present, bytes[g.Start(p) - off..g.End(p) - off], spec, p);
        }
      }
    }
  }

  lemma StartIs(g: Geometry, i: nat)
    ensures g.Start(i) == i * g.pageSize
  {}

  /** Pages before the first whole one start too early; pages from the first that does not
      fit on end too late. */
  lemma OutsideSpan(g: Geometry, off: nat, end: nat, i: nat, p: nat)
    requires g.Valid() && end <= g.fileSize
    requires g.Start(i) >= end || (i < g.Npages() && g.End(i) > end)
    ensures p < FirstWhole(g, off) || p >= i ==> !Whole(g, off, end, p)
  {
    CeilDiv(off, g.pageSize, p);
    if p < g.Npages() && p >= i {
      g.StartMono(i, p);
      g.EndIsNextStart(p);
      if i < p && i < g.Npages() { g.PageOrder(i, p); }
    }
  }

  lemma NoneWhole(g: Geometry, off: nat, end: nat)
    requires g.Valid() && off >= end
    ensures forall p: nat :: !Whole(g, off, end, p)
  {
    forall p: nat | p < g.Npages() ensures !Whole(g, off, end, p) { g.EndIsNextStart(p); }
  }

  // ---- dropping what was never used -------------------------------------------------------

  ghost predicate DroppedSpan(g: Geometry, s0: Stage, s: Stage, off: nat, end: nat, lo: nat, hi: nat)
    requires g.Valid()
  {
    forall p: nat {:trigger BufAt(s, p)} ::
      BufAt(s, p) == if lo <= p < hi && Whole(g, off, end, p) && p in s0.buf && s0.buf[p].spec then None else BufAt(s0, p)
  }

  lemma DropPageKeeps(g: Geometry, s: Stage, p: nat)
    requires g.Valid() && StageInv(g, s) && p < g.Npages()
    ensures var s' := DropPage(s, p, g.PageBytes(p));
            && StageInv(g, s') && SamePaid(s, s') && s'.flushing == s.flushing && Real(s'.buf) == Real(s.buf)
            && BufAt(s', p) == (if p in s.buf && s.buf[p].spec then None else BufAt(s, p))
            && (forall q: nat {:trigger BufAt(s', q)} :: q != p ==> BufAt(s', q) == BufAt(s, q))
  {
    DropKeeps(g, s, p);
  }

  /** dropSpeculative and consumeSpeculative: the marked whole pages of the span leave the
      stage unwritten; `dropped` is their bytes. Real pages, and pages shared with a
      neighbouring span, stay. */
  method DropSpan(g: Geometry, s0: Stage, off: nat, len: nat) returns (s: Stage, dropped: int)
    requires g.Valid() && StageInv(g, s0)
    requires off < 0x1_0000_0000_0000_0000 && len < 0x1_0000_0000_0000_0000
    ensures StageInv(g, s) && SamePaid(s0, s) && s.flushing == s0.flushing && Real(s.buf) == Real(s0.buf)
    ensures DroppedSpan(g, s0, s, off, SpanIn(g, off, len), 0, g.Npages())
    ensures dropped == s0.specBytes - s.specBytes
  {
    hide StageInv, SumBytes, DropPage, Geometry.Npages, Geometry.PageBytes, Geometry.Start;
    s, dropped := s0, 0;
    var end := SpanEnd(g, off, len);
    if len == 0 || Add64(off, len) < off || off >= end {
      NoneWhole(g, off, if off < end then off else end);
      EmptySpan(g, off, len);
      forall p: nat ensures !Whole(g, off, SpanIn(g, off, len), p) { SpanEndIs(g, off, len, p); }
      return;
    }
    var first, stop := FirstWhole(g, off), StopWhole(g, end);
    var i := first;
    while i < stop
      invariant first <= i && (i <= stop || i == first)
      invariant StageInv(g, s) && SamePaid(s0, s) && s.flushing == s0.flushing && Real(s.buf) == Real(s0.buf)
      invariant DroppedSpan(g, s0, s, off, end, first, i)
      invariant dropped == s0.specBytes - s.specBytes
    {
      WholeRange(g, off, end, i);
      DropPageKeeps(g, s, i);
      assert BufAt(s, i) == BufAt(s0, i);
      var t := DropPage(s, i, g.PageBytes(i));
      dropped := dropped + s.specBytes - t.specBytes;
      s := t;
      i := i + 1;
    }
    forall p: nat ensures first <= p < i && Whole(g, off, end, p) <==> Whole(g, off, SpanIn(g, off, len), p) {
      WholeRange(g, off, end, p);
      SpanEndIs(g, off, len, p);
    }
  }

  lemma EmptySpan(g: Geometry, off: nat, len: nat)
    requires g.Valid() && (len == 0 || Add64(off, len) < off || off >= SpanEnd(g, off, len))
    requires off < 0x1_0000_0000_0000_0000 && len < 0x1_0000_0000_0000_0000
    ensures forall p: nat :: !Whole(g, off, SpanEnd(g, off, len), p)
  {
    NoneWhole(g, off, SpanEnd(g, off, len));
  }
}
