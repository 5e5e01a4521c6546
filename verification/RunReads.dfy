/** Reading the planned runs: one read per run, verified page by page, and copied to the
    caller in one piece. */
module RunReads {
  import opened Bytes
  import opened Pages
  import opened Stages
  import opened Deltas
  import opened Reads
  import opened ReadOps

  /** What reading page `p` alone returns while `.data` holds `d`. */
  function OnePage(g: Geometry, d: seq<Byte>, p: nat): seq<Byte>
    requires g.Valid() && p < g.Npages()
  {
    Pread(d, g.Start(p), g.PageBytes(p))
  }

  predicate PageGood(g: Geometry, crc: Crc, d: seq<Byte>, p: nat, want: U32)
    requires g.Valid() && p < g.Npages()
  {
    |OnePage(g, d, p)| == g.PageBytes(p) && crc(OnePage(g, d, p)) == want
  }

  /** Page `p` of a run, read as part of it, is good. */
  predicate RunPageGood(g: Geometry, crc: Crc, d: seq<Byte>, r: Run, p: nat)
    requires g.Valid() && r.last < g.Npages() && |r.want| == r.last - r.first + 1 && InRun(r, p)
  {
    PageGood(g, crc, d, p, r.want[p - r.first])
  }

  /** The coalesced read shows each of its pages as a read of that page alone would. */
  lemma RunShowsPage(g: Geometry, d: seq<Byte>, first: nat, last: nat, p: nat, o: nat)
    requires g.Valid() && first <= p <= last < g.Npages() && o == g.Start(p) - g.Start(first)
    ensures var run, nb := Pread(d, g.Start(first), g.RunBytes(first, last)), g.PageBytes(p);
            && o + nb <= g.RunBytes(first, last)
            && (o + nb <= |run| <==> |OnePage(g, d, p)| == nb)
            && (o + nb <= |run| ==> run[o..o + nb] == OnePage(g, d, p))
  {
    hide Geometry.Start, Geometry.PageBytes, Geometry.Npages, Pread, Geometry.RunBytes;
    g.EndIsNextStart(p);
    RunBytesIs(g, first, last);
    EndIs(g, p);
    if p < last { g.PageOrder(p, last); g.EndIsNextStart(last); EndIs(g, last); }
    SliceOfPread(d, g.Start(first), g.RunBytes(first, last), o, g.PageBytes(p));
  }

  lemma SliceOfPread(d: seq<Byte>, at: nat, n: nat, o: nat, nb: nat)
    requires o + nb <= n && nb > 0
    ensures o + nb <= |Pread(d, at, n)| <==> |Pread(d, at + o, nb)| == nb
    ensures o + nb <= |Pread(d, at, n)| ==> Pread(d, at, n)[o..o + nb] == Pread(d, at + o, nb)
  {}

  /** Read a run with one pread and check its pages in order. */
  method VerifyRun(g: Geometry, crc: Crc, r: Run, d: seq<Byte>) returns (dst: seq<Byte>, bad: Option<nat>, short: bool)
    requires g.Valid() && r.first <= r.last < g.Npages() && |r.want| == r.last - r.first + 1
    ensures dst == Pread(d, g.Start(r.first), g.RunBytes(r.first, r.last))
    ensures bad.None? ==> |dst| == g.RunBytes(r.first, r.last)
                          && forall p :: InRun(r, p) ==> RunPageGood(g, crc, d, r, p)
    ensures bad.Some? ==> InRun(r, bad.value) && !RunPageGood(g, crc, d, r, bad.value)
                          && (forall p :: r.first <= p < bad.value ==> RunPageGood(g, crc, d, r, p))
                          && (short <==> |OnePage(g, d, bad.value)| < g.PageBytes(bad.value))
  {
    hide Geometry.Start, Geometry.PageBytes, Geometry.Npages, Pread, Geometry.RunBytes;
    RunBytesIs(g, r.first, r.last);
    dst := Pread(d, g.Start(r.first), g.RunBytes(r.first, r.last));
    var o := 0;
    var i := r.first;
    while i <= r.last
      invariant r.first <= i <= r.last + 1
      invariant i <= r.last ==> o == g.Start(i) - g.Start(r.first)
      invariant i == r.last + 1 ==> o == g.RunBytes(r.first, r.last)
      invariant 0 <= o <= |dst|
      invariant forall p :: r.first <= p < i ==> RunPageGood(g, crc, d, r, p)
    {
      var nb := g.PageBytes(i);
      RunShowsPage(g, d, r.first, r.last, i, o);
      if o + nb > |dst| {
        return dst, Some(i), true;
      }
      if crc(dst[o..o + nb]) != r.want[i - r.first] {
        return dst, Some(i), false;
      }
      g.EndIsNextStart(i);
      EndIs(g, i);
      o := o + nb;
      i := i + 1;
    }
    bad, short := None, false;
  }

  lemma EndIs(g: Geometry, i: nat)
    requires g.Valid() && i < g.Npages()
    ensures g.End(i) == g.Start(i) + g.PageBytes(i)
  {}

  lemma RunBytesIs(g: Geometry, first: nat, last: nat)
    requires g.Valid() && first <= last < g.Npages()
    ensures g.RunBytes(first, last) == g.End(last) - g.Start(first) > 0
  {
    g.StartMono(first, last);
    g.EndIsNextStart(last);
  }

  // ---- copying a run out ------------------------------------------------------------------

  /** Copy of the run's bytes that the request asks for, in one piece: the whole run when it
      lies inside the request, its overlap otherwise. */
  function CopyRun(g: Geometry, r: Run, dst: seq<Byte>, off: nat, end: nat, out: seq<Byte>): (res: seq<Byte>)
    requires g.Valid() && r.first <= r.last < g.Npages() && |out| == end - off && off < end
    requires |dst| == g.RunBytes(r.first, r.last)
    requires off < g.End(r.last) && g.Start(r.first) < end
    ensures |res| == |out|
  {
    RunBytesIs(g, r.first, r.last);
    var lo, hi := Max(off, g.Start(r.first)), Min(end, g.End(r.last));
    Put(out, lo - off, dst[lo - g.Start(r.first)..hi - g.Start(r.first)])
  }

  /** The run lies inside the request, so it can be read straight into the caller's buffer. */
  predicate Direct(g: Geometry, r: Run, off: nat, end: nat)
    requires g.Valid() && r.first <= r.last < g.Npages()
  {
    g.Start(r.first) >= off && g.Start(r.first) + g.RunBytes(r.first, r.last) <= end
  }

  /** A direct read stays inside the caller's buffer, and leaves there what going through a
      scratch buffer would. */
  lemma DirectIsCopy(g: Geometry, r: Run, dst: seq<Byte>, off: nat, end: nat, out: seq<Byte>)
    requires g.Valid() && r.first <= r.last < g.Npages() && |out| == end - off && off < end
    requires |dst| == g.RunBytes(r.first, r.last) && off < g.End(r.last) && g.Start(r.first) < end
    requires Direct(g, r, off, end)
    ensures g.Start(r.first) - off + |dst| <= |out|
    ensures Put(out, g.Start(r.first) - off, dst) == CopyRun(g, r, dst, off, end, out)
  {
    hide Put, Geometry.Start, Geometry.PageBytes, Geometry.Npages, Geometry.RunBytes, Geometry.End, CopyRun;
    RunBytesIs(g, r.first, r.last);
    var a := g.Start(r.first);
    CopyIs(g, r, dst, off, end, out, a, a, a + |dst|);
    assert dst[a - a..a + |dst| - a] == dst;
  }

  /** Copying the part [lo, hi) of a run that starts at `a` puts the part [pl, ph) of a page
      of it, which starts at `ps`, where a request at `off` wants it. */
  lemma CopyHasPart(dst: seq<Byte>, page: seq<Byte>, out: seq<Byte>, off: nat, a: nat, lo: nat, hi: nat,
                    ps: nat, pl: nat, ph: nat)
    requires off <= lo && a <= lo <= pl <= ph <= hi && hi - a <= |dst| && hi - off <= |out|
    requires a <= ps <= pl && ph - ps <= |page| && ps - a + |page| <= |dst| && dst[ps - a..ps - a + |page|] == page
    ensures Has(Put(out, lo - off, dst[lo - a..hi - a]), pl - off, page[pl - ps..ph - ps])
  {
    var x := dst[lo - a..hi - a];
    var out' := Put(out, lo - off, x);
    var want, got := page[pl - ps..ph - ps], out'[pl - off..ph - off];
    assert out'[lo - off..hi - off] == x;
    forall j | 0 <= j < ph - pl ensures got[j] == want[j] {
      assert got[j] == out'[lo - off..hi - off][pl - lo + j] == x[pl - lo + j] == dst[pl - a + j];
      assert want[j] == page[pl - ps + j] == dst[ps - a..ps - a + |page|][pl - ps + j] == dst[pl - a + j];
    }
  }

  /** The slice of a run's copy that is page `p`'s. */
  lemma RunHasPiece(g: Geometry, r: Run, dst: seq<Byte>, off: nat, end: nat, out: seq<Byte>, p: nat, page: seq<Byte>)
    requires g.Valid() && r.first <= r.last < g.Npages() && |out| == end - off && off < end && InRun(r, p)
    requires |dst| == g.RunBytes(r.first, r.last) && off < g.End(r.last) && g.Start(r.first) < end
    requires off < g.End(p) && g.Start(p) < end && |page| == g.PageBytes(p)
    requires var o := g.Start(p) - g.Start(r.first); 0 <= o && o + |page| <= |dst| && dst[o..o + |page|] == page
    ensures Placed(g, CopyRun(g, r, dst, off, end, out), off, end, p, page)
  {
    hide Geometry.Start, Geometry.PageBytes, Geometry.Npages, Piece, Geometry.RunBytes, Geometry.End, Put, Has, CopyRun, Placed, Lo, Hi;
    var a, lo, hi := g.Start(r.first), Max(off, g.Start(r.first)), Min(end, g.End(r.last));
    PieceBounds(g, r, off, end, p, lo, hi);
    CopyBounds(g, r, off, end);
    PieceIs(g, off, end, p, page);
    CopyHasPart(dst, page, out, off, a, lo, hi, g.Start(p), Lo(g, off, p), Hi(g, end, p));
    CopyIs(g, r, dst, off, end, out, a, lo, hi);
    PlacedFrom(g, CopyRun(g, r, dst, off, end, out), off, end, p, page);
  }

  /** A page's piece lies inside its run's copy. */
  lemma PieceBounds(g: Geometry, r: Run, off: nat, end: nat, p: nat, lo: nat, hi: nat)
    requires g.Valid() && r.first <= p <= r.last < g.Npages()
    requires lo == Max(off, g.Start(r.first)) && hi == Min(end, g.End(r.last))
    ensures lo <= Lo(g, off, p) && Hi(g, end, p) <= hi && g.Start(r.first) <= g.Start(p) <= Lo(g, off, p)
  {
    hide Geometry.Start, Geometry.PageBytes, Geometry.Npages, Geometry.RunBytes, Geometry.End;
    PageInRun(g, r, p);
  }

  lemma CopyBounds(g: Geometry, r: Run, off: nat, end: nat)
    requires g.Valid() && r.first <= r.last < g.Npages() && off < end
    requires off < g.End(r.last) && g.Start(r.first) < end
    ensures var a := g.Start(r.first);
            var lo, hi := Max(off, a), Min(end, g.End(r.last));
            a <= lo < hi <= a + g.RunBytes(r.first, r.last) && off <= lo && hi <= end
  {
    RunBytesIs(g, r.first, r.last);
  }

  lemma CopyIs(g: Geometry, r: Run, dst: seq<Byte>, off: nat, end: nat, out: seq<Byte>, a: nat, lo: nat, hi: nat)
    requires g.Valid() && r.first <= r.last < g.Npages() && |out| == end - off && off < end
    requires |dst| == g.RunBytes(r.first, r.last) && off < g.End(r.last) && g.Start(r.first) < end
    requires a == g.Start(r.first) && lo == Max(off, a) && hi == Min(end, g.End(r.last))
    requires a <= lo < hi <= a + |dst| && off <= lo && hi <= end
    ensures CopyRun(g, r, dst, off, end, out) == Put(out, lo - off, dst[lo - a..hi - a])
  {
    hide Put, Geometry.Start, Geometry.PageBytes, Geometry.Npages, Geometry.RunBytes, Geometry.End;
  }

  lemma PlacedFrom(g: Geometry, out: seq<Byte>, off: nat, end: nat, p: nat, page: seq<Byte>)
    requires g.Valid() && p < g.Npages() && |page| == g.PageBytes(p)
    requires off < g.End(p) && g.Start(p) < end && off < end
    requires Hi(g, end, p) - g.Start(p) <= |page| && g.Start(p) <= Lo(g, off, p) <= Hi(g, end, p) && off <= Lo(g, off, p)
    requires Has(out, Lo(g, off, p) - off, page[Lo(g, off, p) - g.Start(p)..Hi(g, end, p) - g.Start(p)])
    ensures Placed(g, out, off, end, p, page)
  {
    hide Has, Piece;
    PieceIs(g, off, end, p, page);
  }

  lemma RunPlacesPage(g: Geometry, r: Run, d: seq<Byte>, off: nat, end: nat, out: seq<Byte>, p: nat)
    requires g.Valid() && r.first <= r.last < g.Npages() && |out| == end - off && off < end && InRun(r, p)
    requires |Pread(d, g.Start(r.first), g.RunBytes(r.first, r.last))| == g.RunBytes(r.first, r.last)
    requires off < g.End(r.last) && g.Start(r.first) < end
    requires off < g.End(p) && g.Start(p) < end && |OnePage(g, d, p)| == g.PageBytes(p)
    ensures var dst := Pread(d, g.Start(r.first), g.RunBytes(r.first, r.last));
            Placed(g, CopyRun(g, r, dst, off, end, out), off, end, p, OnePage(g, d, p))
  {
    hide Geometry.Start, Geometry.PageBytes, Geometry.Npages, Pread, OnePage, Geometry.RunBytes, Geometry.End, CopyRun, Placed;
    var dst := Pread(d, g.Start(r.first), g.RunBytes(r.first, r.last));
    PageInRun(g, r, p);
    RunShowsPage(g, d, r.first, r.last, p, g.Start(p) - g.Start(r.first));
    RunHasPiece(g, r, dst, off, end, out, p, OnePage(g, d, p));
  }

  lemma PageInRun(g: Geometry, r: Run, p: nat)
    requires g.Valid() && r.first <= p <= r.last < g.Npages()
    ensures g.Start(r.first) <= g.Start(p) && g.End(p) <= g.End(r.last) && g.End(p) == g.Start(p) + g.PageBytes(p)
  {
    g.StartMono(r.first, p);
    if p < r.last {
      g.PageOrder(p, r.last);
      g.EndIsNextStart(r.last);
    }
  }

  lemma RunKeepsPage(g: Geometry, r: Run, dst: seq<Byte>, off: nat, end: nat, out: seq<Byte>, q: nat, page: seq<Byte>)
    requires g.Valid() && r.first <= r.last < g.Npages() && |out| == end - off && off < end
    requires |dst| == g.RunBytes(r.first, r.last)
    requires off < g.End(r.last) && g.Start(r.first) < end
    requires q < g.Npages() && !InRun(r, q) && off <= Lo(g, off, q) && Placed(g, out, off, end, q, page)
    ensures Placed(g, CopyRun(g, r, dst, off, end, out), off, end, q, page)
  {
    hide Geometry.Start, Geometry.PageBytes, Geometry.Npages, Has, Piece, Geometry.RunBytes, Geometry.End;
    RunBytesIs(g, r.first, r.last);
    if q < r.first { g.PageOrder(q, r.first); } else { g.PageOrder(r.last, q); }
    var a := g.Start(r.first);
    var lo, hi := Max(off, a), Min(end, g.End(r.last));
    PutBeside(out, lo - off, dst[lo - a..hi - a], Lo(g, off, q) - off, Piece(g, page, q, off, end));
  }

  // ---- the whole read --------------------------------------------------------------------------

  /** Page `p` is accounted for: in place as the reader that saw `seen` gets it. */
  ghost predicate Got(rd: Reader, out: seq<Byte>, off: nat, end: nat, p: nat)
    requires rd.g.Valid() && p < rd.g.Npages()
  {
    rd.Page(p).Some? && Placed(rd.g, out, off, end, p, rd.Page(p).value)
  }

  /** Pieces in place are the gathered read. */
  lemma {:induction false} GotGathers(rd: Reader, out: seq<Byte>, off: nat, len: nat, end: nat, p: nat)
    requires rd.g.Valid() && len > 0 && off + len == end <= rd.g.fileSize && |out| == len
    requires rd.g.PageOf(off) <= p <= rd.g.PageOf(end - 1) < rd.g.Npages()
    requires forall q: nat :: p <= q <= rd.g.PageOf(end - 1) ==> Got(rd, out, off, end, q)
    ensures off <= Lo(rd.g, off, p) <= end
    ensures Gather(rd, p, rd.g.PageOf(end - 1), off, end) == Some(out[Lo(rd.g, off, p) - off..])
    decreases rd.g.PageOf(end - 1) - p
  {
    hide Geometry.PageBytes, Geometry.Npages, Geometry.PageOf, Geometry.Start, Geometry.End, Piece, Reader.Page;
    var g, last := rd.g, rd.g.PageOf(end - 1);
    InRequest(g, off, len, p);
    assert Got(rd, out, off, end, p);
    var piece := Piece(g, rd.Page(p).value, p, off, end);
    if p == last {
      LastPiece(g, off, len);
      assert Gather(rd, p + 1, last, off, end) == Some([]);
      assert out[Lo(g, off, p) - off..] == piece && piece + [] == piece;
    } else {
      GotGathers(rd, out, off, len, end, p + 1);
      NextPiece(g, off, len, p);
      assert piece == out[Lo(g, off, p) - off..Lo(g, off, p + 1) - off];
      SplitAt(out, Lo(g, off, p) - off, Lo(g, off, p + 1) - off);
    }
  }

  lemma SplitAt(out: seq<Byte>, i: nat, j: nat)
    requires i <= j <= |out|
    ensures out[i..] == out[i..j] + out[j..]
  {}

  lemma LastPiece(g: Geometry, off: nat, len: nat)
    requires g.Valid() && len > 0 && off + len <= g.fileSize && g.PageOf(off + len - 1) < g.Npages()
    ensures Hi(g, off + len, g.PageOf(off + len - 1)) == off + len
  {
    g.PageOfFacts(off + len - 1);
    g.EndIsNextStart(g.PageOf(off + len - 1));
  }

  lemma NextPiece(g: Geometry, off: nat, len: nat, p: nat)
    requires g.Valid() && len > 0 && off + len <= g.fileSize
    requires g.PageOf(off) <= p < g.PageOf(off + len - 1) < g.Npages()
    ensures Hi(g, off + len, p) == Lo(g, off, p + 1)
  {
    g.PageOfFacts(off + len - 1);
    g.EndIsNextStart(p);
    g.StartMono(p + 1, g.PageOf(off + len - 1));
    InRequest(g, off, len, p);
  }

  /** With every page of the request in place, the buffer is the page-at-a-time read. */
  lemma GotIsRead(rd: Reader, out: seq<Byte>, off: nat, len: nat, end: nat)
    requires rd.g.Valid() && len > 0 && off + len == end <= rd.g.fileSize && |out| == len
    requires rd.g.PageOf(end - 1) < rd.g.Npages()
    requires forall q: nat :: rd.g.PageOf(off) <= q <= rd.g.PageOf(end - 1) ==> Got(rd, out, off, end, q)
    ensures ReadSpec(rd, off, len) == Some(out)
  {
    hide Geometry.PageBytes, Geometry.Npages, Geometry.PageOf, Geometry.Start, Geometry.End, Piece, Reader.Page, Gather, Got;
    FirstBeforeLast(rd.g, off, end - 1);
    GotGathers(rd, out, off, len, end, rd.g.PageOf(off));
    rd.g.PageOfFacts(off);
    assert out[0..] == out;
  }

  /** The pages of `r` as one-page reads of `d` return them. */
  function SeenRun(g: Geometry, r: Run, d: seq<Byte>): Seen
    requires g.Valid() && r.last < g.Npages()
  {
    map p: nat | r.first <= p <= r.last :: OnePage(g, d, p)
  }

  /** What the first `n` runs show when run `k` is read while `.data` holds `disk(k)`. */
  function SeenRuns(g: Geometry, runs: seq<Run>, disk: nat -> seq<Byte>, n: nat): Seen
    requires g.Valid() && n <= |runs| && forall k :: 0 <= k < n ==> runs[k].last < g.Npages()
  {
    if n == 0 then map[] else SeenRuns(g, runs, disk, n - 1) + SeenRun(g, runs[n - 1], disk(n - 1))
  }

  /** Each page is seen as it was when its own run was read. */
  lemma {:induction false} SeenAt(g: Geometry, runs: seq<Run>, disk: nat -> seq<Byte>, n: nat, k: nat, p: nat)
    requires g.Valid() && k < n <= |runs| && forall j :: 0 <= j < n ==> runs[j].last < g.Npages()
    requires InRun(runs[k], p) && forall i, j :: 0 <= i < j < |runs| ==> runs[i].last < runs[j].first
    ensures p in SeenRuns(g, runs, disk, n) && SeenRuns(g, runs, disk, n)[p] == OnePage(g, disk(k), p)
  {
    hide OnePage, Geometry.Npages;
    if k < n - 1 {
      SeenAt(g, runs, disk, n - 1, k, p);
      assert runs[k].last < runs[n - 1].first;
    }
  }

  /** Every page of run `k`, as the disk was when it was read, carries its CRC. */
  ghost predicate RunGood(g: Geometry, crc: Crc, runs: seq<Run>, disk: nat -> seq<Byte>, k: nat)
    requires g.Valid() && k < |runs| && runs[k].last < g.Npages() && |runs[k].want| == runs[k].last - runs[k].first + 1
  {
    forall p :: InRun(runs[k], p) ==> RunPageGood(g, crc, disk(k), runs[k], p)
  }

  /** Page `p` of run `at` is the first that fails: every earlier run is good, and so is every
      page before it in its own. */
  ghost predicate FirstBad(g: Geometry, crc: Crc, runs: seq<Run>, disk: nat -> seq<Byte>, at: nat, p: nat)
    requires g.Valid()
  {
    && at < |runs| && (forall k :: 0 <= k <= at ==> runs[k].last < g.Npages() && |runs[k].want| == runs[k].last - runs[k].first + 1)
    && InRun(runs[at], p) && !RunPageGood(g, crc, disk(at), runs[at], p)
    && (forall q :: runs[at].first <= q < p ==> RunPageGood(g, crc, disk(at), runs[at], q))
    && forall k :: 0 <= k < at ==> RunGood(g, crc, runs, disk, k)
  }

  /** All pages of [first, stop) that are staged or in the runs read so far are accounted for. */
  ghost predicate GotSoFar(rd: Reader, runs: seq<Run>, out: seq<Byte>, off: nat, end: nat, first: nat, stop: nat)
    requires rd.g.Valid() && stop <= rd.g.Npages()
  {
    forall p: nat {:trigger Got(rd, out, off, end, p)} ::
      first <= p < stop && (rd.stage.Holds(p) || InRuns(runs, p)) ==> Got(rd, out, off, end, p)
  }

  /** Reading one more run well accounts for its pages and keeps the others. */
  lemma RunGot(rd: Reader, runs: seq<Run>, r: Run, d: seq<Byte>, out: seq<Byte>, off: nat, len: nat, end: nat)
    requires rd.g.Valid() && len > 0 && off + len == end <= rd.g.fileSize && |out| == len
    requires rd.g.PageOf(end - 1) < rd.g.Npages()
    requires RunOk(rd.g, rd.mem, rd.stage, r) && rd.g.PageOf(off) <= r.first && r.last <= rd.g.PageOf(end - 1)
    requires forall k :: 0 <= k < |runs| ==> runs[k].last < r.first
    requires GotSoFar(rd, runs, out, off, end, rd.g.PageOf(off), rd.g.PageOf(end - 1) + 1)
    requires forall p :: InRun(r, p) ==> RunPageGood(rd.g, rd.crc, d, r, p)
    requires |Pread(d, rd.g.Start(r.first), rd.g.RunBytes(r.first, r.last))| == rd.g.RunBytes(r.first, r.last)
    ensures off < rd.g.End(r.last) && rd.g.Start(r.first) < end
    ensures var dst := Pread(d, rd.g.Start(r.first), rd.g.RunBytes(r.first, r.last));
            GotSoFar(rd.(seen := rd.seen + SeenRun(rd.g, r, d)), runs + [r], CopyRun(rd.g, r, dst, off, end, out),
                     off, end, rd.g.PageOf(off), rd.g.PageOf(end - 1) + 1)
  {
    hide Geometry.Start, Geometry.PageBytes, Geometry.Npages, Geometry.PageOf, Pread, Geometry.RunBytes, Geometry.End,
         CopyRun, Placed, Piece;
    var g := rd.g;
    InRequest(g, off, len, r.first);
    InRequest(g, off, len, r.last);
    var dst := Pread(d, g.Start(r.first), g.RunBytes(r.first, r.last));
    var rd' := rd.(seen := rd.seen + SeenRun(g, r, d));
    var out' := CopyRun(g, r, dst, off, end, out);
    forall p: nat | g.PageOf(off) <= p < g.PageOf(end - 1) + 1 && (rd.stage.Holds(p) || InRuns(runs + [r], p))
      ensures Got(rd', out', off, end, p)
    {
      InRequest(g, off, len, p);
      if InRun(r, p) {
        assert RunPageGood(g, rd.crc, d, r, p);
        RunPlacesPage(g, r, d, off, end, out, p);
      } else {
        if !rd.stage.Holds(p) { OldRuns(runs, r, p); }
        assert Got(rd, out, off, end, p);
        RunKeepsPage(g, r, dst, off, end, out, p, rd.Page(p).value);
      }
    }
  }

  lemma OldRuns(runs: seq<Run>, r: Run, p: nat)
    requires InRuns(runs + [r], p) && !InRun(r, p)
    ensures InRuns(runs, p)
  {
    var k :| 0 <= k < |runs + [r]| && InRun((runs + [r])[k], p);
    assert InRun(runs[k], p);
  }

  /** A bad page of a run makes the page-at-a-time read fail too. */
  lemma BadPageFails(rd: Reader, runs: seq<Run>, disk: nat -> seq<Byte>, k: nat, p: nat, off: nat, len: nat, end: nat)
    requires rd.g.Valid() && len > 0 && off + len == end <= rd.g.fileSize && rd.g.PageOf(end - 1) < rd.g.Npages()
    requires PlanOf(rd.g, rd.mem, rd.stage, runs, rd.g.PageOf(off), rd.g.PageOf(end - 1) + 1) && k < |runs|
    requires (forall j :: 0 <= j < |runs| ==> runs[j].last < rd.g.Npages()) && rd.seen == SeenRuns(rd.g, runs, disk, |runs|)
    requires |runs[k].want| == runs[k].last - runs[k].first + 1
    requires InRun(runs[k], p) && !RunPageGood(rd.g, rd.crc, disk(k), runs[k], p)
    ensures ReadSpec(rd, off, len).None?
  {
    hide Geometry.Start, Geometry.PageBytes, Geometry.Npages, Geometry.PageOf, Pread, ReadSpec, SeenRuns, OnePage, Geometry.RunBytes;
    assert RunOk(rd.g, rd.mem, rd.stage, runs[k]);
    SeenAt(rd.g, runs, disk, |runs|, k, p);
    BadIsNone(rd, runs[k], disk(k), p);
    ReadFailsExactly(rd, off, len);
  }

  /** A page of a run whose bytes do not carry its CRC cannot be served. */
  lemma BadIsNone(rd: Reader, r: Run, d: seq<Byte>, p: nat)
    requires rd.g.Valid() && RunOk(rd.g, rd.mem, rd.stage, r) && InRun(r, p)
    requires p in rd.seen && rd.seen[p] == OnePage(rd.g, d, p) && !RunPageGood(rd.g, rd.crc, d, r, p)
    ensures rd.Page(p).None?
  {
    hide Geometry.PageBytes, Geometry.Npages, OnePage, Geometry.RunBytes;
    assert !rd.stage.Holds(p) && p in rd.mem;
    var i := p - r.first;
    assert r.want[i] == rd.mem[p];
    assert !PageGood(rd.g, rd.crc, d, p, rd.mem[p]);
  }

  /** Read every planned run. `disk(k)` is what `.data` holds when run `k` is read, so it
      may change between runs. It succeeds exactly if every page of every run, at its own
      moment, carries its CRC; and outcome and buffer are those of the page-at-a-time read
      that sees each page at that moment. */
  method ReadRuns(g: Geometry, crc: Crc, ghost mem: Image, ghost s: Stage, runs: seq<Run>, disk: nat -> seq<Byte>,
                  off: nat, len: nat, out0: seq<Byte>)
    returns (out: seq<Byte>, bad: Option<nat>, short: bool, at: nat)
    requires g.Valid() && len > 0 && off + len <= g.fileSize && |out0| == len && g.PageOf(off + len - 1) < g.Npages()
    requires PlanOf(g, mem, s, runs, g.PageOf(off), g.PageOf(off + len - 1) + 1)
    requires HeldPlaced(g, s, out0, off, off + len, g.PageOf(off), g.PageOf(off + len - 1) + 1)
    ensures forall k :: 0 <= k < |runs| ==> runs[k].last < g.Npages() && |runs[k].want| == runs[k].last - runs[k].first + 1
    ensures bad.None? <==> forall k :: 0 <= k < |runs| ==> RunGood(g, crc, runs, disk, k)
    ensures bad.None? ==> ReadSpec(Reader(g, crc, mem, s, SeenRuns(g, runs, disk, |runs|)), off, len) == Some(out)
    ensures bad.Some? ==> ReadSpec(Reader(g, crc, mem, s, SeenRuns(g, runs, disk, |runs|)), off, len).None?
    ensures bad.Some? ==> at < |runs| && InRun(runs[at], bad.value) && RunOk(g, mem, s, runs[at])
                          && FirstBad(g, crc, runs, disk, at, bad.value)
                          && (short <==> |OnePage(g, disk(at), bad.value)| < g.PageBytes(bad.value))
  {
    hide Geometry.Start, Geometry.PageBytes, Geometry.Npages, Geometry.PageOf, Pread, ReadSpec, Geometry.RunBytes,
         Geometry.End, Placed, Piece, RunOk, RunPageGood, Got, Gather, SeenRuns, SeenRun, GotSoFar, HeldPlaced, CopyRun, InRuns;
    var end := off + len;
    out, bad, short, at := out0, None, false, 0;
    ghost var first, last := g.PageOf(off), g.PageOf(end - 1);
    RunShapes(g, mem, s, runs, first, last + 1);
    NoneSeen(g, runs, disk);
    StartGot(Reader(g, crc, mem, s, map[]), out, off, end, first, last + 1);
    while at < |runs|
      invariant 0 <= at <= |runs| && |out| == len && bad.None?
      invariant GotSoFar(Reader(g, crc, mem, s, SeenRuns(g, runs, disk, at)), runs[..at], out, off, end, first, last + 1)
      invariant forall k :: 0 <= k < at ==> RunGood(g, crc, runs, disk, k)
      decreases |runs| - at
    {
      var r := runs[at];
      assert RunOk(g, mem, s, r);
      var dst: seq<Byte>;
      dst, bad, short := VerifyRun(g, crc, r, disk(at));
      if bad.Some? {
        BadPageFails(Reader(g, crc, mem, s, SeenRuns(g, runs, disk, |runs|)), runs, disk, at, bad.value, off, len, end);
        assert !RunGood(g, crc, runs, disk, at);
        return;
      }
      RunGot(Reader(g, crc, mem, s, SeenRuns(g, runs, disk, at)), runs[..at], r, disk(at), out, off, len, end);
      OneMoreSeen(g, runs, disk, at);
      if Direct(g, r, off, end) {
        DirectIsCopy(g, r, dst, off, end, out);
        out := Put(out, g.Start(r.first) - off, dst);
      } else {
        out := CopyRun(g, r, dst, off, end, out);
      }
      assert runs[..at + 1] == runs[..at] + [r];
      assert RunGood(g, crc, runs, disk, at);
      at := at + 1;
    }
    assert runs[..at] == runs;
    AllGot(Reader(g, crc, mem, s, SeenRuns(g, runs, disk, at)), runs, out, off, end, first, last);
    GotIsRead(Reader(g, crc, mem, s, SeenRuns(g, runs, disk, at)), out, off, len, end);
  }

  lemma NoneSeen(g: Geometry, runs: seq<Run>, disk: nat -> seq<Byte>)
    requires g.Valid()
    ensures SeenRuns(g, runs, disk, 0) == map[]
  {}

  lemma OneMoreSeen(g: Geometry, runs: seq<Run>, disk: nat -> seq<Byte>, n: nat)
    requires g.Valid() && n < |runs| && forall k :: 0 <= k <= n ==> runs[k].last < g.Npages()
    ensures SeenRuns(g, runs, disk, n + 1) == SeenRuns(g, runs, disk, n) + SeenRun(g, runs[n], disk(n))
  {}

  lemma RunShapes(g: Geometry, mem: Image, s: Stage, runs: seq<Run>, first: nat, stop: nat)
    requires g.Valid() && PlanOf(g, mem, s, runs, first, stop)
    ensures forall k :: 0 <= k < |runs| ==> runs[k].first <= runs[k].last < g.Npages() && |runs[k].want| == runs[k].last - runs[k].first + 1
  {
    hide RunOk;
    forall k | 0 <= k < |runs| ensures runs[k].first <= runs[k].last < g.Npages() && |runs[k].want| == runs[k].last - runs[k].first + 1 {
      assert RunOk(g, mem, s, runs[k]);
      RunShape(g, mem, s, runs[k]);
    }
  }

  /** What a cached read of [off, off + len) sees of the disk: its planned runs, each at the
      moment it is read. */
  function Observed(g: Geometry, mem: Image, s: Stage, disk: nat -> seq<Byte>, off: nat, len: nat): Seen
    requires g.Valid() && len > 0 && off + len <= g.fileSize
  {
    g.PageOfFacts(off + len - 1);
    FirstBeforeLast(g, off, off + len - 1);
    SeenPlan(g, mem, s, disk, g.PageOf(off), g.PageOf(off + len - 1) + 1)
  }

  lemma ObservedIs(g: Geometry, mem: Image, s: Stage, disk: nat -> seq<Byte>, off: nat, len: nat, runs: seq<Run>)
    requires g.Valid() && len > 0 && off + len <= g.fileSize && g.PageOf(off) <= g.PageOf(off + len - 1) + 1 <= g.Npages()
    requires runs == PlannedRuns(g, mem, s, g.PageOf(off), g.PageOf(off + len - 1) + 1)
    ensures forall k :: 0 <= k < |runs| ==> runs[k].last < g.Npages()
    ensures Observed(g, mem, s, disk, off, len) == SeenRuns(g, runs, disk, |runs|)
  {
    hide PlannedRuns, SeenRuns;
    PlannedInside(g, mem, s, g.PageOf(off), g.PageOf(off + len - 1) + 1);
  }

  function SeenPlan(g: Geometry, mem: Image, s: Stage, disk: nat -> seq<Byte>, first: nat, stop: nat): Seen
    requires g.Valid() && first <= stop <= g.Npages()
  {
    PlannedInside(g, mem, s, first, stop);
    var runs := PlannedRuns(g, mem, s, first, stop);
    SeenRuns(g, runs, disk, |runs|)
  }

  ghost predicate RunsBelow(runs: seq<Run>, stop: nat) { forall k :: 0 <= k < |runs| ==> runs[k].last < stop }

  lemma {:induction false} PlannedInside(g: Geometry, mem: Image, s: Stage, first: nat, stop: nat)
    requires g.Valid() && first <= stop <= g.Npages()
    ensures RunsBelow(PlannedRuns(g, mem, s, first, stop), stop)
    decreases stop
  {
    hide Geometry.Npages, Planned;
    if first < stop {
      PlannedInside(g, mem, s, first, stop - 1);
      if stop - 1 in mem { PlannedLast(g, PlannedRuns(g, mem, s, first, stop - 1), stop - 1, mem[stop - 1]); }
    }
  }

  lemma PlannedLast(g: Geometry, runs: seq<Run>, i: nat, c: U32)
    requires g.Valid() && i < g.Npages() && RunsBelow(runs, i)
    ensures RunsBelow(Planned(g, runs, i, c), i + 1)
  {
    hide Geometry.Npages, Geometry.RunBytes;
  }

  lemma RunShape(g: Geometry, mem: Image, s: Stage, r: Run)
    requires g.Valid() && RunOk(g, mem, s, r)
    ensures r.first <= r.last < g.Npages() && |r.want| == r.last - r.first + 1
  {}

  lemma StartGot(rd: Reader, out: seq<Byte>, off: nat, end: nat, first: nat, stop: nat)
    requires rd.g.Valid() && stop <= rd.g.Npages() && HeldPlaced(rd.g, rd.stage, out, off, end, first, stop)
    ensures GotSoFar(rd, [], out, off, end, first, stop)
  {}

  lemma AllGot(rd: Reader, runs: seq<Run>, out: seq<Byte>, off: nat, end: nat, first: nat, last: nat)
    requires rd.g.Valid() && last < rd.g.Npages() && PlanOf(rd.g, rd.mem, rd.stage, runs, first, last + 1)
    requires GotSoFar(rd, runs, out, off, end, first, last + 1)
    ensures forall p: nat :: first <= p <= last ==> Got(rd, out, off, end, p)
  {
    hide Got, RunOk;
    forall p: nat | first <= p <= last ensures Got(rd, out, off, end, p) {
      assert rd.stage.Holds(p) || InRuns(runs, p);
    }
  }

  // ---- what a caller is told -------------------------------------------------------------------

  /** What a cached read returns: nothing asked is always served, a range outside the file
      never, and the rest as the page-at-a-time read of what its runs show. */
  function ReadOutcome(g: Geometry, crc: Crc, mem: Image, s: Stage, disk: nat -> seq<Byte>, off: nat, len: nat): Option<seq<Byte>>
    requires g.Valid()
  {
    if len == 0 then Some([])
    else if off + len > g.fileSize then None
    else ReadSpec(Reader(g, crc, mem, s, Observed(g, mem, s, disk, off, len)), off, len)
  }

  /** What reading each page of `d` alone returns. */
  function Disk(g: Geometry, d: seq<Byte>): Seen
    requires g.Valid()
  {
    map p: nat | 0 <= p < g.Npages() :: OnePage(g, d, p)
  }

  lemma {:induction false} PlannedIsPlan(g: Geometry, mem: Image, s: Stage, first: nat, stop: nat)
    requires g.Valid() && first <= stop <= g.Npages() && forall p: nat :: first <= p < stop ==> s.Holds(p) || p in mem
    ensures PlanOf(g, mem, s, PlannedRuns(g, mem, s, first, stop), first, stop)
    decreases stop
  {
    hide PlanOf, Planned, Geometry.Npages, PlannedRuns;
    PlanEmpty(g, mem, s, first);
    if first < stop {
      PlannedIsPlan(g, mem, s, first, stop - 1);
      PlannedNext(g, mem, s, first, stop - 1);
      var runs := PlannedRuns(g, mem, s, first, stop - 1);
      if s.Holds(stop - 1) { PlanHeld(g, mem, s, runs, first, stop - 1); } else { PlannedKeeps(g, mem, s, runs, first, stop - 1); }
    } else {
      PlannedNone(g, mem, s, first);
    }
  }

  lemma PlannedNone(g: Geometry, mem: Image, s: Stage, first: nat)
    requires g.Valid() && first <= g.Npages()
    ensures PlannedRuns(g, mem, s, first, first) == []
  {}

  /** A file that holds still: the coalesced read returns what reading it one page at a time
      does. */
  lemma StillDisk(g: Geometry, crc: Crc, mem: Image, s: Stage, disk: nat -> seq<Byte>, d: seq<Byte>, off: nat, len: nat)
    requires g.Valid() && len > 0 && off + len <= g.fileSize && forall k :: disk(k) == d
    ensures ReadOutcome(g, crc, mem, s, disk, off, len) == ReadSpec(Reader(g, crc, mem, s, Disk(g, d)), off, len)
  {
    hide Geometry.Npages, Geometry.PageBytes, Geometry.PageOf, Geometry.Start, ReadSpec, OnePage, SeenRuns, PlannedRuns, PlanOf, Observed;
    var a, b := Reader(g, crc, mem, s, Observed(g, mem, s, disk, off, len)), Reader(g, crc, mem, s, Disk(g, d));
    g.PageOfFacts(off + len - 1);
    FirstBeforeLast(g, off, off + len - 1);
    var first, last := g.PageOf(off), g.PageOf(off + len - 1);
    if p: nat :| first <= p <= last && !s.Holds(p) && p !in mem {
      assert a.Page(p).None? && b.Page(p).None?;
      ReadFailsExactly(a, off, len);
      ReadFailsExactly(b, off, len);
    } else {
      forall p: nat | first <= p <= last ensures a.Page(p) == b.Page(p) {
        SeenPage(g, mem, s, disk, d, off, len, p);
      }
      SameGather(a, b, first, last, off, off + len);
      ReadIsGather(a, off, len);
      ReadIsGather(b, off, len);
    }
  }

  lemma ReadIsGather(r: Reader, off: nat, len: nat)
    requires r.g.Valid() && len > 0 && off + len <= r.g.fileSize
    ensures r.g.PageOf(off + len - 1) < r.g.Npages()
    ensures ReadSpec(r, off, len) == Gather(r, r.g.PageOf(off), r.g.PageOf(off + len - 1), off, off + len)
  {
    r.g.PageOfFacts(off + len - 1);
  }

  lemma {:induction false} SameGather(a: Reader, b: Reader, p: nat, last: nat, off: nat, end: nat)
    requires a.g.Valid() && a.g == b.g && last < a.g.Npages() && forall q: nat :: p <= q <= last ==> a.Page(q) == b.Page(q)
    ensures Gather(a, p, last, off, end) == Gather(b, p, last, off, end)
    decreases last + 1 - p
  {
    hide Reader.Page, Geometry.Npages, Piece;
    if p <= last { SameGather(a, b, p + 1, last, off, end); }
  }

  lemma SeenPage(g: Geometry, mem: Image, s: Stage, disk: nat -> seq<Byte>, d: seq<Byte>, off: nat, len: nat, p: nat)
    requires g.Valid() && len > 0 && off + len <= g.fileSize && forall k :: disk(k) == d
    requires g.PageOf(off) <= p <= g.PageOf(off + len - 1) < g.Npages()
    requires forall q: nat :: g.PageOf(off) <= q <= g.PageOf(off + len - 1) ==> s.Holds(q) || q in mem
    ensures !s.Holds(p) ==> p in Observed(g, mem, s, disk, off, len) && Observed(g, mem, s, disk, off, len)[p] == OnePage(g, d, p)
  {
    hide Geometry.Npages, Geometry.PageBytes, Geometry.PageOf, Geometry.Start, OnePage, SeenRuns, PlannedRuns, RunOk;
    if !s.Holds(p) {
      var first, stop := g.PageOf(off), g.PageOf(off + len - 1) + 1;
      var runs := PlannedRuns(g, mem, s, first, stop);
      PlannedIsPlan(g, mem, s, first, stop);
      PlannedInside(g, mem, s, first, stop);
      assert InRuns(runs, p);
      var k :| 0 <= k < |runs| && InRun(runs[k], p);
      SeenAt(g, runs, disk, |runs|, k, p);
    }
  }

  // ---- a read that must succeed ----------------------------------------------------------------

  /** A page that is all there is read as it is. */
  lemma PageThere(g: Geometry, d: seq<Byte>, p: nat, x: seq<Byte>)
    requires g.Valid() && p < g.Npages() && |x| == g.PageBytes(p) && Has(d, g.Start(p), x)
    ensures OnePage(g, d, p) == x
  {
    hide Geometry.Npages, Geometry.PageBytes, Geometry.Start;
    if x == [] { assert OnePage(g, d, p) == []; }
  }

  /** The bytes a reader is shown of the pages it needs from disk. */
  function Needed(g: Geometry, s: Stage, d: seq<Byte>, first: nat, last: nat): Seen
    requires g.Valid() && last < g.Npages()
  {
    map p: nat | first <= p <= last && !s.Holds(p) :: OnePage(g, d, p)
  }

  /** Whatever the checksum: if every page of the request is staged, or recorded and on disk as the
      origin has it, the read succeeds, with the origin's bytes. */
  lemma IntactReads(o: Origin, mem: Image, s: Stage, disk: nat -> seq<Byte>, d: seq<Byte>, off: nat, len: nat)
    requires o.Valid() && len > 0 && off + len <= |o.bytes| && ImageTrue(o, mem) && StagedTrue(o, s.buf) && StagedTrue(o, s.flushing)
    requires forall k :: disk(k) == d
    requires forall p: nat :: o.g.PageOf(off) <= p <= o.g.PageOf(off + len - 1) && p < o.g.Npages() ==>
               s.Holds(p) || (p in mem && Has(d, o.g.Start(p), o.Page(p)))
    ensures ReadOutcome(o.g, o.crc, mem, s, disk, off, len) == Some(o.bytes[off..off + len])
  {
    hide Geometry.Npages, Geometry.PageBytes, Geometry.PageOf, Geometry.Start, ReadSpec, OnePage, ReadOutcome, Origin.Page, Gather, Has;
    var g := o.g;
    StillDisk(g, o.crc, mem, s, disk, d, off, len);
    g.PageOfFacts(off + len - 1);
    var first, last := g.PageOf(off), g.PageOf(off + len - 1);
    FirstBeforeLast(g, off, off + len - 1);
    var a, b := Reader(g, o.crc, mem, s, Disk(g, d)), Reader(g, o.crc, mem, s, Needed(g, s, d, first, last));
    forall p: nat | first <= p <= last ensures a.Page(p) == b.Page(p) && b.Page(p).Some? {
      if !s.Holds(p) { PageThere(g, d, p, o.Page(p)); }
    }
    forall p <- b.seen ensures b.seen[p] == o.Page(p) { PageThere(g, d, p, o.Page(p)); }
    SameGather(a, b, first, last, off, off + len);
    ReadIsGather(a, off, len);
    ReadIsGather(b, off, len);
    ReadFailsExactly(b, off, len);
    ReadIsOrigin(o, b, off, len);
  }
}
