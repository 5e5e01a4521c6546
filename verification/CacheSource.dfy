/** The builder's view of a cached entry: reads gated by the bitmap it loaded once, and
    verified against the page CRCs it loaded with it. */
module CacheSources {
  import opened Bytes
  import opened Pages
  import opened Stages
  import opened CommitOps
  import opened Reads
  import opened ReadOps
  import opened RunReads

  class CacheSource {
    const g: Geometry
    const crc: Crc
    const bits: seq<bool>
    const crcs: seq<U32>   // empty when the sidecar was loaded as a summary
    var sawRot: bool
    var rotPage: nat       // the first page that failed, when sawRot

    ghost predicate Valid() {
      g.Valid() && |bits| == g.Npages() && g.fileSize < 0x1_0000_0000_0000_0000
    }

    constructor (g: Geometry, crc: Crc, bits: seq<bool>, crcs: seq<U32>)
      requires g.Valid() && |bits| == g.Npages() && g.fileSize < 0x1_0000_0000_0000_0000
      ensures Valid() && !sawRot && this.g == g && this.crc == crc && this.bits == bits && this.crcs == crcs
    {
      this.g, this.crc, this.bits, this.crcs, sawRot, rotPage := g, crc, bits, crcs, false, 0;
    }

    predicate InBounds(off: nat, n: nat) { n != 0 && Add64(off, n) >= off && Add64(off, n) <= g.fileSize }

    /** A range is usable if every page it touches is marked present. */
    method Has(off: nat, n: nat) returns (r: bool)
      requires Valid() && off < 0x1_0000_0000_0000_0000 && n < 0x1_0000_0000_0000_0000
      ensures r <==> n > 0 && off + n <= g.fileSize
                     && forall p: nat :: g.PageOf(off) <= p <= g.PageOf(off + n - 1) ==> p < |bits| && bits[p]
    {
      hide Geometry.PageOf, Geometry.Npages;
      if !InBounds(off, n) { return false; }
      g.PageOfFacts(off + n - 1);
      r := AllPresent(g.PageOf(off), g.PageOf(off + n - 1));
    }

    method AllPresent(first: nat, last: nat) returns (r: bool)
      requires last < |bits|
      ensures r <==> forall p: nat :: first <= p <= last ==> bits[p]
    {
      var i := first;
      while i <= last
        invariant first <= i && forall p: nat :: first <= p < i && p <= last ==> bits[p]
      {
        if !bits[i] { return false; }
        i := i + 1;
      }
      return true;
    }

    /** Read with one pread while `.data` holds `d`. It returns what the page-at-a-time read
        returns, and fails exactly when that does (or there is nothing to read, or no CRC
        table); rot is reported only of a present page whose bytes were all there and did
        not carry its CRC, the first such page of the request. */
    method Read(off: nat, n: nat, d: seq<Byte>) returns (ok: bool, out: seq<Byte>)
      requires Valid() && off < 0x1_0000_0000_0000_0000 && n < 0x1_0000_0000_0000_0000
      modifies this
      ensures |crcs| != g.Npages() || n == 0 || off + n > g.fileSize ==> !ok && sawRot == old(sawRot)
      ensures |crcs| == g.Npages() && n > 0 && off + n <= g.fileSize ==>
                var want := ReadSpec(Reader(g, crc, ImageOf(bits, crcs), EmptyStage(), Disk(g, d)), off, n);
                (ok <==> want.Some?) && (ok ==> out == want.value)
      ensures old(sawRot) ==> sawRot && rotPage == old(rotPage)
      ensures sawRot && !old(sawRot) ==>
                !ok && |crcs| == g.Npages() && rotPage < g.Npages() && bits[rotPage] && Rotten(g, crc, crcs, d, g.PageOf(off), rotPage)
    {
      hide Geometry.PageOf, Geometry.Npages, Geometry.RunBytes, Geometry.Start, Geometry.PageBytes, ReadSpec, ImageOf, Disk, Rotten;
      out := [];
      if !InBounds(off, n) || |crcs| != g.Npages() { return false, out; }
      g.PageOfFacts(off + n - 1);
      FirstBeforeLast(g, off, off + n - 1);
      var first, last := g.PageOf(off), g.PageOf(off + n - 1);
      ghost var rd := Reader(g, crc, ImageOf(bits, crcs), EmptyStage(), Disk(g, d));
      var present := AllPresent(first, last);
      if !present {
        ghost var p: nat :| first <= p <= last && !bits[p];
        NoPage(rd, bits, crcs, off, n, p, d);
        return false, out;
      }
      ok, out := ReadSpan(off, n, d);
    }

    /** The span of a request all of whose pages are marked. */
    method ReadSpan(off: nat, n: nat, d: seq<Byte>) returns (ok: bool, out: seq<Byte>)
      requires Valid() && n > 0 && off + n <= g.fileSize && |crcs| == g.Npages()
      requires g.PageOf(off) <= g.PageOf(off + n - 1) < g.Npages()
      requires forall p: nat :: g.PageOf(off) <= p <= g.PageOf(off + n - 1) ==> bits[p]
      modifies this
      ensures var want := ReadSpec(Reader(g, crc, ImageOf(bits, crcs), EmptyStage(), Disk(g, d)), off, n);
              (ok <==> want.Some?) && (ok ==> out == want.value)
      ensures old(sawRot) ==> sawRot && rotPage == old(rotPage)
      ensures sawRot && !old(sawRot) ==> !ok && g.PageOf(off) <= rotPage <= g.PageOf(off + n - 1) && Rotten(g, crc, crcs, d, g.PageOf(off), rotPage)
    {
      hide Geometry.PageOf, Geometry.Npages, Geometry.RunBytes, Geometry.Start, Geometry.PageBytes, Geometry.End, ReadSpec, ImageOf, Pread, RunOk,
           PageGood, OnePage, CopyRun, Disk, Rotten;
      out := [];
      ghost var rd := Reader(g, crc, ImageOf(bits, crcs), EmptyStage(), Disk(g, d));
      var r := Run(g.PageOf(off), g.PageOf(off + n - 1), crcs[g.PageOf(off)..g.PageOf(off + n - 1) + 1]);
      RunBytesIs(g, r.first, r.last);
      var dst, bad, short := VerifyRun(g, crc, r, d);
      if bad.Some? {
        assert !RunPageGood(g, crc, d, r, bad.value);
        NoPage(rd, bits, crcs, off, n, bad.value, d);
      }
      if |dst| < g.RunBytes(r.first, r.last) { return false, out; }
      if bad.Some? {
        IsRotten(g, crc, d, r, bad.value, crcs);
        if !sawRot { rotPage := bad.value; }
        sawRot := true;
        return false, out;
      }
      SpanMeets(g, off, n);
      out := CopyRun(g, r, dst, off, off + n, Zeros(n));
      WholeSpan(rd, bits, crcs, off, n, r, d, out);
      ok := true;
    }
  }

  /** Page `p` is all there and does not carry its CRC, and the pages from `first` to it do. */
  ghost predicate Rotten(g: Geometry, crc: Crc, crcs: seq<U32>, d: seq<Byte>, first: nat, p: nat)
    requires g.Valid() && |crcs| == g.Npages() && p < g.Npages()
  {
    && |OnePage(g, d, p)| == g.PageBytes(p) && crc(OnePage(g, d, p)) != crcs[p]
    && forall q: nat :: first <= q < p ==> PageGood(g, crc, d, q, crcs[q])
  }

  /** A page that is not marked, or whose bytes do not carry its CRC, fails the request. */
  lemma NoPage(rd: Reader, bits: seq<bool>, crcs: seq<U32>, off: nat, n: nat, p: nat, d: seq<Byte>)
    requires rd.g.Valid() && n > 0 && off + n <= rd.g.fileSize && |bits| == |crcs| == rd.g.Npages()
    requires rd.mem == ImageOf(bits, crcs) && rd.stage == EmptyStage() && rd.seen == Disk(rd.g, d)
    requires rd.g.PageOf(off) <= p <= rd.g.PageOf(off + n - 1) && p < rd.g.Npages()
    requires !bits[p] || !PageGood(rd.g, rd.crc, d, p, crcs[p])
    ensures ReadSpec(rd, off, n).None?
  {
    hide ReadSpec, Geometry.Npages, Geometry.PageOf, Geometry.PageBytes, OnePage;
    ImageAt(bits, crcs, p);
    assert rd.Page(p).None?;
    ReadFailsExactly(rd, off, n);
  }

  /** A bad page in a read that was not short has all its bytes. */
  lemma NotShort(g: Geometry, d: seq<Byte>, first: nat, last: nat, p: nat, want: U32, crc: Crc)
    requires g.Valid() && first <= p <= last < g.Npages()
    requires |Pread(d, g.Start(first), g.RunBytes(first, last))| == g.RunBytes(first, last)
    requires !PageGood(g, crc, d, p, want)
    ensures |OnePage(g, d, p)| == g.PageBytes(p) && crc(OnePage(g, d, p)) != want
  {
    hide Geometry.Npages, Geometry.PageBytes, Geometry.Start, Geometry.RunBytes, Pread, OnePage;
    g.StartMono(first, p);
    RunShowsPage(g, d, first, last, p, g.Start(p) - g.Start(first));
  }

  lemma IsRotten(g: Geometry, crc: Crc, d: seq<Byte>, r: Run, bad: nat, crcs: seq<U32>)
    requires g.Valid() && r.first <= bad <= r.last < g.Npages() == |crcs| && r.want == crcs[r.first..r.last + 1]
    requires |Pread(d, g.Start(r.first), g.RunBytes(r.first, r.last))| == g.RunBytes(r.first, r.last)
    requires !RunPageGood(g, crc, d, r, bad) && forall p :: r.first <= p < bad ==> RunPageGood(g, crc, d, r, p)
    ensures Rotten(g, crc, crcs, d, r.first, bad)
  {
    hide PageGood, OnePage, Pread, Geometry.Npages, Geometry.PageBytes, Geometry.Start, Geometry.RunBytes;
    NotShort(g, d, r.first, r.last, bad, crcs[bad], crc);
    forall p: nat | r.first <= p < bad ensures PageGood(g, crc, d, p, crcs[p]) {
      assert RunPageGood(g, crc, d, r, p);
    }
  }

  lemma SpanMeets(g: Geometry, off: nat, n: nat)
    requires g.Valid() && n > 0 && off + n <= g.fileSize
    ensures g.PageOf(off + n - 1) < g.Npages() && off < g.End(g.PageOf(off + n - 1)) && g.Start(g.PageOf(off)) < off + n
  {
    g.PageOfFacts(off);
    g.PageOfFacts(off + n - 1);
    FirstBeforeLast(g, off, off + n - 1);
    InRequest(g, off, n, g.PageOf(off + n - 1));
  }

  /** A marked page whose bytes carry its CRC is read as they are. */
  lemma GoodIsRead(rd: Reader, bits: seq<bool>, crcs: seq<U32>, p: nat, d: seq<Byte>)
    requires rd.g.Valid() && |bits| == |crcs| == rd.g.Npages() && p < rd.g.Npages()
    requires rd.mem == ImageOf(bits, crcs) && rd.stage == EmptyStage() && rd.seen == Disk(rd.g, d)
    requires bits[p] && PageGood(rd.g, rd.crc, d, p, crcs[p])
    ensures rd.Page(p) == Some(OnePage(rd.g, d, p))
  {
    hide Geometry.Npages, Geometry.PageBytes, OnePage, ImageOf;
    ImageAt(bits, crcs, p);
  }

  /** The span read in one piece and verified is the page-at-a-time read. */
  lemma WholeSpan(rd: Reader, bits: seq<bool>, crcs: seq<U32>, off: nat, n: nat, r: Run, d: seq<Byte>, out: seq<Byte>)
    requires rd.g.Valid() && n > 0 && off + n <= rd.g.fileSize && |bits| == |crcs| == rd.g.Npages()
    requires rd.mem == ImageOf(bits, crcs) && rd.stage == EmptyStage() && rd.seen == Disk(rd.g, d)
    requires r.first == rd.g.PageOf(off) && r.last == rd.g.PageOf(off + n - 1) < rd.g.Npages() && r.first <= r.last
    requires r.want == crcs[r.first..r.last + 1] && forall p: nat :: r.first <= p <= r.last ==> bits[p]
    requires forall p :: InRun(r, p) ==> RunPageGood(rd.g, rd.crc, d, r, p)
    requires |Pread(d, rd.g.Start(r.first), rd.g.RunBytes(r.first, r.last))| == rd.g.RunBytes(r.first, r.last)
    requires off < rd.g.End(r.last) && rd.g.Start(r.first) < off + n
    requires out == CopyRun(rd.g, r, Pread(d, rd.g.Start(r.first), rd.g.RunBytes(r.first, r.last)), off, off + n, Zeros(n))
    ensures ReadSpec(rd, off, n) == Some(out)
  {
    hide ReadSpec, Geometry.Npages, Geometry.PageOf, Geometry.PageBytes, Geometry.Start, Geometry.RunBytes, Geometry.End,
         OnePage, CopyRun, Pread, Placed, ImageOf, Disk, Reader.Page;
    var g, end := rd.g, off + n;
    forall p: nat | g.PageOf(off) <= p <= g.PageOf(end - 1) ensures Got(rd, out, off, end, p) {
      assert InRun(r, p) && RunPageGood(g, rd.crc, d, r, p);
      GoodIsRead(rd, bits, crcs, p, d);
      InRequest(g, off, n, p);
      RunPlacesPage(g, r, d, off, end, Zeros(n), p);
    }
    GotIsRead(rd, out, off, n, end);
  }
}
