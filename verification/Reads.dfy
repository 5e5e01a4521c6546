/** What a cached read returns, one page at a time: the form that coalesced reads are
    proved to refine. */
module Reads {
  import opened Bytes
  import opened Pages
  import opened Stages
  import opened Deltas

  /** Outcome of the reads of one request: what the disk returned for each page. */
  type Seen = map<nat, seq<Byte>>

  /** All a read depends on: the entry's presence image and stage at the moment it is
      planned, and what the disk then returns. */
  datatype Reader = Reader(g: Geometry, crc: Crc, mem: Image, stage: Stage, seen: Seen) {
    /** Page `p` as a reader gets it: staged bytes as they are, else the disk's bytes
        if the page is present and they carry the CRC recorded for it. */
    function Page(p: nat): Option<seq<Byte>>
      requires g.Valid() && p < g.Npages()
    {
      if p in stage.buf then Some(stage.buf[p].data)
      else if p in stage.flushing then Some(stage.flushing[p].data)
      else if p in mem && p in seen && |seen[p]| == g.PageBytes(p) && crc(seen[p]) == mem[p] then Some(seen[p])
      else None
    }
  }

  /** The part of page `p` (whose bytes are `page`) that lies in [off, end). */
  function Piece(g: Geometry, page: seq<Byte>, p: nat, off: nat, end: nat): seq<Byte>
    requires g.Valid() && p < g.Npages()
  {
    var lo, hi := Max(off, g.Start(p)) - g.Start(p), Min(end, g.End(p)) - g.Start(p);
    if 0 <= lo <= hi <= |page| then page[lo..hi] else []
  }

  /** Pieces of pages [p, last], if every one of them is to be had. */
  function Gather(r: Reader, p: nat, last: nat, off: nat, end: nat): Option<seq<Byte>>
    requires r.g.Valid() && last < r.g.Npages()
    decreases last + 1 - p
  {
    if p > last then Some([])
    else if r.Page(p).None? then None
    else
      var rest := Gather(r, p + 1, last, off, end);
      if rest.None? then None else Some(Piece(r.g, r.Page(p).value, p, off, end) + rest.value)
  }

  /** readCached, page at a time. */
  function ReadSpec(r: Reader, off: nat, len: nat): Option<seq<Byte>>
    requires r.g.Valid()
  {
    if len == 0 then Some([])
    else if off + len > r.g.fileSize then None
    else
      r.g.PageOfFacts(off + len - 1);
      Gather(r, r.g.PageOf(off), r.g.PageOf(off + len - 1), off, off + len)
  }

  /** The wrapping range test says what the exact one does. */
  lemma BadRange(g: Geometry, off: nat, len: nat)
    requires len > 0 && g.fileSize < 0x1_0000_0000_0000_0000
    requires off < 0x1_0000_0000_0000_0000 && len < 0x1_0000_0000_0000_0000
    ensures Add64(off, len) < off || Add64(off, len) > g.fileSize <==> off + len > g.fileSize
  {}

  // ---- what is returned is the origin's --------------------------------------------------

  /** Every page to be had holds the origin's bytes. */
  ghost predicate PagesTrue(o: Origin, r: Reader)
    requires o.Valid() && r.g == o.g
  {
    forall p: nat {:trigger r.Page(p)} :: p < o.g.Npages() && r.Page(p).Some? ==> r.Page(p).value == o.Page(p)
  }

  /** The part of the origin that page `p` contributes to [off, end). */
  lemma PieceIsOrigin(o: Origin, p: nat, off: nat, end: nat, lo: nat, hi: nat)
    requires o.Valid() && p < o.g.Npages() && o.g.End(p) <= o.g.fileSize
    requires off < o.g.End(p) && o.g.Start(p) < end && off < end <= o.g.fileSize
    requires lo == Max(off, o.g.Start(p)) && hi == Min(end, o.g.End(p)) && lo < hi <= |o.bytes|
    ensures Piece(o.g, o.Page(p), p, off, end) == o.bytes[lo..hi]
  {
    hide Geometry.Npages, Geometry.PageBytes, Geometry.Start;
    var a := o.g.Start(p);
    SliceOfSlice(o.bytes, a, o.g.End(p) - a, lo - a, hi - lo);
  }

  lemma {:induction false} GatherIsOrigin(o: Origin, r: Reader, p: nat, last: nat, off: nat, end: nat, lo: nat)
    requires o.Valid() && r.g == o.g && PagesTrue(o, r) && last < o.g.Npages() && p <= last
    requires off < end <= o.g.fileSize && end <= o.g.End(last) && o.g.Start(last) < end
    requires off < o.g.End(p) && lo == Max(off, o.g.Start(p)) && lo <= end
    requires Gather(r, p, last, off, end).Some?
    ensures Gather(r, p, last, off, end).value == o.bytes[lo..end]
    decreases last - p
  {
    hide Geometry.PageBytes, Geometry.Npages, Piece, Origin.Page;
    var g := o.g;
    g.EndIsNextStart(p);
    g.StartMono(p, last);
    PieceIsOrigin(o, p, off, end, lo, Min(end, g.End(p)));
    hide Geometry.Start;
    if p == last {
      assert Gather(r, p + 1, last, off, end) == Some([]);
    } else {
      g.PageOrder(p, last);
      g.EndIsNextStart(p + 1);
      GatherIsOrigin(o, r, p + 1, last, off, end, Max(off, g.Start(p + 1)));
      assert o.bytes[lo..g.End(p)] + o.bytes[g.End(p)..end] == o.bytes[lo..end];
    }
  }

  /** All CRCs an image records are those of the origin's pages. */
  ghost predicate ImageTrue(o: Origin, img: Image)
    requires o.Valid()
  {
    forall p <- img :: p < o.g.Npages() && img[p] == o.PageCrc(p)
  }

  ghost predicate StagedTrue(o: Origin, m: map<nat, Staged>)
    requires o.Valid()
  {
    forall p <- m :: p < o.g.Npages() && m[p].data == o.Page(p) && m[p].crc == o.PageCrc(p)
  }

  /** The hypothesis on checksums, of the bytes a read was given and no others: those that have
      a page's length and its CRC are that page. */
  ghost predicate SeenTells(o: Origin, seen: Seen)
    requires o.Valid()
  {
    forall p <- seen :: p < o.g.Npages() && |seen[p]| == o.g.PageBytes(p) && o.crc(seen[p]) == o.PageCrc(p)
                        ==> seen[p] == o.Page(p)
  }

  lemma ReaderTrue(o: Origin, r: Reader)
    requires o.Valid() && SeenTells(o, r.seen) && r.g == o.g && r.crc == o.crc && ImageTrue(o, r.mem)
    requires StagedTrue(o, r.stage.buf) && StagedTrue(o, r.stage.flushing)
    ensures PagesTrue(o, r)
  {
    forall p: nat | p < o.g.Npages() && r.Page(p).Some?
      ensures r.Page(p).value == o.Page(p)
    {
      if !r.stage.Holds(p) { assert o.crc(r.seen[p]) == o.PageCrc(p); }
    }
  }

  /** A read that returns bytes returns exactly the origin's, whatever the disk gave. */
  lemma ReadIsOrigin(o: Origin, r: Reader, off: nat, len: nat)
    requires o.Valid() && SeenTells(o, r.seen) && r.g == o.g && r.crc == o.crc && ImageTrue(o, r.mem)
    requires StagedTrue(o, r.stage.buf) && StagedTrue(o, r.stage.flushing)
    requires ReadSpec(r, off, len).Some?
    ensures len > 0 ==> off + len <= |o.bytes|
    ensures ReadSpec(r, off, len).value == if len == 0 then [] else o.bytes[off..off + len]
  {
    hide PagesTrue, Gather, SeenTells, ImageTrue, StagedTrue,
         Geometry.Npages, Geometry.PageBytes, Geometry.Start, Geometry.PageOf, Geometry.End;
    if len > 0 {
      ReaderTrue(o, r);
      var g := o.g;
      var first, last := g.PageOf(off), g.PageOf(off + len - 1);
      g.PageOfFacts(off);
      g.PageOfFacts(off + len - 1);
      FirstBeforeLast(g, off, off + len - 1);
      g.EndIsNextStart(first);
      g.EndIsNextStart(last);
      GatherIsOrigin(o, r, first, last, off, off + len, off);
    }
  }

  lemma FirstBeforeLast(g: Geometry, a: nat, b: nat)
    requires g.Valid() && a <= b
    ensures g.PageOf(a) <= g.PageOf(b)
  {
    g.PageOfFacts(a);
    g.PageOfFacts(b);
    if g.PageOf(b) < g.PageOf(a) { g.StartMono(g.PageOf(b) + 1, g.PageOf(a)); }
  }

  lemma {:induction false} GatherFails(r: Reader, p: nat, last: nat, off: nat, end: nat)
    requires r.g.Valid() && last < r.g.Npages()
    ensures Gather(r, p, last, off, end).None? <==> exists q: nat :: p <= q <= last && r.Page(q).None?
    decreases last + 1 - p
  {
    if p <= last && r.Page(p).Some? {
      GatherFails(r, p + 1, last, off, end);
    }
  }

  /** A read is refused exactly when some page of the request is neither staged nor
      present with bytes on disk that carry its CRC. */
  lemma ReadFailsExactly(r: Reader, off: nat, len: nat)
    requires r.g.Valid() && len > 0 && off + len <= r.g.fileSize
    ensures r.g.PageOf(off + len - 1) < r.g.Npages()
    ensures ReadSpec(r, off, len).None?
            <==> exists p: nat :: r.g.PageOf(off) <= p <= r.g.PageOf(off + len - 1) && r.Page(p).None?
  {
    r.g.PageOfFacts(off + len - 1);
    GatherFails(r, r.g.PageOf(off), r.g.PageOf(off + len - 1), off, off + len);
  }
}
