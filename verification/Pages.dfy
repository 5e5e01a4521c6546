/** Page geometry of a cached object: fixed-size pages, the last one short. */
module Pages {
  import opened Bytes

  const MAX_READ: nat := 0x10_0000  // longest coalesced read, 1 MiB
  const MAX_WRITE: nat := 0x80_0000 // longest coalesced write, 8 MiB

  /** A power of two between 4 KiB and 1 MiB. */
  predicate ValidPageSize(p: nat) {
    p == 0x1000 || p == 0x2000 || p == 0x4000 || p == 0x8000 || p == 0x1_0000
    || p == 0x2_0000 || p == 0x4_0000 || p == 0x8_0000 || p == 0x10_0000
  }

  datatype Geometry = Geometry(pageSize: nat, fileSize: nat) {
    predicate Valid() { pageSize > 0 }

    function Npages(): nat
      requires Valid()
    {
      (fileSize + pageSize - 1) / pageSize
    }

    function Start(i: nat): nat { i * pageSize }

    /** Bytes page `i` covers; the tail page may be short. */
    function PageBytes(i: nat): nat
      requires Valid() && i < Npages()
    {
      InRange(i);
      Min(Start(i) + pageSize, fileSize) - Start(i)
    }

    function End(i: nat): nat
      requires Valid() && i < Npages()
    {
      Start(i) + PageBytes(i)
    }

    /** Bytes of the run of pages [first, last]. */
    function RunBytes(first: nat, last: nat): nat
      requires Valid() && first <= last < Npages()
    {
      StartMono(first, last);
      Start(last) + PageBytes(last) - Start(first)
    }

    /** Page holding byte `off`. */
    function PageOf(off: nat): nat
      requires Valid()
    {
      off / pageSize
    }

    lemma InRange(i: nat)
      requires Valid()
      ensures i < Npages() <==> Start(i) < fileSize
    {
      if i < Npages() {
        MulMono(i, Npages() - 1, pageSize);
      } else {
        MulMono(Npages(), i, pageSize);
      }
    }

    lemma PageOfFacts(off: nat)
      requires Valid()
      ensures Start(PageOf(off)) <= off < Start(PageOf(off) + 1)
      ensures off < fileSize ==> PageOf(off) < Npages()
    {
      StartNext(PageOf(off));
      InRange(PageOf(off));
    }

    lemma StartNext(i: nat)
      ensures Start(i + 1) == Start(i) + pageSize
    {}

    lemma StartMono(i: nat, j: nat)
      requires i <= j
      ensures Start(i) <= Start(j)
      ensures i < j ==> Start(i) + pageSize <= Start(j)
    {
      MulMono(i, j, pageSize);
      if i < j { MulMono(i + 1, j, pageSize); }
    }

    /** Every page but the last is whole, so it ends where the next one starts. */
    lemma EndIsNextStart(i: nat)
      requires Valid() && i < Npages()
      ensures i + 1 < Npages() ==> End(i) == Start(i + 1) && PageBytes(i) == pageSize
      ensures i + 1 == Npages() ==> End(i) == fileSize
      ensures 0 < PageBytes(i) <= pageSize && End(i) <= fileSize
    {
      StartNext(i);
      InRange(i);
      InRange(i + 1);
    }

    /** Page order is byte order. */
    lemma PageOrder(i: nat, j: nat)
      requires Valid() && i < j < Npages()
      ensures End(i) <= Start(j)
    {
      EndIsNextStart(i);
      StartMono(i + 1, j);
    }
  }

  lemma MulMono(a: nat, b: nat, p: nat)
    requires a <= b
    ensures a * p <= b * p
  {}

  lemma CeilDiv(a: nat, p: nat, i: nat)
    requires p > 0
    ensures (a + p - 1) / p <= i <==> a <= i * p
  {
    var q := (a + p - 1) / p;
    assert q * p <= a + p - 1 < q * p + p;
    if q <= i { MulMono(q, i, p); } else { MulMono(i + 1, q, p); }
  }

  lemma FloorDiv(a: nat, p: nat, i: nat)
    requires p > 0
    ensures i < a / p <==> (i + 1) * p <= a
  {
    var q := a / p;
    assert q * p <= a < q * p + p;
    if i < q { MulMono(i + 1, q, p); } else { MulMono(q + 1, i + 1, p); }
  }

  // ---- the origin ---------------------------------------------------------------

  /** The object at the origin, of one generation. */
  datatype Origin = Origin(g: Geometry, bytes: seq<Byte>, crc: Crc) {
    predicate Valid() { g.Valid() && |bytes| == g.fileSize }

    function Page(i: nat): (s: seq<Byte>)
      requires Valid() && i < g.Npages()
      ensures |s| == g.PageBytes(i)
    {
      g.EndIsNextStart(i);
      bytes[g.Start(i)..g.End(i)]
    }

    function PageCrc(i: nat): U32
      requires Valid() && i < g.Npages()
    {
      crc(Page(i))
    }
  }

  // ---- sums of page sizes ---------------------------------------------------------

  ghost predicate Within(g: Geometry, pages: set<nat>)
    requires g.Valid()
  {
    forall p <- pages :: p < g.Npages()
  }

  /** Total bytes of a set of pages. */
  ghost function SumBytes(g: Geometry, pages: set<nat>): nat
    requires g.Valid() && Within(g, pages)
  {
    if pages == {} then 0
    else
      var p :| p in pages;
      g.PageBytes(p) + SumBytes(g, pages - {p})
  }

  lemma {:induction false} SumTake(g: Geometry, pages: set<nat>, p: nat)
    requires g.Valid() && Within(g, pages) && p in pages
    ensures SumBytes(g, pages) == g.PageBytes(p) + SumBytes(g, pages - {p})
    decreases |pages|
  {
    var q :| q in pages && SumBytes(g, pages) == g.PageBytes(q) + SumBytes(g, pages - {q});
    if q != p {
      SumTake(g, pages - {q}, p);
      SumTake(g, pages - {p}, q);
      assert pages - {q} - {p} == pages - {p} - {q};
    }
  }

  lemma SumAdd(g: Geometry, pages: set<nat>, p: nat)
    requires g.Valid() && Within(g, pages) && p !in pages && p < g.Npages()
    ensures SumBytes(g, pages + {p}) == SumBytes(g, pages) + g.PageBytes(p)
  {
    SumTake(g, pages + {p}, p);
    assert pages + {p} - {p} == pages;
  }

  lemma {:induction false} SumUnion(g: Geometry, a: set<nat>, b: set<nat>)
    requires g.Valid() && Within(g, a) && Within(g, b) && a !! b
    ensures SumBytes(g, a + b) == SumBytes(g, a) + SumBytes(g, b)
    decreases |b|
  {
    if b == {} {
      assert a + b == a;
    } else {
      var p :| p in b;
      SumTake(g, b, p);
      SumTake(g, a + b, p);
      assert a + b - {p} == a + (b - {p});
      SumUnion(g, a, b - {p});
    }
  }
}
