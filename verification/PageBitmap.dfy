/** The presence bitmap: packed bits with a running count, refining a set of pages. */
module PageBitmaps {
  import opened Bytes
  import opened Pages

  // ---- bits of a number -----------------------------------------------------------------

  predicate Bit(b: nat, k: nat) { if k == 0 then b % 2 == 1 else Bit(b / 2, k - 1) }

  /** b | (1 << k) */
  function OrBit(b: nat, k: nat): nat {
    if k == 0 then b / 2 * 2 + 1 else 2 * OrBit(b / 2, k - 1) + b % 2
  }

  /** b & ~(1 << k) */
  function AndNotBit(b: nat, k: nat): nat {
    if k == 0 then b / 2 * 2 else 2 * AndNotBit(b / 2, k - 1) + b % 2
  }

  function Pow2(n: nat): (p: nat)
    ensures p > 0
  {
    if n == 0 then 1 else 2 * Pow2(n - 1)
  }

  /** Bit `k` is the one worth 2^k, and setting or clearing it is adding or taking that much. */
  lemma {:induction false} BitIs(b: nat, k: nat)
    ensures Bit(b, k) <==> b / Pow2(k) % 2 == 1
    ensures OrBit(b, k) == (if Bit(b, k) then b else b + Pow2(k)) && AndNotBit(b, k) == if Bit(b, k) then b - Pow2(k) else b
  {
    if k > 0 {
      BitIs(b / 2, k - 1);
      TwiceDivides(b, Pow2(k - 1));
    }
  }

  lemma TwiceDivides(b: nat, p: nat)
    requires p > 0
    ensures b / (2 * p) == b / 2 / p
  {
    var q := b / 2 / p;
    assert q * p <= b / 2 < q * p + p;
    assert q * (2 * p) == 2 * (q * p);
    assert q * (2 * p) <= b < q * (2 * p) + 2 * p;
    QuotientIs(b, 2 * p, q);
  }

  lemma QuotientIs(b: nat, d: nat, q: nat)
    requires d > 0 && q * d <= b < q * d + d
    ensures b / d == q
  {
    FloorDiv(b, d, q);
    if q > 0 { FloorDiv(b, d, q - 1); }
    assert (q + 1) * d == q * d + d;
  }

  /** Page `i` is bit `i % 8`, counted from the least significant, of byte `i / 8`. */
  lemma PageBit(bits: seq<Byte>, i: nat)
    requires i / 8 < |bits|
    ensures GetBit(bits, i) <==> bits[i / 8] / Pow2(i % 8) % 2 == 1
  {
    BitIs(bits[i / 8], i % 8);
  }

  lemma Halves(h: nat, b: nat)
    ensures (2 * h + b % 2) / 2 == h && (2 * h + b % 2) % 2 == b % 2
  {}

  /** Or-ing in one bit leaves every other. */
  lemma {:induction false} OrAfter(b: nat, k: nat, j: nat)
    ensures Bit(OrBit(b, k), j) <==> j == k || Bit(b, j)
  {
    if k > 0 {
      Halves(OrBit(b / 2, k - 1), b);
      if j > 0 { OrAfter(b / 2, k - 1, j - 1); }
    } else if j > 0 {
      assert OrBit(b, 0) / 2 == b / 2;
    }
  }

  /** Masking out one bit leaves every other. */
  lemma {:induction false} AndNotAfter(b: nat, k: nat, j: nat)
    ensures Bit(AndNotBit(b, k), j) <==> j != k && Bit(b, j)
  {
    if k > 0 {
      Halves(AndNotBit(b / 2, k - 1), b);
      if j > 0 { AndNotAfter(b / 2, k - 1, j - 1); }
    } else if j > 0 {
      assert AndNotBit(b, 0) / 2 == b / 2;
    }
  }

  lemma {:induction false} Width(b: nat, k: nat, n: nat)
    requires b < Pow2(n) && k < n
    ensures OrBit(b, k) < Pow2(n) && AndNotBit(b, k) < Pow2(n)
  {
    var top := Pow2(n - 1);
    if k > 0 {
      Width(b / 2, k - 1, n - 1);
      Narrow(OrBit(b / 2, k - 1), b % 2, top);
      Narrow(AndNotBit(b / 2, k - 1), b % 2, top);
    } else {
      Narrow(b / 2, 1, top);
      Narrow(b / 2, 0, top);
    }
  }

  lemma Narrow(h: nat, bit: nat, top: nat)
    requires h < top && bit < 2
    ensures 2 * h + bit < 2 * top
  {}

  lemma {:induction false} NoBits(k: nat)
    ensures !Bit(0, k)
  {
    if k > 0 { NoBits(k - 1); }
  }

  function SetBit(b: Byte, k: nat): Byte
    requires k < 8
  {
    assert Pow2(8) == 256;
    Width(b, k, 8);
    OrBit(b, k)
  }

  function ClearBit(b: Byte, k: nat): Byte
    requires k < 8
  {
    assert Pow2(8) == 256;
    Width(b, k, 8);
    AndNotBit(b, k)
  }

  // ---- packed bits ------------------------------------------------------------------------

  function RawSize(npages: nat): nat { (npages + 7) / 8 }

  predicate GetBit(bits: seq<Byte>, i: nat)
    requires i / 8 < |bits|
  {
    Bit(bits[i / 8], i % 8)
  }

  /** The pages a bitmap of `n` pages holds. */
  function Members(bits: seq<Byte>, n: nat): set<nat>
    requires n <= 8 * |bits|
  {
    set i: nat | i < n && GetBit(bits, i)
  }

  lemma SetMembers(bits: seq<Byte>, n: nat, i: nat)
    requires i < n <= 8 * |bits|
    ensures Members(bits[i / 8 := SetBit(bits[i / 8], i % 8)], n) == Members(bits, n) + {i}
  {
    hide OrBit, Bit;
    var after := bits[i / 8 := SetBit(bits[i / 8], i % 8)];
    forall j: nat | j < n ensures GetBit(after, j) <==> j == i || GetBit(bits, j) {
      OrAfter(bits[i / 8], i % 8, j % 8);
    }
  }

  lemma ClearMembers(bits: seq<Byte>, n: nat, i: nat)
    requires i < n <= 8 * |bits|
    ensures Members(bits[i / 8 := ClearBit(bits[i / 8], i % 8)], n) == Members(bits, n) - {i}
  {
    hide AndNotBit, Bit;
    var after := bits[i / 8 := ClearBit(bits[i / 8], i % 8)];
    forall j: nat | j < n ensures GetBit(after, j) <==> j != i && GetBit(bits, j) {
      AndNotAfter(bits[i / 8], i % 8, j % 8);
    }
  }

  lemma NoMembers(bits: seq<Byte>, n: nat)
    requires n <= 8 * |bits| && forall k :: 0 <= k < |bits| ==> bits[k] == 0
    ensures Members(bits, n) == {}
  {
    hide Bit;
    forall i: nat | i < n ensures !GetBit(bits, i) { NoBits(i % 8); }
  }

  lemma OneMore(bits: seq<Byte>, i: nat)
    requires i < 8 * |bits|
    ensures Members(bits, i + 1) == Members(bits, i) + if GetBit(bits, i) then {i} else {}
  {}

  class PageBitmap {
    var bits: seq<Byte>
    var npages: nat
    var count: nat

    /** The bytes fit the pages; the count may be behind a raw load. */
    ghost predicate Shaped()
      reads this
    {
      |bits| == RawSize(npages)
    }

    ghost predicate Valid()
      reads this
    {
      Shaped() && count == |Pages()|
    }

    /** The set the bitmap stands for. */
    ghost function Pages(): set<nat>
      requires Shaped()
      reads this
    {
      Members(bits, npages)
    }

    constructor (n: nat)
      ensures Valid() && npages == n && Pages() == {}
    {
      npages, bits, count := n, Zeros(RawSize(n)), 0;
      new;
      NoMembers(bits, npages);
    }

    predicate Get(i: nat)
      requires Shaped() && i < npages
      reads this
      ensures Get(i) <==> i in Pages()
    {
      GetBit(bits, i)
    }

    method Set(i: nat)
      requires Valid() && i < npages
      modifies this
      ensures Valid() && npages == old(npages) && Pages() == old(Pages()) + {i}
    {
      hide Members;
      var was := Pages();
      SetMembers(bits, npages, i);
      if !Get(i) {
        bits := bits[i / 8 := SetBit(bits[i / 8], i % 8)];
        count := count + 1;
      } else {
        assert was + {i} == was;
      }
    }

    method Clear(i: nat)
      requires Valid() && i < npages
      modifies this
      ensures Valid() && npages == old(npages) && Pages() == old(Pages()) - {i}
    {
      hide Members;
      var was := Pages();
      ClearMembers(bits, npages, i);
      if Get(i) {
        bits := bits[i / 8 := ClearBit(bits[i / 8], i % 8)];
        count := count - 1;
      } else {
        assert was - {i} == was;
      }
    }

    method ClearAll()
      requires Valid()
      modifies this
      ensures Valid() && npages == old(npages) && Pages() == {}
    {
      bits := seq(|bits|, _ => 0);
      count := 0;
      NoMembers(bits, npages);
    }

    /** Count the bits again after the raw bytes were loaded. */
    method Recount()
      requires Shaped()
      modifies this`count
      ensures Valid()
    {
      count := 0;
      assert Members(bits, 0) == {};
      for i := 0 to npages
        invariant count == |Members(bits, i)| && Shaped()
      {
        OneMore(bits, i);
        if Get(i) { count := count + 1; }
      }
    }

    method RangeSet(first: nat, last: nat) returns (r: bool)
      requires Shaped() && last < npages
      ensures r <==> forall i: nat :: first <= i <= last ==> i in Pages()
    {
      var i := first;
      while i <= last
        invariant first <= i
        invariant forall j: nat :: first <= j < i && j <= last ==> j in Pages()
      {
        if !Get(i) { return false; }
        i := i + 1;
      }
      return true;
    }

    /** Bytes cached, from the count and the tail page alone. */
    method CachedBytes(g: Geometry) returns (bytes: int)
      requires Valid() && g.Valid() && npages == g.Npages()
      ensures Within(g, Pages()) && bytes == SumBytes(g, Pages())
    {
      if count == 0 {
        assert Pages() == {};
        return 0;
      }
      CachedIsSum(g, Pages());
      bytes := count * g.pageSize;
      if Get(npages - 1) { bytes := bytes - (g.pageSize - g.PageBytes(npages - 1)); }
    }
  }

  /** Every page but the tail is whole, so the sum over a set of pages needs only its size
      and whether the tail is in it. */
  lemma {:induction false} CachedIsSum(g: Geometry, pages: set<nat>)
    requires g.Valid() && Within(g, pages) && g.Npages() > 0
    ensures SumBytes(g, pages)
            == |pages| * g.pageSize - if g.Npages() - 1 in pages then g.pageSize - g.PageBytes(g.Npages() - 1) else 0
    decreases |pages|
  {
    hide Geometry.Npages, Geometry.PageBytes;
    if p :| p in pages {
      SumTake(g, pages, p);
      g.EndIsNextStart(p);
      CachedIsSum(g, pages - {p});
      assert |pages| * g.pageSize == |pages - {p}| * g.pageSize + g.pageSize by {
        assert |pages - {p}| == |pages| - 1;
        Distribute(|pages|, g.pageSize);
      }
    }
  }

  lemma Distribute(n: nat, p: nat)
    requires n > 0
    ensures n * p == (n - 1) * p + p
  {}
}
