/** Bytes, fixed-width little-endian integers, and the put/get buffer idiom that
    every on-disk format of the cache is written with. */
module Bytes {
  type Byte = b: int | 0 <= b < 256
  type U16 = v: int | 0 <= v < 0x1_0000
  type U32 = v: int | 0 <= v < 0x1_0000_0000
  type U64 = v: int | 0 <= v < 0x1_0000_0000_0000_0000

  /** A checksum over bytes. crc32c is kept uninterpreted: every result holds for
      any function of this type that meets the hypotheses the result states. */
  type Crc = seq<Byte> -> U32

  datatype Option<+T> = None | Some(value: T)

  function Min(a: int, b: int): int { if a < b then a else b }
  function Max(a: int, b: int): int { if a < b then b else a }

  /** uint64 addition. */
  function Add64(a: nat, b: nat): nat { (a + b) % 0x1_0000_0000_0000_0000 }

  function Zeros(n: nat): (s: seq<Byte>)
    ensures |s| == n
  {
    seq(n, _ => 0)
  }

  function Pow256(n: nat): (p: nat)
    ensures p >= 1
  {
    if n == 0 then 1 else 256 * Pow256(n - 1)
  }

  lemma Widths()
    ensures Pow256(1) == 256
    ensures Pow256(2) == 0x1_0000
    ensures Pow256(4) == 0x1_0000_0000
    ensures Pow256(8) == 0x1_0000_0000_0000_0000
  {
    assert Pow256(3) == 256 * Pow256(2);
    assert Pow256(5) == 256 * Pow256(4);
    assert Pow256(7) == 256 * Pow256(6);
  }

  /** Little-endian image of `v` in `n` bytes (truncating, as a store does). */
  function Le(v: nat, n: nat): (s: seq<Byte>)
    ensures |s| == n
    decreases v, n
  {
    if n == 0 then [] else [v % 256] + Le(v / 256, n - 1)
  }

  function Un(s: seq<Byte>): nat {
    if s == [] then 0 else s[0] + 256 * Un(s[1..])
  }

  lemma {:induction false} UnLe(v: nat, n: nat)
    requires v < Pow256(n)
    ensures Un(Le(v, n)) == v
  {
    if n > 0 {
      UnLe(v / 256, n - 1);
      assert Le(v, n)[1..] == Le(v / 256, n - 1);
    }
  }

  lemma {:induction false} UnBound(s: seq<Byte>)
    ensures Un(s) < Pow256(|s|)
  {
    if s != [] {
      UnBound(s[1..]);
    }
  }

  lemma {:induction false} LeUn(s: seq<Byte>)
    ensures Le(Un(s), |s|) == s
  {
    if s != [] {
      LeUn(s[1..]);
      assert Un(s) / 256 == Un(s[1..]);
    }
  }

  /** Reads of the widths the formats use. */
  function Get32(s: seq<Byte>, at: nat): U32
    requires at + 4 <= |s|
  {
    UnBound(s[at..at + 4]);
    Widths();
    Un(s[at..at + 4])
  }

  function Get64(s: seq<Byte>, at: nat): U64
    requires at + 8 <= |s|
  {
    UnBound(s[at..at + 8]);
    Widths();
    Un(s[at..at + 8])
  }

  function Get16(s: seq<Byte>, at: nat): U16
    requires at + 2 <= |s|
  {
    UnBound(s[at..at + 2]);
    Widths();
    Un(s[at..at + 2])
  }

  // ---- the same, byte by byte, as the format tables give it ---------------------------------------

  function U16At(s: seq<Byte>, at: nat): U16
    requires at + 2 <= |s|
  {
    s[at] as nat + 0x100 * s[at + 1] as nat
  }

  function U32At(s: seq<Byte>, at: nat): U32
    requires at + 4 <= |s|
  {
    s[at] as nat + 0x100 * s[at + 1] as nat + 0x1_0000 * s[at + 2] as nat + 0x100_0000 * s[at + 3] as nat
  }

  function U64At(s: seq<Byte>, at: nat): U64
    requires at + 8 <= |s|
  {
    U32At(s, at) + 0x1_0000_0000 * U32At(s, at + 4)
  }

  lemma Get16Is(s: seq<Byte>, at: nat)
    requires at + 2 <= |s|
    ensures Get16(s, at) == U16At(s, at)
  {
    UnStep(s, at, 2);
    UnStep(s, at + 1, 1);
    assert s[at + 2..at + 2] == [];
  }

  lemma UnStep(s: seq<Byte>, at: nat, n: nat)
    requires n > 0 && at + n <= |s|
    ensures Un(s[at..at + n]) == s[at] + 256 * Un(s[at + 1..at + n])
  {
    assert s[at..at + n][1..] == s[at + 1..at + n];
  }

  lemma Get32Is(s: seq<Byte>, at: nat)
    requires at + 4 <= |s|
    ensures Get32(s, at) == U32At(s, at)
  {
    hide Un;
    FourUn(s, at, 4);
    assert Un(s[at + 4..at + 4]) == 0 by { NothingUn(s[at + 4..at + 4]); }
  }

  lemma NothingUn(s: seq<Byte>)
    requires s == []
    ensures Un(s) == 0
  {}

  lemma FourUn(s: seq<Byte>, at: nat, n: nat)
    requires n >= 4 && at + n <= |s|
    ensures Un(s[at..at + n]) == U32At(s, at) + 0x1_0000_0000 * Un(s[at + 4..at + n])
  {
    hide Un;
    UnStep(s, at, n);
    UnStep(s, at + 1, n - 1);
    UnStep(s, at + 2, n - 2);
    UnStep(s, at + 3, n - 3);
  }

  lemma Get64Is(s: seq<Byte>, at: nat)
    requires at + 8 <= |s|
    ensures Get64(s, at) == U64At(s, at)
  {
    hide Un, U32At;
    FourUn(s, at, 8);
    FourUn(s, at + 4, 4);
    assert Un(s[at + 8..at + 8]) == 0 by { NothingUn(s[at + 8..at + 8]); }
  }

  /** `buf` holds `x` at `at`. */
  predicate Has(buf: seq<Byte>, at: nat, x: seq<Byte>) {
    at + |x| <= |buf| && buf[at..at + |x|] == x
  }

  /** memcpy of `x` into `buf` at `at`: what is stored there is `x`, and whatever
      the buffer held beside it is still there. */
  function Put(buf: seq<Byte>, at: nat, x: seq<Byte>): (r: seq<Byte>)
    requires at + |x| <= |buf|
    ensures |r| == |buf|
    ensures Has(r, at, x)
    ensures forall o: nat, y: seq<Byte> {:trigger Has(buf, o, y)} ::
              Has(buf, o, y) && (o + |y| <= at || at + |x| <= o) ==> Has(r, o, y)
    ensures forall j :: 0 <= j < |buf| && !(at <= j < at + |x|) ==> r[j] == buf[j]
  {
    var r := buf[..at] + x + buf[at + |x|..];
    assert forall o: nat, y: seq<Byte> {:trigger Has(buf, o, y)} ::
        Has(buf, o, y) && (o + |y| <= at || at + |x| <= o) ==> r[o..o + |y|] == buf[o..o + |y|];
    r
  }

  /** Zeroing a field that was zero before it was stored gives the buffer back. */
  lemma PutUndone(buf: seq<Byte>, at: nat, x: seq<Byte>)
    requires at + |x| <= |buf| && Has(buf, at, Zeros(|x|))
    ensures Put(Put(buf, at, x), at, Zeros(|x|)) == buf
  {
    var r := Put(Put(buf, at, x), at, Zeros(|x|));
    forall j | 0 <= j < |buf|
      ensures r[j] == buf[j]
    {
      if at <= j < at + |x| {
        assert r[j] == r[at..at + |x|][j - at] == 0;
        assert buf[j] == buf[at..at + |x|][j - at] == 0;
      }
    }
  }

  lemma Get32Of(s: seq<Byte>, at: nat, v: U32)
    requires Has(s, at, Le(v, 4))
    ensures Get32(s, at) == v
  {
    Widths();
    UnLe(v, 4);
  }

  lemma Get64Of(s: seq<Byte>, at: nat, v: U64)
    requires Has(s, at, Le(v, 8))
    ensures Get64(s, at) == v
  {
    Widths();
    UnLe(v, 8);
  }

  lemma Get16Of(s: seq<Byte>, at: nat, v: U16)
    requires Has(s, at, Le(v, 2))
    ensures Get16(s, at) == v
  {
    Widths();
    UnLe(v, 2);
  }

  lemma SliceOfSlice(s: seq<Byte>, at: nat, len: nat, off: nat, n: nat)
    requires at + len <= |s| && off + n <= len
    ensures s[at..at + len][off..off + n] == s[at + off..at + off + n]
  {
    var a, b := s[at..at + len][off..off + n], s[at + off..at + off + n];
    assert |a| == |b| && forall j :: 0 <= j < n ==> a[j] == b[j];
  }

  lemma HasWhole(s: seq<Byte>)
    ensures Has(s, 0, s)
  {
    assert s[0..|s|] == s;
  }

  lemma HasParts(s: seq<Byte>, at: nat, x: seq<Byte>, y: seq<Byte>)
    requires Has(s, at, x + y)
    ensures Has(s, at, x) && Has(s, at + |x|, y)
  {
    assert s[at..at + |x|] == (x + y)[..|x|];
    assert s[at + |x|..at + |x| + |y|] == (x + y)[|x|..];
  }

  // ---- zeroed buffers that are filled section by section -------------------------------------

  function Align8(n: nat): nat { (n + 7) / 8 * 8 }

  lemma ZeroField(n: nat, at: nat, w: nat)
    requires at + w <= n
    ensures Has(Zeros(n), at, Zeros(w))
  {}

  lemma ZeroSplit(s: seq<Byte>, at: nat, n: nat, o: nat, w: nat)
    requires Has(s, at, Zeros(n)) && at <= o && o + w <= at + n
    ensures Has(s, o, Zeros(w))
  {
    SliceOfSlice(s, at, n, o - at, w);
    assert Zeros(n)[o - at..o - at + w] == Zeros(w);
  }

  lemma HeadInPlace(s: seq<Byte>, n: nat)
    requires n <= |s|
    ensures Has(s, 0, s[..n])
  {}

  /** What lies in an unchanged head is still there. */
  lemma HeadKept(s0: seq<Byte>, s: seq<Byte>, n: nat)
    requires n <= |s0| && Has(s, 0, s0[..n])
    ensures forall o: nat, x: seq<Byte> {:trigger Has(s0, o, x)} :: Has(s0, o, x) && o + |x| <= n ==> Has(s, o, x)
  {
    forall o: nat, x: seq<Byte> {:trigger Has(s0, o, x)} | Has(s0, o, x) && o + |x| <= n ensures Has(s, o, x) {
      SliceOfSlice(s, 0, n, o, |x|);
      SliceOfSlice(s0, 0, n, o, |x|);
      assert s0[0..n] == s0[..n] && s[0..0 + n] == s0[..n];
    }
  }
}
