/** The `.meta` sidecar image: header, key, bitmap and page CRCs under one image CRC. */
module MetaFiles {
  import opened Bytes
  import opened Tables
  import opened PageBitmaps
  import opened Pages

  const HEADER: nat := 56
  const CRC_FIELD: nat := 52
  const MAX_KEY: nat := 0x1_0000
  const MAX_IMAGE: nat := 0x8000_0000
  const FORMAT_VERSION: U32 := 1

  function Magic(): seq<Byte> { [85, 67, 65, 67] } // "UCAC"

  datatype MetaData = MetaData(pageSize: U32, flags: U32, fileSize: U64, atime: U64, originMtime: U64,
                               cksumKind: Byte, originCksum: U32, key: seq<Byte>,
                               bits: seq<Byte>, pageCrcs: seq<U32>)

  /** p > 0 && (p & (p - 1)) == 0 */
  predicate PowerOfTwo(p: nat) { p == 1 || (p > 1 && p % 2 == 0 && PowerOfTwo(p / 2)) }

  /** Pages of a file, in the source's uint64 arithmetic. */
  function PagesIn(fileSize: U64, pageSize: U32): nat {
    if pageSize == 0 then 0 else (fileSize + pageSize - 1) % 0x1_0000_0000_0000_0000 / pageSize
  }

  function BitmapOff(keyLen: nat): nat { Align8(HEADER + keyLen) }
  function CrcsOff(keyLen: nat, npages: nat): nat { BitmapOff(keyLen) + RawSize(npages) }
  function Total(keyLen: nat, npages: nat): nat { CrcsOff(keyLen, npages) + npages * 4 }

  /** What the cache stores: a power-of-two page size, and tables that fit it. */
  predicate WellFormed(m: MetaData) {
    && PowerOfTwo(m.pageSize) && |m.key| <= MAX_KEY
    && |m.bits| == RawSize(PagesIn(m.fileSize, m.pageSize))
    && |m.pageCrcs| == PagesIn(m.fileSize, m.pageSize)
  }

  // ---- reading ---------------------------------------------------------------------------------

  /** Magic, version, geometry and exact size: all that is checked short of the CRC. */
  predicate Gates(s: seq<Byte>) {
    && |s| >= HEADER && s[..4] == Magic() && Get32(s, 4) == FORMAT_VERSION
    && PowerOfTwo(Get32(s, 8)) && Get32(s, 48) <= MAX_KEY
    && |s| == Total(Get32(s, 48), PagesIn(Get64(s, 16), Get32(s, 8)))
  }

  /** The image CRC, computed with its own field zeroed. */
  predicate CrcHolds(crc: Crc, s: seq<Byte>)
    requires |s| >= HEADER
  {
    crc(Put(s, CRC_FIELD, Zeros(4))) == Get32(s, CRC_FIELD)
  }

  function Fields(s: seq<Byte>, pageCrcs: seq<U32>): MetaData
    requires Gates(s)
  {
    var keyLen, npages := Get32(s, 48), PagesIn(Get64(s, 16), Get32(s, 8));
    MetaData(Get32(s, 8), Get32(s, 12), Get64(s, 16), Get64(s, 24), Get64(s, 32), s[40], Get32(s, 44),
             s[HEADER..HEADER + keyLen], s[BitmapOff(keyLen)..CrcsOff(keyLen, npages)], pageCrcs)
  }

  function PageCrcs(s: seq<Byte>): seq<U32>
    requires Gates(s)
  {
    var keyLen, npages := Get32(s, 48), PagesIn(Get64(s, 16), Get32(s, 8));
    Decode(U32s(), s, CrcsOff(keyLen, npages), npages)
  }

  function Deserialize(crc: Crc, s: seq<Byte>): Option<MetaData> {
    if Gates(s) && CrcHolds(crc, s) then Some(Fields(s, PageCrcs(s))) else None
  }

  // ---- the format, as its table gives it ----------------------------------------------------------

  lemma {:induction false} PowerOfTwoIs(p: nat)
    ensures PowerOfTwo(p) <==> exists k: nat :: p == Pow2(k)
  {
    if PowerOfTwo(p) {
      if p == 1 {
        assert p == Pow2(0);
      } else {
        PowerOfTwoIs(p / 2);
        var k: nat :| p / 2 == Pow2(k);
        assert p == Pow2(k + 1);
      }
    }
    if k: nat :| p == Pow2(k) { Pow2Is(k); }
  }

  lemma {:induction false} Pow2Is(k: nat)
    ensures PowerOfTwo(Pow2(k))
  {
    if k > 0 { Pow2Is(k - 1); }
  }

  /** The page sizes the cache uses: the powers of two from 4 KiB to 1 MiB. */
  lemma PageSizes(p: nat)
    ensures ValidPageSize(p) <==> 0x1000 <= p <= 0x10_0000 && PowerOfTwo(p)
  {
    hide PowerOfTwo, Pow2;
    Powers();
    if 0x1000 <= p <= 0x10_0000 && PowerOfTwo(p) {
      HalvedFor(p, 12);
      SmallPowers(p / 0x1000);
    }
    if ValidPageSize(p) {
      var k := if p == 0x1000 then 12 else if p == 0x2000 then 13 else if p == 0x4000 then 14 else if p == 0x8000 then 15
               else if p == 0x1_0000 then 16 else if p == 0x2_0000 then 17 else if p == 0x4_0000 then 18 else if p == 0x8_0000 then 19 else 20;
      Pow2Is(k);
    }
  }

  lemma SmallPowers(q: nat)
    requires PowerOfTwo(q) && q <= 256
    ensures q == 1 || q == 2 || q == 4 || q == 8 || q == 16 || q == 32 || q == 64 || q == 128 || q == 256
  {
    if q > 1 {
      var a := q / 2;
      if a > 1 {
        var b := a / 2;
        if b > 1 {
          var c := b / 2;
          if c > 1 {
            var d := c / 2;
            assert PowerOfTwo(d) && d <= 16;
            FewPowers(d);
          }
        }
      }
    }
  }

  lemma FewPowers(q: nat)
    requires PowerOfTwo(q) && q <= 16
    ensures q == 1 || q == 2 || q == 4 || q == 8 || q == 16
  {
    if q > 1 {
      var a := q / 2;
      if a > 1 { assert PowerOfTwo(a / 2) && a / 2 <= 4; }
    }
  }

  lemma Powers()
    ensures Pow2(12) == 0x1000 && Pow2(13) == 0x2000 && Pow2(14) == 0x4000 && Pow2(15) == 0x8000 && Pow2(16) == 0x1_0000
    ensures Pow2(17) == 0x2_0000 && Pow2(18) == 0x4_0000 && Pow2(19) == 0x8_0000 && Pow2(20) == 0x10_0000
  {
    assert Pow2(4) == 16;
    assert Pow2(8) == 16 * Pow2(4);
    assert Pow2(12) == 16 * Pow2(8);
    assert Pow2(16) == 16 * Pow2(12);
    assert Pow2(20) == 16 * Pow2(16);
  }

  lemma Doubled(q: nat, half: nat)
    ensures q * (2 * half) == 2 * (q * half)
  {}

  /** A power of two that is at least 2^k is 2^k times a power of two. */
  lemma {:induction false} HalvedFor(p: nat, k: nat)
    requires PowerOfTwo(p) && p >= Pow2(k)
    ensures PowerOfTwo(p / Pow2(k)) && p == p / Pow2(k) * Pow2(k)
  {
    if k > 0 {
      var half := Pow2(k - 1);
      assert p > 1 && p / 2 * 2 == p;
      HalvedFor(p / 2, k - 1);
      TwiceDivides(p, half);
      hide PowerOfTwo, Pow2;
      Doubled(p / 2 / half, half);
    }
  }

  /** As many pages as it takes, unless the sum wraps. */
  lemma PagesCover(fileSize: U64, pageSize: U32)
    requires 0 < pageSize && fileSize + pageSize <= 0x1_0000_0000_0000_0000
    ensures var n := PagesIn(fileSize, pageSize);
            fileSize <= n * pageSize && (n > 0 ==> (n - 1) * pageSize < fileSize)
  {
    var x := fileSize + pageSize - 1;
    assert x % 0x1_0000_0000_0000_0000 == x;
    var n := x / pageSize;
    assert n * pageSize <= x < n * pageSize + pageSize;
    assert (n - 1) * pageSize == n * pageSize - pageSize;
  }

  /** The image `s` says `m`: every field at its offset, the sections one after another, nothing
      more, and the CRC that of the image with its own field zeroed. */
  ghost predicate ImageSays(crc: Crc, s: seq<Byte>, m: MetaData) {
    && |s| >= 56 && s[0] == 'U' as int && s[1] == 'C' as int && s[2] == 'A' as int && s[3] == 'C' as int && U32At(s, 4) == 1
    && m.pageSize == U32At(s, 8) && (exists k: nat :: m.pageSize == Pow2(k)) && m.flags == U32At(s, 12)
    && m.fileSize == U64At(s, 16) && m.atime == U64At(s, 24) && m.originMtime == U64At(s, 32)
    && m.cksumKind == s[40] && m.originCksum == U32At(s, 44) && |m.key| == U32At(s, 48) <= 0x1_0000
    && var n := PagesIn(m.fileSize, m.pageSize);
    var bits := (56 + |m.key| + 7) / 8 * 8;
    var crcs := bits + (n + 7) / 8;
    && |s| == crcs + 4 * n
    && m.key == s[56..56 + |m.key|] && m.bits == s[bits..crcs]
    && |m.pageCrcs| == n && (forall k :: 0 <= k < n ==> m.pageCrcs[k] == U32At(s, crcs + 4 * k))
    && crc(s[..52] + [0, 0, 0, 0] + s[56..]) == U32At(s, 52)
  }

  lemma CrcIs(crc: Crc, s: seq<Byte>)
    requires |s| >= HEADER
    ensures CrcHolds(crc, s) <==> crc(s[..52] + [0, 0, 0, 0] + s[56..]) == U32At(s, 52)
  {
    Get32Is(s, 52);
    assert Put(s, 52, Zeros(4)) == s[..52] + [0, 0, 0, 0] + s[56..];
  }

  lemma HeaderIs(s: seq<Byte>)
    requires |s| >= HEADER
    ensures Get32(s, 4) == U32At(s, 4) && Get32(s, 8) == U32At(s, 8) && Get32(s, 12) == U32At(s, 12) && Get64(s, 16) == U64At(s, 16)
    ensures Get64(s, 24) == U64At(s, 24) && Get64(s, 32) == U64At(s, 32) && Get32(s, 44) == U32At(s, 44) && Get32(s, 48) == U32At(s, 48)
    ensures s[..4] == Magic() <==> s[0] == 'U' as int && s[1] == 'C' as int && s[2] == 'A' as int && s[3] == 'C' as int
  {
    hide Get32, Get64, U32At, U64At;
    Get32Is(s, 4);
    Get32Is(s, 8);
    Get32Is(s, 12);
    Get64Is(s, 16);
    Get64Is(s, 24);
    Get64Is(s, 32);
    Get32Is(s, 44);
    Get32Is(s, 48);
    assert s[..4] == [s[0], s[1], s[2], s[3]];
  }

  lemma CrcsAre(s: seq<Byte>, at: nat, n: nat, k: nat)
    requires at + n * 4 <= |s| && k < n
    ensures at + 4 * k + 4 <= |s| && Decode(U32s(), s, at, n)[k] == U32At(s, at + 4 * k)
  {
    hide Get32, U32At, Decode;
    DecodeAt(U32s(), s, at, n, k);
    Get32Is(s, at + 4 * k);
    Get32Of4(s, at + 4 * k);
  }

  lemma Get32Of4(s: seq<Byte>, at: nat)
    requires at + 4 <= |s|
    ensures U32s().dec(s[at..at + 4]) == Get32(s, at)
  {
    assert s[at..at + 4][0..4] == s[at..at + 4];
  }

  /** All but the CRC: the gates and the fields. */
  lemma FieldsSay(crc: Crc, s: seq<Byte>, m: MetaData)
    requires |s| >= HEADER && (CrcHolds(crc, s) <==> crc(s[..52] + [0, 0, 0, 0] + s[56..]) == U32At(s, 52))
    ensures Gates(s) && CrcHolds(crc, s) && m == Fields(s, PageCrcs(s)) <==> ImageSays(crc, s, m)
  {
    hide Get32, Get64, U32At, U64At, PowerOfTwo, PagesIn, Decode, CrcHolds, Magic;
    HeaderIs(s);
    PowerOfTwoIs(Get32(s, 8));
    var n := PagesIn(Get64(s, 16), Get32(s, 8));
    var at := CrcsOff(Get32(s, 48), n);
    if |s| == at + n * 4 {
      var table := Decode(U32s(), s, at, n);
      forall k | 0 <= k < n ensures table[k] == U32At(s, at + 4 * k) { CrcsAre(s, at, n, k); }
      if Gates(s) && CrcHolds(crc, s) && m == Fields(s, PageCrcs(s)) { assert ImageSays(crc, s, m); }
      if ImageSays(crc, s, m) {
        assert m.pageCrcs == table;
        var k: nat :| m.pageSize == Pow2(k);
        Pow2Is(k);
        assert |m.key| == Get32(s, 48) && PowerOfTwo(Get32(s, 8)) && |s| == Total(Get32(s, 48), n);
        assert Gates(s);
        var f := Fields(s, PageCrcs(s));
        assert m == f;
      }
    }
  }

  lemma DeserializeSays(crc: Crc, s: seq<Byte>, m: MetaData)
    ensures Deserialize(crc, s) == Some(m) <==> ImageSays(crc, s, m)
  {
    hide Fields, PageCrcs, CrcHolds, U32At, U64At;
    if |s| >= HEADER {
      CrcIs(crc, s);
      FieldsSay(crc, s, m);
    }
  }

  /** Load the whole sidecar. */
  function Load(crc: Crc, s: seq<Byte>): Option<MetaData> {
    if 0 < |s| <= MAX_IMAGE then Deserialize(crc, s) else None
  }

  /** Load all but the page CRCs, without reading the table or checking the image CRC. */
  function LoadSummary(s: seq<Byte>): Option<MetaData> {
    if |s| <= MAX_IMAGE && Gates(s) then Some(Fields(s, [])) else None
  }

  /** A load succeeds exactly when the summary does and the image CRC holds, and the two then
      agree on everything but the page CRCs. What is loaded is well formed. */
  lemma SummaryAgrees(crc: Crc, s: seq<Byte>)
    ensures Load(crc, s).Some? <==> LoadSummary(s).Some? && CrcHolds(crc, s)
    ensures Load(crc, s).Some? ==> LoadSummary(s).value == Load(crc, s).value.(pageCrcs := [])
    ensures Load(crc, s).Some? ==> WellFormed(Load(crc, s).value)
  {
    hide PowerOfTwo, PagesIn, Put, Get32, Get64;
  }

  /** deserialize: fields, geometry, image CRC over a copy with its field zeroed, then the
      sections one after another. */
  method ParseImage(crc: Crc, s: seq<Byte>) returns (r: Option<MetaData>)
    ensures r == Deserialize(crc, s)
    ensures forall m :: r == Some(m) <==> ImageSays(crc, s, m)
    ensures r.Some? ==> |s| >= 56 && crc(s[..52] + [0, 0, 0, 0] + s[56..]) == U32At(s, 52)
  {
    hide Get32, Get64, PowerOfTwo, PagesIn, Decode, Put, Magic, ImageSays, U32At;
    forall m ensures Deserialize(crc, s) == Some(m) <==> ImageSays(crc, s, m) { DeserializeSays(crc, s, m); }
    if |s| >= HEADER { CrcIs(crc, s); }
    if |s| < HEADER || s[..4] != Magic() { return None; }
    if Get32(s, 4) != FORMAT_VERSION { return None; }
    var pageSize, fileSize, keyLen, storedCrc := Get32(s, 8), Get64(s, 16), Get32(s, 48), Get32(s, CRC_FIELD);
    if !PowerOfTwo(pageSize) { return None; }
    var npages := PagesIn(fileSize, pageSize);
    var bitmapOff := Align8(HEADER + keyLen);
    var crcsOff := bitmapOff + RawSize(npages);
    if |s| != crcsOff + npages * 4 || keyLen > MAX_KEY { return None; }
    var copy := Put(s, CRC_FIELD, Zeros(4));
    if crc(copy) != storedCrc { return None; }
    var key, bits := s[HEADER..HEADER + keyLen], s[bitmapOff..crcsOff];
    var pageCrcs := GetTable(U32s(), s, crcsOff, npages);
    return Some(MetaData(pageSize, Get32(s, 12), fileSize, Get64(s, 24), Get64(s, 32), s[40], Get32(s, 44), key, bits, pageCrcs));
  }

  /** loadSummary: read the header alone, then only what lies between it and the CRC table,
      found there relative to where that part starts. It succeeds exactly when the whole load
      would but for the image CRC, and then agrees with it on all but the page CRCs. */
  method ReadSummary(file: seq<Byte>, ghost crc: Crc) returns (r: Option<MetaData>)
    ensures r == LoadSummary(file)
    ensures Load(crc, file).Some? <==> r.Some? && CrcHolds(crc, file)
    ensures Load(crc, file).Some? ==> r == Some(Load(crc, file).value.(pageCrcs := []))
  {
    hide Get32, Get64, PowerOfTwo, PagesIn, Magic, Load, CrcHolds;
    SummaryAgrees(crc, file);
    if |file| < HEADER || |file| > MAX_IMAGE { return None; }
    var hdr := file[..HEADER];
    HeadFields(file, hdr);
    if hdr[..4] != Magic() || Get32(hdr, 4) != FORMAT_VERSION { return None; }
    var pageSize, fileSize, keyLen := Get32(hdr, 8), Get64(hdr, 16), Get32(hdr, 48);
    if !PowerOfTwo(pageSize) || keyLen > MAX_KEY { return None; }
    var npages := PagesIn(fileSize, pageSize);
    var bitmapOff := Align8(HEADER + keyLen);
    var bitmapSize := RawSize(npages);
    var crcsOff := bitmapOff + bitmapSize;
    if |file| != crcsOff + npages * 4 { return None; }
    var buf := file[HEADER..crcsOff];
    var key, bits := buf[..keyLen], buf[bitmapOff - HEADER..bitmapOff - HEADER + bitmapSize];
    SliceOfSlice(file, HEADER, crcsOff - HEADER, 0, keyLen);
    SliceOfSlice(file, HEADER, crcsOff - HEADER, bitmapOff - HEADER, bitmapSize);
    return Some(MetaData(pageSize, Get32(hdr, 12), fileSize, Get64(hdr, 24), Get64(hdr, 32), hdr[40], Get32(hdr, 44), key, bits, []));
  }

  /** The header's fields read the same from the header alone. */
  lemma HeadFields(file: seq<Byte>, hdr: seq<Byte>)
    requires |file| >= HEADER && hdr == file[..HEADER]
    ensures hdr[..4] == file[..4] && hdr[40] == file[40]
    ensures Get32(hdr, 4) == Get32(file, 4) && Get32(hdr, 8) == Get32(file, 8) && Get32(hdr, 12) == Get32(file, 12)
    ensures Get64(hdr, 16) == Get64(file, 16) && Get64(hdr, 24) == Get64(file, 24) && Get64(hdr, 32) == Get64(file, 32)
    ensures Get32(hdr, 44) == Get32(file, 44) && Get32(hdr, 48) == Get32(file, 48)
  {
    hide Get32, Get64;
    assert hdr[..4] == file[..4];
    HeadGet32(file, 4);
    HeadGet32(file, 8);
    HeadGet32(file, 12);
    HeadGet64(file, 16);
    HeadGet64(file, 24);
    HeadGet64(file, 32);
    HeadGet32(file, 44);
    HeadGet32(file, 48);
  }

  lemma HeadGet32(file: seq<Byte>, at: nat)
    requires at + 4 <= HEADER <= |file|
    ensures Get32(file[..HEADER], at) == Get32(file, at)
  {
    assert file[..HEADER][at..at + 4] == file[at..at + 4];
  }

  lemma HeadGet64(file: seq<Byte>, at: nat)
    requires at + 8 <= HEADER <= |file|
    ensures Get64(file[..HEADER], at) == Get64(file, at)
  {
    assert file[..HEADER][at..at + 8] == file[at..at + 8];
  }

  // ---- writing ---------------------------------------------------------------------------------

  ghost predicate HeaderHolds(s: seq<Byte>, m: MetaData) {
    && Has(s, 0, Magic()) && Has(s, 4, Le(FORMAT_VERSION, 4))
    && Has(s, 8, Le(m.pageSize, 4)) && Has(s, 12, Le(m.flags, 4))
    && Has(s, 16, Le(m.fileSize, 8)) && Has(s, 24, Le(m.atime, 8)) && Has(s, 32, Le(m.originMtime, 8))
    && Has(s, 40, [m.cksumKind]) && Has(s, 44, Le(m.originCksum, 4)) && Has(s, 48, Le(|m.key|, 4))
  }

  /** Every field of `m` is in its place; the CRC field is left aside. */
  ghost predicate Holds(s: seq<Byte>, m: MetaData) {
    && HeaderHolds(s, m) && Has(s, HEADER, m.key)
    && Has(s, BitmapOff(|m.key|), m.bits)
    && Has(s, CrcsOff(|m.key|, |m.pageCrcs|), Encode(U32s(), m.pageCrcs))
  }

  /** What is read back of a stored sidecar: itself, with blank page CRCs if it is a summary
      that came without them. */
  function Kept(m: MetaData): MetaData {
    var n := PagesIn(m.fileSize, m.pageSize);
    if |m.pageCrcs| == n then m else m.(pageCrcs := seq(n, _ => 0))
  }

  /** Fill a zeroed buffer field by field, then store the CRC of it. Reading the image back
      gives the sidecar, exactly if its page size is a power of two and its key is not too
      long; otherwise the image is refused. */
  method Serialize(crc: Crc, m: MetaData) returns (s: seq<Byte>)
    requires |m.bits| == RawSize(PagesIn(m.fileSize, m.pageSize)) && |m.key| < 0x1_0000_0000
    ensures |s| == Total(|m.key|, PagesIn(m.fileSize, m.pageSize))
    ensures Deserialize(crc, s) == if PowerOfTwo(m.pageSize) && |m.key| <= MAX_KEY then Some(Kept(m)) else None
  {
    hide Has, Put, Le, PowerOfTwo, PagesIn, Encode, Decode, Deserialize, Zeros, HeaderHolds, Kept;
    var n := PagesIn(m.fileSize, m.pageSize);
    s := PutHeader(m, Total(|m.key|, n));
    s := PutSections(s, m);
    ghost var blank := s;
    KeptSame(m);
    PutUndone(s, CRC_FIELD, Le(crc(s), 4));
    s := Put(s, CRC_FIELD, Le(crc(s), 4));
    StillHolds(blank, s, Kept(m));
    HoldsReads(crc, s, Kept(m), crc(blank));
  }

  method PutHeader(m: MetaData, total: nat) returns (s: seq<Byte>)
    requires total >= HEADER
    ensures |s| == total && HeaderHolds(s, m) && Has(s, CRC_FIELD, Zeros(4)) && Has(s, HEADER, Zeros(total - HEADER))
  {
    hide Has, Put, Le, Zeros;
    s := Zeros(total);
    ZeroField(total, CRC_FIELD, 4);
    ZeroField(total, HEADER, total - HEADER);
    s := Put(s, 0, Magic());
    s := Put(s, 4, Le(FORMAT_VERSION, 4));
    s := Put(s, 8, Le(m.pageSize, 4));
    s := Put(s, 12, Le(m.flags, 4));
    s := Put(s, 16, Le(m.fileSize, 8));
    s := Put(s, 24, Le(m.atime, 8));
    s := Put(s, 32, Le(m.originMtime, 8));
    s := Put(s, 40, [m.cksumKind]);
    s := Put(s, 44, Le(m.originCksum, 4));
    s := Put(s, 48, Le(|m.key|, 4));
  }

  method PutSections(s0: seq<Byte>, m: MetaData) returns (s: seq<Byte>)
    requires |s0| == Total(|m.key|, PagesIn(m.fileSize, m.pageSize)) && |m.bits| == RawSize(PagesIn(m.fileSize, m.pageSize))
    requires HeaderHolds(s0, m) && Has(s0, CRC_FIELD, Zeros(4)) && Has(s0, HEADER, Zeros(|s0| - HEADER))
    ensures |s| == |s0| && Holds(s, Kept(m)) && Has(s, CRC_FIELD, Zeros(4))
  {
    hide Has, Put, Le, PagesIn, Encode, Zeros, HeaderHolds, Kept;
    var n := PagesIn(m.fileSize, m.pageSize);
    U32sSound();
    EncodeSize(U32s(), m.pageCrcs);
    ghost var head := s0[..HEADER];
    assert Has(s0, 0, head) by { HeadInPlace(s0, HEADER); }
    ZeroSplit(s0, HEADER, |s0| - HEADER, CrcsOff(|m.key|, n), n * 4);
    s := Put(s0, HEADER, m.key);
    s := Put(s, BitmapOff(|m.key|), m.bits);
    KeptSame(m);
    if n > 0 && |m.pageCrcs| == n {
      s := PutTable(U32s(), s, CrcsOff(|m.key|, n), m.pageCrcs);
      FullCrcs(m);
    } else {
      assert Has(s, CrcsOff(|m.key|, n), Encode(U32s(), Kept(m).pageCrcs)) by { ZeroTable(n); BlankCrcs(m); }
    }
    SameHead(s0, s, m);
  }

  /** Nothing stored past the header changes it. */
  lemma SameHead(s0: seq<Byte>, s: seq<Byte>, m: MetaData)
    requires |s0| >= HEADER && Has(s, 0, s0[..HEADER]) && HeaderHolds(s0, m) && Has(s0, CRC_FIELD, Zeros(4))
    ensures HeaderHolds(s, Kept(m)) && Has(s, CRC_FIELD, Zeros(4))
  {
    hide Le, Zeros, PagesIn, Has;
    HeadKept(s0, s, HEADER);
  }

  /** Storing the CRC disturbs no other field. */
  lemma StillHolds(s0: seq<Byte>, s: seq<Byte>, m: MetaData)
    requires Holds(s0, m) && |s0| >= HEADER && exists x: seq<Byte> :: |x| == 4 && s == Put(s0, CRC_FIELD, x)
    ensures Holds(s, m)
  {
    hide Has, Put, Le, Encode;
    var x: seq<Byte> :| |x| == 4 && s == Put(s0, CRC_FIELD, x);
  }

  lemma KeptSame(m: MetaData)
    ensures Kept(m) == m.(pageCrcs := Kept(m).pageCrcs) && |Kept(m).pageCrcs| == PagesIn(m.fileSize, m.pageSize)
  {
    hide PagesIn;
  }

  lemma FullCrcs(m: MetaData)
    requires |m.pageCrcs| == PagesIn(m.fileSize, m.pageSize)
    ensures Kept(m).pageCrcs == m.pageCrcs
  {
    hide PagesIn;
  }

  lemma BlankCrcs(m: MetaData)
    requires PagesIn(m.fileSize, m.pageSize) == 0 || |m.pageCrcs| != PagesIn(m.fileSize, m.pageSize)
    ensures Kept(m).pageCrcs == seq(PagesIn(m.fileSize, m.pageSize), _ => 0)
  {
    hide PagesIn;
    var n := PagesIn(m.fileSize, m.pageSize);
    if |m.pageCrcs| == n { assert m.pageCrcs == [] == seq(n, _ => 0); }
  }

  /** A table never written is a table of zeros. */
  lemma {:induction false} ZeroTable(n: nat)
    ensures Encode(U32s(), seq(n, _ => 0)) == Zeros(n * 4)
  {
    if n > 0 {
      ZeroTable(n - 1);
      var rows: seq<U32> := seq(n, _ => 0);
      assert rows[..n - 1] == seq(n - 1, _ => 0);
      assert U32s().enc(0) == Le(0, 4) == [0, 0, 0, 0];
    }
  }

  lemma HeaderReads(s: seq<Byte>, m: MetaData)
    requires Holds(s, m) && |m.key| < 0x1_0000_0000
    ensures |s| >= HEADER && s[..4] == Magic() && Get32(s, 4) == FORMAT_VERSION
    ensures Get32(s, 8) == m.pageSize && Get32(s, 12) == m.flags
    ensures Get64(s, 16) == m.fileSize && Get64(s, 24) == m.atime && Get64(s, 32) == m.originMtime
    ensures s[40] == m.cksumKind && Get32(s, 44) == m.originCksum && Get32(s, 48) == |m.key|
  {
    hide Le, Get32, Get64, Encode, Magic;
    assert |Magic()| == 4 by { MagicSize(); }
    Get32Of(s, 4, FORMAT_VERSION);
    Get32Of(s, 8, m.pageSize);
    Get32Of(s, 12, m.flags);
    Get64Of(s, 16, m.fileSize);
    Get64Of(s, 24, m.atime);
    Get64Of(s, 32, m.originMtime);
    Get32Of(s, 44, m.originCksum);
    Get32Of(s, 48, |m.key|);
    assert s[40] == s[40..41][0];
  }

  lemma MagicSize()
    ensures |Magic()| == 4
  {}

  /** An image that holds the fields and its CRC reads back as them. */
  lemma HoldsReads(crc: Crc, s: seq<Byte>, m: MetaData, c: U32)
    requires |m.bits| == RawSize(|m.pageCrcs|) && |m.pageCrcs| == PagesIn(m.fileSize, m.pageSize) && |m.key| < 0x1_0000_0000
    requires Holds(s, m) && |s| == Total(|m.key|, |m.pageCrcs|)
    requires Has(s, CRC_FIELD, Le(c, 4)) && crc(Put(s, CRC_FIELD, Zeros(4))) == c
    ensures Deserialize(crc, s) == if PowerOfTwo(m.pageSize) && |m.key| <= MAX_KEY then Some(m) else None
  {
    hide Le, Get32, Get64, Encode, Decode, Magic, Put, PowerOfTwo, PagesIn;
    HeaderReads(s, m);
    Get32Of(s, CRC_FIELD, c);
    U32sSound();
    TableRoundTrip(U32s(), m.pageCrcs, s, CrcsOff(|m.key|, |m.pageCrcs|));
  }
}
