/** The `.tmeta` sidecar image of a replica: extents of the stitched file, superseded ranges,
    the map to original ranges, and overlay page CRCs. */
module ReplicaFiles {
  import opened Bytes
  import opened Tables

  const HEADER_V1: nat := 72
  const HEADER: nat := 80
  const CRC_FIELD: nat := 68
  const ORIG_COUNT: nat := 72
  const MAX_KEY: nat := 0x1_0000
  const MAX_EXTENTS: nat := 0x10_0000
  const MAX_SUPERSEDED: nat := 0x100_0000
  const MAX_ORIG: nat := 0x40_0000
  const VERSION_1: U32 := 1
  const VERSION_2: U32 := 2
  const OVERLAY_PAGE: nat := 0x1_0000

  function Magic(): seq<Byte> { [85, 67, 84, 82] } // "UCTR"

  datatype Extent = Extent(virtOff: U64, len: U64, tdataOff: U64)
  datatype Range = Range(off: U64, len: U64)
  datatype OrigRange = OrigRange(virtOff: U64, len: U64, origOff: U64, origLen: U64)

  datatype ReplicaMeta = ReplicaMeta(flags: U32, encoding: Byte, cksumKind: Byte, originSize: U64, originMtime: U64,
                                     originCksum: U32, encoderVersion: U32, virtualSize: U64, tdataBytes: U64,
                                     key: seq<Byte>, extents: seq<Extent>, superseded: seq<Range>,
                                     origMap: seq<OrigRange>, pageCrcs: seq<U32>)

  // ---- rows ---------------------------------------------------------------------------------------

  function EncodeExtent(e: Extent): seq<Byte> { Le(e.virtOff, 8) + Le(e.len, 8) + Le(e.tdataOff, 8) }
  function DecodeExtent(s: seq<Byte>): Extent {
    if |s| == 24 then Extent(Get64(s, 0), Get64(s, 8), Get64(s, 16)) else Extent(0, 0, 0)
  }
  function Extents(): Format<Extent> { Format(24, EncodeExtent, DecodeExtent) }

  function EncodeRange(r: Range): seq<Byte> { Le(r.off, 8) + Le(r.len, 8) }
  function DecodeRange(s: seq<Byte>): Range {
    if |s| == 16 then Range(Get64(s, 0), Get64(s, 8)) else Range(0, 0)
  }
  function Ranges(): Format<Range> { Format(16, EncodeRange, DecodeRange) }

  function EncodeOrig(o: OrigRange): seq<Byte> {
    Le(o.virtOff, 8) + Le(o.len, 8) + Le(o.origOff, 8) + Le(o.origLen, 8)
  }
  function DecodeOrig(s: seq<Byte>): OrigRange {
    if |s| == 32 then OrigRange(Get64(s, 0), Get64(s, 8), Get64(s, 16), Get64(s, 24)) else OrigRange(0, 0, 0, 0)
  }
  function Origs(): Format<OrigRange> { Format(32, EncodeOrig, DecodeOrig) }

  lemma ExtentsSound()
    ensures Extents().Sound() && Extents().width == 24
  {
    hide Le, Get64;
    forall e: Extent ensures |EncodeExtent(e)| == 24 && DecodeExtent(EncodeExtent(e)) == e {
      var s := EncodeExtent(e);
      assert Has(s, 0, Le(e.virtOff, 8)) && Has(s, 8, Le(e.len, 8)) && Has(s, 16, Le(e.tdataOff, 8));
      Get64Of(s, 0, e.virtOff);
      Get64Of(s, 8, e.len);
      Get64Of(s, 16, e.tdataOff);
    }
    assert forall e: Extent {:trigger Extents().enc(e)} ::
        Extents().enc(e) == EncodeExtent(e) && Extents().dec(EncodeExtent(e)) == DecodeExtent(EncodeExtent(e));
  }

  lemma RangesSound()
    ensures Ranges().Sound() && Ranges().width == 16
  {
    hide Le, Get64;
    forall r: Range ensures |EncodeRange(r)| == 16 && DecodeRange(EncodeRange(r)) == r {
      var s := EncodeRange(r);
      assert Has(s, 0, Le(r.off, 8)) && Has(s, 8, Le(r.len, 8));
      Get64Of(s, 0, r.off);
      Get64Of(s, 8, r.len);
    }
    assert forall r: Range {:trigger Ranges().enc(r)} ::
        Ranges().enc(r) == EncodeRange(r) && Ranges().dec(EncodeRange(r)) == DecodeRange(EncodeRange(r));
  }

  lemma OrigsSound()
    ensures Origs().Sound() && Origs().width == 32
  {
    hide Le, Get64;
    forall o: OrigRange ensures |EncodeOrig(o)| == 32 && DecodeOrig(EncodeOrig(o)) == o {
      var s := EncodeOrig(o);
      assert Has(s, 0, Le(o.virtOff, 8)) && Has(s, 8, Le(o.len, 8)) && Has(s, 16, Le(o.origOff, 8)) && Has(s, 24, Le(o.origLen, 8));
      Get64Of(s, 0, o.virtOff);
      Get64Of(s, 8, o.len);
      Get64Of(s, 16, o.origOff);
      Get64Of(s, 24, o.origLen);
    }
    assert forall o: OrigRange {:trigger Origs().enc(o)} ::
        Origs().enc(o) == EncodeOrig(o) && Origs().dec(EncodeOrig(o)) == DecodeOrig(EncodeOrig(o));
  }

  // ---- structure ----------------------------------------------------------------------------------

  /** Overlay pages, in the source's uint64 arithmetic. */
  function OverlayPages(tdataBytes: U64): nat { (tdataBytes + OVERLAY_PAGE - 1) % 0x1_0000_0000_0000_0000 / OVERLAY_PAGE }

  /** An extent that is not empty and lies inside the stitched file and inside the overlay. */
  predicate ExtentFits(e: Extent, virtualSize: U64, tdataBytes: U64) {
    e.len > 0 && e.virtOff + e.len <= virtualSize && e.tdataOff + e.len <= tdataBytes
  }

  /** Extents in bounds, sorted and disjoint. */
  ghost predicate ExtentsOrdered(es: seq<Extent>, virtualSize: U64, tdataBytes: U64) {
    && (forall k :: 0 <= k < |es| ==> ExtentFits(es[k], virtualSize, tdataBytes))
    && (forall j, k :: 0 <= j < k < |es| ==> es[j].virtOff + es[j].len <= es[k].virtOff)
  }

  ghost predicate Consistent(m: ReplicaMeta) {
    && m.originSize <= m.virtualSize
    && ExtentsOrdered(m.extents, m.virtualSize, m.tdataBytes)
    && (forall k :: 0 <= k < |m.superseded| ==>
          0 < m.superseded[k].len && m.superseded[k].off + m.superseded[k].len <= m.originSize)
  }

  /** The wrapping comparisons say what exact ones do. */
  lemma NoWrap(e: Extent, virtualSize: U64, tdataBytes: U64)
    ensures Add64(e.virtOff, e.len) < e.virtOff || Add64(e.virtOff, e.len) > virtualSize <==> e.virtOff + e.len > virtualSize
    ensures Add64(e.tdataOff, e.len) < e.tdataOff || Add64(e.tdataOff, e.len) > tdataBytes <==> e.tdataOff + e.len > tdataBytes
    ensures e.virtOff + e.len <= virtualSize ==> Add64(e.virtOff, e.len) == e.virtOff + e.len
    ensures ExtentFits(e, virtualSize, tdataBytes)
            <==> e.len != 0 && e.virtOff + e.len <= virtualSize && e.tdataOff + e.len <= tdataBytes
  {}

  /** One pass with the end of the extent before, in wrapping arithmetic, decides consistency
      of them all. */
  method CheckExtents(es: seq<Extent>, virtualSize: U64, tdataBytes: U64) returns (ok: bool)
    ensures ok <==> ExtentsOrdered(es, virtualSize, tdataBytes)
  {
    hide Add64, ExtentFits;
    var prevEnd: U64 := 0;
    for k := 0 to |es|
      invariant ExtentsOrdered(es[..k], virtualSize, tdataBytes)
      invariant prevEnd == if k > 0 then es[k - 1].virtOff + es[k - 1].len else 0
      invariant forall j :: 0 <= j < k ==> es[j].virtOff + es[j].len <= prevEnd
    {
      var e := es[k];
      NoWrap(e, virtualSize, tdataBytes);
      if e.len == 0 || e.virtOff < prevEnd { return false; }
      if Add64(e.virtOff, e.len) < e.virtOff || Add64(e.virtOff, e.len) > virtualSize { return false; }
      if Add64(e.tdataOff, e.len) < e.tdataOff || Add64(e.tdataOff, e.len) > tdataBytes { return false; }
      assert es[..k + 1] == es[..k] + [e];
      prevEnd := Add64(e.virtOff, e.len);
    }
    assert es[..|es|] == es;
    return true;
  }

  method CheckSuperseded(rs: seq<Range>, originSize: U64) returns (ok: bool)
    ensures ok <==> forall k :: 0 <= k < |rs| ==> 0 < rs[k].len && rs[k].off + rs[k].len <= originSize
  {
    for i := 0 to |rs|
      invariant forall k :: 0 <= k < i ==> 0 < rs[k].len && rs[k].off + rs[k].len <= originSize
    {
      var r := rs[i];
      if r.len == 0 || Add64(r.off, r.len) < r.off || Add64(r.off, r.len) > originSize { return false; }
    }
    return true;
  }

  // ---- layout -------------------------------------------------------------------------------------

  /** Where the sections lie. */
  datatype Layout = Layout(keyOff: nat, keyLen: nat, nExt: nat, nSup: nat, nOrig: nat, npages: nat) {
    function ExtOff(): nat { Align8(keyOff + keyLen) }
    function SupOff(): nat { ExtOff() + nExt * 24 }
    function OrigOff(): nat { SupOff() + nSup * 16 }
    function CrcsOff(): nat { OrigOff() + nOrig * 32 }
    function Total(): nat { CrcsOff() + npages * 4 }
  }

  function LayoutOf(m: ReplicaMeta): Layout {
    Layout(HEADER, |m.key|, |m.extents|, |m.superseded|, |m.origMap|, OverlayPages(m.tdataBytes))
  }

  // ---- reading -------------------------------------------------------------------------------------

  predicate Versioned(s: seq<Byte>) {
    && |s| >= HEADER_V1 && s[..4] == Magic()
    && (Get32(s, 4) == VERSION_2 || Get32(s, 4) == VERSION_1)
    && (Get32(s, 4) == VERSION_2 ==> |s| >= HEADER)
  }

  function ReadLayout(s: seq<Byte>): Layout
    requires Versioned(s)
  {
    var v2 := Get32(s, 4) == VERSION_2;
    Layout(if v2 then HEADER else HEADER_V1, Get32(s, 56), Get32(s, 60), Get32(s, 64),
           if v2 then Get32(s, ORIG_COUNT) else 0, OverlayPages(Get64(s, 48)))
  }

  predicate Bounded(l: Layout) {
    l.keyLen <= MAX_KEY && l.nExt <= MAX_EXTENTS && l.nSup <= MAX_SUPERSEDED && l.nOrig <= MAX_ORIG
  }

  predicate CrcHolds(crc: Crc, s: seq<Byte>)
    requires |s| >= HEADER_V1
  {
    crc(Put(s, CRC_FIELD, Zeros(4))) == Get32(s, CRC_FIELD)
  }

  predicate Gates(crc: Crc, s: seq<Byte>) {
    && Versioned(s) && Bounded(ReadLayout(s)) && |s| == ReadLayout(s).Total() && CrcHolds(crc, s)
  }

  function Fields(s: seq<Byte>): ReplicaMeta
    requires Versioned(s) && |s| == ReadLayout(s).Total()
  {
    var l := ReadLayout(s);
    ReplicaMeta(Get32(s, 8), s[12], s[13], Get64(s, 16), Get64(s, 24), Get32(s, 32), Get32(s, 36), Get64(s, 40), Get64(s, 48),
                s[l.keyOff..l.keyOff + l.keyLen], Decode(Extents(), s, l.ExtOff(), l.nExt), Decode(Ranges(), s, l.SupOff(), l.nSup),
                Decode(Origs(), s, l.OrigOff(), l.nOrig), Decode(U32s(), s, l.CrcsOff(), l.npages))
  }

  /** What an image stands for; anything inconsistent is as good as absent. */
  ghost function Deserialize(crc: Crc, s: seq<Byte>): Option<ReplicaMeta> {
    if Gates(crc, s) && Consistent(Fields(s)) then Some(Fields(s)) else None
  }

  // ---- the format, as its table gives it ------------------------------------------------------------

  /** The header of image `s` says `m`; `v2` is whether it is of version 2. */
  ghost predicate HeaderSays(s: seq<Byte>, m: ReplicaMeta, v2: bool) {
    && |s| >= (if v2 then 80 else 72)
    && s[0] == 'U' as int && s[1] == 'C' as int && s[2] == 'T' as int && s[3] == 'R' as int
    && U32At(s, 4) == (if v2 then 2 else 1) && m.flags == U32At(s, 8) && m.encoding == s[12] && m.cksumKind == s[13]
    && m.originSize == U64At(s, 16) && m.originMtime == U64At(s, 24) && m.originCksum == U32At(s, 32) && m.encoderVersion == U32At(s, 36)
    && m.virtualSize == U64At(s, 40) && m.tdataBytes == U64At(s, 48)
    && |m.key| == U32At(s, 56) <= 0x1_0000 && |m.extents| == U32At(s, 60) <= 0x10_0000 && |m.superseded| == U32At(s, 64) <= 0x100_0000
    && |m.origMap| == (if v2 then U32At(s, 72) else 0) <= 0x40_0000
  }

  /** The image `s` says `m`: header, then key, extents, superseded ranges, map and CRCs one after
      another, nothing more, and the CRC that of the image with its own field zeroed. */
  ghost predicate ImageSays(crc: Crc, s: seq<Byte>, m: ReplicaMeta) {
    exists v2 :: HeaderSays(s, m, v2) && SectionsSay(s, m, if v2 then 80 else 72)
                 && crc(s[..68] + [0, 0, 0, 0] + s[72..]) == U32At(s, 68)
  }

  ghost predicate SectionsSay(s: seq<Byte>, m: ReplicaMeta, keyOff: nat) {
    var ext := (keyOff + |m.key| + 7) / 8 * 8;
    var sup := ext + 24 * |m.extents|;
    var orig := sup + 16 * |m.superseded|;
    var crcs := orig + 32 * |m.origMap|;
    && |m.pageCrcs| == OverlayPages(m.tdataBytes) && |s| == crcs + 4 * |m.pageCrcs|
    && keyOff + |m.key| <= ext && m.key == s[keyOff..keyOff + |m.key|]
    && (forall k :: 0 <= k < |m.extents| ==> m.extents[k] == Extent(U64At(s, ext + 24 * k), U64At(s, ext + 24 * k + 8), U64At(s, ext + 24 * k + 16)))
    && (forall k :: 0 <= k < |m.superseded| ==> m.superseded[k] == Range(U64At(s, sup + 16 * k), U64At(s, sup + 16 * k + 8)))
    && (forall k :: 0 <= k < |m.origMap| ==>
          m.origMap[k] == OrigRange(U64At(s, orig + 32 * k), U64At(s, orig + 32 * k + 8), U64At(s, orig + 32 * k + 16), U64At(s, orig + 32 * k + 24)))
    && (forall k :: 0 <= k < |m.pageCrcs| ==> m.pageCrcs[k] == U32At(s, crcs + 4 * k))
  }

  /** As many overlay pages as it takes, unless the sum wraps. */
  lemma OverlayCover(tdataBytes: U64)
    requires tdataBytes + 0x1_0000 <= 0x1_0000_0000_0000_0000
    ensures var n := OverlayPages(tdataBytes);
            tdataBytes <= n * 0x1_0000 && (n > 0 ==> (n - 1) * 0x1_0000 < tdataBytes)
  {}

  lemma Get64Slice(s: seq<Byte>, at: nat, n: nat, o: nat)
    requires at + n <= |s| && o + 8 <= n
    ensures Get64(s[at..at + n], o) == U64At(s, at + o)
  {
    hide U64At, Un;
    Get64Is(s, at + o);
    SliceOfSlice(s, at, n, o, 8);
  }

  lemma ExtentsAre(s: seq<Byte>, at: nat, n: nat)
    requires at + n * 24 <= |s|
    ensures forall k :: 0 <= k < n ==>
              && at + 24 * k + 24 <= |s|
              && Decode(Extents(), s, at, n)[k] == Extent(U64At(s, at + 24 * k), U64At(s, at + 24 * k + 8), U64At(s, at + 24 * k + 16))
  {
    hide Get64, U64At, Decode;
    forall k | 0 <= k < n ensures at + 24 * k + 24 <= |s|
      && Decode(Extents(), s, at, n)[k] == Extent(U64At(s, at + 24 * k), U64At(s, at + 24 * k + 8), U64At(s, at + 24 * k + 16))
    {
      DecodeAt(Extents(), s, at, n, k);
      Get64Slice(s, at + 24 * k, 24, 0);
      Get64Slice(s, at + 24 * k, 24, 8);
      Get64Slice(s, at + 24 * k, 24, 16);
    }
  }

  lemma RangesAre(s: seq<Byte>, at: nat, n: nat)
    requires at + n * 16 <= |s|
    ensures forall k :: 0 <= k < n ==>
              && at + 16 * k + 16 <= |s|
              && Decode(Ranges(), s, at, n)[k] == Range(U64At(s, at + 16 * k), U64At(s, at + 16 * k + 8))
  {
    hide Get64, U64At, Decode;
    forall k | 0 <= k < n ensures at + 16 * k + 16 <= |s|
      && Decode(Ranges(), s, at, n)[k] == Range(U64At(s, at + 16 * k), U64At(s, at + 16 * k + 8))
    {
      DecodeAt(Ranges(), s, at, n, k);
      Get64Slice(s, at + 16 * k, 16, 0);
      Get64Slice(s, at + 16 * k, 16, 8);
    }
  }

  lemma OrigsAre(s: seq<Byte>, at: nat, n: nat)
    requires at + n * 32 <= |s|
    ensures forall k :: 0 <= k < n ==>
              && at + 32 * k + 32 <= |s|
              && Decode(Origs(), s, at, n)[k]
                 == OrigRange(U64At(s, at + 32 * k), U64At(s, at + 32 * k + 8), U64At(s, at + 32 * k + 16), U64At(s, at + 32 * k + 24))
  {
    hide Get64, U64At, Decode;
    forall k | 0 <= k < n ensures at + 32 * k + 32 <= |s|
      && Decode(Origs(), s, at, n)[k]
         == OrigRange(U64At(s, at + 32 * k), U64At(s, at + 32 * k + 8), U64At(s, at + 32 * k + 16), U64At(s, at + 32 * k + 24))
    {
      DecodeAt(Origs(), s, at, n, k);
      Get64Slice(s, at + 32 * k, 32, 0);
      Get64Slice(s, at + 32 * k, 32, 8);
      Get64Slice(s, at + 32 * k, 32, 16);
      Get64Slice(s, at + 32 * k, 32, 24);
    }
  }

  lemma CrcsAre(s: seq<Byte>, at: nat, n: nat)
    requires at + n * 4 <= |s|
    ensures forall k :: 0 <= k < n ==> at + 4 * k + 4 <= |s| && Decode(U32s(), s, at, n)[k] == U32At(s, at + 4 * k)
  {
    hide Get32, U32At, Decode;
    forall k | 0 <= k < n ensures at + 4 * k + 4 <= |s| && Decode(U32s(), s, at, n)[k] == U32At(s, at + 4 * k) {
      DecodeAt(U32s(), s, at, n, k);
      Get32Is(s, at + 4 * k);
      Get32Slice(s, at + 4 * k);
    }
  }

  lemma Get32Slice(s: seq<Byte>, at: nat)
    requires at + 4 <= |s|
    ensures U32s().dec(s[at..at + 4]) == Get32(s, at)
  {
    assert s[at..at + 4][0..4] == s[at..at + 4];
  }

  lemma HeaderIs(s: seq<Byte>)
    requires |s| >= HEADER_V1
    ensures Get32(s, 4) == U32At(s, 4) && Get32(s, 8) == U32At(s, 8) && Get64(s, 16) == U64At(s, 16) && Get64(s, 24) == U64At(s, 24)
    ensures Get32(s, 32) == U32At(s, 32) && Get32(s, 36) == U32At(s, 36) && Get64(s, 40) == U64At(s, 40) && Get64(s, 48) == U64At(s, 48)
    ensures Get32(s, 56) == U32At(s, 56) && Get32(s, 60) == U32At(s, 60) && Get32(s, 64) == U32At(s, 64)
    ensures |s| >= HEADER ==> Get32(s, 72) == U32At(s, 72)
    ensures s[..4] == Magic() <==> s[0] == 'U' as int && s[1] == 'C' as int && s[2] == 'T' as int && s[3] == 'R' as int
  {
    hide Get32, Get64, U32At, U64At;
    Get32Is(s, 4);
    Get32Is(s, 8);
    Get64Is(s, 16);
    Get64Is(s, 24);
    Get32Is(s, 32);
    Get32Is(s, 36);
    Get64Is(s, 40);
    Get64Is(s, 48);
    Get32Is(s, 56);
    Get32Is(s, 60);
    Get32Is(s, 64);
    if |s| >= HEADER { Get32Is(s, 72); }
    assert s[..4] == [s[0], s[1], s[2], s[3]];
  }

  lemma CrcIs(crc: Crc, s: seq<Byte>)
    requires |s| >= HEADER_V1
    ensures CrcHolds(crc, s) <==> crc(s[..68] + [0, 0, 0, 0] + s[72..]) == U32At(s, 68)
  {
    hide U32At;
    Get32Is(s, 68);
    assert Put(s, 68, Zeros(4)) == s[..68] + [0, 0, 0, 0] + s[72..];
  }

  /** The sections read are the sections the table gives. */
  lemma SectionsAre(s: seq<Byte>, m: ReplicaMeta)
    requires Versioned(s) && |s| == ReadLayout(s).Total()
    requires var l := ReadLayout(s);
             |m.key| == l.keyLen && |m.extents| == l.nExt && |m.superseded| == l.nSup && |m.origMap| == l.nOrig && m.tdataBytes == Get64(s, 48)
    ensures var f := Fields(s);
            SectionsSay(s, m, ReadLayout(s).keyOff)
            <==> m.key == f.key && m.extents == f.extents && m.superseded == f.superseded && m.origMap == f.origMap && m.pageCrcs == f.pageCrcs
  {
    hide Get32, Get64, U32At, U64At, Decode, OverlayPages, Versioned;
    var l := ReadLayout(s);
    ExtentsAre(s, l.ExtOff(), l.nExt);
    RangesAre(s, l.SupOff(), l.nSup);
    OrigsAre(s, l.OrigOff(), l.nOrig);
    CrcsAre(s, l.CrcsOff(), l.npages);
    if SectionsSay(s, m, l.keyOff) {
      assert m.extents == Decode(Extents(), s, l.ExtOff(), l.nExt);
      assert m.superseded == Decode(Ranges(), s, l.SupOff(), l.nSup);
      assert m.origMap == Decode(Origs(), s, l.OrigOff(), l.nOrig);
      assert m.pageCrcs == Decode(U32s(), s, l.CrcsOff(), l.npages);
    }
  }

  /** Accepted images are exactly those that say something consistent, and read as what they say. */
  lemma DeserializeSays(crc: Crc, s: seq<Byte>, m: ReplicaMeta)
    ensures Deserialize(crc, s) == Some(m) <==> ImageSays(crc, s, m) && Consistent(m)
  {
    hide Get32, Get64, U32At, U64At, Decode, OverlayPages, Consistent, CrcHolds, SectionsSay, Magic;
    if |s| >= HEADER_V1 {
      HeaderIs(s);
      CrcIs(crc, s);
      if Deserialize(crc, s) == Some(m) {
        SectionsAre(s, m);
        assert HeaderSays(s, m, Get32(s, 4) == VERSION_2);
      }
      if ImageSays(crc, s, m) {
        var v2 :| HeaderSays(s, m, v2) && SectionsSay(s, m, if v2 then 80 else 72);
        SaidSize(s, m, v2);
        SectionsAre(s, m);
      }
    }
  }

  lemma SaidSize(s: seq<Byte>, m: ReplicaMeta, v2: bool)
    requires HeaderSays(s, m, v2) && SectionsSay(s, m, if v2 then 80 else 72)
    ensures Versioned(s) && |s| == ReadLayout(s).Total() && Bounded(ReadLayout(s)) && ReadLayout(s).keyOff == if v2 then 80 else 72
  {
    hide Get32, Get64, U32At, U64At, OverlayPages, Magic;
    HeaderIs(s);
  }

  ghost predicate InOrder(m: ReplicaMeta) {
    && (forall k :: 0 <= k < |m.extents| ==>
          && 0 < m.extents[k].len && m.extents[k].virtOff + m.extents[k].len <= m.virtualSize
          && m.extents[k].tdataOff + m.extents[k].len <= m.tdataBytes)
    && (forall j, k :: 0 <= j < k < |m.extents| ==> m.extents[j].virtOff + m.extents[j].len <= m.extents[k].virtOff)
  }

  lemma ConsistentIs(m: ReplicaMeta)
    requires Consistent(m)
    ensures InOrder(m)
  {
    forall k | 0 <= k < |m.extents| ensures ExtentFits(m.extents[k], m.virtualSize, m.tdataBytes) {}
  }

  /** Read the sections one after another, then check their structure. */
  method Parse(crc: Crc, s: seq<Byte>) returns (r: Option<ReplicaMeta>)
    ensures r == Deserialize(crc, s)
    ensures forall m :: r == Some(m) <==> ImageSays(crc, s, m) && Consistent(m)
    ensures r.Some? ==> |s| >= 72 && crc(s[..68] + [0, 0, 0, 0] + s[72..]) == U32At(s, 68)
    ensures r.Some? ==> Consistent(r.value) && |r.value.pageCrcs| == OverlayPages(r.value.tdataBytes)
    ensures r.Some? ==>
              var m := r.value;
              && m.originSize <= m.virtualSize
              && (forall k :: 0 <= k < |m.extents| ==>
                    && 0 < m.extents[k].len && m.extents[k].virtOff + m.extents[k].len <= m.virtualSize
                    && m.extents[k].tdataOff + m.extents[k].len <= m.tdataBytes)
              && (forall j, k :: 0 <= j < k < |m.extents| ==> m.extents[j].virtOff + m.extents[j].len <= m.extents[k].virtOff)
              && (forall k :: 0 <= k < |m.superseded| ==> 0 < m.superseded[k].len && m.superseded[k].off + m.superseded[k].len <= m.originSize)
  {
    hide Decode, Put, CrcHolds, OverlayPages, ExtentsOrdered, Get32, Get64, ImageSays, U32At;
    forall m ensures Deserialize(crc, s) == Some(m) <==> ImageSays(crc, s, m) && Consistent(m) { DeserializeSays(crc, s, m); }
    if |s| >= HEADER_V1 { CrcIs(crc, s); }
    forall m: ReplicaMeta | Consistent(m) ensures InOrder(m) { ConsistentIs(m); }
    if !Gates(crc, s) { return None; }
    var l := ReadLayout(s);
    var extents := GetTable(Extents(), s, l.ExtOff(), l.nExt);
    var superseded := GetTable(Ranges(), s, l.SupOff(), l.nSup);
    var origMap := GetTable(Origs(), s, l.OrigOff(), l.nOrig);
    var pageCrcs := GetTable(U32s(), s, l.CrcsOff(), l.npages);
    var m := ReplicaMeta(Get32(s, 8), s[12], s[13], Get64(s, 16), Get64(s, 24), Get32(s, 32), Get32(s, 36), Get64(s, 40), Get64(s, 48),
                         s[l.keyOff..l.keyOff + l.keyLen], extents, superseded, origMap, pageCrcs);
    if m.virtualSize < m.originSize { return None; }
    var ok := CheckExtents(m.extents, m.virtualSize, m.tdataBytes);
    if !ok { return None; }
    ok := CheckSuperseded(m.superseded, m.originSize);
    if !ok { return None; }
    return Some(m);
  }

  // ---- writing -------------------------------------------------------------------------------------

  /** Page CRCs as stored: one per overlay page, missing ones blank, extra ones dropped. */
  function Kept(m: ReplicaMeta): (r: ReplicaMeta)
    ensures |r.pageCrcs| == OverlayPages(m.tdataBytes)
  {
    var n := OverlayPages(m.tdataBytes);
    m.(pageCrcs := seq(n, i requires 0 <= i < n => if i < |m.pageCrcs| then m.pageCrcs[i] else 0))
  }

  ghost predicate HeaderHolds(s: seq<Byte>, m: ReplicaMeta) {
    && Has(s, 0, Magic()) && Has(s, 4, Le(VERSION_2, 4)) && Has(s, 8, Le(m.flags, 4))
    && Has(s, 12, [m.encoding]) && Has(s, 13, [m.cksumKind])
    && Has(s, 16, Le(m.originSize, 8)) && Has(s, 24, Le(m.originMtime, 8))
    && Has(s, 32, Le(m.originCksum, 4)) && Has(s, 36, Le(m.encoderVersion, 4))
    && Has(s, 40, Le(m.virtualSize, 8)) && Has(s, 48, Le(m.tdataBytes, 8))
    && Has(s, 56, Le(|m.key|, 4)) && Has(s, 60, Le(|m.extents|, 4)) && Has(s, 64, Le(|m.superseded|, 4))
    && Has(s, ORIG_COUNT, Le(|m.origMap|, 4))
  }

  ghost predicate SectionsHold(s: seq<Byte>, m: ReplicaMeta) {
    var l := LayoutOf(m);
    && Has(s, HEADER, m.key)
    && Has(s, l.ExtOff(), Encode(Extents(), m.extents)) && Has(s, l.SupOff(), Encode(Ranges(), m.superseded))
    && Has(s, l.OrigOff(), Encode(Origs(), m.origMap)) && Has(s, l.CrcsOff(), Encode(U32s(), m.pageCrcs))
  }

  /** Lengths that fit their uint32 counts. */
  predicate Countable(m: ReplicaMeta) {
    |m.key| < 0x1_0000_0000 && |m.extents| < 0x1_0000_0000 && |m.superseded| < 0x1_0000_0000 && |m.origMap| < 0x1_0000_0000
  }

  lemma HeaderReads(s: seq<Byte>, m: ReplicaMeta)
    requires HeaderHolds(s, m) && Countable(m) && |s| >= HEADER
    ensures Versioned(s) && ReadLayout(s) == LayoutOf(m)
    ensures Get32(s, 8) == m.flags && s[12] == m.encoding && s[13] == m.cksumKind
    ensures Get64(s, 16) == m.originSize && Get64(s, 24) == m.originMtime
    ensures Get32(s, 32) == m.originCksum && Get32(s, 36) == m.encoderVersion
    ensures Get64(s, 40) == m.virtualSize && Get64(s, 48) == m.tdataBytes
  {
    hide Le, Get32, Get64, Magic, OverlayPages;
    assert |Magic()| == 4 by { MagicSize(); }
    Get32Of(s, 4, VERSION_2);
    Get32Of(s, 8, m.flags);
    Get64Of(s, 16, m.originSize);
    Get64Of(s, 24, m.originMtime);
    Get32Of(s, 32, m.originCksum);
    Get32Of(s, 36, m.encoderVersion);
    Get64Of(s, 40, m.virtualSize);
    Get64Of(s, 48, m.tdataBytes);
    Get32Of(s, 56, |m.key|);
    Get32Of(s, 60, |m.extents|);
    Get32Of(s, 64, |m.superseded|);
    Get32Of(s, ORIG_COUNT, |m.origMap|);
    assert s[12] == s[12..13][0] && s[13] == s[13..14][0];
  }

  lemma MagicSize()
    ensures |Magic()| == 4
  {}

  lemma SectionsRead(s: seq<Byte>, m: ReplicaMeta)
    requires HeaderHolds(s, m) && SectionsHold(s, m) && Countable(m) && |s| == LayoutOf(m).Total()
    requires |m.pageCrcs| == OverlayPages(m.tdataBytes)
    ensures Versioned(s) && |s| == ReadLayout(s).Total() && Fields(s) == m
  {
    hide Le, Get32, Get64, Magic, OverlayPages, Encode, Decode, HeaderHolds, Versioned, ReadLayout, Format.Sound;
    HeaderReads(s, m);
    ExtentsSound();
    RangesSound();
    OrigsSound();
    U32sSound();
    var l := LayoutOf(m);
    TableRoundTrip(Extents(), m.extents, s, l.ExtOff());
    TableRoundTrip(Ranges(), m.superseded, s, l.SupOff());
    TableRoundTrip(Origs(), m.origMap, s, l.OrigOff());
    TableRoundTrip(U32s(), m.pageCrcs, s, l.CrcsOff());
  }

  /** Fill a zeroed buffer section by section, then store its CRC. The image reads back as
      the replica's metadata exactly if its sections are within bounds and consistent. */
  method Serialize(crc: Crc, m: ReplicaMeta) returns (s: seq<Byte>)
    requires Countable(m)
    ensures |s| == LayoutOf(m).Total()
    ensures Deserialize(crc, s) == if Bounded(LayoutOf(m)) && Consistent(m) then Some(Kept(m)) else None
  {
    hide Has, Put, Le, Encode, Decode, Zeros, OverlayPages, Consistent, Deserialize, Kept, Format.Sound;
    var l := LayoutOf(m);
    s := PutHeader(m, l.Total());
    s := PutSections(s, m);
    ghost var blank := s;
    PutUndone(s, CRC_FIELD, Le(crc(s), 4));
    s := Put(s, CRC_FIELD, Le(crc(s), 4));
    KeptSame(m);
    StampReads(crc, s, Kept(m), crc(blank));
  }

  method PutHeader(m: ReplicaMeta, total: nat) returns (s: seq<Byte>)
    requires total >= HEADER
    ensures |s| == total && HeaderHolds(s, m) && Has(s, CRC_FIELD, Zeros(4)) && Has(s, HEADER, Zeros(total - HEADER))
  {
    hide Has, Put, Le, Zeros;
    s := Zeros(total);
    ZeroField(total, CRC_FIELD, 4);
    ZeroField(total, HEADER, total - HEADER);
    s := Put(s, 0, Magic());
    s := Put(s, 4, Le(VERSION_2, 4));
    s := Put(s, 8, Le(m.flags, 4));
    s := Put(s, 12, [m.encoding]);
    s := Put(s, 13, [m.cksumKind]);
    s := Put(s, 16, Le(m.originSize, 8));
    s := Put(s, 24, Le(m.originMtime, 8));
    s := Put(s, 32, Le(m.originCksum, 4));
    s := Put(s, 36, Le(m.encoderVersion, 4));
    s := Put(s, 40, Le(m.virtualSize, 8));
    s := Put(s, 48, Le(m.tdataBytes, 8));
    s := Put(s, 56, Le(|m.key|, 4));
    s := Put(s, 60, Le(|m.extents|, 4));
    s := Put(s, 64, Le(|m.superseded|, 4));
    s := Put(s, ORIG_COUNT, Le(|m.origMap|, 4));
  }

  method PutSections(s0: seq<Byte>, m: ReplicaMeta) returns (s: seq<Byte>)
    requires |s0| == LayoutOf(m).Total() && HeaderHolds(s0, m)
    requires Has(s0, CRC_FIELD, Zeros(4)) && Has(s0, HEADER, Zeros(|s0| - HEADER))
    ensures |s| == |s0| && HeaderHolds(s, m) && Has(s, CRC_FIELD, Zeros(4)) && SectionsHold(s, Kept(m))
  {
    hide Has, Put, Le, Encode, Zeros, OverlayPages, Kept, Format.Sound, HeaderHolds;
    var l := LayoutOf(m);
    ghost var head := s0[..HEADER];
    assert Has(s0, 0, head) by { HeadInPlace(s0, HEADER); }
    ExtentsSound();
    RangesSound();
    OrigsSound();
    U32sSound();
    EncodeSize(Extents(), m.extents);
    EncodeSize(Ranges(), m.superseded);
    EncodeSize(Origs(), m.origMap);
    var ncrcs := Min(l.npages, |m.pageCrcs|);
    ZeroSplit(s0, HEADER, |s0| - HEADER, l.CrcsOff() + 4 * ncrcs, 4 * (l.npages - ncrcs));
    s := Put(s0, HEADER, m.key);
    s := PutTable(Extents(), s, l.ExtOff(), m.extents);
    s := PutTable(Ranges(), s, l.SupOff(), m.superseded);
    s := PutTable(Origs(), s, l.OrigOff(), m.origMap);
    s := PutTable(U32s(), s, l.CrcsOff(), m.pageCrcs[..ncrcs]);
    KeptTable(s, m, l.CrcsOff(), ncrcs);
    SameHead(s0, s, m);
  }

  /** Nothing stored past the header changes it. */
  lemma SameHead(s0: seq<Byte>, s: seq<Byte>, m: ReplicaMeta)
    requires |s0| >= HEADER && Has(s, 0, s0[..HEADER]) && HeaderHolds(s0, m) && Has(s0, CRC_FIELD, Zeros(4))
    ensures HeaderHolds(s, m) && Has(s, CRC_FIELD, Zeros(4))
  {
    hide Le, Zeros, Has;
    HeadKept(s0, s, HEADER);
  }

  /** The CRCs copied and the zeros after them are the table of the CRCs kept. */
  lemma KeptTable(s: seq<Byte>, m: ReplicaMeta, at: nat, ncrcs: nat)
    requires ncrcs == Min(OverlayPages(m.tdataBytes), |m.pageCrcs|)
    requires Has(s, at, Encode(U32s(), m.pageCrcs[..ncrcs]))
    requires Has(s, at + 4 * ncrcs, Zeros(4 * (OverlayPages(m.tdataBytes) - ncrcs)))
    ensures Has(s, at, Encode(U32s(), Kept(m).pageCrcs))
    ensures LayoutOf(Kept(m)) == LayoutOf(m) && Kept(m) == m.(pageCrcs := Kept(m).pageCrcs)
  {
    hide Encode, OverlayPages, Format.Sound, Zeros;
    var n := OverlayPages(m.tdataBytes);
    var front := m.pageCrcs[..ncrcs];
    assert Kept(m).pageCrcs == front + seq(n - ncrcs, _ => 0);
    U32sSound();
    EncodeSize(U32s(), front);
    ZerosAfter(front, n - ncrcs);
    HasBoth(s, at, Encode(U32s(), front), Zeros(4 * (n - ncrcs)));
  }

  lemma HasBoth(s: seq<Byte>, at: nat, x: seq<Byte>, y: seq<Byte>)
    requires Has(s, at, x) && Has(s, at + |x|, y)
    ensures Has(s, at, x + y)
  {
    assert s[at..at + |x| + |y|] == s[at..at + |x|] + s[at + |x|..at + |x| + |y|];
  }

  lemma {:induction false} ZerosAfter(rows: seq<U32>, n: nat)
    ensures Encode(U32s(), rows + seq(n, _ => 0)) == Encode(U32s(), rows) + Zeros(4 * n)
  {
    var all: seq<U32> := rows + seq(n, _ => 0);
    if n == 0 {
      assert all == rows && Encode(U32s(), rows) + Zeros(0) == Encode(U32s(), rows);
    } else {
      ZerosAfter(rows, n - 1);
      assert all[..|all| - 1] == rows + seq(n - 1, _ => 0);
      assert U32s().enc(0) == Le(0, 4) == [0, 0, 0, 0];
      assert Zeros(4 * n) == Zeros(4 * (n - 1)) + [0, 0, 0, 0];
    }
  }

  lemma KeptSame(m: ReplicaMeta)
    ensures LayoutOf(Kept(m)) == LayoutOf(m) && (Consistent(Kept(m)) <==> Consistent(m))
    ensures Countable(m) ==> Countable(Kept(m))
    ensures forall s: seq<Byte> :: HeaderHolds(s, m) ==> HeaderHolds(s, Kept(m))
  {
    hide OverlayPages, ExtentsOrdered;
  }

  lemma StampReads(crc: Crc, s: seq<Byte>, m: ReplicaMeta, c: U32)
    requires HeaderHolds(s, m) && SectionsHold(s, m) && Countable(m) && |s| == LayoutOf(m).Total()
    requires |m.pageCrcs| == OverlayPages(m.tdataBytes)
    requires Has(s, CRC_FIELD, Le(c, 4)) && crc(Put(s, CRC_FIELD, Zeros(4))) == c
    ensures Deserialize(crc, s) == if Bounded(LayoutOf(m)) && Consistent(m) then Some(m) else None
  {
    hide Le, Get32, Get64, OverlayPages, Encode, Decode, HeaderHolds, SectionsHold, Versioned, ReadLayout, Put, Consistent, Fields;
    SectionsRead(s, m);
    HeaderReads(s, m);
    Get32Of(s, CRC_FIELD, c);
  }
}
