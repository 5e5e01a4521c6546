/** The header page of a slot store. */
module SlotHeaders {
  import opened Bytes

  const HEADER_BYTES: nat := 4096
  const CRC_FIELD: nat := 4092
  const CODECS_MAX: nat := 256
  const FORMAT_VERSION: U32 := 2

  function Magic(): seq<Byte> { [85, 67, 83, 76, 79, 84, 83, 49] } // "UCSLOTS1"

  datatype SlotStoreHeader =
    SlotStoreHeader(layoutVersion: U32, container: Byte, slotFactor100: U16, declined: bool, codecs: seq<Byte>,
                    originSize: U64, originMtime: U64, cksumKind: Byte, originCksum: U32, virtualSize: U64,
                    nSlots: U32, layoutHash: U64, storeId: U64, blobLen: U64, blobCrc: U32)

  predicate Accepted(crc: Crc, s: seq<Byte>) {
    && |s| >= HEADER_BYTES && s[..8] == Magic()
    && Get32(s, CRC_FIELD) == crc(s[..CRC_FIELD])
    && Get32(s, 8) == FORMAT_VERSION && Get16(s, 84) <= CODECS_MAX
  }

  function Decode(crc: Crc, s: seq<Byte>): Option<SlotStoreHeader> {
    if !Accepted(crc, s) then None
    else Some(SlotStoreHeader(Get32(s, 12), s[16], Get16(s, 42), s[18] != 0, s[86..86 + Get16(s, 84)],
                              Get64(s, 24), Get64(s, 32), s[40], Get32(s, 44), Get64(s, 48),
                              Get32(s, 20), Get64(s, 56), Get64(s, 64), Get64(s, 72), Get32(s, 80)))
  }

  /** The header page as its table gives it, its last four bytes the checksum of the rest. */
  ghost predicate PageSays(crc: Crc, s: seq<Byte>, h: SlotStoreHeader) {
    && |s| >= 4096
    && s[0] == 'U' as int && s[1] == 'C' as int && s[2] == 'S' as int && s[3] == 'L' as int
    && s[4] == 'O' as int && s[5] == 'T' as int && s[6] == 'S' as int && s[7] == '1' as int
    && U32At(s, 8) == 2 && h.layoutVersion == U32At(s, 12) && h.container == s[16] && (h.declined <==> s[18] != 0) && h.nSlots == U32At(s, 20)
    && h.originSize == U64At(s, 24) && h.originMtime == U64At(s, 32) && h.cksumKind == s[40] && h.slotFactor100 == U16At(s, 42)
    && h.originCksum == U32At(s, 44) && h.virtualSize == U64At(s, 48) && h.layoutHash == U64At(s, 56) && h.storeId == U64At(s, 64)
    && h.blobLen == U64At(s, 72) && h.blobCrc == U32At(s, 80)
    && |h.codecs| == U16At(s, 84) <= 256 && h.codecs == s[86..86 + |h.codecs|]
    && U32At(s, 4092) == crc(s[..4092])
  }

  lemma PageExactly(crc: Crc, s: seq<Byte>, h: SlotStoreHeader)
    ensures Decode(crc, s) == Some(h) <==> PageSays(crc, s, h)
  {
    hide Get16, Get32, Get64, U16At, U32At, U64At;
    if |s| >= HEADER_BYTES { PageGets(s); }
  }

  lemma PageGets(s: seq<Byte>)
    requires |s| >= HEADER_BYTES
    ensures Get32(s, 8) == U32At(s, 8) && Get32(s, 12) == U32At(s, 12) && Get32(s, 20) == U32At(s, 20) && Get64(s, 24) == U64At(s, 24)
    ensures Get64(s, 32) == U64At(s, 32) && Get16(s, 42) == U16At(s, 42) && Get32(s, 44) == U32At(s, 44) && Get64(s, 48) == U64At(s, 48)
    ensures Get64(s, 56) == U64At(s, 56) && Get64(s, 64) == U64At(s, 64) && Get64(s, 72) == U64At(s, 72) && Get32(s, 80) == U32At(s, 80)
    ensures Get16(s, 84) == U16At(s, 84) && Get32(s, 4092) == U32At(s, 4092)
    ensures s[..8] == Magic() <==>
              && s[0] == 'U' as int && s[1] == 'C' as int && s[2] == 'S' as int && s[3] == 'L' as int
              && s[4] == 'O' as int && s[5] == 'T' as int && s[6] == 'S' as int && s[7] == '1' as int
  {
    hide Get16, Get32, Get64, U16At, U32At, U64At;
    Get32Is(s, 8);
    Get32Is(s, 12);
    Get32Is(s, 20);
    Get64Is(s, 24);
    Get64Is(s, 32);
    Get16Is(s, 42);
    Get32Is(s, 44);
    Get64Is(s, 48);
    Get64Is(s, 56);
    Get64Is(s, 64);
    Get64Is(s, 72);
    Get32Is(s, 80);
    Get16Is(s, 84);
    Get32Is(s, 4092);
    assert s[..8] == [s[0], s[1], s[2], s[3], s[4], s[5], s[6], s[7]];
  }

  /** The codec list is cut to what the header has room for. */
  function Kept(h: SlotStoreHeader): (k: SlotStoreHeader)
    ensures |k.codecs| <= CODECS_MAX
  {
    h.(codecs := h.codecs[..Min(|h.codecs|, CODECS_MAX)])
  }

  function Flag(b: bool): Byte { if b then 1 else 0 }

  ghost predicate Holds(s: seq<Byte>, h: SlotStoreHeader) {
    && Has(s, 0, Magic()) && Has(s, 8, Le(FORMAT_VERSION, 4)) && Has(s, 12, Le(h.layoutVersion, 4))
    && Has(s, 16, [h.container]) && Has(s, 18, [Flag(h.declined)]) && Has(s, 20, Le(h.nSlots, 4))
    && Has(s, 24, Le(h.originSize, 8)) && Has(s, 32, Le(h.originMtime, 8)) && Has(s, 40, [h.cksumKind])
    && Has(s, 42, Le(h.slotFactor100, 2)) && Has(s, 44, Le(h.originCksum, 4)) && Has(s, 48, Le(h.virtualSize, 8))
    && Has(s, 56, Le(h.layoutHash, 8)) && Has(s, 64, Le(h.storeId, 8)) && Has(s, 72, Le(h.blobLen, 8))
    && Has(s, 80, Le(h.blobCrc, 4)) && Has(s, 84, Le(|h.codecs|, 2)) && Has(s, 86, h.codecs)
  }

  /** Fill one zeroed page and stamp it. Whatever the header, reading it back gives it with
      the codec list cut to 256 bytes; so a header with a list that fits comes back whole. */
  method Encode(crc: Crc, h: SlotStoreHeader) returns (s: seq<Byte>)
    ensures |s| == HEADER_BYTES && Decode(crc, s) == Some(Kept(h)) && PageSays(crc, s, Kept(h))
  {
    hide Has, Put, Le, Decode, Zeros, PageSays;
    var n := Min(|h.codecs|, CODECS_MAX);
    s := Zeros(HEADER_BYTES);
    s := Put(s, 0, Magic());
    s := Put(s, 8, Le(FORMAT_VERSION, 4));
    s := Put(s, 12, Le(h.layoutVersion, 4));
    s := Put(s, 16, [h.container]);
    s := Put(s, 18, [Flag(h.declined)]);
    s := Put(s, 20, Le(h.nSlots, 4));
    s := Put(s, 24, Le(h.originSize, 8));
    s := Put(s, 32, Le(h.originMtime, 8));
    s := Put(s, 40, [h.cksumKind]);
    s := Put(s, 42, Le(h.slotFactor100, 2));
    s := Put(s, 44, Le(h.originCksum, 4));
    s := Put(s, 48, Le(h.virtualSize, 8));
    s := Put(s, 56, Le(h.layoutHash, 8));
    s := Put(s, 64, Le(h.storeId, 8));
    s := Put(s, 72, Le(h.blobLen, 8));
    s := Put(s, 80, Le(h.blobCrc, 4));
    s := Put(s, 84, Le(n, 2));
    s := Put(s, 86, h.codecs[..n]);
    ghost var body := s[..CRC_FIELD];
    s := Put(s, CRC_FIELD, Le(crc(s[..CRC_FIELD]), 4));
    assert s[..CRC_FIELD] == body;
    assert Holds(s, Kept(h));
    Stamped(crc, s, Kept(h));
    PageExactly(crc, s, Kept(h));
  }

  lemma MagicSize()
    ensures |Magic()| == 8
  {}

  lemma Stamped(crc: Crc, s: seq<Byte>, h: SlotStoreHeader)
    requires |s| == HEADER_BYTES && Holds(s, h) && |h.codecs| <= CODECS_MAX && Has(s, CRC_FIELD, Le(crc(s[..CRC_FIELD]), 4))
    ensures Decode(crc, s) == Some(h)
  {
    hide Has, Le, Get16, Get32, Get64, Magic;
    NumbersRead(s, h);
    BytesRead(s, h);
    Get32Of(s, CRC_FIELD, crc(s[..CRC_FIELD]));
  }

  lemma NumbersRead(s: seq<Byte>, h: SlotStoreHeader)
    requires |s| == HEADER_BYTES && Holds(s, h) && |h.codecs| <= CODECS_MAX
    ensures Get32(s, 8) == FORMAT_VERSION && Get32(s, 12) == h.layoutVersion && Get32(s, 20) == h.nSlots
    ensures Get64(s, 24) == h.originSize && Get64(s, 32) == h.originMtime && Get16(s, 42) == h.slotFactor100
    ensures Get32(s, 44) == h.originCksum && Get64(s, 48) == h.virtualSize && Get64(s, 56) == h.layoutHash
    ensures Get64(s, 64) == h.storeId && Get64(s, 72) == h.blobLen && Get32(s, 80) == h.blobCrc
    ensures Get16(s, 84) == |h.codecs|
  {
    hide Has, Le, Get16, Get32, Get64, Magic;
    Get32Of(s, 8, FORMAT_VERSION);
    Get32Of(s, 12, h.layoutVersion);
    Get32Of(s, 20, h.nSlots);
    Get64Of(s, 24, h.originSize);
    Get64Of(s, 32, h.originMtime);
    Get16Of(s, 42, h.slotFactor100);
    Get32Of(s, 44, h.originCksum);
    Get64Of(s, 48, h.virtualSize);
    Get64Of(s, 56, h.layoutHash);
    Get64Of(s, 64, h.storeId);
    Get64Of(s, 72, h.blobLen);
    Get32Of(s, 80, h.blobCrc);
    Get16Of(s, 84, |h.codecs|);
  }

  lemma BytesRead(s: seq<Byte>, h: SlotStoreHeader)
    requires |s| == HEADER_BYTES && Holds(s, h) && |h.codecs| <= CODECS_MAX
    ensures s[..8] == Magic() && s[16] == h.container && s[18] == Flag(h.declined) && s[40] == h.cksumKind
    ensures s[86..86 + |h.codecs|] == h.codecs
  {
    hide Le, Magic;
    assert |Magic()| == 8 by { MagicSize(); }
    assert s[16] == s[16..17][0] && s[18] == s[18..19][0] && s[40] == s[40..41][0];
  }
}
