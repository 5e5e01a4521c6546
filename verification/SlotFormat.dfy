/** Byte formats of the slot store: entries, commit-block headers, whole blocks. */
module SlotFormat {
  import opened Bytes

  const ALIGN: nat := 4096
  const BLOCK_HEADER: nat := 64
  const ENTRY: nat := 24
  /** A block this long or longer is not believed when it claims its extent. */
  const CLAIM_LIMIT: nat := 0x100_0000_0000
  const BLOCK_MAGIC: seq<Byte> := [85, 83, 66, 76, 79, 67, 75, 49] // "USBLOCK1"

  const K_ZSTD: Byte := 1
  const K_RAW: Byte := 2
  const K_KEPT: Byte := 3

  datatype SlotEntry = SlotEntry(slot: U32, kind: Byte, off: U64, len: U32, crc: U32)
  datatype SlotRecord = SlotRecord(slot: U32, kind: Byte, bytes: seq<Byte>)
  datatype BlockHeader = BlockHeader(blockLen: U64, n: U32, entsCrc: U32)

  function AlignUp(v: nat): (r: nat)
    ensures r % ALIGN == 0
    ensures v <= r < v + ALIGN
  {
    (v + ALIGN - 1) / ALIGN * ALIGN
  }

  predicate ValidKind(kind: Byte) { kind == K_ZSTD || kind == K_RAW || kind == K_KEPT }

  /** crc32c continued from the CRC of the seed is the CRC of seed then payload. */
  function RecordCrc(crc: Crc, id: U64, slot: U32, payload: seq<Byte>): U32 {
    crc(Le(id, 8) + Le(slot, 4) + Le(|payload|, 4) + payload)
  }

  // ---- entries --------------------------------------------------------------

  function EncodeEntry(e: SlotEntry): (s: seq<Byte>)
    ensures |s| == ENTRY
  {
    Le(e.slot, 4) + [e.kind] + Zeros(3) + Le(e.off, 8) + Le(e.len, 4) + Le(e.crc, 4)
  }

  function DecodeEntry(s: seq<Byte>): SlotEntry
    requires |s| == ENTRY
  {
    SlotEntry(Get32(s, 0), s[4], Get64(s, 8), Get32(s, 16), Get32(s, 20))
  }

  /** Where the fields of an encoded entry lie. */
  lemma EntryFields(e: SlotEntry)
    ensures var s := EncodeEntry(e);
            && Has(s, 0, Le(e.slot, 4)) && s[4] == e.kind && Has(s, 8, Le(e.off, 8))
            && Has(s, 16, Le(e.len, 4)) && Has(s, 20, Le(e.crc, 4))
  {
    hide Le, Has;
    var s := EncodeEntry(e);
    var f1, f2, f3, f4, f5 := Le(e.slot, 4), [e.kind] + Zeros(3), Le(e.off, 8), Le(e.len, 4), Le(e.crc, 4);
    assert s == f1 + (f2 + (f3 + (f4 + f5)));
    assert s[4] == e.kind;
    HasWhole(s);
    HasParts(s, 0, f1, f2 + (f3 + (f4 + f5)));
    HasParts(s, 4, f2, f3 + (f4 + f5));
    HasParts(s, 8, f3, f4 + f5);
    HasParts(s, 16, f4, f5);
  }

  lemma EntryRoundTrip(e: SlotEntry)
    ensures DecodeEntry(EncodeEntry(e)) == e
  {
    hide Le, Has, EncodeEntry, Get32, Get64;
    var s := EncodeEntry(e);
    EntryFields(e);
    Get32Of(s, 0, e.slot);
    Get64Of(s, 8, e.off);
    Get32Of(s, 16, e.len);
    Get32Of(s, 20, e.crc);
  }

  function EncodeEntries(es: seq<SlotEntry>): (s: seq<Byte>)
    ensures |s| == |es| * ENTRY
  {
    if es == [] then [] else EncodeEntry(es[0]) + EncodeEntries(es[1..])
  }

  /** Kept by a reader of the block at [pos, pos + blockLen): a known kind, and a
      record inside the block unless the original is kept elsewhere. */
  predicate Plausible(e: SlotEntry, pos: nat, blockLen: nat) {
    ValidKind(e.kind) && (e.kind == K_KEPT || (e.off >= pos && e.off + e.len <= pos + blockLen))
  }

  /** The plausible entries of an entry table, in order. */
  function DecodeEntries(s: seq<Byte>, pos: nat, blockLen: nat): seq<SlotEntry> {
    if |s| < ENTRY then []
    else
      var e := DecodeEntry(s[..ENTRY]);
      (if Plausible(e, pos, blockLen) then [e] else []) + DecodeEntries(s[ENTRY..], pos, blockLen)
  }

  lemma {:induction false} EntriesRoundTrip(es: seq<SlotEntry>, pos: nat, blockLen: nat)
    requires forall e <- es :: Plausible(e, pos, blockLen)
    ensures DecodeEntries(EncodeEntries(es), pos, blockLen) == es
  {
    if es != [] {
      var s := EncodeEntries(es);
      assert s[..ENTRY] == EncodeEntry(es[0]);
      assert s[ENTRY..] == EncodeEntries(es[1..]);
      EntryRoundTrip(es[0]);
      EntriesRoundTrip(es[1..], pos, blockLen);
      assert es[0] in es;
    }
  }

  /** Row `k` of an entry table is `e`. */
  ghost predicate RowSays(s: seq<Byte>, k: nat, e: SlotEntry) {
    24 * k + 24 <= |s| && DecodeEntry(s[24 * k..24 * k + 24]) == e
  }

  /** An entry worth handing out, of a block at `pos`: of a known kind, its record inside the block
      unless the original is kept. */
  ghost predicate Worth(e: SlotEntry, pos: nat, blockLen: nat) {
    e.kind == 3 || ((e.kind == 1 || e.kind == 2) && pos <= e.off && e.off + e.len <= pos + blockLen)
  }

  /** `es` are the rows `at` of the table, which are exactly those worth handing out, in order. */
  ghost predicate RowsKept(s: seq<Byte>, pos: nat, blockLen: nat, es: seq<SlotEntry>, at: seq<nat>) {
    && |at| == |es|
    && (forall j :: 0 <= j < |at| ==> RowSays(s, at[j], es[j]) && Worth(es[j], pos, blockLen))
    && (forall i, j :: 0 <= i < j < |at| ==> at[i] < at[j])
    && (forall k: nat, e {:trigger RowSays(s, k, e)} :: RowSays(s, k, e) && Worth(e, pos, blockLen) ==> k in at)
  }

  function Later(at: seq<nat>): (r: seq<nat>)
    ensures |r| == |at| && forall j :: 0 <= j < |at| ==> r[j] == at[j] + 1
  {
    seq(|at|, j requires 0 <= j < |at| => at[j] + 1)
  }

  lemma RowNext(s: seq<Byte>, k: nat, e: SlotEntry)
    requires |s| >= ENTRY
    ensures RowSays(s, k + 1, e) <==> RowSays(s[ENTRY..], k, e)
    ensures RowSays(s, 0, e) <==> e == DecodeEntry(s[..ENTRY])
  {
    hide DecodeEntry;
    if 24 * k + 24 <= |s[ENTRY..]| { assert s[ENTRY..][24 * k..24 * k + 24] == s[24 * (k + 1)..24 * (k + 1) + 24]; }
    assert s[24 * 0..24 * 0 + 24] == s[..ENTRY];
  }

  /** One more row in front, not worth keeping. */
  lemma RowsPass(s: seq<Byte>, pos: nat, blockLen: nat, es: seq<SlotEntry>, more: seq<nat>)
    requires |s| >= ENTRY && RowsKept(s[ENTRY..], pos, blockLen, es, more) && !Worth(DecodeEntry(s[..ENTRY]), pos, blockLen)
    ensures RowsKept(s, pos, blockLen, es, Later(more))
  {
    hide DecodeEntry, Worth, RowSays;
    var at := Later(more);
    forall j | 0 <= j < |at| ensures RowSays(s, at[j], es[j]) { RowNext(s, more[j], es[j]); }
    forall k: nat, e | RowSays(s, k, e) && Worth(e, pos, blockLen) ensures k in at { RowFound(s, pos, blockLen, es, more, k, e); }
  }

  lemma RowFound(s: seq<Byte>, pos: nat, blockLen: nat, es: seq<SlotEntry>, more: seq<nat>, k: nat, e: SlotEntry)
    requires |s| >= ENTRY && RowsKept(s[ENTRY..], pos, blockLen, es, more) && RowSays(s, k, e) && Worth(e, pos, blockLen)
    ensures if k == 0 then e == DecodeEntry(s[..ENTRY]) else k in Later(more)
  {
    hide DecodeEntry, Worth, RowSays;
    if k == 0 {
      RowNext(s, 0, e);
    } else {
      var i := k - 1;
      RowNext(s, i, e);
      var j :| 0 <= j < |more| && more[j] == i;
      assert Later(more)[j] == k;
    }
  }

  /** One more row in front, kept. */
  lemma RowsTake(s: seq<Byte>, pos: nat, blockLen: nat, es: seq<SlotEntry>, more: seq<nat>)
    requires |s| >= ENTRY && RowsKept(s[ENTRY..], pos, blockLen, es, more) && Worth(DecodeEntry(s[..ENTRY]), pos, blockLen)
    ensures RowsKept(s, pos, blockLen, [DecodeEntry(s[..ENTRY])] + es, [0] + Later(more))
  {
    hide DecodeEntry, Worth, RowSays;
    var e0, rest := DecodeEntry(s[..ENTRY]), Later(more);
    var at, all := [0] + rest, [e0] + es;
    forall j | 0 <= j < |at| ensures RowSays(s, at[j], all[j]) && Worth(all[j], pos, blockLen) {
      if j > 0 { RowNext(s, more[j - 1], es[j - 1]); } else { RowNext(s, 0, e0); }
    }
    forall k: nat, e | RowSays(s, k, e) && Worth(e, pos, blockLen) ensures k in at {
      RowFound(s, pos, blockLen, es, more, k, e);
      if k > 0 { assert k in rest; } else { assert at[0] == 0; }
    }
  }

  /** What is read of an entry table: exactly the rows worth handing out, in order. */
  lemma {:induction false} EntriesExactly(s: seq<Byte>, pos: nat, blockLen: nat) returns (at: seq<nat>)
    ensures RowsKept(s, pos, blockLen, DecodeEntries(s, pos, blockLen), at)
    decreases |s|
  {
    hide DecodeEntry, RowsKept, Later;
    if |s| < ENTRY {
      at := [];
      NoRows(s, pos, blockLen);
    } else {
      var more := EntriesExactly(s[ENTRY..], pos, blockLen);
      var e, es := DecodeEntry(s[..ENTRY]), DecodeEntries(s[ENTRY..], pos, blockLen);
      if Plausible(e, pos, blockLen) {
        RowsTake(s, pos, blockLen, es, more);
        at := [0] + Later(more);
      } else {
        RowsPass(s, pos, blockLen, es, more);
        assert [] + es == es;
        at := Later(more);
      }
    }
  }

  lemma NoRows(s: seq<Byte>, pos: nat, blockLen: nat)
    requires |s| < ENTRY
    ensures RowsKept(s, pos, blockLen, [], [])
  {}

  // ---- block header ---------------------------------------------------------

  function HeaderFields(id: U64, h: BlockHeader): (s: seq<Byte>)
    ensures |s| == 60
  {
    BLOCK_MAGIC + Le(id, 8) + Le(h.blockLen, 8) + Le(h.n, 4) + Le(h.entsCrc, 4) + Zeros(28)
  }

  function EncodeHeader(crc: Crc, id: U64, h: BlockHeader): (s: seq<Byte>)
    ensures |s| == BLOCK_HEADER
  {
    HeaderFields(id, h) + Le(crc(HeaderFields(id, h)), 4)
  }

  /** A block header of this store, if the 64 bytes are one. */
  function ParseHeader(crc: Crc, id: U64, w: seq<Byte>): Option<BlockHeader>
    requires |w| == BLOCK_HEADER
  {
    if w[..8] == BLOCK_MAGIC && Get64(w, 8) == id && Get32(w, 60) == crc(w[..60])
    then Some(BlockHeader(Get64(w, 16), Get32(w, 24), Get32(w, 28)))
    else None
  }

  lemma HeaderRoundTrip(crc: Crc, id: U64, h: BlockHeader)
    ensures ParseHeader(crc, id, EncodeHeader(crc, id, h)) == Some(h)
  {
    hide Le, Has, Get32, Get64, HeaderFields;
    var s, c := EncodeHeader(crc, id, h), crc(HeaderFields(id, h));
    HeaderParts(id, h, Le(c, 4));
    Get64Of(s, 8, id);
    Get64Of(s, 16, h.blockLen);
    Get32Of(s, 24, h.n);
    Get32Of(s, 28, h.entsCrc);
    Get32Of(s, 60, c);
  }

  /** Where the fields of an encoded header lie. */
  lemma HeaderParts(id: U64, h: BlockHeader, tail: seq<Byte>)
    requires |tail| == 4
    ensures var s := HeaderFields(id, h) + tail;
            && s[..60] == HeaderFields(id, h) && s[..8] == BLOCK_MAGIC && Has(s, 8, Le(id, 8)) && Has(s, 16, Le(h.blockLen, 8))
            && Has(s, 24, Le(h.n, 4)) && Has(s, 28, Le(h.entsCrc, 4)) && Has(s, 60, tail)
  {
    hide Le, Has;
    var s := HeaderFields(id, h) + tail;
    var f0, f1, f2, f3, f4 := BLOCK_MAGIC, Le(id, 8), Le(h.blockLen, 8), Le(h.n, 4), Le(h.entsCrc, 4);
    assert s == f0 + (f1 + (f2 + (f3 + (f4 + (Zeros(28) + tail)))));
    HasWhole(s);
    HasParts(s, 0, f0, f1 + (f2 + (f3 + (f4 + (Zeros(28) + tail)))));
    HasParts(s, 8, f1, f2 + (f3 + (f4 + (Zeros(28) + tail))));
    HasParts(s, 16, f2, f3 + (f4 + (Zeros(28) + tail)));
    HasParts(s, 24, f3, f4 + (Zeros(28) + tail));
    HasParts(s, 28, f4, Zeros(28) + tail);
    HasParts(s, 32, Zeros(28), tail);
  }

  // ---- the formats, as their tables give them ---------------------------------

  /** The 24 bytes of an entry: slot, kind, three bytes of padding, offset, length, checksum. */
  ghost predicate EntrySays(s: seq<Byte>, e: SlotEntry) {
    |s| == 24 && e.slot == U32At(s, 0) && e.kind == s[4] && e.off == U64At(s, 8) && e.len == U32At(s, 16) && e.crc == U32At(s, 20)
  }

  lemma EntryExactly(s: seq<Byte>, e: SlotEntry)
    requires |s| == ENTRY
    ensures DecodeEntry(s) == e <==> EntrySays(s, e)
    ensures EntrySays(EncodeEntry(e), e)
  {
    hide Get32, Get64, U32At, U64At, EncodeEntry;
    EntryRoundTrip(e);
    EntryGets(s);
    EntryGets(EncodeEntry(e));
  }

  lemma EntryGets(s: seq<Byte>)
    requires |s| == ENTRY
    ensures Get32(s, 0) == U32At(s, 0) && Get64(s, 8) == U64At(s, 8) && Get32(s, 16) == U32At(s, 16) && Get32(s, 20) == U32At(s, 20)
  {
    hide Get32, Get64, U32At, U64At;
    Get32Is(s, 0);
    Get64Is(s, 8);
    Get32Is(s, 16);
    Get32Is(s, 20);
  }

  /** The 64 bytes of a block header of store `id`, its last four the checksum of the rest. */
  ghost predicate HeaderSays(crc: Crc, id: U64, w: seq<Byte>, h: BlockHeader) {
    && |w| == 64
    && w[0] == 'U' as int && w[1] == 'S' as int && w[2] == 'B' as int && w[3] == 'L' as int
    && w[4] == 'O' as int && w[5] == 'C' as int && w[6] == 'K' as int && w[7] == '1' as int
    && U64At(w, 8) == id && h.blockLen == U64At(w, 16) && h.n == U32At(w, 24) && h.entsCrc == U32At(w, 28)
    && U32At(w, 60) == crc(w[..60])
  }

  lemma HeaderExactly(crc: Crc, id: U64, w: seq<Byte>, h: BlockHeader)
    requires |w| == BLOCK_HEADER
    ensures ParseHeader(crc, id, w) == Some(h) <==> HeaderSays(crc, id, w, h)
    ensures HeaderSays(crc, id, EncodeHeader(crc, id, h), h)
  {
    hide Get32, Get64, U32At, U64At, EncodeHeader;
    HeaderRoundTrip(crc, id, h);
    HeaderGets(w);
    HeaderGets(EncodeHeader(crc, id, h));
  }

  lemma HeaderGets(w: seq<Byte>)
    requires |w| == BLOCK_HEADER
    ensures Get64(w, 8) == U64At(w, 8) && Get64(w, 16) == U64At(w, 16) && Get32(w, 24) == U32At(w, 24)
    ensures Get32(w, 28) == U32At(w, 28) && Get32(w, 60) == U32At(w, 60)
    ensures w[..8] == BLOCK_MAGIC <==>
              && w[0] == 'U' as int && w[1] == 'S' as int && w[2] == 'B' as int && w[3] == 'L' as int
              && w[4] == 'O' as int && w[5] == 'C' as int && w[6] == 'K' as int && w[7] == '1' as int
  {
    hide Get32, Get64, U32At, U64At;
    Get64Is(w, 8);
    Get64Is(w, 16);
    Get32Is(w, 24);
    Get32Is(w, 28);
    Get32Is(w, 60);
    assert w[..8] == [w[0], w[1], w[2], w[3], w[4], w[5], w[6], w[7]];
  }

  /** A record's checksum is that of its store, slot and length, and then its bytes. */
  lemma SeededExactly(crc: Crc, id: U64, slot: U32, payload: seq<Byte>, s: seq<Byte>)
    requires |payload| < 0x1_0000_0000
    requires |s| >= 16 && U64At(s, 0) == id && U32At(s, 8) == slot && U32At(s, 12) == |payload| && s[16..] == payload
    ensures RecordCrc(crc, id, slot, payload) == crc(s)
  {
    hide U32At, U64At, Get32, Get64, Le;
    Get64Is(s, 0);
    Get32Is(s, 8);
    Get32Is(s, 12);
    assert Le(id, 8) == s[0..8] by { GetBack64(s, 0); }
    assert Le(slot, 4) == s[8..12] by { GetBack32(s, 8); }
    assert Le(|payload|, 4) == s[12..16] by { GetBack32(s, 12); }
    assert s == s[0..8] + s[8..12] + s[12..16] + s[16..];
  }

  lemma GetBack32(s: seq<Byte>, at: nat)
    requires at + 4 <= |s|
    ensures Le(Get32(s, at), 4) == s[at..at + 4]
  {
    LeUn(s[at..at + 4]);
  }

  lemma GetBack64(s: seq<Byte>, at: nat)
    requires at + 8 <= |s|
    ensures Le(Get64(s, at), 8) == s[at..at + 8]
  {
    LeUn(s[at..at + 8]);
  }

  // ---- blocks ---------------------------------------------------------------

  /** Bytes a record takes in the record area: a kept one none. */
  function Payload(r: SlotRecord): seq<Byte> { if r.kind == K_KEPT then [] else r.bytes }

  /** Room the block reserves for record bytes. */
  function DataLen(recs: seq<SlotRecord>): nat {
    if recs == [] then 0 else DataLen(recs[..|recs| - 1]) + |recs[|recs| - 1].bytes|
  }

  /** Room is reserved for every record's bytes, kept ones too. */
  lemma {:induction false} DataLenAdds(a: seq<SlotRecord>, b: seq<SlotRecord>, r: SlotRecord)
    ensures DataLen([r]) == |r.bytes| && DataLen(a + b) == DataLen(a) + DataLen(b)
    decreases |b|
  {
    assert [r][..0] == [];
    if b == [] {
      assert a + b == a;
    } else {
      DataLenAdds(a, b[..|b| - 1], r);
      assert (a + b)[..|a + b| - 1] == a + b[..|b| - 1];
    }
  }

  function Payloads(recs: seq<SlotRecord>): (s: seq<Byte>)
    ensures |s| <= DataLen(recs)
  {
    if recs == [] then [] else Payloads(recs[..|recs| - 1]) + Payload(recs[|recs| - 1])
  }

  /** Offset of record `k` in the record area. */
  function PayloadOff(recs: seq<SlotRecord>, k: nat): nat
    requires k <= |recs|
  {
    |Payloads(recs[..k])|
  }

  lemma {:induction false} PayloadAt(recs: seq<SlotRecord>, k: nat)
    requires k < |recs|
    ensures PayloadOff(recs, k) + |Payload(recs[k])| <= |Payloads(recs)|
    ensures Payloads(recs)[PayloadOff(recs, k)..PayloadOff(recs, k) + |Payload(recs[k])|] == Payload(recs[k])
    decreases |recs|
  {
    var front, last := recs[..|recs| - 1], recs[|recs| - 1];
    if k < |front| {
      PayloadAt(front, k);
      assert front[..k] == recs[..k];
    } else {
      assert recs[..k] == front;
    }
  }

  function BlockLen(recs: seq<SlotRecord>): nat {
    BLOCK_HEADER + |recs| * ENTRY + DataLen(recs)
  }

  /** What a committer may hand over: known kinds, lengths that fit their fields,
      and a block the claim rule believes, ending below 2^64. */
  predicate Committable(base: nat, recs: seq<SlotRecord>) {
    && recs != []
    && |recs| < 0x1_0000_0000
    && BlockLen(recs) < CLAIM_LIMIT
    && base + BlockLen(recs) < 0x1_0000_0000_0000_0000
    && forall k :: 0 <= k < |recs| ==> ValidKind(recs[k].kind) && |recs[k].bytes| < 0x1_0000_0000
  }

  function EntryOf(crc: Crc, id: U64, at: U64, r: SlotRecord): SlotEntry
    requires |r.bytes| < 0x1_0000_0000
  {
    if r.kind == K_KEPT then SlotEntry(r.slot, r.kind, 0, 0, 0)
    else SlotEntry(r.slot, r.kind, at, |r.bytes|, RecordCrc(crc, id, r.slot, r.bytes))
  }

  /** File offset of the record area of a block at `base`. */
  function RecordArea(base: nat, recs: seq<SlotRecord>): nat {
    base + BLOCK_HEADER + |recs| * ENTRY
  }

  function RecordOff(base: nat, recs: seq<SlotRecord>, k: nat): U64
    requires Committable(base, recs) && k < |recs|
  {
    PayloadAt(recs, k);
    RecordArea(base, recs) + PayloadOff(recs, k)
  }

  /** The entries of a block at `base`: records laid out one after another. */
  function BlockEntries(crc: Crc, id: U64, base: nat, recs: seq<SlotRecord>): (es: seq<SlotEntry>)
    requires Committable(base, recs)
    ensures |es| == |recs|
  {
    seq(|recs|, k requires 0 <= k < |recs| => EntryOf(crc, id, RecordOff(base, recs, k), recs[k]))
  }

  function HeaderOf(crc: Crc, id: U64, base: nat, recs: seq<SlotRecord>): BlockHeader
    requires Committable(base, recs)
  {
    BlockHeader(BlockLen(recs), |recs|, crc(EncodeEntries(BlockEntries(crc, id, base, recs))))
  }

  /** The block `commit` appends at `base`: header, entry table, records, and the
      zeros of a buffer a kept record's bytes never filled. */
  function BlockBytes(crc: Crc, id: U64, base: nat, recs: seq<SlotRecord>): (b: seq<Byte>)
    requires Committable(base, recs)
    ensures |b| == BlockLen(recs)
    ensures b[RecordArea(0, recs)..RecordArea(0, recs) + |Payloads(recs)|] == Payloads(recs)
  {
    Assemble(EncodeHeader(crc, id, HeaderOf(crc, id, base, recs)),
             EncodeEntries(BlockEntries(crc, id, base, recs)), Payloads(recs), DataLen(recs))
  }

  function Assemble(header: seq<Byte>, table: seq<Byte>, payload: seq<Byte>, room: nat): (b: seq<Byte>)
    requires |payload| <= room
    ensures |b| == |header| + |table| + room
    ensures b[..|header|] == header
    ensures b[|header|..|header| + |table|] == table
    ensures b[|header| + |table|..|header| + |table| + |payload|] == payload
  {
    header + table + payload + Zeros(room - |payload|)
  }

  /** The header of a block parses as what it is. */
  lemma BlockParses(crc: Crc, id: U64, base: nat, recs: seq<SlotRecord>)
    requires Committable(base, recs)
    ensures ParseHeader(crc, id, BlockBytes(crc, id, base, recs)[..BLOCK_HEADER])
            == Some(HeaderOf(crc, id, base, recs))
  {
    HeaderRoundTrip(crc, id, HeaderOf(crc, id, base, recs));
  }

  /** Reading a block's own entry table yields the entries committed: none of them is
      dropped as implausible. */
  lemma BlockDecodes(crc: Crc, id: U64, base: nat, recs: seq<SlotRecord>)
    requires Committable(base, recs)
    ensures DecodeEntries(EncodeEntries(BlockEntries(crc, id, base, recs)), base, BlockLen(recs))
            == BlockEntries(crc, id, base, recs)
  {
    var es := BlockEntries(crc, id, base, recs);
    forall k | 0 <= k < |es|
      ensures Plausible(es[k], base, BlockLen(recs))
    {
      PayloadAt(recs, k);
    }
    EntriesRoundTrip(es, base, BlockLen(recs));
  }

  /** Inside the block's image, at the offset its entry names, are a record's bytes. */
  lemma BlockHoldsRecord(crc: Crc, id: U64, base: nat, recs: seq<SlotRecord>, k: nat)
    requires Committable(base, recs) && k < |recs| && recs[k].kind != K_KEPT
    ensures var b := BlockBytes(crc, id, base, recs);
            var lo := RecordOff(base, recs, k) - base;
            0 <= lo && lo + |recs[k].bytes| <= |b| && b[lo..lo + |recs[k].bytes|] == recs[k].bytes
  {
    hide BlockBytes, Payloads, DataLen;
    PayloadAt(recs, k);
    var b, p := BlockBytes(crc, id, base, recs), Payloads(recs);
    var at, off, n := RecordArea(0, recs), PayloadOff(recs, k), |recs[k].bytes|;
    SliceOfSlice(b, at, |p|, off, n);
    assert RecordOff(base, recs, k) - base == at + off;
    assert b[at + off..at + off + n] == recs[k].bytes;
  }

  /** The sections of a block's image. */
  lemma BlockSections(crc: Crc, id: U64, base: nat, recs: seq<SlotRecord>)
    requires Committable(base, recs)
    ensures var b, h := BlockBytes(crc, id, base, recs), HeaderOf(crc, id, base, recs);
            && h.blockLen == |b| < CLAIM_LIMIT && h.n == |recs| > 0 && BLOCK_HEADER + h.n * ENTRY <= |b|
            && b[BLOCK_HEADER..BLOCK_HEADER + h.n * ENTRY] == EncodeEntries(BlockEntries(crc, id, base, recs))
            && crc(b[BLOCK_HEADER..BLOCK_HEADER + h.n * ENTRY]) == h.entsCrc
  {
    hide EncodeHeader, EncodeEntries, Payloads, DataLen;
  }

  /** The first entry of a block names a known kind. */
  lemma FirstKind(crc: Crc, id: U64, base: nat, recs: seq<SlotRecord>)
    requires Committable(base, recs)
    ensures BlockLen(recs) >= BLOCK_HEADER + ENTRY
    ensures ValidKind(BlockBytes(crc, id, base, recs)[BLOCK_HEADER + 4])
  {
    hide EncodeHeader, Payloads, DataLen, RecordCrc;
    var es := BlockEntries(crc, id, base, recs);
    var table, b := EncodeEntries(es), BlockBytes(crc, id, base, recs);
    assert table[..ENTRY] == EncodeEntry(es[0]);
    EntryFields(es[0]);
    assert b[BLOCK_HEADER..BLOCK_HEADER + |table|] == table;
    assert b[BLOCK_HEADER + 4] == table[4] == table[..ENTRY][4];
  }

}
