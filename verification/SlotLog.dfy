/** The slot store's shared file: what scanning it yields, and how its bytes
    follow from the log of blocks ever appended to it, torn ones included. */
module SlotLog {
  import opened Bytes
  import opened SlotFormat

  /** One incarnation of a store: its checksum, its random id, and the first
      boundary past header and layout blob. */
  datatype Store = Store(crc: Crc, id: U64, start: nat)

  /** A block a scan accepted, with the entries it handed out. */
  datatype Hit = Hit(base: nat, entries: seq<SlotEntry>)
  datatype Scanned = Scanned(hits: seq<Hit>, pos: nat, claimed: nat)

  // ---- scanning ---------------------------------------------------------------

  function HeaderAt(st: Store, file: seq<Byte>, pos: nat): Option<BlockHeader>
    requires pos + BLOCK_HEADER <= |file|
  {
    ParseHeader(st.crc, st.id, file[pos..pos + BLOCK_HEADER])
  }

  function Claim(claimed: nat, pos: nat, h: Option<BlockHeader>): nat {
    if h.Some? && BLOCK_HEADER <= h.value.blockLen < CLAIM_LIMIT
    then Max(claimed, pos + h.value.blockLen) else claimed
  }

  /** The block is whole as far as the file's length and its entry table tell. */
  predicate Accepts(crc: Crc, file: seq<Byte>, pos: nat, h: Option<BlockHeader>) {
    && h.Some?
    && var BlockHeader(blockLen, n, entsCrc) := h.value;
    && blockLen >= BLOCK_HEADER + n * ENTRY
    && pos + blockLen <= |file|
    && (n == 0 || crc(file[pos + BLOCK_HEADER..pos + BLOCK_HEADER + n * ENTRY]) == entsCrc)
  }

  function HitAt(crc: Crc, file: seq<Byte>, pos: nat, h: Option<BlockHeader>): Hit
    requires Accepts(crc, file, pos, h)
  {
    var tableLen: nat := h.value.n * ENTRY;
    Hit(pos, DecodeEntries(file[pos + BLOCK_HEADER..pos + BLOCK_HEADER + tableLen], pos, h.value.blockLen))
  }

  /** Where the scan goes next: past an accepted block, else one boundary on. */
  function Onward(crc: Crc, file: seq<Byte>, pos: nat, h: Option<BlockHeader>): (p: nat)
    ensures p >= pos + BLOCK_HEADER
  {
    if Accepts(crc, file, pos, h) then AlignUp(pos + h.value.blockLen) else pos + ALIGN
  }

  /** Everything a reader standing at `pos` finds in the file as it is now. */
  function Scan(st: Store, file: seq<Byte>, pos: nat, claimed: nat): Scanned
    decreases |file| - pos
  {
    if pos + BLOCK_HEADER > |file| then Scanned([], pos, claimed)
    else
      var h := HeaderAt(st, file, pos);
      var rest := Scan(st, file, Onward(st.crc, file, pos, h), Claim(claimed, pos, h));
      if Accepts(st.crc, file, pos, h)
      then rest.(hits := [HitAt(st.crc, file, pos, h)] + rest.hits)
      else rest
  }

  /** The block at `pos` with header `b` fits the file, and its entry table carries its checksum. */
  ghost predicate Sound(crc: Crc, file: seq<Byte>, pos: nat, b: BlockHeader) {
    && 64 + 24 * b.n <= b.blockLen && pos + b.blockLen <= |file|
    && (b.n == 0 || crc(file[pos + 64..pos + 64 + 24 * b.n]) == b.entsCrc)
  }

  /** What makes a block at a boundary acceptable, and what its header claims either way. */
  lemma BoundaryExactly(st: Store, file: seq<Byte>, pos: nat, claimed: nat, b: BlockHeader)
    requires pos + BLOCK_HEADER <= |file|
    ensures var h := HeaderAt(st, file, pos);
            && (h == Some(b) <==> HeaderSays(st.crc, st.id, file[pos..pos + 64], b))
            && (h == Some(b) ==> (Accepts(st.crc, file, pos, h) <==> Sound(st.crc, file, pos, b)))
            && (h.None? ==> !Accepts(st.crc, file, pos, h) && Claim(claimed, pos, h) == claimed)
            && (h == Some(b) ==> Claim(claimed, pos, h) == if 64 <= b.blockLen < 0x100_0000_0000 then Max(claimed, pos + b.blockLen) else claimed)
  {
    hide HeaderSays, ParseHeader;
    HeaderExactly(st.crc, st.id, file[pos..pos + 64], b);
    assert 24 * b.n == b.n * ENTRY;
  }

  function Flatten(hits: seq<Hit>): seq<SlotEntry> {
    if hits == [] then [] else hits[0].entries + Flatten(hits[1..])
  }

  // ---- the log ------------------------------------------------------------------

  /** A block some handle appended at `base`: its whole image, what the image's
      header and entry table say, the records it was made of, and how many of its
      bytes landed. */
  datatype Block = Block(base: nat, image: seq<Byte>, header: BlockHeader,
                         entries: seq<SlotEntry>, recs: seq<SlotRecord>, owner: nat, written: nat)
  {
    predicate Complete() { written == |image| }

    /** Its whole header landed. */
    predicate Visible() { written >= BLOCK_HEADER }

    /** The file shows its header whole: what of it did not land is zeros anyway. */
    predicate Shown() { |image| >= BLOCK_HEADER && forall j :: written <= j < BLOCK_HEADER ==> image[j] == 0 }

    /** The extent it owns: all of it once its header has landed to claim it, else
        only the bytes that landed. */
    function Owned(): nat { if Visible() then |image| else written }

    function End(): nat { base + |image| }

    function TableLen(): nat { header.n * ENTRY }

    predicate Shaped(start: nat) {
      && base % ALIGN == 0 && base >= start
      && 0 < written <= |image| && BLOCK_HEADER + TableLen() <= |image|
    }

    /** What the file shows at offset `x` of the block. */
    function CutByte(x: nat): Byte {
      if x < written && x < |image| then image[x] else 0
    }
  }

  /** The image is a block: its header and table parse as what they are. */
  ghost predicate Genuine(st: Store, b: Block)
    requires b.Shaped(st.start)
  {
    && b.header.blockLen == |b.image| && |b.image| < CLAIM_LIMIT
    && ParseHeader(st.crc, st.id, b.image[..BLOCK_HEADER]) == Some(b.header)
    && st.crc(b.image[BLOCK_HEADER..BLOCK_HEADER + b.TableLen()]) == b.header.entsCrc
    && DecodeEntries(b.image[BLOCK_HEADER..BLOCK_HEADER + b.TableLen()], b.base, |b.image|) == b.entries
    && b.header.n > 0 && b.image[BLOCK_HEADER + 4] != 0 // the first entry's kind
  }

  function Cut(image: seq<Byte>, k: nat, from: nat, n: nat): (s: seq<Byte>)
    ensures |s| == n
  {
    seq(n, j requires 0 <= j < n => if from + j < k && from + j < |image| then image[from + j] else 0)
  }

  /** The hypothesis on a block as it landed: no later boundary inside it shows a header of
      this store, and if its own header was cut and what is left still passes for one, it is
      the header that was meant. */
  ghost predicate Clean(st: Store, b: Block) {
    && (forall d: nat {:trigger Cut(b.image, b.written, d, BLOCK_HEADER)} :: d > 0 && d % ALIGN == 0
          ==> ParseHeader(st.crc, st.id, Cut(b.image, b.written, d, BLOCK_HEADER)).None?)
    && (!b.Visible() ==>
          ParseHeader(st.crc, st.id, Cut(b.image, b.written, 0, BLOCK_HEADER)).None? || b.Shown())
  }

  /** Where the file holds block `b`'s entry table: bytes that carry its checksum are it. */
  ghost predicate TableTells(st: Store, file: seq<Byte>, b: Block)
    requires b.End() <= |file| && BLOCK_HEADER + b.TableLen() <= |b.image|
  {
    var at, n := b.base + BLOCK_HEADER, b.TableLen();
    st.crc(file[at..at + n]) == b.header.entsCrc ==> file[at..at + n] == b.image[BLOCK_HEADER..BLOCK_HEADER + n]
  }

  /** The hypothesis on the file as it is now: of the torn blocks that still show their header,
      none shows other bytes than its entry table under that table's checksum. */
  ghost predicate TablesTell(st: Store, file: seq<Byte>, log: seq<Block>) {
    forall i :: 0 <= i < |log| && !log[i].Complete() && log[i].Shown() && log[i].End() <= |file|
                && BLOCK_HEADER + log[i].TableLen() <= |log[i].image|
      ==> TableTells(st, file, log[i])
  }

  /** No two blocks' extents overlap, torn ones included, and the log is in file order. */
  ghost predicate Disjoint(log: seq<Block>) {
    forall i, j :: 0 <= i < j < |log| ==> log[i].base + log[i].Owned() <= log[j].base
  }

  ghost predicate Laid(start: nat, log: seq<Block>) {
    && start % ALIGN == 0
    && (forall i :: 0 <= i < |log| ==> log[i].Shaped(start))
    && Disjoint(log)
  }

  ghost predicate AllGenuine(st: Store, log: seq<Block>)
    requires Laid(st.start, log)
  {
    forall i :: 0 <= i < |log|
      ==> Genuine(st, log[i]) && Clean(st, log[i])
  }

  /** The byte the log puts at file offset `x`. */
  function ByteAt(log: seq<Block>, x: nat): Byte {
    if log == [] then 0
    else
      var b := log[|log| - 1];
      if b.base <= x then b.CutByte(x - b.base) else ByteAt(log[..|log| - 1], x)
  }

  ghost predicate FileIs(start: nat, file: seq<Byte>, log: seq<Block>) {
    && (forall i :: 0 <= i < |log| ==> log[i].base + log[i].written <= |file|)
    && (forall x: nat :: start <= x < |file| ==> file[x] == ByteAt(log, x))
  }

  /** All that is known of a store's file and the log behind it. */
  ghost predicate Stored(st: Store, file: seq<Byte>, log: seq<Block>) {
    Laid(st.start, log) && FileIs(st.start, file, log) && AllGenuine(st, log) && TablesTell(st, file, log)
  }

  // ---- what the bytes at a boundary are ----------------------------------------

  /** Inside a block's extent the file shows that block, cut where it was cut. */
  lemma {:induction false} InsideBlock(start: nat, log: seq<Block>, i: nat, x: nat)
    requires Laid(start, log) && i < |log|
    requires log[i].base <= x && (i + 1 < |log| ==> x < log[i + 1].base)
    ensures ByteAt(log, x) == log[i].CutByte(x - log[i].base)
    decreases |log|
  {
    if i + 1 < |log| {
      var last := |log| - 1;
      assert log[i + 1].base <= log[last].base by {
        if i + 1 < last { assert log[i + 1].base + log[i + 1].Owned() <= log[last].base; }
      }
      InsideBlock(start, log[..last], i, x);
    }
  }

  lemma {:induction false} BeforeBlocks(log: seq<Block>, x: nat)
    requires forall i :: 0 <= i < |log| ==> x < log[i].base
    ensures ByteAt(log, x) == 0
  {
    if log != [] {
      BeforeBlocks(log[..|log| - 1], x);
    }
  }

  /** Last block at or before `pos`, or -1. */
  lemma BlockBefore(log: seq<Block>, pos: nat) returns (i: int)
    requires Disjoint(log)
    ensures -1 <= i < |log|
    ensures 0 <= i ==> log[i].base <= pos
    ensures forall j :: i < j < |log| ==> pos < log[j].base
  {
    i := |log| - 1;
    while i >= 0 && log[i].base > pos
      invariant -1 <= i < |log|
      invariant forall j :: i < j < |log| ==> pos < log[j].base
    {
      i := i - 1;
    }
  }

  /** The file between two offsets that no later block starts inside. */
  lemma SliceOfBlock(start: nat, file: seq<Byte>, log: seq<Block>, i: nat, from: nat, n: nat)
    requires Laid(start, log) && FileIs(start, file, log) && i < |log|
    requires log[i].base <= from && from + n <= |file|
    requires i + 1 < |log| ==> from + n <= log[i + 1].base
    ensures file[from..from + n] == Cut(log[i].image, log[i].written, from - log[i].base, n)
  {
    var got, want := file[from..from + n], Cut(log[i].image, log[i].written, from - log[i].base, n);
    forall j | 0 <= j < n
      ensures got[j] == want[j]
    {
      InsideBlock(start, log, i, from + j);
    }
  }

  lemma BoundaryGap(a: nat, b: nat)
    requires a % ALIGN == 0 && b % ALIGN == 0 && a < b
    ensures a + ALIGN <= b && (b - a) % ALIGN == 0
  {}

  lemma ZeroIsNoHeader(crc: Crc, id: U64, w: seq<Byte>)
    requires |w| == BLOCK_HEADER && w[0] == 0
    ensures ParseHeader(crc, id, w).None?
  {
    assert w[..8][0] == 0;
  }

  /** The 64 bytes at a boundary are those of the last block at or before it. */
  lemma WindowOfBlock(start: nat, file: seq<Byte>, log: seq<Block>, i: nat, pos: nat)
    requires Laid(start, log) && FileIs(start, file, log) && i < |log|
    requires pos % ALIGN == 0 && log[i].base <= pos && pos + BLOCK_HEADER <= |file|
    requires i + 1 < |log| ==> pos < log[i + 1].base
    ensures (pos - log[i].base) % ALIGN == 0
    ensures file[pos..pos + BLOCK_HEADER] == Cut(log[i].image, log[i].written, pos - log[i].base, BLOCK_HEADER)
  {
    if log[i].base < pos { BoundaryGap(log[i].base, pos); }
    if i + 1 < |log| { BoundaryGap(pos, log[i + 1].base); }
    SliceOfBlock(start, file, log, i, pos, BLOCK_HEADER);
  }

  /** Soundness of the header test: at a boundary of the file a header parses only
      where a block that shows its header was appended. */
  lemma HeaderIsBlock(st: Store, file: seq<Byte>, log: seq<Block>, pos: nat) returns (i: nat)
    requires Stored(st, file, log)
    requires pos % ALIGN == 0 && st.start <= pos && pos + BLOCK_HEADER <= |file|
    requires HeaderAt(st, file, pos).Some?
    ensures i < |log| && log[i].base == pos && log[i].Shown()
  {
    hide ParseHeader, TablesTell;
    var k := BlockBefore(log, pos);
    if k < 0 {
      BeforeBlocks(log, pos);
      ZeroIsNoHeader(st.crc, st.id, file[pos..pos + BLOCK_HEADER]);
      assert false;
    }
    i := k;
    WindowOfBlock(st.start, file, log, i, pos);
    assert Clean(st, log[i]);
    ShownIs(log[i]);
  }

  /** A header shows exactly when the cut leaves it as it was. */
  lemma ShownIs(b: Block)
    requires |b.image| >= BLOCK_HEADER
    ensures b.Shown() <==> Cut(b.image, b.written, 0, BLOCK_HEADER) == b.image[..BLOCK_HEADER]
    ensures b.Visible() ==> b.Shown()
  {
    var w := Cut(b.image, b.written, 0, BLOCK_HEADER);
    if b.Shown() {
      assert forall j :: 0 <= j < BLOCK_HEADER ==> w[j] == b.image[..BLOCK_HEADER][j];
    }
    if w == b.image[..BLOCK_HEADER] {
      forall j | b.written <= j < BLOCK_HEADER ensures b.image[j] == 0 { assert w[j] == b.image[..BLOCK_HEADER][j]; }
    }
  }

  /** Completeness: a header that shows parses, as the header it was given, once the file
      reaches past it. */
  lemma BlockHasHeader(st: Store, file: seq<Byte>, log: seq<Block>, i: nat)
    requires Stored(st, file, log) && i < |log| && log[i].Shown() && log[i].base + BLOCK_HEADER <= |file|
    ensures HeaderAt(st, file, log[i].base) == Some(log[i].header)
  {
    hide ParseHeader, TablesTell;
    if i + 1 < |log| { LaterBase(st.start, log, i); }
    WindowOfBlock(st.start, file, log, i, log[i].base);
    ShownIs(log[i]);
    assert Genuine(st, log[i]);
  }

  lemma LaterBase(start: nat, log: seq<Block>, i: nat)
    requires Laid(start, log) && i + 1 < |log|
    ensures log[i].base + ALIGN <= log[i + 1].base
  {
    assert log[i].base + log[i].Owned() <= log[i + 1].base;
    BoundaryGap(log[i].base, log[i + 1].base);
  }

  /** The entry table the file shows for a visible block that lies inside the file. */
  lemma TableOfBlock(st: Store, file: seq<Byte>, log: seq<Block>, i: nat)
    requires Laid(st.start, log) && FileIs(st.start, file, log)
    requires i < |log| && log[i].Visible() && log[i].End() <= |file|
    ensures var b := log[i];
            var at, n := b.base + BLOCK_HEADER, b.TableLen();
            && file[at..at + n] == Cut(b.image, b.written, BLOCK_HEADER, n)
            && (b.Complete() ==> file[at..at + n] == b.image[BLOCK_HEADER..BLOCK_HEADER + n])
  {
    var b := log[i];
    var n := b.TableLen();
    if i + 1 < |log| { assert b.base + b.Owned() <= log[i + 1].base; }
    SliceOfBlock(st.start, file, log, i, b.base + BLOCK_HEADER, n);
    if b.Complete() {
      assert Cut(b.image, b.written, BLOCK_HEADER, n) == b.image[BLOCK_HEADER..BLOCK_HEADER + n];
    }
  }

  /** Of a block whose header was cut the file shows no entry, so its table is not all there. */
  lemma CutHeaderNoTable(st: Store, file: seq<Byte>, log: seq<Block>, i: nat)
    requires Stored(st, file, log) && i < |log| && !log[i].Visible() && log[i].End() <= |file|
    ensures var b := log[i];
            var at, n := b.base + BLOCK_HEADER, b.TableLen();
            file[at..at + n] != b.image[BLOCK_HEADER..BLOCK_HEADER + n]
  {
    hide ParseHeader, DecodeEntries, TablesTell, Clean;
    var b := log[i];
    assert Genuine(st, b);
    var at, n := b.base + BLOCK_HEADER, b.TableLen();
    if i + 1 < |log| { LaterBase(st.start, log, i); }
    InsideBlock(st.start, log, i, at + 4);
    assert file[at + 4] == 0;
    assert n >= ENTRY;
    var there, meant := file[at..at + n], b.image[BLOCK_HEADER..BLOCK_HEADER + n];
    assert there[4] == file[at + 4];
    assert meant[4] == b.image[BLOCK_HEADER + 4];
  }

  /** What accepting the block at a boundary hands out is exactly what was committed
      there, a complete block is always accepted, and one without a landed header never. */
  lemma AcceptedIsCommitted(st: Store, file: seq<Byte>, log: seq<Block>, i: nat)
    requires Stored(st, file, log) && i < |log| && log[i].Shown()
    ensures var b := log[i];
            && (b.Complete() ==> Accepts(st.crc, file, b.base, Some(b.header)))
            && (Accepts(st.crc, file, b.base, Some(b.header))
                ==> b.Visible() && HitAt(st.crc, file, b.base, Some(b.header)) == HitOf(b))
  {
    var b := log[i];
    assert Genuine(st, b) && b.base + b.written <= |file|;
    hide ParseHeader, DecodeEntries, Clean, FileIs, Disjoint;
    if b.End() <= |file| {
      if b.Visible() { TableOfBlock(st, file, log, i); } else { CutHeaderNoTable(st, file, log, i); }
      if !b.Complete() { assert TableTells(st, file, b); }
    }
  }

  // ---- what a scan finds ----------------------------------------------------------

  ghost predicate IsBlock(log: seq<Block>, hit: Hit) {
    exists i :: 0 <= i < |log| && log[i].Visible() && hit == HitOf(log[i])
  }

  function HitOf(b: Block): Hit { Hit(b.base, b.entries) }

  ghost predicate Ascending(hits: seq<Hit>) {
    forall i, j :: 0 <= i < j < |hits| ==> hits[i].base < hits[j].base
  }

  /** Ascending blocks of the log between two offsets. */
  ghost predicate Found(log: seq<Block>, hits: seq<Hit>, lo: nat, hi: nat) {
    && Ascending(hits)
    && forall j :: 0 <= j < |hits| ==> lo <= hits[j].base < hi && IsBlock(log, hits[j])
  }

  ghost predicate FindsAll(log: seq<Block>, hits: seq<Hit>, lo: nat) {
    forall i :: 0 <= i < |log| && log[i].Complete() && log[i].base >= lo ==> HitOf(log[i]) in hits
  }

  /** The claim of every block from `lo` on whose header the file of `size` bytes shows. */
  ghost predicate ClaimsAll(log: seq<Block>, size: nat, claimed: nat, lo: nat) {
    forall i :: 0 <= i < |log| && log[i].Shown() && log[i].base >= lo && log[i].base + BLOCK_HEADER <= size
      ==> claimed >= log[i].End()
  }

  /** Blocks passed over lie where there was a header's worth of file to look at. */
  ghost predicate Looked(log: seq<Block>, size: nat, lo: nat, hi: nat) {
    forall i :: 0 <= i < |log| && lo <= log[i].base < hi ==> log[i].base + BLOCK_HEADER <= size
  }

  /** A scan from any boundary: ascending blocks of the log and nothing else, every
      complete block from there on, and the claim of every visible one. */
  ghost predicate ScanOf(file: seq<Byte>, log: seq<Block>, pos: nat, claimed: nat, r: Scanned) {
    && pos <= r.pos <= Max(pos, AlignUp(|file|))
    && r.pos % ALIGN == 0 && r.pos + BLOCK_HEADER > |file|
    && r.claimed >= claimed
    && Found(log, r.hits, pos, r.pos)
    && FindsAll(log, r.hits, pos)
    && ClaimsAll(log, |file|, r.claimed, pos)
    && Looked(log, |file|, pos, r.pos)
  }

  /** The scan's next boundary skips no block. */
  lemma SkipNothing(st: Store, file: seq<Byte>, log: seq<Block>, pos: nat)
    requires Stored(st, file, log)
    requires pos % ALIGN == 0 && st.start <= pos && pos + BLOCK_HEADER <= |file|
    ensures var next := Onward(st.crc, file, pos, HeaderAt(st, file, pos));
            next % ALIGN == 0 && next <= AlignUp(|file|) && forall j :: 0 <= j < |log| && log[j].base > pos ==> log[j].base >= next
  {
    hide ParseHeader, DecodeEntries, Clean, FileIs, TablesTell, AllGenuine, AlignUp;
    var h := HeaderAt(st, file, pos);
    var size := if Accepts(st.crc, file, pos, h) then h.value.blockLen else 1;
    if Accepts(st.crc, file, pos, h) {
      var i := HeaderIsBlock(st, file, log, pos);
      BlockHasHeader(st, file, log, i);
      AcceptedIsCommitted(st, file, log, i);
      assert |log[i].image| == size by { GenuineLength(st, log, i); }
      forall j | 0 <= j < |log| && log[j].base > pos ensures log[j].base >= pos + size {
        AfterBlock(log, i, j);
      }
    }
    assert Onward(st.crc, file, pos, h) == AlignUp(pos + size) by { OneStep(pos); }
    forall j | 0 <= j < |log| && log[j].base > pos ensures log[j].base >= AlignUp(pos + size) {
      AlignedPast(pos + size, log[j].base);
    }
    AlignedPast(pos + size, AlignUp(|file|));
  }

  lemma GenuineLength(st: Store, log: seq<Block>, i: nat)
    requires Laid(st.start, log) && AllGenuine(st, log) && i < |log|
    ensures log[i].header.blockLen == |log[i].image|
  {
    hide ParseHeader, DecodeEntries, Clean;
    assert Genuine(st, log[i]);
  }

  lemma AfterBlock(log: seq<Block>, i: nat, j: nat)
    requires Disjoint(log) && i < |log| && j < |log| && log[i].Visible() && log[j].base > log[i].base
    ensures log[j].base >= log[i].End()
  {}

  /** A boundary at or past `x` is at or past the next one from `x`. */
  lemma AlignedPast(x: nat, y: nat)
    requires y % ALIGN == 0 && x <= y
    ensures AlignUp(x) <= y
  {}

  lemma OneStep(pos: nat)
    requires pos % ALIGN == 0
    ensures AlignUp(pos + 1) == pos + ALIGN
  {}

  /** The header at a boundary, seen as the block standing there (if any). */
  lemma AtBoundary(st: Store, file: seq<Byte>, log: seq<Block>, pos: nat, claimed: nat)
    requires Stored(st, file, log)
    requires pos % ALIGN == 0 && st.start <= pos && pos + BLOCK_HEADER <= |file|
    ensures var h := HeaderAt(st, file, pos);
            && (Accepts(st.crc, file, pos, h) ==> IsBlock(log, HitAt(st.crc, file, pos, h)))
            && (forall i :: 0 <= i < |log| && log[i].base == pos && log[i].Complete()
                  ==> Accepts(st.crc, file, pos, h) && HitAt(st.crc, file, pos, h) == HitOf(log[i]))
            && (forall i :: 0 <= i < |log| && log[i].base == pos && log[i].Shown()
                  ==> Claim(claimed, pos, h) >= log[i].End())
  {
    hide ParseHeader, DecodeEntries, FileIs, TablesTell, Clean, Disjoint;
    var h := HeaderAt(st, file, pos);
    forall i | 0 <= i < |log| && log[i].base == pos
      ensures log[i].Complete() ==> log[i].Shown()
    {
      ShownIs(log[i]);
    }
    forall i | 0 <= i < |log| && log[i].base == pos && log[i].Shown()
      ensures log[i].Complete() ==> Accepts(st.crc, file, pos, h) && HitAt(st.crc, file, pos, h) == HitOf(log[i])
      ensures Claim(claimed, pos, h) >= log[i].End()
    {
      BlockHasHeader(st, file, log, i);
      AcceptedIsCommitted(st, file, log, i);
      assert Genuine(st, log[i]);
    }
    if Accepts(st.crc, file, pos, h) {
      var i := HeaderIsBlock(st, file, log, pos);
      BlockHasHeader(st, file, log, i);
      AcceptedIsCommitted(st, file, log, i);
    }
  }

  /** Prepending the block at the boundary to what the rest of the scan found. */
  lemma ConsHit(log: seq<Block>, hit: Hit, hits: seq<Hit>, pos: nat, next: nat, hi: nat)
    requires Found(log, hits, next, hi) && FindsAll(log, hits, next)
    requires hit.base == pos < next <= hi && IsBlock(log, hit)
    requires forall i :: 0 <= i < |log| && log[i].Complete() && log[i].base >= pos
               ==> log[i].base >= next || HitOf(log[i]) == hit
    ensures Found(log, [hit] + hits, pos, hi) && FindsAll(log, [hit] + hits, pos)
  {
    assert ([hit] + hits)[0] == hit;
  }

  lemma ScanStep(st: Store, file: seq<Byte>, log: seq<Block>, pos: nat, claimed: nat)
    requires Stored(st, file, log)
    requires pos % ALIGN == 0 && st.start <= pos && pos + BLOCK_HEADER <= |file|
    requires var h := HeaderAt(st, file, pos);
             var next, claimed' := Onward(st.crc, file, pos, h), Claim(claimed, pos, h);
             ScanOf(file, log, next, claimed', Scan(st, file, next, claimed'))
    ensures ScanOf(file, log, pos, claimed, Scan(st, file, pos, claimed))
  {
    var h := HeaderAt(st, file, pos);
    var next, claimed' := Onward(st.crc, file, pos, h), Claim(claimed, pos, h);
    var rest := Scan(st, file, next, claimed');
    SkipNothing(st, file, log, pos);
    AtBoundary(st, file, log, pos, claimed);
    hide ParseHeader, DecodeEntries, Stored, AlignUp, Block.Shown;
    if Accepts(st.crc, file, pos, h) {
      ConsHit(log, HitAt(st.crc, file, pos, h), rest.hits, pos, next, rest.pos);
    }
  }

  lemma {:induction false} ScanIsSound(st: Store, file: seq<Byte>, log: seq<Block>, pos: nat, claimed: nat)
    requires Stored(st, file, log)
    requires pos % ALIGN == 0 && st.start <= pos
    ensures ScanOf(file, log, pos, claimed, Scan(st, file, pos, claimed))
    decreases |file| - pos
  {
    if pos + BLOCK_HEADER > |file| {
      assert forall i :: 0 <= i < |log| && log[i].base >= pos ==> !log[i].Visible() && !log[i].Complete();
    } else {
      var h := HeaderAt(st, file, pos);
      SkipNothing(st, file, log, pos);
      ScanIsSound(st, file, log, Onward(st.crc, file, pos, h), Claim(claimed, pos, h));
      ScanStep(st, file, log, pos, claimed);
    }
  }
}
