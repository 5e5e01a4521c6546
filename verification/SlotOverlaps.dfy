/** Runs in which a torn block is written over, and in which two handles disagree. */
module SlotOverlaps {
  import opened Bytes
  import opened SlotFormat
  import opened SlotLog
  import opened SlotRuns
  import opened SlotClaims

  const BIG: nat := 10000

  /** One record of `n` bytes. */
  function OneRecord(n: nat): seq<SlotRecord> { [SlotRecord(0, K_RAW, Zeros(n))] }

  lemma OneRecordLen(n: nat, base: nat)
    requires n < 0x1_0000 && base < 0x1_0000
    ensures BlockLen(OneRecord(n)) == BLOCK_HEADER + ENTRY + n && Committable(base, OneRecord(n))
  {
    var recs := OneRecord(n);
    assert recs[..0] == [] && DataLen([]) == 0;
    assert DataLen(recs) == DataLen(recs[..0]) + |recs[0].bytes|;
  }

  ghost function BlockAt(st: Store, base: nat, n: nat, written: nat): (b: Block)
    requires n < 0x1_0000 && base < 0x1_0000
    ensures b.base == base && b.owner == 0 && b.written == written && |b.image| == BLOCK_HEADER + ENTRY + n
  {
    OneRecordLen(n, base);
    NewBlock(st, base, OneRecord(n), 0, written)
  }

  /** Windows past the landed bytes of a short block are zeros. */
  lemma ShortIsClean(st: Store, b: Block)
    requires b.written <= ALIGN
    requires b.Visible() || b.Shown() || ParseHeader(st.crc, st.id, Cut(b.image, b.written, 0, BLOCK_HEADER)).None?
    ensures Clean(st, b)
  {
    hide ParseHeader;
    forall d: nat | d > 0 && d % ALIGN == 0 ensures ParseHeader(st.crc, st.id, Cut(b.image, b.written, d, BLOCK_HEADER)).None? {
      assert Cut(b.image, b.written, d, BLOCK_HEADER)[0] == 0;
      ZeroIsNoHeader(st.crc, st.id, Cut(b.image, b.written, d, BLOCK_HEADER));
    }
  }

  /** Handle 0 may commit one record of `n` bytes, of which `written` bytes of block land, when
      the next boundary is `base`. */
  lemma MayCommit(st: Store, s: State, base: nat, n: nat, written: nat) returns (s': State)
    requires Inv(st, s) && ClaimInv(s) && 0 in s.handles && n < 0x1_0000 && base < 0x1_0000
    requires AlignUp(Max(|s.file|, Furthest(s.log, 0))) == base && 0 < written <= BLOCK_HEADER + ENTRY + n
    requires var b := BlockAt(st, base, n, written);
             Clean(st, b) && TablesTell(st, Append(s.file, base, b.image[..written]), s.log + [b])
    ensures Follows(st, s, Commit(0, OneRecord(n), written), s') && Inv(st, s') && ClaimInv(s')
    ensures s'.log == s.log + [BlockAt(st, base, n, written)] && |s'.file| == base + written
    ensures s'.handles.Keys == s.handles.Keys && s'.nextId == s.nextId
  {
    var step := Commit(0, OneRecord(n), written);
    BaseIs(st, s, 0);
    OneRecordLen(n, base);
    hide Scan, BlockBytes, HeaderOf, BlockEntries, Clean, TablesTell, AlignUp, Inv, ClaimInv, MaxFor, BlockLen, OneRecord;
    assert Enabled(st, s, step);
    s' := Apply(st, s, step);
    StepKeepsInv(st, s, step);
    StepClaims(st, s, step);
  }

  lemma Started(st: Store) returns (s0: State, s1: State)
    requires st.start == ALIGN
    ensures Init(st, s0) && Follows(st, s0, Open, s1) && Inv(st, s1) && ClaimInv(s1)
    ensures s1 == State(Zeros(ALIGN), [], map[0 := Handle(ALIGN, 0, [])], 1)
  {
    s0 := State(Zeros(ALIGN), [], map[], 0);
    s1 := Apply(st, s0, Open);
    InitInv(st, s0);
    InitClaims(st, s0);
    hide Inv, ClaimInv;
    StepKeepsInv(st, s0, Open);
    StepClaims(st, s0, Open);
  }

  /** Torn tables of blocks longer than the file are not there to be read. */
  lemma NothingToTell(st: Store, file: seq<Byte>, log: seq<Block>)
    requires forall i :: 0 <= i < |log| ==> log[i].Complete() || log[i].End() > |file|
    ensures TablesTell(st, file, log)
  {}

  lemma Ends(written: nat)
    requires 0 < written < BLOCK_HEADER
    ensures AlignUp(Max(ALIGN, 0)) == ALIGN && AlignUp(Max(ALIGN + written, 0)) == 2 * ALIGN
  {}

  lemma NoClaims(b: Block, id: nat)
    requires !b.Visible()
    ensures Furthest([], id) == 0 && Furthest([b], id) == 0
  {
    var log := [b];
    assert !Claimed(log, id, 0) && MaxFor(log, id, 0) == 0;
  }

  /** A handle whose commit of a long block is cut inside the header, and which then commits a
      short one. */
  lemma TornThenWhole(st: Store, written: nat) returns (s0: State, s1: State, s2: State, s3: State)
    requires st.start == ALIGN && 0 < written < BLOCK_HEADER && Clean(st, BlockAt(st, ALIGN, BIG, written))
    ensures Init(st, s0) && Follows(st, s0, Open, s1)
    ensures Follows(st, s1, Commit(0, OneRecord(BIG), written), s2)
    ensures Follows(st, s2, Commit(0, OneRecord(0), BLOCK_HEADER + ENTRY), s3)
    ensures s3.handles.Keys == {0} && s3.nextId == 1 && |s3.file| == 2 * ALIGN + BLOCK_HEADER + ENTRY
    ensures s3.log == [BlockAt(st, ALIGN, BIG, written), BlockAt(st, 2 * ALIGN, 0, BLOCK_HEADER + ENTRY)]
    ensures Inv(st, s3) && ClaimInv(s3)
  {
    hide Inv, ClaimInv, Follows, Init, Clean, TablesTell, Append, MaxFor, AlignUp, BlockAt, OneRecord;
    s0, s1 := Started(st);
    var b1, b2 := BlockAt(st, ALIGN, BIG, written), BlockAt(st, 2 * ALIGN, 0, BLOCK_HEADER + ENTRY);
    Ends(written);
    NoClaims(b1, 0);
    AppendSize(s1.file, ALIGN, b1.image[..written]);
    assert s1.log + [b1] == [b1];
    NothingToTell(st, Append(s1.file, ALIGN, b1.image[..written]), [b1]);
    s2 := MayCommit(st, s1, ALIGN, BIG, written);
    AppendSize(s2.file, 2 * ALIGN, b2.image);
    assert b2.image[..b2.written] == b2.image;
    assert s2.log + [b2] == [b1, b2];
    NothingToTell(st, Append(s2.file, 2 * ALIGN, b2.image), [b1, b2]);
    ShortIsClean(st, b2);
    s3 := MayCommit(st, s2, 2 * ALIGN, 0, BLOCK_HEADER + ENTRY);
  }

  lemma AppendSize(file: seq<Byte>, base: nat, bytes: seq<Byte>)
    requires |file| <= base && bytes != []
    ensures |Append(file, base, bytes)| == base + |bytes|
  {}

  /** With any checksum: a commit of which one byte lands leaves an extent that the next block
      is written into. */
  lemma ExtentWrittenOver(st: Store) returns (states: seq<State>, steps: seq<Step>)
    requires st.start == ALIGN
    ensures Run(st, states, steps) && |states| > 0
    ensures var log := states[|states| - 1].log;
            |log| == 2 && !log[0].Complete() && log[1].Complete() && log[0].base < log[1].base && log[1].End() < log[0].End()
  {
    hide Follows, Init, BlockAt, Clean, Inv, ClaimInv, OneRecord, ParseHeader, Run;
    var b := BlockAt(st, ALIGN, BIG, 1);
    OneByteIsNoHeader(st.crc, st.id, b.image);
    ShortIsClean(st, b);
    var s0, s1, s2, s3 := TornThenWhole(st, 1);
    var first, second := Commit(0, OneRecord(BIG), 1), Commit(0, OneRecord(0), BLOCK_HEADER + ENTRY);
    states, steps := [s0, s1, s2, s3], [Open, first, second];
    ThreeSteps(st, s0, s1, s2, s3, Open, first, second);
  }

  lemma ThreeSteps(st: Store, s0: State, s1: State, s2: State, s3: State, a: Step, b: Step, c: Step)
    requires Init(st, s0) && Follows(st, s0, a, s1) && Follows(st, s1, b, s2) && Follows(st, s2, c, s3)
    ensures Run(st, [s0, s1, s2, s3], [a, b, c])
  {
    hide Init, Follows;
  }

  lemma OneMoreStep(st: Store, states: seq<State>, steps: seq<Step>, step: Step, s: State)
    requires Run(st, states, steps) && Follows(st, states[|states| - 1], step, s)
    ensures Run(st, states + [s], steps + [step])
  {
    hide Init, Follows;
    var states', steps' := states + [s], steps + [step];
    forall i | 0 <= i < |steps'| ensures Follows(st, states'[i], steps'[i], states'[i + 1]) {
      if i < |steps| { assert Follows(st, states[i], steps[i], states[i + 1]); }
    }
  }

  lemma OneByteIsNoHeader(crc: Crc, id: U64, image: seq<Byte>)
    ensures ParseHeader(crc, id, Cut(image, 1, 0, BLOCK_HEADER)).None?
  {
    var w := Cut(image, 1, 0, BLOCK_HEADER);
    assert w[..8][1] == 0;
  }

  /** With any checksum: when a commit is cut inside a header of which only zeros were left to
      write (its last byte, say, as one header in 256 has it), the committer, going on, never
      sees the header it left, and one that opens later does; they would put the next block
      at different places. */
  lemma HandlesDisagree(st: Store, written: nat) returns (states: seq<State>, steps: seq<Step>)
    requires st.start == ALIGN && 0 < written < BLOCK_HEADER && BlockAt(st, ALIGN, BIG, written).Shown()
    ensures Run(st, states, steps) && |states| > 0
    ensures var s := states[|states| - 1];
            s.handles.Keys == {0, 1} && NextBase(st, s, 0) < NextBase(st, s, 1)
  {
    hide Inv, ClaimInv, Follows, Init, Clean, NextBase, BlockAt, OneRecord, Run, MaxFor, AlignUp, Block.Shown;
    var b := BlockAt(st, ALIGN, BIG, written);
    ShortIsClean(st, b);
    var s0, s1, s2, s3 := TornThenWhole(st, written);
    var s4 := OpenedAfter(st, s3);
    BaseIs(st, s4, 0);
    BaseIs(st, s4, 1);
    FarApart(s4.log);
    var first, second := Commit(0, OneRecord(BIG), written), Commit(0, OneRecord(0), BLOCK_HEADER + ENTRY);
    ThreeSteps(st, s0, s1, s2, s3, Open, first, second);
    OneMoreStep(st, [s0, s1, s2, s3], [Open, first, second], Open, s4);
    states, steps := [s0, s1, s2, s3] + [s4], [Open, first, second] + [Open];
  }

  lemma OpenedAfter(st: Store, s: State) returns (s': State)
    requires Inv(st, s) && ClaimInv(s) && s.handles.Keys == {0} && s.nextId == 1
    ensures Follows(st, s, Open, s') && Inv(st, s') && ClaimInv(s')
    ensures s'.handles.Keys == {0, 1} && s'.log == s.log && s'.file == s.file
  {
    hide Inv, ClaimInv;
    s' := Apply(st, s, Open);
    StepKeepsInv(st, s, Open);
    StepClaims(st, s, Open);
  }

  /** There are such headers: with a checksum of zero, 63 bytes show all of it. */
  lemma LastByteZero(st: Store)
    requires forall x: seq<Byte> :: st.crc(x) == 0
    ensures BlockAt(st, ALIGN, BIG, 63).Shown()
  {
    hide EncodeEntries, BlockEntries, Payloads, DataLen;
    OneRecordLen(BIG, ALIGN);
    var recs := OneRecord(BIG);
    var h := HeaderOf(st.crc, st.id, ALIGN, recs);
    var image := BlockBytes(st.crc, st.id, ALIGN, recs);
    assert image[..BLOCK_HEADER] == EncodeHeader(st.crc, st.id, h);
    assert EncodeHeader(st.crc, st.id, h)[63] == Le(0, 4)[3];
    assert image[63] == image[..BLOCK_HEADER][63] == 0;
  }

  /** The long block reaches further than the short one. */
  lemma FarApart(log: seq<Block>)
    requires |log| == 2 && log[0].Shown() && !log[0].Visible() && log[1].Complete() && log[1].owner == 0 && log[1].Visible()
    requires log[0].End() == ALIGN + BLOCK_HEADER + ENTRY + BIG && log[1].End() == 2 * ALIGN + BLOCK_HEADER + ENTRY
    ensures AlignUp(Max(log[1].End(), Furthest(log, 0))) < AlignUp(Max(log[1].End(), Furthest(log, 1)))
  {
    assert !Claimed(log, 0, 0) && Claimed(log, 1, 0) && Claimed(log, 0, 1) && Claimed(log, 1, 1);
    assert MaxFor(log, 0, 1) == 0 && MaxFor(log, 1, 1) == log[0].End();
    assert MaxFor(log, 0, 2) == log[1].End() && MaxFor(log, 1, 2) == log[0].End();
  }
}
