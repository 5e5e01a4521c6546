/** The slot store handle itself: scanning loops and block building over a shared
    file, proved to take exactly the steps that runs are made of. */
module SlotStores {
  import opened Bytes
  import opened SlotFormat
  import opened SlotLog
  import opened SlotRuns

  /** The file all handles of a store share. */
  class SharedFile {
    var bytes: seq<Byte>

    constructor (bytes: seq<Byte>)
      ensures this.bytes == bytes
    {
      this.bytes := bytes;
    }
  }

  const EINVAL: int := 22
  const EIO: int := 5
  const ESTALE: int := 116

  /** The records whose slots nobody has taken, in order. */
  function Untaken(recs: seq<SlotRecord>, taken: set<U32>): seq<SlotRecord> {
    if recs == [] then []
    else
      var last := recs[|recs| - 1];
      Untaken(recs[..|recs| - 1], taken) + if last.slot in taken then [] else [last]
  }

  /** `write` is the records at the positions `at`, which are exactly those of untaken slots, in
      order. */
  ghost predicate Picks(recs: seq<SlotRecord>, taken: set<U32>, write: seq<SlotRecord>, at: seq<nat>) {
    && |at| == |write|
    && (forall j :: 0 <= j < |at| ==> at[j] < |recs| && recs[at[j]].slot !in taken && write[j] == recs[at[j]])
    && (forall i, j :: 0 <= i < j < |at| ==> at[i] < at[j])
    && (forall k :: 0 <= k < |recs| && recs[k].slot !in taken ==> k in at)
  }

  lemma {:induction false} UntakenPicks(recs: seq<SlotRecord>, taken: set<U32>) returns (at: seq<nat>)
    ensures Picks(recs, taken, Untaken(recs, taken), at)
    decreases |recs|
  {
    hide Picks;
    if recs == [] {
      at := [];
      NothingPicked(taken);
    } else {
      var front, last := recs[..|recs| - 1], recs[|recs| - 1];
      var before := UntakenPicks(front, taken);
      at := if last.slot in taken then before else before + [|recs| - 1];
      PicksOneMore(front, last, taken, Untaken(front, taken), before);
      assert front + [last] == recs;
      assert Untaken(front, taken) + [] == Untaken(front, taken);
    }
  }

  lemma NothingPicked(taken: set<U32>)
    ensures Picks([], taken, [], [])
  {}

  lemma PicksOneMore(recs: seq<SlotRecord>, last: SlotRecord, taken: set<U32>, write: seq<SlotRecord>, at: seq<nat>)
    requires Picks(recs, taken, write, at)
    ensures if last.slot in taken then Picks(recs + [last], taken, write, at)
            else Picks(recs + [last], taken, write + [last], at + [|recs|])
  {
    var more := recs + [last];
    assert forall j :: 0 <= j < |at| ==> more[at[j]] == recs[at[j]];
    if last.slot !in taken {
      var at' := at + [|recs|];
      forall k | 0 <= k < |more| && more[k].slot !in taken ensures k in at' {
        if k < |recs| { assert k in at; } else { assert at'[|at|] == k; }
      }
    }
  }

  lemma FlattenAppend(a: seq<Hit>, h: Hit)
    ensures Flatten(a + [h]) == Flatten(a) + h.entries
  {
    if a == [] {
      assert a + [h] == [h];
    } else {
      FlattenAppend(a[1..], h);
      assert (a + [h])[1..] == a[1..] + [h];
    }
  }

  lemma NothingFlat()
    ensures Flatten([]) == []
  {}

  /** One turn of the scanning loop. */
  lemma ScanUnfolds(st: Store, bytes: seq<Byte>, pos: nat, claimed: nat)
    requires pos + BLOCK_HEADER <= |bytes|
    ensures var h := HeaderAt(st, bytes, pos);
            var all := Scan(st, bytes, pos, claimed);
            if Accepts(st.crc, bytes, pos, h) then
              var rest := Scan(st, bytes, AlignUp(pos + h.value.blockLen), Claim(claimed, pos, h));
              all == Scanned([HitAt(st.crc, bytes, pos, h)] + rest.hits, rest.pos, rest.claimed)
            else
              all == Scan(st, bytes, pos + ALIGN, Claim(claimed, pos, h))
  {}

  lemma ScanEnds(st: Store, bytes: seq<Byte>, pos: nat, claimed: nat)
    requires pos + BLOCK_HEADER > |bytes|
    ensures Scan(st, bytes, pos, claimed) == Scanned([], pos, claimed)
  {}

  class SlotStore {
    const st: Store
    const file: SharedFile
    const declined: bool
    var readOff: nat
    var claimedEnd: nat
    ghost var got: seq<Hit>

    constructor (st: Store, file: SharedFile, declined: bool)
      ensures this.st == st && this.file == file && this.declined == declined
      ensures AsHandle() == Handle(st.start, 0, [])
    {
      this.st := st;
      this.file := file;
      this.declined := declined;
      readOff, claimedEnd := st.start, 0;
      got := [];
    }

    ghost function AsHandle(): Handle
      reads this
    {
      Handle(readOff, claimedEnd, got)
    }

    ghost function Rescanned(): Scanned
      reads this, file
    {
      Rescan(st, file.bytes, AsHandle())
    }

    /** Everything new in the file, in file order; both offsets move forward. */
    method ReadBlocks() returns (out: seq<SlotEntry>)
      modifies this
      ensures AsHandle() == Refreshed(old(AsHandle()), old(Rescanned()))
      ensures out == Flatten(old(Rescanned()).hits)
    {
      hide Scan, HeaderAt, HitAt, Flatten;
      var bytes := file.bytes;
      ghost var all := Rescanned();
      ghost var hits: seq<Hit> := [];
      assert Flatten(hits) == [] by { NothingFlat(); }
      out := [];
      var pos := readOff;
      while pos + BLOCK_HEADER <= |bytes|
        invariant pos >= readOff && readOff == old(readOff) && got == old(got)
        invariant var rest := Scan(st, bytes, pos, claimedEnd);
                  all.hits == hits + rest.hits && all.pos == rest.pos && all.claimed == rest.claimed
        invariant out == Flatten(hits)
        decreases |bytes| - pos
      {
        ScanUnfolds(st, bytes, pos, claimedEnd);
        var h := HeaderAt(st, bytes, pos);
        if h.Some? && BLOCK_HEADER <= h.value.blockLen < CLAIM_LIMIT {
          claimedEnd := Max(claimedEnd, pos + h.value.blockLen);
        }
        if !Accepts(st.crc, bytes, pos, h) {
          pos := pos + ALIGN;
        } else {
          var hit := HitAt(st.crc, bytes, pos, h);
          FlattenAppend(hits, hit);
          hits := hits + [hit];
          out := out + hit.entries;
          pos := AlignUp(pos + h.value.blockLen);
        }
      }
      ScanEnds(st, bytes, pos, claimedEnd);
      assert all.hits == hits;
      readOff := Max(readOff, pos);
      got := got + hits;
    }

    /** Entries committed since the last look; a store some commit holds is skipped. */
    method Refresh(busy: bool) returns (out: seq<SlotEntry>)
      modifies this
      ensures busy ==> AsHandle() == old(AsHandle()) && out == []
      ensures !busy ==> AsHandle() == Refreshed(old(AsHandle()), old(Rescanned()))
                        && out == Flatten(old(Rescanned()).hits)
    {
      out := [];
      if |file.bytes| < readOff + BLOCK_HEADER {
        assert got + [] == got;
        return;
      }
      if busy { return; }
      out := ReadBlocks();
    }

    /** Commit under the exclusive lock: others' entries first, then one block of the
        records still wanted, of which the write lands `landed` bytes. `locked` is what the lock
        call returned, `current` whether the path still names this file: without either the
        file and the handle are left alone. `error` is what a write that does not land whole
        reports. */
    method Commit(recs: seq<SlotRecord>, taken: seq<SlotEntry> -> set<U32>, locked: int, current: bool, landed: nat, error: int, ghost owner: nat)
      returns (code: int, others: seq<SlotEntry>, committed: seq<SlotEntry>, ghost write: seq<SlotRecord>, ghost at: seq<nat>)
      requires !declined && locked == 0 && current ==>
                 var write := Untaken(recs, taken(Flatten(Rescanned().hits)));
                 write != [] ==> Committable(CommitBase(|file.bytes|, Rescanned()), write) && landed <= BlockLen(write)
      modifies this, file
      ensures declined || locked != 0 || !current ==>
                && code == (if declined then -EINVAL else if locked != 0 then locked else -ESTALE)
                && others == committed == [] && write == [] && AsHandle() == old(AsHandle()) && file.bytes == old(file.bytes)
      ensures !declined && locked == 0 && current ==>
                others == Flatten(old(Rescanned()).hits) && Picks(recs, taken(others), write, at)
      ensures |committed| == 0 || |committed| == |write|
      ensures forall k :: 0 <= k < |committed| ==> committed[k].slot == write[k].slot && committed[k].kind == write[k].kind
      ensures !declined && locked == 0 && current ==>
                var h := Refreshed(old(AsHandle()), old(Rescanned()));
                if forall k :: 0 <= k < |recs| ==> recs[k].slot in taken(others) then
                  write == [] && code == 0 && committed == [] && AsHandle() == h && file.bytes == old(file.bytes)
                else
                  && Committable(CommitBase(|old(file.bytes)|, old(Rescanned())), write) && landed <= BlockLen(write)
                  && var b := NewBlock(st, CommitBase(|old(file.bytes)|, old(Rescanned())), write, owner, landed);
                  && file.bytes == Append(old(file.bytes), b.base, b.image[..landed])
                  && AsHandle() == (if b.Complete() then SteppedOver(h, b) else h)
                  && code == (if b.Complete() then DataLen(write) else if error < 0 then error else -EIO)
                  && committed == (if b.Complete() then b.entries else [])
    {
      hide Scan, BlockBytes, HeaderOf, BlockEntries, Append, Flatten;
      others, committed, write, at := [], [], [], [];
      if declined { return -EINVAL, others, committed, write, at; }
      if locked != 0 { return locked, others, committed, write, at; }
      if !current { return -ESTALE, others, committed, write, at; }
      ghost var r := Rescanned();
      var size := |file.bytes|;
      others := ReadBlocks();

      var chosen, dataLen := Select(recs, taken(others));
      write := chosen;
      at := UntakenPicks(recs, taken(others));
      if chosen == [] { return 0, others, committed, write, at; }
      assert !forall k :: 0 <= k < |recs| ==> recs[k].slot in taken(others) by { assert recs[at[0]].slot !in taken(others); }
      committed := Land(chosen, AlignUp(Max(size, Max(readOff, claimedEnd))), landed, owner);
      code := if landed == BlockLen(chosen) then dataLen else if error < 0 then error else -EIO;
    }

    /** Build the block and append it; step over it once it is there whole. */
    method Land(write: seq<SlotRecord>, base: nat, landed: nat, ghost owner: nat) returns (committed: seq<SlotEntry>)
      requires Committable(base, write) && landed <= BlockLen(write) && |file.bytes| <= base
      modifies this, file
      ensures var b := NewBlock(st, base, write, owner, landed);
              && file.bytes == Append(old(file.bytes), b.base, b.image[..landed])
              && AsHandle() == (if b.Complete() then SteppedOver(old(AsHandle()), b) else old(AsHandle()))
              && committed == (if b.Complete() then b.entries else [])
      ensures forall k :: 0 <= k < |committed| ==> committed[k].slot == write[k].slot && committed[k].kind == write[k].kind
    {
      hide BlockBytes, HeaderOf, BlockEntries, Append;
      var image: seq<Byte>;
      image, committed := BuildBlock(st, base, write);
      file.bytes := Append(file.bytes, base, image[..landed]);
      if landed != |image| {
        return [];
      }
      readOff := AlignUp(base + |image|);
      claimedEnd := Max(claimedEnd, base + |image|);
    }
  }

  method Select(recs: seq<SlotRecord>, taken: set<U32>) returns (write: seq<SlotRecord>, dataLen: nat)
    ensures write == Untaken(recs, taken) && dataLen == DataLen(write)
  {
    write, dataLen := [], 0;
    for k := 0 to |recs|
      invariant write == Untaken(recs[..k], taken) && dataLen == DataLen(write)
    {
      assert recs[..k + 1][..k] == recs[..k];
      if recs[k].slot !in taken {
        ghost var before := write;
        write, dataLen := write + [recs[k]], dataLen + |recs[k].bytes|;
        assert write[..|write| - 1] == before;
      }
    }
    assert recs[..|recs|] == recs;
  }

  /** Fill a block buffer record by record. */
  method BuildBlock(st: Store, base: nat, write: seq<SlotRecord>)
    returns (image: seq<Byte>, entries: seq<SlotEntry>)
    requires Committable(base, write)
    ensures image == BlockBytes(st.crc, st.id, base, write)
    ensures entries == BlockEntries(st.crc, st.id, base, write)
    ensures forall k :: 0 <= k < |entries| ==> entries[k].slot == write[k].slot && entries[k].kind == write[k].kind
  {
    hide BlockBytes, RecordCrc, Payloads, EncodeHeader, EncodeEntries;
    entries := [];
    NoPayload();
    var payload: seq<Byte> := [];
    var at := RecordArea(base, write);
    for i := 0 to |write|
      invariant payload == Payloads(write[..i]) && at == RecordArea(base, write) + |payload|
      invariant entries == BlockEntries(st.crc, st.id, base, write)[..i]
    {
      var r := write[i];
      MorePayload(write, i);
      assert at == RecordOff(base, write, i);
      if r.kind != K_KEPT {
        entries := entries + [SlotEntry(r.slot, r.kind, at, |r.bytes|, RecordCrc(st.crc, st.id, r.slot, r.bytes))];
        payload := payload + r.bytes;
        at := at + |r.bytes|;
      } else {
        entries := entries + [SlotEntry(r.slot, r.kind, 0, 0, 0)];
      }
    }
    assert write[..|write|] == write;
    assert entries == BlockEntries(st.crc, st.id, base, write);
    var h := BlockHeader(BlockLen(write), |write|, st.crc(EncodeEntries(entries)));
    image := Assemble(EncodeHeader(st.crc, st.id, h), EncodeEntries(entries), payload, DataLen(write));
    Reassembled(st, base, write);
  }

  lemma NoPayload()
    ensures Payloads([]) == []
  {}

  lemma MorePayload(recs: seq<SlotRecord>, i: nat)
    requires i < |recs|
    ensures Payloads(recs[..i + 1]) == Payloads(recs[..i]) + Payload(recs[i])
  {
    assert recs[..i + 1][..i] == recs[..i];
  }

  lemma Reassembled(st: Store, base: nat, write: seq<SlotRecord>)
    requires Committable(base, write)
    ensures BlockBytes(st.crc, st.id, base, write)
            == Assemble(EncodeHeader(st.crc, st.id, HeaderOf(st.crc, st.id, base, write)),
                        EncodeEntries(BlockEntries(st.crc, st.id, base, write)), Payloads(write), DataLen(write))
  {}
}
