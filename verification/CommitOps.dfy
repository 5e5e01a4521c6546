/** The loops of a sidecar commit, over bit and CRC tables page by page. */
module CommitOps {
  import opened Bytes
  import opened Deltas

  /** Presence bits and the CRC table beside them, as one image. */
  function ImageOf(bits: seq<bool>, crcs: seq<U32>): Image
    requires |bits| == |crcs|
  {
    map i: nat | 0 <= i < |bits| && bits[i] :: crcs[i]
  }

  lemma ImageAt(bits: seq<bool>, crcs: seq<U32>, i: nat)
    requires |bits| == |crcs|
    ensures Lookup(ImageOf(bits, crcs), i) == if i < |bits| && bits[i] then Some(crcs[i]) else None
  {}

  /** The first `k` pages of `img` and the rest of `rest`. */
  ghost predicate Upto(img: Image, done: Image, rest: Image, k: nat) {
    forall p: nat {:trigger Lookup(img, p)} :: Lookup(img, p) == if p < k then Lookup(done, p) else Lookup(rest, p)
  }

  lemma TablesAgree(bits: seq<bool>, crcs: seq<U32>, done: Image, rest: Image)
    requires |bits| == |crcs| && Upto(ImageOf(bits, crcs), done, rest, |bits|)
    requires forall p <- done :: p < |bits|
    requires forall p <- rest :: p < |bits|
    ensures ImageOf(bits, crcs) == done
  {
    forall p: nat ensures Lookup(ImageOf(bits, crcs), p) == Lookup(done, p) {
      if p >= |bits| { assert p !in done && p !in rest; }
    }
    SameImage(ImageOf(bits, crcs), done);
  }

  /** One table entry rewritten. */
  lemma SetEntry(bits: seq<bool>, crcs: seq<U32>, i: nat, b: bool, c: U32)
    requires |bits| == |crcs| && i < |bits|
    ensures forall p: nat {:trigger Lookup(ImageOf(bits[i := b], crcs[i := c]), p)} ::
              Lookup(ImageOf(bits[i := b], crcs[i := c]), p)
              == if p == i then (if b then Some(c) else None) else Lookup(ImageOf(bits, crcs), p)
  {
    forall p: nat {:trigger Lookup(ImageOf(bits[i := b], crcs[i := c]), p)}
      ensures Lookup(ImageOf(bits[i := b], crcs[i := c]), p)
              == if p == i then (if b then Some(c) else None) else Lookup(ImageOf(bits, crcs), p)
    {
      ImageAt(bits, crcs, p);
      ImageAt(bits[i := b], crcs[i := c], p);
    }
  }

  /** Start from the disk's tables; apply only the pages this handle set or cleared. */
  method MergeTables(diskBits: seq<bool>, diskCrcs: seq<U32>, snapBits: seq<bool>, snapCrcs: seq<U32>,
                     sets: set<nat>, clears: set<nat>)
    returns (bits: seq<bool>, crcs: seq<U32>)
    requires |diskBits| == |diskCrcs| == |snapBits| == |snapCrcs|
    requires sets <= ImageOf(snapBits, snapCrcs).Keys
    ensures |bits| == |crcs| == |diskBits|
    ensures ImageOf(bits, crcs) == Merge(ImageOf(diskBits, diskCrcs), ImageOf(snapBits, snapCrcs), Delta(sets, clears))
  {
    hide ImageOf, Merge;
    ghost var disk, snap := ImageOf(diskBits, diskCrcs), ImageOf(snapBits, snapCrcs);
    ghost var want := Merge(disk, snap, Delta(sets, clears));
    bits, crcs := diskBits, diskCrcs;
    for i := 0 to |diskBits|
      invariant |bits| == |crcs| == |diskBits|
      invariant Upto(ImageOf(bits, crcs), want, disk, i)
    {
      MergeAt(disk, snap, Delta(sets, clears), i);
      ImageAt(snapBits, snapCrcs, i);
      if i in clears {
        SetEntry(bits, crcs, i, false, 0);
        bits, crcs := bits[i := false], crcs[i := 0];
      } else if i in sets {
        SetEntry(bits, crcs, i, true, snapCrcs[i]);
        bits, crcs := bits[i := true], crcs[i := snapCrcs[i]];
      }
    }
    assert (forall p <- disk :: p < |bits|) && (forall p <- want :: p < |bits|) by {
      KeysBelow(diskBits, diskCrcs);
      KeysBelow(snapBits, snapCrcs);
      forall p <- want ensures p < |bits| { MergeAt(disk, snap, Delta(sets, clears), p); }
    }
    TablesAgree(bits, crcs, want, disk);
  }

  lemma KeysBelow(bits: seq<bool>, crcs: seq<U32>)
    requires |bits| == |crcs|
    ensures forall p <- ImageOf(bits, crcs) :: p < |bits|
  {}

  lemma MergeAt(disk: Image, snap: Image, d: Delta, p: nat)
    requires d.sets <= snap.Keys
    ensures Lookup(Merge(disk, snap, d), p)
            == if p in d.clears then None else if p in d.sets then Lookup(snap, p) else Lookup(disk, p)
    ensures p in Merge(disk, snap, d) ==> p in disk || p in snap
  {}

  /** Adopt the committed tables on the pages not touched since the snapshot. */
  method AdoptTables(memBits: seq<bool>, memCrcs: seq<U32>, outBits: seq<bool>, outCrcs: seq<U32>, since: Delta)
    returns (bits: seq<bool>, crcs: seq<U32>)
    requires |memBits| == |memCrcs| == |outBits| == |outCrcs|
    ensures |bits| == |crcs| == |memBits|
    ensures ImageOf(bits, crcs) == Adopt(ImageOf(memBits, memCrcs), ImageOf(outBits, outCrcs), since)
  {
    hide ImageOf, Adopt;
    ghost var mem, out := ImageOf(memBits, memCrcs), ImageOf(outBits, outCrcs);
    ghost var want := Adopt(mem, out, since);
    bits, crcs := memBits, memCrcs;
    for i := 0 to |memBits|
      invariant |bits| == |crcs| == |memBits|
      invariant Upto(ImageOf(bits, crcs), want, mem, i)
    {
      AdoptAt(mem, out, since, i);
      ImageAt(outBits, outCrcs, i);
      if i in since.sets || i in since.clears {
        continue;
      }
      if outBits[i] {
        SetEntry(bits, crcs, i, true, outCrcs[i]);
        bits, crcs := bits[i := true], crcs[i := outCrcs[i]];
      } else {
        SetEntry(bits, crcs, i, false, 0);
        bits, crcs := bits[i := false], crcs[i := 0];
      }
    }
    assert (forall p <- mem :: p < |bits|) && (forall p <- want :: p < |bits|) by {
      KeysBelow(memBits, memCrcs);
      KeysBelow(outBits, outCrcs);
      forall p <- want ensures p < |bits| { AdoptAt(mem, out, since, p); }
    }
    TablesAgree(bits, crcs, want, mem);
  }

  lemma AdoptAt(mem: Image, out: Image, since: Delta, p: nat)
    ensures Lookup(Adopt(mem, out, since), p) == if p in since.Pages() then Lookup(mem, p) else Lookup(out, p)
    ensures p in Adopt(mem, out, since) ==> p in mem || p in out
  {}

  /** Put the deltas of a failed store back, newer opposite transitions winning. */
  method RearmTables(n: nat, since: Delta, failed: Delta) returns (d: Delta)
    requires failed.sets !! failed.clears
    requires forall p <- failed.sets + failed.clears :: p < n
    ensures d == Rearm(since, failed)
  {
    d := since;
    for i := 0 to n
      invariant d.sets == since.sets + (set p | p in failed.sets && p < i && p !in since.clears)
      invariant d.clears == since.clears + (set p | p in failed.clears && p < i && p !in since.sets)
    {
      if i in failed.sets && i !in d.clears { d := d.(sets := d.sets + {i}); }
      if i in failed.clears && i !in d.sets { d := d.(clears := d.clears + {i}); }
    }
    forall p ensures p in d.sets <==> p in Rearm(since, failed).sets {
      if p in failed.sets { assert p in failed.sets + failed.clears; }
    }
    forall p ensures p in d.clears <==> p in Rearm(since, failed).clears {
      if p in failed.clears { assert p in failed.sets + failed.clears; }
    }
  }
}
