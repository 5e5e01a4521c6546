/** The stitched view of a replica: which bytes come from the overlay, and reading those. */
module ReplicaViews {
  import opened Bytes
  import opened ReplicaFiles

  /** A piece of the stitched file, from the overlay at `tdataOff` or from the origin. */
  datatype Seg = Seg(overlay: bool, virtOff: nat, len: nat, tdataOff: nat)

  predicate Inside(e: Extent, x: nat) { e.virtOff <= x < e.virtOff + e.len }

  /** Where byte `x` of the stitched file comes from: the extent containing it, else the
      origin. */
  ghost predicate FromOverlay(es: seq<Extent>, x: nat, t: int) {
    exists k :: 0 <= k < |es| && Inside(es[k], x) && t == es[k].tdataOff + (x - es[k].virtOff)
  }

  ghost predicate FromOrigin(es: seq<Extent>, x: nat) {
    forall k :: 0 <= k < |es| ==> !Inside(es[k], x)
  }

  /** What the segment says of byte `x` is so. */
  ghost predicate ByteTrue(es: seq<Extent>, s: Seg, x: nat) {
    if s.overlay then FromOverlay(es, x, s.tdataOff + (x - s.virtOff)) else FromOrigin(es, x)
  }

  ghost predicate SegTrue(es: seq<Extent>, s: Seg) {
    s.len > 0 && forall x: nat :: s.virtOff <= x < s.virtOff + s.len ==> ByteTrue(es, s, x)
  }

  /** The segments follow one another from `off` to `end`. */
  ghost predicate Consecutive(segs: seq<Seg>, off: nat, end: nat) {
    if segs == [] then off == end
    else
      var last := segs[|segs| - 1];
      last.len > 0 && last.virtOff + last.len == end && Consecutive(segs[..|segs| - 1], off, last.virtOff)
  }

  /** The segments partition [off, end) and are true of every byte of it. */
  ghost predicate Stitches(es: seq<Extent>, segs: seq<Seg>, off: nat, end: nat) {
    Consecutive(segs, off, end) && forall k :: 0 <= k < |segs| ==> SegTrue(es, segs[k])
  }

  /** The clamped range's end, exactly. */
  function Clamped(off: nat, len: nat, virtualSize: nat): nat { Max(off, Min(off + len, virtualSize)) }

  /** std::lower_bound over extents by their ends. */
  method FirstEndingPast(es: seq<Extent>, off: nat) returns (k: nat)
    requires forall i, j :: 0 <= i < j < |es| ==> es[i].virtOff + es[i].len <= es[j].virtOff
    ensures k <= |es|
    ensures forall i :: 0 <= i < k ==> es[i].virtOff + es[i].len <= off
    ensures forall i :: k <= i < |es| ==> es[i].virtOff + es[i].len > off
  {
    var hi := |es|;
    k := 0;
    while k < hi
      invariant k <= hi <= |es|
      invariant forall i :: 0 <= i < k ==> es[i].virtOff + es[i].len <= off
      invariant forall i :: hi <= i < |es| ==> es[i].virtOff + es[i].len > off
    {
      var mid := k + (hi - k) / 2;
      if es[mid].virtOff + es[mid].len <= off { k := mid + 1; } else { hi := mid; }
    }
  }

  /** Walk the extents and the gaps between them. The result partitions the clamped range,
      except that a request whose end wraps past 2^64 gets nothing: the code meets its
      promise exactly when the end does not wrap, or lies past the file anyway. */
  method Map(m: ReplicaMeta, off: U64, len: U64) returns (segs: seq<Seg>)
    requires Consistent(m)
    ensures off + len < 0x1_0000_0000_0000_0000 ==> Stitches(m.extents, segs, off, Clamped(off, len, m.virtualSize))
    ensures off + len >= 0x1_0000_0000_0000_0000 ==> segs == []
    ensures Stitches(m.extents, segs, off, Clamped(off, len, m.virtualSize))
            <==> off + len < 0x1_0000_0000_0000_0000 || off >= m.virtualSize
    ensures forall k :: 0 <= k < |segs| && segs[k].overlay ==> segs[k].tdataOff + segs[k].len <= m.tdataBytes
  {
    hide SegTrue, Consecutive, Stitches;
    NoSegments(m.extents, off);
    segs := [];
    if off >= m.virtualSize { return; }
    var end := Min(Add64(off, len), m.virtualSize);
    if end <= off {
      if off + len >= 0x1_0000_0000_0000_0000 { NotNothing(m.extents, off, m.virtualSize); }
      return;
    }
    segs := WalkExtents(m, off, end);
  }

  /** The walk over [off, end), extent by extent. */
  method WalkExtents(m: ReplicaMeta, off: nat, end: nat) returns (segs: seq<Seg>)
    requires Consistent(m) && off < end <= m.virtualSize
    ensures Stitches(m.extents, segs, off, end)
    ensures forall k :: 0 <= k < |segs| && segs[k].overlay ==> segs[k].tdataOff + segs[k].len <= m.tdataBytes
  {
    hide SegTrue, Consecutive, Stitches;
    NoSegments(m.extents, off);
    segs := [];
    var es := m.extents;
    var k := FirstEndingPast(es, off);
    var pos: nat := off;
    while pos < end
      invariant off <= pos <= end && k <= |es|
      invariant pos < end ==> forall i :: k <= i < |es| ==> es[i].virtOff + es[i].len > pos
      invariant pos < end ==> forall i :: 0 <= i < k ==> es[i].virtOff + es[i].len <= pos
      invariant Stitches(es, segs, off, pos)
      invariant forall i :: 0 <= i < |segs| && segs[i].overlay ==> segs[i].tdataOff + segs[i].len <= m.tdataBytes
      decreases |es| - k, end - pos
    {
      if k == |es| || es[k].virtOff >= end {
        GapTrue(es, k, pos, end);
        Grow(es, segs, off, pos, Seg(false, pos, end - pos, 0));
        segs := segs + [Seg(false, pos, end - pos, 0)];
        pos := end;
        break;
      }
      if pos < es[k].virtOff {
        GapTrue(es, k, pos, es[k].virtOff);
        Grow(es, segs, off, pos, Seg(false, pos, es[k].virtOff - pos, 0));
        segs := segs + [Seg(false, pos, es[k].virtOff - pos, 0)];
        pos := es[k].virtOff;
      }
      assert ExtentFits(es[k], m.virtualSize, m.tdataBytes);
      var segEnd := Min(end, es[k].virtOff + es[k].len);
      if pos < segEnd {
        OverlayTrue(es, k, pos, segEnd);
        var s := Seg(true, pos, segEnd - pos, es[k].tdataOff + (pos - es[k].virtOff));
        Grow(es, segs, off, pos, s);
        segs := segs + [s];
        pos := segEnd;
      }
      LaterExtents(es, k, m.virtualSize, m.tdataBytes);
      k := k + 1;
    }
  }

  lemma LaterExtents(es: seq<Extent>, k: nat, virtualSize: U64, tdataBytes: U64)
    requires k < |es| && ExtentsOrdered(es, virtualSize, tdataBytes)
    ensures forall i :: k < i < |es| ==> es[i].virtOff + es[i].len > es[k].virtOff + es[k].len
  {
    forall i | k < i < |es| ensures es[i].virtOff + es[i].len > es[k].virtOff + es[k].len {
      assert ExtentFits(es[i], virtualSize, tdataBytes);
    }
  }

  lemma NoSegments(es: seq<Extent>, off: nat)
    ensures Stitches(es, [], off, off)
  {}

  lemma NotNothing(es: seq<Extent>, off: nat, end: nat)
    requires off < end
    ensures !Stitches(es, [], off, end)
  {}

  lemma Grow(es: seq<Extent>, segs: seq<Seg>, off: nat, pos: nat, s: Seg)
    requires Stitches(es, segs, off, pos) && SegTrue(es, s) && s.virtOff == pos
    ensures Stitches(es, segs + [s], off, pos + s.len)
  {
    assert (segs + [s])[..|segs|] == segs;
    assert s.len > 0;
  }

  /** Before extent `k` and past those before it there is only origin. */
  lemma GapTrue(es: seq<Extent>, k: nat, pos: nat, end: nat)
    requires forall i, j :: 0 <= i < j < |es| ==> es[i].virtOff + es[i].len <= es[j].virtOff
    requires k <= |es| && pos < end && (k < |es| ==> end <= es[k].virtOff)
    requires forall i :: 0 <= i < k ==> es[i].virtOff + es[i].len <= pos
    ensures SegTrue(es, Seg(false, pos, end - pos, 0))
  {
    var s := Seg(false, pos, end - pos, 0);
    forall x: nat | pos <= x < end ensures ByteTrue(es, s, x) {
      forall i | 0 <= i < |es| ensures !Inside(es[i], x) {
        if i > k { assert es[k].virtOff + es[k].len <= es[i].virtOff; }
      }
    }
  }

  lemma OverlayTrue(es: seq<Extent>, k: nat, pos: nat, end: nat)
    requires k < |es| && es[k].virtOff <= pos < end <= es[k].virtOff + es[k].len
    ensures SegTrue(es, Seg(true, pos, end - pos, es[k].tdataOff + (pos - es[k].virtOff)))
  {
    var s := Seg(true, pos, end - pos, es[k].tdataOff + (pos - es[k].virtOff));
    forall x: nat | pos <= x < end ensures ByteTrue(es, s, x) {
      assert Inside(es[k], x);
    }
  }

  // ---- the bytes of the stitched file ---------------------------------------------------------

  /** Byte `x` of the stitched file, given the overlay and what the origin has at `x`. */
  ghost predicate StitchedByte(es: seq<Extent>, overlay: seq<Byte>, origin: seq<Byte>, x: nat, b: Byte) {
    && (forall t {:trigger FromOverlay(es, x, t)} :: FromOverlay(es, x, t) ==> 0 <= t < |overlay| && overlay[t] == b)
    && (FromOrigin(es, x) ==> x < |origin| && origin[x] == b)
  }

  /** `out` holds byte `x` of the stitched file when it starts at `off`. */
  ghost predicate Shows(es: seq<Extent>, overlay: seq<Byte>, origin: seq<Byte>, out: seq<Byte>, off: nat, x: nat) {
    off <= x < off + |out| && StitchedByte(es, overlay, origin, x, out[x - off])
  }

  predicate Reachable(s: Seg, overlay: seq<Byte>, origin: seq<Byte>) {
    if s.overlay then s.tdataOff + s.len <= |overlay| else s.virtOff + s.len <= |origin|
  }

  function SegBytes(s: Seg, overlay: seq<Byte>, origin: seq<Byte>): seq<Byte>
    requires Reachable(s, overlay, origin)
  {
    if s.overlay then overlay[s.tdataOff..s.tdataOff + s.len] else origin[s.virtOff..s.virtOff + s.len]
  }

  function Assembled(segs: seq<Seg>, overlay: seq<Byte>, origin: seq<Byte>): seq<Byte>
    requires forall k :: 0 <= k < |segs| ==> Reachable(segs[k], overlay, origin)
  {
    if segs == [] then []
    else Assembled(segs[..|segs| - 1], overlay, origin) + SegBytes(segs[|segs| - 1], overlay, origin)
  }

  /** Every byte of the stitched file has one source. */
  lemma OneSource(es: seq<Extent>, x: nat, t: int, u: int)
    requires forall i, j :: 0 <= i < j < |es| ==> es[i].virtOff + es[i].len <= es[j].virtOff
    requires FromOverlay(es, x, t)
    ensures !FromOrigin(es, x) && (FromOverlay(es, x, u) ==> u == t)
  {
    var k :| 0 <= k < |es| && Inside(es[k], x) && t == es[k].tdataOff + (x - es[k].virtOff);
    if FromOverlay(es, x, u) {
      var j :| 0 <= j < |es| && Inside(es[j], x) && u == es[j].tdataOff + (x - es[j].virtOff);
    }
  }

  /** Reading the mapped segments one after another reads the stitched file: nothing is
      missing, repeated or taken from the wrong place. */
  lemma {:induction false} SegmentsAssemble(es: seq<Extent>, segs: seq<Seg>, off: nat, end: nat, overlay: seq<Byte>, origin: seq<Byte>)
    requires forall i, j :: 0 <= i < j < |es| ==> es[i].virtOff + es[i].len <= es[j].virtOff
    requires Stitches(es, segs, off, end) && forall k :: 0 <= k < |segs| ==> Reachable(segs[k], overlay, origin)
    ensures off <= end && |Assembled(segs, overlay, origin)| == end - off
    ensures forall x: nat :: off <= x < end ==> Shows(es, overlay, origin, Assembled(segs, overlay, origin), off, x)
    decreases |segs|
  {
    hide FromOverlay, FromOrigin, StitchedByte, SegTrue, Shows, SegBytes;
    if segs != [] {
      var front, s := segs[..|segs| - 1], segs[|segs| - 1];
      assert SegTrue(es, s) && Reachable(s, overlay, origin);
      SegmentsAssemble(es, front, off, s.virtOff, overlay, origin);
      SegShows(es, s, overlay, origin, end);
      ShowsAppend(es, overlay, origin, Assembled(front, overlay, origin), SegBytes(s, overlay, origin), off, s.virtOff, end);
    }
  }

  lemma ShowsAppend(es: seq<Extent>, overlay: seq<Byte>, origin: seq<Byte>, a: seq<Byte>, b: seq<Byte>, off: nat, mid: nat, end: nat)
    requires off <= mid <= end && |a| == mid - off && |b| == end - mid
    requires forall x: nat :: off <= x < mid ==> Shows(es, overlay, origin, a, off, x)
    requires forall x: nat :: mid <= x < end ==> Shows(es, overlay, origin, b, mid, x)
    ensures forall x: nat :: off <= x < end ==> Shows(es, overlay, origin, a + b, off, x)
  {
    hide StitchedByte;
    forall x: nat | off <= x < end ensures Shows(es, overlay, origin, a + b, off, x) {
      if x < mid {
        assert Shows(es, overlay, origin, a, off, x);
        assert (a + b)[x - off] == a[x - off];
      } else {
        assert Shows(es, overlay, origin, b, mid, x);
        assert (a + b)[x - off] == b[x - mid];
      }
    }
  }

  lemma SegShows(es: seq<Extent>, s: Seg, overlay: seq<Byte>, origin: seq<Byte>, end: nat)
    requires forall i, j :: 0 <= i < j < |es| ==> es[i].virtOff + es[i].len <= es[j].virtOff
    requires SegTrue(es, s) && Reachable(s, overlay, origin) && end == s.virtOff + s.len
    ensures |SegBytes(s, overlay, origin)| == s.len
    ensures forall x: nat :: s.virtOff <= x < end ==> Shows(es, overlay, origin, SegBytes(s, overlay, origin), s.virtOff, x)
  {
    hide StitchedByte, SegTrue;
    forall x: nat | s.virtOff <= x < end ensures Shows(es, overlay, origin, SegBytes(s, overlay, origin), s.virtOff, x) {
      SegByte(es, s, overlay, origin, x);
    }
  }

  lemma SegByte(es: seq<Extent>, s: Seg, overlay: seq<Byte>, origin: seq<Byte>, x: nat)
    requires forall i, j :: 0 <= i < j < |es| ==> es[i].virtOff + es[i].len <= es[j].virtOff
    requires SegTrue(es, s) && Reachable(s, overlay, origin) && s.virtOff <= x < s.virtOff + s.len
    ensures StitchedByte(es, overlay, origin, x, SegBytes(s, overlay, origin)[x - s.virtOff])
  {
    assert ByteTrue(es, s, x);
    if s.overlay {
      var t := s.tdataOff + (x - s.virtOff);
      forall u | FromOverlay(es, x, u) ensures u == t { OneSource(es, x, t, u); }
      OneSource(es, x, t, t);
    } else {
      forall u ensures !FromOverlay(es, x, u) {}
    }
  }
}
