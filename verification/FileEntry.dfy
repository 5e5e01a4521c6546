/** One cached object as a process holds it: presence tables, deltas and fill buffer,
    over a data file and a sidecar it shares with other processes. */
module FileEntries {
  import opened Bytes
  import opened Pages
  import opened Stages
  import opened StageOps
  import opened Deltas
  import opened CommitOps
  import opened Sidecars
  import opened Reads
  import opened ReadOps
  import opened RunReads
  import opened RunWrites

  /** The process-wide byte pools. */
  class Pools {
    var bufTotal: int
    var specTotal: int

    constructor ()
      ensures bufTotal == 0 && specTotal == 0
    {
      bufTotal, specTotal := 0, 0;
    }
  }

  class DataFile {
    var bytes: seq<Byte>

    constructor (bytes: seq<Byte>)
      ensures this.bytes == bytes
    {
      this.bytes := bytes;
    }
  }

  /** The sidecar on disk, absent until one is stored. */
  class Sidecar {
    var meta: Option<Meta>

    constructor ()
      ensures meta == None
    {
      meta := None;
    }
  }

  /** Page `p` and the request [off, off + len) share a byte, or would if it were whole. */
  predicate Meets(g: Geometry, off: nat, len: nat, p: nat) {
    off < g.Start(p) + g.pageSize && g.Start(p) < off + len
  }

  /** Page `p` lies wholly inside [off, off + len), itself inside the file. */
  predicate Covers(g: Geometry, off: nat, len: nat, p: nat) {
    off + len <= g.fileSize && off <= g.Start(p) && g.Start(p) + g.pageSize <= off + len
  }

  /** Serving a request confirms predictions it covers, all of them if it is served in
      full, and changes nothing else in the stage. */
  ghost predicate Promoted(g: Geometry, s0: Stage, s: Stage, off: nat, len: nat, all: bool) {
    && s.flushing == s0.flushing
    && forall p: nat {:trigger BufAt(s, p)} ::
         if Meets(g, off, len, p) && p in s0.buf
         then BufAt(s, p) == Some(s0.buf[p].(spec := false)) || (!all && BufAt(s, p) == BufAt(s0, p))
         else BufAt(s, p) == BufAt(s0, p)
  }

  /** Page `p` goes after run `r`, read from `d`, failed at page `bad`: that page alone if its
      bytes were there, and if the read was short, every page from it on that is still bad when
      read alone. */
  predicate Goes(g: Geometry, crc: Crc, r: Run, d: seq<Byte>, again: nat -> seq<Byte>, bad: nat, p: nat)
    requires g.Valid() && r.last < g.Npages() && |r.want| == r.last - r.first + 1 && InRun(r, bad)
  {
    if |OnePage(g, d, bad)| < g.PageBytes(bad)
    then bad <= p <= r.last && !PageGood(g, crc, again(p), p, r.want[p - r.first])
    else p == bad
  }

  /** The pages a read of these runs retracts: those that go with the first page that failed. */
  ghost predicate Demoted(g: Geometry, crc: Crc, runs: seq<Run>, disk: nat -> seq<Byte>, again: nat -> seq<Byte>, mem0: Image, mem: Image)
    requires g.Valid()
  {
    exists at: nat, bad: nat :: FirstBad(g, crc, runs, disk, at, bad)
      && forall p: nat :: Lookup(mem, p) == if Goes(g, crc, runs[at], disk(at), again, bad, p) then None else Lookup(mem0, p)
  }

  /** Every page of the request is staged or present, so that it can be planned. */
  ghost predicate AllHeld(g: Geometry, mem: Image, s: Stage, off: nat, len: nat)
    requires g.Valid() && len > 0
  {
    forall p: nat :: g.PageOf(off) <= p <= g.PageOf(off + len - 1) ==> s.Holds(p) || p in mem
  }

  /** What a failed read does to the pages present: nothing if it could not be planned, else
      exactly the demotion its first bad page calls for. */
  ghost predicate FailedRead(g: Geometry, crc: Crc, mem0: Image, s: Stage, disk: nat -> seq<Byte>, again: nat -> seq<Byte>,
                             off: nat, len: nat, mem: Image)
    requires g.Valid() && len > 0
  {
    if off + len > g.fileSize || !AllHeld(g, mem0, s, off, len) then mem == mem0
    else
      && g.PageOf(off) <= g.PageOf(off + len - 1) + 1 <= g.Npages()
      && Demoted(g, crc, PlannedRuns(g, mem0, s, g.PageOf(off), g.PageOf(off + len - 1) + 1), disk, again, mem0, mem)
  }

  /** When to drain and when to commit, unless forced: caps on the staged bytes of the entry and
      of the process, and whether their intervals have passed. */
  datatype Policy = Policy(cap: int, totalCap: int, bufferDue: bool, sidecarDue: bool)

  class FileEntry {
    const g: Geometry
    const crc: Crc
    const data: DataFile
    const sidecar: Sidecar
    const pools: Pools
    const mode: Validate
    const version: Version
    var bits: seq<bool>
    var crcs: seq<U32>
    var since: Delta
    var dirty: bool
    var status: Status
    var stage: Stage
    ghost var view: View

    ghost predicate Valid()
      reads this
    {
      && g.Valid() && ValidPageSize(g.pageSize) && g.fileSize == version.fileSize < 0x1_0000_0000_0000_0000
      && |bits| == |crcs| == g.Npages()
      && StageInv(g, stage) && stage.flushing == map[] && stage.owedBuf == 0 && stage.owedSpec == 0
      && Sized(g, stage.buf)
      && ViewInv(view) && view.phase.Idle? && view.mem == ImageOf(bits, crcs) && view.since == since
      && Below(since, g.Npages())
      && (since != NO_DELTA ==> dirty)
    }

    ghost function Here(): Local
      reads this
    {
      Local(view, dirty, status)
    }

    /** The complete flag says whether every page is present. */
    ghost predicate Honest()
      requires g.Valid()
      reads this
    {
      HonestIn(g.Npages(), view.mem, status)
    }

    /** What of the pools is not this entry's. */
    ghost function Others(): (int, int)
      reads this, pools
    {
      (pools.bufTotal - stage.bufBytes, pools.specTotal - stage.specBytes)
    }

    /** open: adopt a sidecar of the version asked for, with its own page size; without one,
        truncate `.data`, grow it back, and store an empty sidecar at once, or stay dirty if
        that fails. */
    constructor (crc: Crc, data: DataFile, sidecar: Sidecar, pools: Pools, q: Request, storeOk: bool)
      requires ValidPageSize(q.pageSize) && q.version.fileSize < 0x1_0000_0000_0000_0000
      requires sidecar.meta.Some? ==> sidecar.meta.value.Loaded()
      modifies data, sidecar
      ensures Valid() && this.crc == crc && this.data == data && this.sidecar == sidecar && this.pools == pools && mode == q.mode
      ensures stage == EmptyStage()
      ensures OpensAs(q, storeOk, old(sidecar.meta), g, version, Here(), sidecar.meta)
      ensures data.bytes == if Truncates(q, old(sidecar.meta)) then Zeros(q.version.fileSize) else old(data.bytes)
      ensures dirty <==> Truncates(q, old(sidecar.meta)) && !storeOk
      ensures storeOk ==> !Truncates(q, sidecar.meta) // nor does a later opener who asks the same
      ensures Truncates(q, old(sidecar.meta)) || old(sidecar.meta).value.Honest() ==> Honest()
    {
      var empty := Truncates(q, sidecar.meta);
      var m := if empty then Blank(q.version, q.pageSize, q.now) else sidecar.meta.value;
      g := m.Shape();
      version := m.version;
      this.crc, this.data, this.sidecar, this.pools, mode := crc, data, sidecar, pools, q.mode;
      bits, crcs := m.bits, m.crcs;
      status := Status(m.pinned, m.complete, false, m.atime);
      since, dirty, stage := NO_DELTA, empty && !storeOk, EmptyStage();
      view := Opened(m.Image());
      new;
      EmptyInv(g);
      OpenedInv(m.Image());
      AllHereIs(m.bits, m.crcs);
      if empty {
        BlankIs(q.version, q.pageSize, q.now);
        data.bytes := Zeros(q.version.fileSize);
        if storeOk { sidecar.meta := Some(m); }
      }
    }

    // ---- presence transitions --------------------------------------------------------------

    /** A page's bytes are on disk: its bit, its CRC, and the delta the next commit carries. */
    method Publish(p: nat, c: U32)
      requires Valid() && p < g.Npages()
      modifies this
      ensures Valid() && status == old(status) && view == PublishPage(old(view), p, c) && stage == old(stage) && dirty
    {
      hide ViewInv, ImageOf, StageInv;
      SetEntry(bits, crcs, p, true, c);
      PublishKeeps(view, p, c);
      BelowAlso(since, p, g.Npages());
      bits, crcs := bits[p := true], crcs[p := c];
      since := Delta(since.sets + {p}, since.clears - {p});
      view := PublishPage(view, p, c);
      dirty := true;
      assert view.mem == ImageOf(bits, crcs) by { SameImage(view.mem, ImageOf(bits, crcs)); }
    }

    method Retract(p: nat)
      requires Valid() && p < g.Npages()
      modifies this
      ensures Valid() && status == old(status) && view == RetractPage(old(view), p) && stage == old(stage) && dirty
    {
      hide ViewInv, ImageOf, StageInv;
      SetEntry(bits, crcs, p, false, 0);
      RetractKeeps(view, p);
      BelowAlso(since, p, g.Npages());
      bits, crcs := bits[p := false], crcs[p := 0];
      since := Delta(since.sets - {p}, since.clears + {p});
      view := RetractPage(view, p);
      dirty := true;
      assert view.mem == ImageOf(bits, crcs) by { SameImage(view.mem, ImageOf(bits, crcs)); }
    }

    /** The present pages. */
    function Present(): set<nat>
      requires |bits| == |crcs|
      reads this
    {
      ImageOf(bits, crcs).Keys
    }

    /** Settle what the stage owes the process totals. */
    method Settle(s: Stage)
      requires Valid() && StageInv(g, s) && s.flushing == map[] && Sized(g, s.buf) && SamePaid(stage, s)
      modifies this, pools
      ensures Valid() && status == old(status) && view == old(view) && dirty == old(dirty) && stage == s.(owedBuf := 0, owedSpec := 0)
      ensures Others() == old(Others())
    {
      hide ViewInv, ImageOf;
      pools.bufTotal := pools.bufTotal + s.owedBuf;
      pools.specTotal := pools.specTotal + s.owedSpec;
      stage := s.(owedBuf := 0, owedSpec := 0);
    }

    // ---- filling -----------------------------------------------------------------------------

    /** writePages: stage the whole pages of a demand fill; a prediction it covers becomes
        real. Staging anything counts as an access. */
    method WritePages(off: nat, bytes: seq<Byte>, now: nat)
      requires Valid() && off < 0x1_0000_0000_0000_0000 && |bytes| < 0x1_0000_0000_0000_0000
      modifies this, pools
      ensures Valid() && view == old(view) && Others() == old(Others())
      ensures status == if stage.bufBytes + stage.specBytes > old(stage).bufBytes + old(stage).specBytes then old(status).(atime := if now >= old(status).atime + 60 then now else old(status).atime) else old(status)
      ensures SpanIn(g, off, |bytes|) <= off + |bytes|
      ensures StagedSpan(g, crc, old(stage), stage, old(view).mem.Keys, off, bytes, SpanIn(g, off, |bytes|), false, 0, g.Npages())
    {
      hide ViewInv, ImageOf, StageInv;
      var s := StageSpan(g, crc, stage, Present(), off, bytes, false);
      StagedSized(g, crc, stage, s, Present(), off, bytes, SpanIn(g, off, |bytes|), false);
      SettledSpan(g, crc, stage, s, Present(), off, bytes, SpanIn(g, off, |bytes|), false);
      var staged := s.bufBytes + s.specBytes - (stage.bufBytes + stage.specBytes);
      Settle(s);
      if staged > 0 { TouchAtime(now); }
    }

    /** touchAtime: at most one update per minute. */
    method TouchAtime(now: nat)
      requires Valid()
      modifies this
      ensures Valid() && view == old(view) && stage == old(stage) && (old(dirty) ==> dirty)
      ensures status == old(status).(atime := if now >= old(status).atime + 60 then now else old(status).atime)
      ensures (status != old(status) ==> dirty) && (old(Honest()) ==> Honest())
    {
      hide ViewInv, ImageOf, StageInv;
      if now >= status.atime + 60 {
        status := status.(atime := now);
        dirty := true;
      }
    }

    /** stageSpeculative: stage predicted pages, marked; returns the bytes staged. */
    method StageSpeculative(off: nat, bytes: seq<Byte>) returns (staged: int)
      requires Valid() && off < 0x1_0000_0000_0000_0000 && |bytes| < 0x1_0000_0000_0000_0000
      modifies this, pools
      ensures Valid() && status == old(status) && view == old(view) && Others() == old(Others())
      ensures SpanIn(g, off, |bytes|) <= off + |bytes|
      ensures StagedSpan(g, crc, old(stage), stage, old(view).mem.Keys, off, bytes, SpanIn(g, off, |bytes|), true, 0, g.Npages())
      ensures staged == stage.specBytes - old(stage).specBytes
    {
      hide ViewInv, ImageOf, StageInv;
      var s := StageSpan(g, crc, stage, Present(), off, bytes, true);
      StagedSized(g, crc, stage, s, Present(), off, bytes, SpanIn(g, off, |bytes|), true);
      SettledSpan(g, crc, stage, s, Present(), off, bytes, SpanIn(g, off, |bytes|), true);
      staged := s.specBytes - stage.specBytes;
      Settle(s);
    }

    /** dropSpeculative: predictions nobody used leave no trace. */
    method DropSpeculative(off: nat, len: nat) returns (dropped: int)
      requires Valid() && off < 0x1_0000_0000_0000_0000 && len < 0x1_0000_0000_0000_0000
      modifies this, pools
      ensures Valid() && status == old(status) && view == old(view) && Others() == old(Others())
      ensures DroppedSpan(g, old(stage), stage, off, SpanIn(g, off, len), 0, g.Npages())
      ensures dropped == old(stage).specBytes - stage.specBytes && Real(stage.buf) == Real(old(stage).buf)
    {
      hide ViewInv, ImageOf, StageInv;
      var s;
      s, dropped := DropSpan(g, stage, off, len);
      DroppedSized(g, stage, s, off, SpanIn(g, off, len));
      SettledDrop(g, stage, s, off, SpanIn(g, off, len));
      Settle(s);
    }

    // ---- serving -----------------------------------------------------------------------------

    /** readCached. `disk(k)` is what `.data` holds at the k-th read of a run, `again(p)` when
        page `p` is read once more after a short read. Success or failure is that of the
        page-at-a-time read of what the runs show at those moments, and so is the buffer; only an
        accounted read confirms predictions and counts as an access; the process pools move with
        the entry's on every exit; and a failed read retracts exactly what its first bad page
        calls for, keeping the complete flag honest. */
    method ReadCached(off: nat, len: nat, account: bool, now: nat, disk: nat -> seq<Byte>, again: nat -> seq<Byte>)
      returns (ok: bool, out: seq<Byte>)
      requires Valid() && off < 0x1_0000_0000_0000_0000 && len < 0x1_0000_0000_0000_0000
      modifies this, pools
      ensures Valid() && Others() == old(Others())
      ensures var want := ReadOutcome(g, crc, old(view).mem, old(stage), disk, off, len);
              (ok <==> want.Some?) && (ok ==> out == want.value)
      ensures !account ==> stage == old(stage)
      ensures Promoted(g, old(stage), stage, off, len, ok && account && len > 0)
      ensures ok ==> view == old(view)
      ensures ok ==> status == old(status).(atime := if account && len > 0 && now >= old(status).atime + 60 then now else old(status).atime)
      ensures !ok ==> len > 0 && FailedRead(g, crc, old(view).mem, old(stage), disk, again, off, len, view.mem)
      ensures forall p: nat :: Lookup(view.mem, p) != Lookup(old(view).mem, p) ==> p !in view.mem && Meets(g, off, len, p)
      ensures old(Honest()) ==> Honest()
    {
      hide ViewInv, ImageOf, StageInv, ReadSpec, PlanOf, HeldPlaced, RunOk, RunPageGood, RunGood, Observed, PlannedRuns, SeenRuns, Served, Meets, PageGood, HeldSized,
           FirstBad, Goes, AllHeld, OnePage, HonestIn, FailedRead, Demoted, Sized, Add64, SamePaid, Below, ValidPageSize, Promoted,
           Geometry.Npages, Geometry.PageBytes, Geometry.Start, Geometry.PageOf, Geometry.End, Geometry.RunBytes;
      out := [];
      if len == 0 {
        PromotedNone(g, stage, off, len);
        return true, out;
      }
      BadRange(g, off, len);
      if Add64(off, len) < off || Add64(off, len) > g.fileSize {
        PromotedNone(g, stage, off, len);
        NothingGoes(g, crc, view.mem, stage, disk, again, off, len);
        return false, out;
      }
      ghost var s0, mem0 := stage, view.mem;
      AllSized(g, stage);
      var planned, s, runs;
      ghost var stop: nat;
      planned, s, out, runs, stop := Plan(g, ImageOf(bits, crcs), stage, off, len, account);
      g.PageOfFacts(off + len - 1);
      assert s.flushing == map[] && Sized(g, s.buf) by {
        if account { ServedSized(g, stage, g.PageOf(off), Min(stop, g.Npages())); }
      }
      Settle(s);
      assert stop <= g.Npages();
      assert !account ==> stage == s0;
      PromotedBy(g, s0, stage, off, len, stop, account);
      if !planned {
        AbsentFails(Reader(g, crc, mem0, s0, Observed(g, mem0, s0, disk, off, len)), off, len, stop);
        NotHeld(g, mem0, s0, off, len, stop);
        NothingGoes(g, crc, mem0, s0, disk, again, off, len);
        return false, out;
      }
      assert Observed(g, mem0, s0, disk, off, len) == SeenRuns(g, runs, disk, |runs|) by {
        ObservedIs(g, mem0, s0, disk, off, len, runs);
      }
      var bad, short, at;
      out, bad, short, at := ReadRuns(g, crc, mem0, s0, runs, disk, off, len, out);
      if bad.None? {
        if account { TouchAtime(now); }
        return true, out;
      }
      ok := false;
      var r := runs[at];
      InThisRequest(g, mem0, s0, runs, at, off, len);
      DemoteFor(r, bad.value, short, disk(at), again);
      forall p: nat ensures Goes(g, crc, r, disk(at), again, bad.value, p) ==> r.first <= p <= r.last {
        GoesIs(g, crc, r, disk(at), again, bad.value, p);
      }
      PlannedHeld(g, mem0, s0, runs, off, len);
      ThoseGo(g, crc, mem0, s0, disk, again, off, len, view.mem, runs, at, bad.value);
    }

    /** What a run that failed at page `bad`, read from `d`, calls for. */
    method DemoteFor(r: Run, bad: nat, short: bool, ghost d: seq<Byte>, again: nat -> seq<Byte>)
      requires Valid() && r.last < g.Npages() && |r.want| == r.last - r.first + 1 && InRun(r, bad)
      requires short <==> |OnePage(g, d, bad)| < g.PageBytes(bad)
      modifies this
      ensures Valid() && stage == old(stage) && (old(Honest()) ==> Honest())
      ensures forall p: nat :: Lookup(view.mem, p) == if Goes(g, crc, r, d, again, bad, p) then None else Lookup(old(view).mem, p)
    {
      hide ViewInv, ImageOf, StageInv, PageGood, OnePage, Goes, HonestIn, Geometry.Npages, Geometry.PageBytes;
      if short { DemoteBad(bad, r.last, r.want[bad - r.first..], again); }
      else { DemoteRun(bad, bad); }
      forall p: nat ensures Lookup(view.mem, p) == if Goes(g, crc, r, d, again, bad, p) then None else Lookup(old(view).mem, p) {
        GoesIs(g, crc, r, d, again, bad, p);
      }
    }

    /** Mark the pages [first, last] absent. */
    method DemoteRun(first: nat, last: nat)
      requires Valid() && last < g.Npages()
      modifies this
      ensures Valid() && status == old(status).(complete := false) && stage == old(stage)
      ensures forall p: nat :: Lookup(view.mem, p) == if first <= p <= last then None else Lookup(old(view).mem, p)
      ensures first <= last ==> Honest()
    {
      hide ViewInv, ImageOf, StageInv;
      var i := first;
      while i <= last
        invariant first <= i && Valid() && stage == old(stage) && status == old(status)
        invariant forall p: nat :: Lookup(view.mem, p)
                    == if first <= p <= last && p < i then None else Lookup(old(view).mem, p)
      {
        LookupLess(view.mem, i);
        Retract(i);
        i := i + 1;
      }
      status := status.(complete := false);
      dirty := true;
      if first <= last { assert Lookup(view.mem, first) == None; }
    }

    /** After a short read, look again page by page and mark absent exactly the pages that
        really are bad. */
    method DemoteBad(first: nat, last: nat, want: seq<U32>, again: nat -> seq<Byte>)
      requires Valid() && last < g.Npages() && |want| == last + 1 - first
      modifies this
      ensures Valid() && stage == old(stage) && (old(Honest()) ==> Honest())
      ensures forall p: nat :: Lookup(view.mem, p)
                == if first <= p <= last && !PageGood(g, crc, again(p), p, want[p - first]) then None
                   else Lookup(old(view).mem, p)
    {
      hide ViewInv, ImageOf, StageInv, PageGood;
      var i := first;
      while i <= last
        invariant first <= i && Valid() && stage == old(stage) && (old(Honest()) ==> Honest())
        invariant forall p: nat :: Lookup(view.mem, p)
                    == if first <= p <= last && p < i && !PageGood(g, crc, again(p), p, want[p - first]) then None
                       else Lookup(old(view).mem, p)
      {
        if !PageGood(g, crc, again(i), i, want[i - first]) { DemoteRun(i, i); }
        i := i + 1;
      }
    }

    // ---- draining -----------------------------------------------------------------------------

    /** Write the real pages out, then publish those of whole runs, then let the snapshot go.
        `lands(k)` bytes of the k-th write land; `synced` says whether the data was made
        durable. */
    method DrainStage(lands: nat -> nat, synced: bool) returns (failed: bool, runs: seq<Span>, written: seq<nat>)
      requires Valid() && |data.bytes| >= g.fileSize
      modifies this, pools, data
      ensures Valid() && Others() == old(Others()) && (old(Honest()) ==> Honest())
      ensures stage.buf.Keys == Marked(old(stage).buf) && forall p <- stage.buf :: stage.buf[p] == old(stage).buf[p]
      ensures var m := BeginFlush(old(stage)).flushing;
              && m.Keys == Real(old(stage).buf) && Sized(g, m)
              && DrainIs(g, m, old(data.bytes), data.bytes, lands, runs, written, failed)
              && (forall k :: 0 <= k < |written| ==> written[k] in m)
              && Here() == Published(g, old(Here()), m, if synced then written else [])
    {
      hide ViewInv, ImageOf, StageInv, DrainIs, Below, ValidPageSize, SumBytes,
           Geometry.Npages, Geometry.PageBytes, Geometry.Start, Geometry.End, HonestIn, Published;
      NothingReal(g, stage);
      FlushSized(g, stage);
      var s := BeginFlush(stage);
      if stage.bufBytes == 0 {
        failed, runs, written := false, [], [];
        PublishedNone(g, Here(), s.flushing);
        NothingDrained(g, s.flushing, data.bytes, lands);
        return;
      }
      BeginFlushKeeps(g, stage);
      failed, runs, written := Drain(s.flushing, lands, synced);
      EndFlushKeeps(g, s);
      Settle(EndFlush(s));
    }

    /** Write a snapshot out and publish what was written whole, if it was made durable. */
    method Drain(m: map<nat, Staged>, lands: nat -> nat, synced: bool) returns (failed: bool, runs: seq<Span>, written: seq<nat>)
      requires Valid() && |data.bytes| >= g.fileSize && Sized(g, m)
      modifies this, data
      ensures Valid() && stage == old(stage) && (old(Honest()) ==> Honest())
      ensures DrainIs(g, m, old(data.bytes), data.bytes, lands, runs, written, failed)
      ensures (forall k :: 0 <= k < |written| ==> written[k] in m)
      ensures Here() == Published(g, old(Here()), m, if synced then written else [])
    {
      hide ViewInv, ImageOf, StageInv, DrainIs, Below, ValidPageSize,
           Geometry.Npages, Geometry.PageBytes, Geometry.Start, Geometry.End, HonestIn, Published;
      data.bytes, written, failed, runs := WriteRuns(g, m, data.bytes, lands);
      OnlySnapshot(g, m, old(data.bytes), data.bytes, lands, runs, written, failed);
      PublishPages(if synced then written else [], m);
    }

    /** Publish the pages, and note it when none is missing any more. */
    method PublishPages(pages: seq<nat>, from: map<nat, Staged>)
      requires Valid() && forall k :: 0 <= k < |pages| ==> pages[k] in from && pages[k] < g.Npages()
      modifies this
      ensures Valid() && stage == old(stage) && (old(Honest()) ==> Honest())
      ensures Here() == Published(g, old(Here()), from, pages)
    {
      hide ViewInv, ImageOf, StageInv;
      for k := 0 to |pages|
        invariant Valid() && stage == old(stage) && status == old(status) && view == PublishSeq(old(view), from, pages[..k])
        invariant dirty == (old(dirty) || k > 0)
      {
        assert pages[..k + 1][..k] == pages[..k];
        Publish(pages[k], from[pages[k]].crc);
      }
      assert pages[..|pages|] == pages;
      AllHereIs(bits, crcs);
      PublishGrows(old(view), from, pages);
      if pages != [] && AllHere(bits) { status := status.(complete := true); }
    }

    /** releaseRanges, one range: the pages wholly inside it leave the stage, whichever pool
        they are in, and are retracted. Returns the resident bytes given up, and the byte
        span to punch. The file's short tail page is not counted as inside. */
    method ReleaseRange(off: nat, len: nat) returns (resident: nat, first: nat, stop: nat)
      requires Valid() && off < 0x1_0000_0000_0000_0000 && len < 0x1_0000_0000_0000_0000
      modifies this, pools
      ensures Valid() && Others() == old(Others()) && (old(Honest()) ==> Honest())
      ensures status == old(status).(complete := old(status).complete && first == stop)
      ensures first <= stop <= g.Npages()
      ensures forall p: nat :: first <= p < stop <==> Covers(g, off, len, p)
      ensures forall p: nat :: Lookup(view.mem, p) == if first <= p < stop then None else Lookup(old(view).mem, p)
      ensures forall p: nat :: BufAt(stage, p) == if first <= p < stop then None else BufAt(old(stage), p)
      ensures resident == SumBytes(g, set p | p in old(view).mem && first <= p < stop)
      ensures old(since).clears <= since.clears
      ensures forall p: nat :: p in old(view).mem && first <= p < stop ==> p in since.clears
    {
      hide ViewInv, ImageOf, StageInv, SumBytes, Geometry.Npages, Geometry.PageBytes, Geometry.Start;
      resident, first, stop := 0, 0, 0;
      ReleaseBounds(g, off, len);
      SumNone(g);
      if len != 0 && Add64(off, len) >= off && Add64(off, len) <= g.fileSize {
        first, stop := (off + g.pageSize - 1) / g.pageSize, (off + len) / g.pageSize;
        if first >= stop { first, stop := 0, 0; }
      }
      assert (set p | p in view.mem && 0 <= p < 0) == {};
      if first < stop {
        resident := ReleasePages(first, stop);
        status := status.(complete := false);
        assert Lookup(view.mem, first) == None;
      }
    }

    method ReleasePages(first: nat, stop: nat) returns (resident: nat)
      requires Valid() && first <= stop <= g.Npages()
      modifies this, pools
      ensures Valid() && status == old(status) && Others() == old(Others())
      ensures forall p: nat :: Lookup(view.mem, p) == if first <= p < stop then None else Lookup(old(view).mem, p)
      ensures forall p: nat :: BufAt(stage, p) == if first <= p < stop then None else BufAt(old(stage), p)
      ensures resident == SumBytes(g, set p | p in old(view).mem && first <= p < stop)
      ensures old(since).clears <= since.clears
      ensures forall p: nat :: p in old(view).mem && first <= p < stop ==> p in since.clears
    {
      hide ViewInv, ImageOf, StageInv, SumBytes, Sized, Below, Geometry.Npages, Geometry.PageBytes, Geometry.Start;
      ghost var mem0, s0, gone := view.mem, stage, {};
      resident := 0;
      SumNone(g);
      var s := stage;
      for i := first to stop
        invariant Valid() && stage == old(stage) && status == old(status) && pools.bufTotal == old(pools.bufTotal) && pools.specTotal == old(pools.specTotal)
        invariant StageInv(g, s) && SamePaid(s0, s) && s.flushing == map[] && Sized(g, s.buf)
        invariant forall p: nat :: Lookup(view.mem, p) == if first <= p < i then None else Lookup(mem0, p)
        invariant forall p: nat :: BufAt(s, p) == if first <= p < i then None else BufAt(s0, p)
        invariant Within(g, gone) && resident == SumBytes(g, gone) && old(since).clears <= since.clears && gone <= since.clears
        invariant gone == set p | p in mem0 && first <= p < i
      {
        ReleaseKeeps(g, s, i);
        ReleasedAt(g, s, i);
        s := ReleasePage(s, i, g.PageBytes(i));
        BitAt(bits, crcs, i);
        assert Lookup(view.mem, i) == Lookup(mem0, i);
        LookupLess(view.mem, i);
        if bits[i] {
          SumAdd(g, gone, i);
          gone := gone + {i};
          resident := resident + g.PageBytes(i);
          Retract(i);
        }
      }
      Settle(s);
      assert gone == set p | p in old(view).mem && first <= p < stop;
      assert forall p: nat {:trigger BufAt(stage, p)} :: BufAt(stage, p) == BufAt(s, p);
    }

    // ---- committing ------------------------------------------------------------------------------

    /** flushMeta: merge this handle's deltas into the sidecar on disk and adopt the result,
        or put them back if the store fails. A pin goes with the deltas: it is written over
        the one on disk only if this handle touched it. An entry whose file is gone is never
        stored again. */
    method FlushMeta(storeOk: bool, unlinked: bool)
      requires Valid() && (sidecar.meta.Some? ==> sidecar.meta.value.Loaded())
      modifies this, sidecar
      ensures Valid() && stage == old(stage)
      ensures CommitOf(g, mode, version, old(Here()), old(sidecar.meta), storeOk, unlinked, Here(), sidecar.meta)
      ensures sidecar.meta.Some? ==> sidecar.meta.value.Loaded()
      ensures Usable(old(sidecar.meta), mode, version).Some? || (old(dirty) && storeOk && !unlinked) ==> Usable(sidecar.meta, mode, version).Some?
      ensures old(Honest()) ==> Honest()
    {
      hide ViewInv, StageInv, Rearm, ImageOf, Geometry.Npages, Committed, StoredAs, AllHere, HonestIn, Usable, Mergeable;
      if !dirty { return; }
      ghost var v := view;
      SnapshotSets(v);
      NoneBelow(g.Npages());
      if unlinked {
        since, dirty, status := NO_DELTA, false, status.(touched := false);
        view := Opened(v.mem);
        OpenedInv(v.mem);
        HonestSame(g.Npages(), v.mem, old(status), status);
        return;
      }
      ghost var a, m0 := Here(), sidecar.meta;
      var sets, clears := since.sets, since.clears;
      var found := Mergeable(sidecar.meta, mode, version, g.pageSize);
      FoundIs(m0, mode, version, g.pageSize);
      CommittedIs(v, ImageIn(found), storeOk);
      var out := Compose(found);
      StoredUsable(g, mode, version, m0, a, out);
      since, dirty := NO_DELTA, false;
      view := Committed(v, ImageIn(found), storeOk);
      if !storeOk {
        dirty := true;
        since := RearmTables(g.Npages(), since, Delta(sets, clears));
        RearmNone(Delta(sets, clears));
        return;
      }
      sidecar.meta := Some(out);
      status := status.(touched := false);
      if found.Some? {
        bits, crcs := AdoptTables(bits, crcs, out.bits, out.crcs, since);
        AdoptAll(v.mem, out.Image());
        SameFull(bits, crcs, out.bits, out.crcs);
        status := Status(out.pinned, AllHere(bits), false, Max(status.atime, out.atime));
      }
      assert CommitOf(g, mode, version, a, m0, storeOk, unlinked, Here(), sidecar.meta);
      if HonestIn(g.Npages(), a.view.mem, a.status) { CommitHonest(g, mode, version, a, m0, Here(), sidecar.meta); }
    }

    /** The sidecar to store: this handle's deltas merged into the one found, or its own whole. */
    method Compose(found: Option<Meta>) returns (out: Meta)
      requires Valid() && view.since.sets <= view.mem.Keys
      requires found == Mergeable(sidecar.meta, mode, version, g.pageSize) && (found.Some? ==> found.value.Loaded())
      ensures StoredAs(g, version, found, Here(), out)
      ensures out.atime >= status.atime && ImageIn(found).Some? == found.Some?
      ensures found.None? ==> out.bits == bits && out.crcs == crcs && out.pinned == status.pinned && out.complete == status.complete && out.atime == status.atime
      ensures out.Loaded() && out.Shape() == g && out.Image() == Stored(TakeSnapshot(view), ImageIn(found))
      ensures found.Some? ==> out.complete == AllHere(out.bits)
    {
      hide ViewInv, StageInv, ImageOf, Geometry.Npages, AllHere, Merge;
      if found.Some? {
        var t := found.value;
        var b, c := MergeTables(t.bits, t.crcs, bits, crcs, since.sets, since.clears);
        out := t.(bits := b, crcs := c, pinned := if status.touched then status.pinned else t.pinned, complete := AllHere(b),
                  atime := Max(t.atime, status.atime));
      } else {
        out := Meta(version, g.pageSize, status.pinned, status.complete, status.atime, bits, crcs);
      }
    }

    // ---- draining and committing -----------------------------------------------------------------

    /** flushBuffer. A call that is not forced drains only at a cap or when the buffer is due,
        and commits only when the sidecar is due. Whatever was drained is published, then
        committed: once the store succeeds, every page written whole and made durable is on
        disk with its bytes, and in the sidecar with their CRC. */
    method FlushBuffer(force: bool, p: Policy, lands: nat -> nat, synced: bool, storeOk: bool, unlinked: bool)
      returns (drained: bool, failed: bool, runs: seq<Span>, written: seq<nat>)
      requires Valid() && |data.bytes| >= g.fileSize && (sidecar.meta.Some? ==> sidecar.meta.value.Loaded())
      modifies this, pools, data, sidecar
      ensures Valid() && Others() == old(Others()) && (old(Honest()) ==> Honest())
      ensures sidecar.meta.Some? ==> sidecar.meta.value.Loaded()
      ensures drained == (old(stage).bufBytes > 0 && (force || old(stage).bufBytes >= p.cap || old(pools.bufTotal) >= p.totalCap || p.bufferDue))
      ensures !drained ==> Here() == old(Here()) && stage == old(stage) && data.bytes == old(data.bytes) && sidecar.meta == old(sidecar.meta)
      ensures drained ==> stage.buf.Keys == Marked(old(stage).buf) && forall q <- stage.buf :: stage.buf[q] == old(stage).buf[q]
      ensures drained ==>
                var m := BeginFlush(old(stage)).flushing;
                && m.Keys == Real(old(stage).buf) && Sized(g, m)
                && DrainIs(g, m, old(data.bytes), data.bytes, lands, runs, written, failed)
                && (forall k :: 0 <= k < |written| ==> written[k] in m)
                && var a := Published(g, old(Here()), m, if synced then written else []);
                   if force || p.sidecarDue
                   then CommitOf(g, mode, version, a, old(sidecar.meta), storeOk, unlinked, Here(), sidecar.meta)
                   else Here() == a && sidecar.meta == old(sidecar.meta)
      ensures drained && synced && storeOk && !unlinked && (force || p.sidecarDue) ==>
                forall q <- written :: q in BeginFlush(old(stage)).flushing && sidecar.meta.Some? && sidecar.meta.value.Loaded()
                  && Lookup(sidecar.meta.value.Image(), q) == Some(BeginFlush(old(stage)).flushing[q].crc)
    {
      hide ViewInv, ImageOf, StageInv, DrainIs, Published, CommitOf, BeginFlush, HonestIn, Sized, Below, Geometry.Npages;
      drained, failed, runs, written := false, false, [], [];
      BufNotNegative(g, stage);
      if stage.bufBytes == 0 { return; }
      if !force && stage.bufBytes < p.cap && pools.bufTotal < p.totalCap && !p.bufferDue { return; }
      drained := true;
      ghost var was, m := Here(), BeginFlush(stage).flushing;
      failed, runs, written := DrainStage(lands, synced);
      if force || p.sidecarDue {
        ghost var a, m0 := Here(), sidecar.meta;
        FlushMeta(storeOk, unlinked);
        if synced && storeOk && !unlinked {
          forall q <- written ensures sidecar.meta.Some? && sidecar.meta.value.Loaded() && Lookup(sidecar.meta.value.Image(), q) == Some(m[q].crc) {
            PublishedPage(g, was, m, written, q);
            CommitLands(g, mode, version, a, m0, Here(), sidecar.meta, q);
          }
        }
      }
    }

    /** flushAll: the stage, then the sidecar. Nothing real is left in the stage; if the store
        succeeds nothing is pending; and if no write fails either, every page that was staged
        for real is on disk with its bytes, and in the sidecar with their CRC. */
    method FlushAll(lands: nat -> nat, synced: bool, storeOk: bool)
      returns (failed: bool, runs: seq<Span>, written: seq<nat>)
      requires Valid() && |data.bytes| >= g.fileSize && (sidecar.meta.Some? ==> sidecar.meta.value.Loaded())
      modifies this, pools, data, sidecar
      ensures Valid() && Others() == old(Others()) && (old(Honest()) ==> Honest())
      ensures Real(stage.buf) == {} && (storeOk ==> !dirty && since == NO_DELTA)
      ensures synced && storeOk && !failed ==>
                forall q <- Real(old(stage).buf) :: q < g.Npages() && PageIs(g, data.bytes, q, old(stage).buf[q].data)
                  && sidecar.meta.Some? && sidecar.meta.value.Loaded() && Lookup(sidecar.meta.value.Image(), q) == Some(old(stage).buf[q].crc)
    {
      hide ViewInv, ImageOf, StageInv, Published, HonestIn, Below, Geometry.Npages, Geometry.PageBytes, DrainIs, PageIs, BeginFlush, SamePage;
      var drained;
      ghost var m := BeginFlush(stage).flushing;
      NothingReal(g, stage);
      BufNotNegative(g, stage);
      FlushSized(g, stage);
      drained, failed, runs, written := FlushBuffer(true, Policy(0, 0, true, true), lands, synced, storeOk, false);
      if drained {
        OnlyMarked(old(stage), stage);
        if !failed {
          forall q <- m ensures q < g.Npages() && PageIs(g, data.bytes, q, m[q].data) && q in written {
            DrainMeans(g, m, old(data.bytes), data.bytes, lands, runs, written, failed, q);
          }
        }
      }
      FlushMeta(storeOk, false);
    }

    /** setPinned: the pin this handle chose is on disk once the store succeeds, whatever a
        sibling had there, and no page changes hands but by the commit. */
    method SetPinned(p: bool, storeOk: bool)
      requires Valid() && (sidecar.meta.Some? ==> sidecar.meta.value.Loaded())
      modifies this, sidecar
      ensures Valid() && stage == old(stage) && status.pinned == p
      ensures storeOk ==> sidecar.meta.Some? && sidecar.meta.value.pinned == p && !dirty
      ensures !storeOk ==> sidecar.meta == old(sidecar.meta) && dirty && status.touched
    {
      hide ViewInv, StageInv, ImageOf, Committed, Geometry.Npages;
      status := status.(pinned := p, touched := true);
      dirty := true;
      FlushMeta(storeOk, false);
    }
  }

  /** How far the truncation of a fresh open gets: both calls work, the first fails, or the
      second does. */
  datatype Truncation = Works | Fails | Shrinks

  /** open: there is no entry exactly when a fresh one is needed and `.data` cannot be truncated
      and grown back; the sidecar is then left alone. */
  method Open(crc: Crc, data: DataFile, sidecar: Sidecar, pools: Pools, q: Request, trunc: Truncation, storeOk: bool)
    returns (e: FileEntry?)
    requires ValidPageSize(q.pageSize) && q.version.fileSize < 0x1_0000_0000_0000_0000
    requires sidecar.meta.Some? ==> sidecar.meta.value.Loaded()
    modifies data, sidecar
    ensures e == null <==> Truncates(q, old(sidecar.meta)) && trunc != Works
    ensures e == null ==> sidecar.meta == old(sidecar.meta) && data.bytes == if trunc == Shrinks then [] else old(data.bytes)
    ensures e != null ==>
              && fresh(e) && e.Valid() && e.data == data && e.sidecar == sidecar && e.pools == pools && e.stage == EmptyStage()
              && OpensAs(q, storeOk, old(sidecar.meta), e.g, e.version, e.Here(), sidecar.meta)
              && data.bytes == (if Truncates(q, old(sidecar.meta)) then Zeros(q.version.fileSize) else old(data.bytes))
              && (storeOk ==> !Truncates(q, sidecar.meta)) && (e.dirty <==> Truncates(q, old(sidecar.meta)) && !storeOk)
  {
    if Truncates(q, sidecar.meta) && trunc != Works {
      if trunc == Shrinks { data.bytes := []; }
      return null;
    }
    e := new FileEntry(crc, data, sidecar, pools, q, storeOk);
  }

  // ---- lemmas the methods rest on ----------------------------------------------------------

  lemma StagedSized(g: Geometry, crc: Crc, s0: Stage, s: Stage, present: set<nat>, off: nat, bytes: seq<Byte>, end: nat, spec: bool)
    requires g.Valid() && Sized(g, s0.buf) && end <= off + |bytes|
    requires StagedSpan(g, crc, s0, s, present, off, bytes, end, spec, 0, g.Npages())
    ensures Sized(g, s.buf)
  {
    hide Geometry.Npages, Geometry.PageBytes, Geometry.Start;
    forall p <- s.buf ensures p < g.Npages() && |s.buf[p].data| == g.PageBytes(p) {
      assert BufAt(s, p).Some?;
    }
  }

  lemma DroppedSized(g: Geometry, s0: Stage, s: Stage, off: nat, end: nat)
    requires g.Valid() && Sized(g, s0.buf) && DroppedSpan(g, s0, s, off, end, 0, g.Npages())
    ensures Sized(g, s.buf)
  {
    hide Geometry.Npages, Geometry.PageBytes, Geometry.Start;
    forall p <- s.buf ensures p < g.Npages() && |s.buf[p].data| == g.PageBytes(p) {
      assert BufAt(s, p).Some?;
    }
  }

  /** Settling the totals changes no staged page. */
  lemma SettledSpan(g: Geometry, crc: Crc, s0: Stage, s: Stage, present: set<nat>, off: nat, bytes: seq<Byte>, end: nat, spec: bool)
    requires g.Valid() && end <= off + |bytes|
    requires StagedSpan(g, crc, s0, s, present, off, bytes, end, spec, 0, g.Npages())
    ensures StagedSpan(g, crc, s0, s.(owedBuf := 0, owedSpec := 0), present, off, bytes, end, spec, 0, g.Npages())
  {
    hide Geometry.Npages, Geometry.PageBytes, Geometry.Start, PageStaged;
    var t := s.(owedBuf := 0, owedSpec := 0);
    forall p: nat
      ensures if 0 <= p < g.Npages() && Whole(g, off, end, p)
              then PageStaged(crc, s0, t, p in present, bytes[g.Start(p) - off..g.End(p) - off], spec, p)
              else BufAt(t, p) == BufAt(s0, p)
    {
      assert BufAt(t, p) == BufAt(s, p);
      if Whole(g, off, end, p) { SameStaged(crc, s0, s, t, p in present, bytes[g.Start(p) - off..g.End(p) - off], spec, p); }
    }
  }

  lemma SettledDrop(g: Geometry, s0: Stage, s: Stage, off: nat, end: nat)
    requires g.Valid() && DroppedSpan(g, s0, s, off, end, 0, g.Npages())
    ensures DroppedSpan(g, s0, s.(owedBuf := 0, owedSpec := 0), off, end, 0, g.Npages())
  {
    hide Geometry.Npages, Geometry.PageBytes, Geometry.Start;
    var t := s.(owedBuf := 0, owedSpec := 0);
    assert forall p: nat {:trigger BufAt(t, p)} :: BufAt(t, p) == BufAt(s, p);
  }

  lemma LookupLess(img: Image, i: nat)
    ensures forall p: nat {:trigger Lookup(img - {i}, p)} :: Lookup(img - {i}, p) == if p == i then None else Lookup(img, p)
  {}

  lemma ServedSized(g: Geometry, s: Stage, lo: nat, hi: nat)
    requires g.Valid() && lo <= hi <= g.Npages() && StageInv(g, s) && Sized(g, s.buf)
    ensures Sized(g, Served(g, s, lo, hi).buf) && Served(g, s, lo, hi).flushing == s.flushing
  {
    hide StageInv, Served, Geometry.Npages, Geometry.PageBytes;
    ServedKeeps(g, s, lo, hi);
    var t := Served(g, s, lo, hi);
    forall p <- t.buf ensures p < g.Npages() && |t.buf[p].data| == g.PageBytes(p) {
      assert BufAt(t, p).Some?;
    }
  }

  lemma AllSized(g: Geometry, s: Stage)
    requires g.Valid() && Sized(g, s.buf) && s.flushing == map[]
    ensures HeldSized(g, s)
  {}

  /** An absent page of the request fails the page-at-a-time read. */
  lemma AbsentFails(r: Reader, off: nat, len: nat, p: nat)
    requires r.g.Valid() && len > 0 && off + len <= r.g.fileSize && p < r.g.Npages()
    requires r.g.PageOf(off) <= p <= r.g.PageOf(off + len - 1) && !r.stage.Holds(p) && p !in r.mem
    ensures ReadSpec(r, off, len).None?
  {
    hide ReadSpec, Geometry.Npages, Geometry.PageBytes, Geometry.PageOf;
    ReadFailsExactly(r, off, len);
    assert r.Page(p).None?;
  }

  lemma HonestSame(n: nat, mem: Image, a: Status, b: Status)
    requires a.complete == b.complete
    ensures HonestIn(n, mem, a) == HonestIn(n, mem, b)
  {}

  lemma GoesIs(g: Geometry, crc: Crc, r: Run, d: seq<Byte>, again: nat -> seq<Byte>, bad: nat, p: nat)
    requires g.Valid() && r.last < g.Npages() && |r.want| == r.last - r.first + 1 && InRun(r, bad)
    ensures |OnePage(g, d, bad)| < g.PageBytes(bad) ==>
              (Goes(g, crc, r, d, again, bad, p) <==> bad <= p <= r.last && !PageGood(g, crc, again(p), p, r.want[bad - r.first..][p - bad]))
    ensures |OnePage(g, d, bad)| >= g.PageBytes(bad) ==> (Goes(g, crc, r, d, again, bad, p) <==> p == bad)
  {
    hide OnePage, PageGood, Geometry.Npages, Geometry.PageBytes;
  }

  lemma PlannedHeld(g: Geometry, mem: Image, s: Stage, runs: seq<Run>, off: nat, len: nat)
    requires g.Valid() && len > 0 && PlanOf(g, mem, s, runs, g.PageOf(off), g.PageOf(off + len - 1) + 1)
    ensures AllHeld(g, mem, s, off, len)
  {
    hide Geometry.Npages, Geometry.PageBytes, Geometry.PageOf, Geometry.RunBytes;
    forall p: nat | g.PageOf(off) <= p <= g.PageOf(off + len - 1) ensures s.Holds(p) || p in mem {
      if !s.Holds(p) {
        assert InRuns(runs, p);
        var k :| 0 <= k < |runs| && InRun(runs[k], p);
        assert RunOk(g, mem, s, runs[k]);
      }
    }
  }

  /** A read that could not be planned retracts nothing. */
  lemma NothingGoes(g: Geometry, crc: Crc, mem: Image, s: Stage, disk: nat -> seq<Byte>, again: nat -> seq<Byte>, off: nat, len: nat)
    requires g.Valid() && len > 0 && (off + len > g.fileSize || !AllHeld(g, mem, s, off, len))
    ensures FailedRead(g, crc, mem, s, disk, again, off, len, mem)
  {
    hide AllHeld, Demoted;
  }

  lemma ThoseGo(g: Geometry, crc: Crc, mem0: Image, s: Stage, disk: nat -> seq<Byte>, again: nat -> seq<Byte>, off: nat, len: nat, mem: Image,
                runs: seq<Run>, at: nat, bad: nat)
    requires g.Valid() && len > 0 && off + len <= g.fileSize && AllHeld(g, mem0, s, off, len)
    requires g.PageOf(off) <= g.PageOf(off + len - 1) + 1 <= g.Npages()
    requires runs == PlannedRuns(g, mem0, s, g.PageOf(off), g.PageOf(off + len - 1) + 1) && FirstBad(g, crc, runs, disk, at, bad)
    requires forall p: nat :: Lookup(mem, p) == if Goes(g, crc, runs[at], disk(at), again, bad, p) then None else Lookup(mem0, p)
    ensures FailedRead(g, crc, mem0, s, disk, again, off, len, mem)
  {
    hide AllHeld, PlannedRuns, Goes, Geometry.Npages, Geometry.PageOf;
  }

  lemma NotHeld(g: Geometry, mem: Image, s: Stage, off: nat, len: nat, p: nat)
    requires g.Valid() && len > 0 && g.PageOf(off) <= p <= g.PageOf(off + len - 1) && !s.Holds(p) && p !in mem
    ensures !AllHeld(g, mem, s, off, len)
  {}

  /** The pages of a planned run meet the request. */
  lemma InThisRequest(g: Geometry, mem: Image, s: Stage, runs: seq<Run>, at: nat, off: nat, len: nat)
    requires g.Valid() && len > 0 && off + len <= g.fileSize && at < |runs|
    requires PlanOf(g, mem, s, runs, g.PageOf(off), g.PageOf(off + len - 1) + 1)
    ensures runs[at].first <= runs[at].last < g.Npages() && |runs[at].want| == runs[at].last - runs[at].first + 1
    ensures forall p: nat :: runs[at].first <= p <= runs[at].last ==> Meets(g, off, len, p)
    ensures forall p: nat :: runs[at].first <= p <= runs[at].last ==> p in mem && runs[at].want[p - runs[at].first] == mem[p]
  {
    hide Geometry.Npages, Geometry.PageBytes, Geometry.PageOf, Geometry.Start, Geometry.RunBytes;
    assert RunOk(g, mem, s, runs[at]);
    forall p: nat | runs[at].first <= p <= runs[at].last ensures Meets(g, off, len, p) {
      InRequest(g, off, len, p);
      EndBound(g, p);
    }
  }

  lemma EndBound(g: Geometry, p: nat)
    requires g.Valid() && p < g.Npages()
    ensures g.End(p) <= g.Start(p) + g.pageSize
  {}

  lemma PromotedNone(g: Geometry, s: Stage, off: nat, len: nat)
    ensures Promoted(g, s, s, off, len, false)
  {}

  lemma PromotedBy(g: Geometry, s0: Stage, s: Stage, off: nat, len: nat, stop: nat, account: bool)
    requires g.Valid() && len > 0 && off + len <= g.fileSize && StageInv(g, s0)
    requires g.PageOf(off) <= stop <= g.PageOf(off + len - 1) + 1 <= g.Npages()
    requires s == if account then Served(g, s0, g.PageOf(off), stop).(owedBuf := 0, owedSpec := 0) else s0
    ensures Promoted(g, s0, s, off, len, account && stop == g.PageOf(off + len - 1) + 1)
    ensures Promoted(g, s0, s, off, len, false)
  {
    hide Geometry.Npages, Geometry.PageBytes, Geometry.PageOf, Geometry.Start, StageInv, Served, Meets;
    if account {
      ServedKeeps(g, s0, g.PageOf(off), stop);
      var t := Served(g, s0, g.PageOf(off), stop);
      forall p: nat ensures BufAt(s, p) == BufAt(t, p) && (Meets(g, off, len, p) <==> g.PageOf(off) <= p <= g.PageOf(off + len - 1)) {
        MeetsIs(g, off, len, p);
      }
    }
  }

  lemma MeetsIs(g: Geometry, off: nat, len: nat, p: nat)
    requires g.Valid() && len > 0 && off + len <= g.fileSize
    ensures Meets(g, off, len, p) <==> g.PageOf(off) <= p <= g.PageOf(off + len - 1)
  {
    hide Geometry.Npages, Geometry.PageOf, Geometry.Start;
    g.PageOfFacts(off);
    g.PageOfFacts(off + len - 1);
    g.StartNext(p);
    if p < g.PageOf(off) { g.StartMono(p + 1, g.PageOf(off)); }
    else { g.StartMono(g.PageOf(off) + 1, p + 1); }
    if p > g.PageOf(off + len - 1) { g.StartMono(g.PageOf(off + len - 1) + 1, p); }
    else { g.StartMono(p, g.PageOf(off + len - 1)); }
  }

  lemma SumNone(g: Geometry)
    requires g.Valid()
    ensures SumBytes(g, {}) == 0
  {}

  lemma BitAt(bits: seq<bool>, crcs: seq<U32>, i: nat)
    requires |bits| == |crcs| && i < |bits|
    ensures bits[i] <==> i in ImageOf(bits, crcs)
  {}

  lemma ReleasedAt(g: Geometry, s: Stage, i: nat)
    requires g.Valid() && Sized(g, s.buf) && i < g.Npages()
    ensures var t := ReleasePage(s, i, g.PageBytes(i));
            && Sized(g, t.buf) && t.flushing == s.flushing
            && forall p: nat {:trigger BufAt(t, p)} :: BufAt(t, p) == if p == i then None else BufAt(s, p)
  {
    hide Geometry.Npages, Geometry.PageBytes;
  }

  /** The page range of a release is the whole pages of it. */
  lemma ReleaseBounds(g: Geometry, off: nat, len: nat)
    requires g.Valid() && g.fileSize < 0x1_0000_0000_0000_0000
    requires off < 0x1_0000_0000_0000_0000 && len < 0x1_0000_0000_0000_0000
    ensures len == 0 || Add64(off, len) < off || Add64(off, len) > g.fileSize <==> len == 0 || off + len > g.fileSize
    ensures forall p: nat :: (off + g.pageSize - 1) / g.pageSize <= p < (off + len) / g.pageSize
              <==> off <= g.Start(p) && g.Start(p) + g.pageSize <= off + len
    ensures off + len <= g.fileSize ==> (off + len) / g.pageSize <= g.Npages()
    ensures len == 0 ==> (off + g.pageSize - 1) / g.pageSize >= (off + len) / g.pageSize
  {
    forall p: nat
      ensures (off + g.pageSize - 1) / g.pageSize <= p < (off + len) / g.pageSize
              <==> off <= g.Start(p) && g.Start(p) + g.pageSize <= off + len
    {
      CeilDiv(off, g.pageSize, p);
      FloorDiv(off + len, g.pageSize, p);
    }
    if off + len <= g.fileSize { DivMono(off + len, g.fileSize + g.pageSize - 1, g.pageSize); }
    if len == 0 { DivMono(off, off + g.pageSize - 1, g.pageSize); }
  }

  lemma DivMono(a: nat, b: nat, p: nat)
    requires p > 0 && a <= b
    ensures a / p <= b / p
  {
    if a / p > b / p { MulMono(b / p + 1, a / p, p); }
  }

  lemma BufNotNegative(g: Geometry, s: Stage)
    requires g.Valid() && StageInv(g, s)
    ensures s.bufBytes >= 0
  {}

  lemma OnlyMarked(s0: Stage, s: Stage)
    requires s.buf.Keys == Marked(s0.buf) && forall p <- s.buf :: s.buf[p] == s0.buf[p]
    ensures Real(s.buf) == {}
  {}

  lemma NothingReal(g: Geometry, s: Stage)
    requires g.Valid() && StageInv(g, s)
    ensures s.bufBytes == 0 <==> Real(s.buf) == {}
    ensures Real(s.buf) == {} ==> Marked(s.buf) == s.buf.Keys
  {
    assert forall p :: p in s.buf ==> p in Real(s.buf) || p in Marked(s.buf);
    if p :| p in Real(s.buf) {
      SumTake(g, Real(s.buf), p);
      g.EndIsNextStart(p);
    }
  }

  /** The two halves a flush begins with. */
  lemma FlushSized(g: Geometry, s: Stage)
    requires g.Valid() && s.flushing == map[] && Sized(g, s.buf)
    ensures var t := BeginFlush(s);
            && Sized(g, t.buf) && Sized(g, t.flushing) && t.flushing.Keys == Real(s.buf)
            && Real(t.buf) == {} && Marked(t.buf) == Marked(s.buf)
            && forall p <- t.flushing :: p in s.buf && t.flushing[p] == s.buf[p]
  {
    hide Geometry.Npages, Geometry.PageBytes;
  }

  /** Publish pages in order, each with the CRC it was staged with. */
  function PublishSeq(v: View, from: map<nat, Staged>, pages: seq<nat>): View
    requires forall k :: 0 <= k < |pages| ==> pages[k] in from
  {
    if pages == [] then v
    else
      var n := |pages| - 1;
      PublishPage(PublishSeq(v, from, pages[..n]), pages[n], from[pages[n]].crc)
  }

  /** What publishing does to a handle: the pages, and the complete flag once none is missing. */
  ghost function Published(g: Geometry, a: Local, from: map<nat, Staged>, pages: seq<nat>): Local
    requires g.Valid() && forall k :: 0 <= k < |pages| ==> pages[k] in from
  {
    var v := PublishSeq(a.view, from, pages);
    var full := pages != [] && g.Npages() > 0 && forall p: nat :: p < g.Npages() ==> p in v.mem;
    Local(v, a.dirty || pages != [], a.status.(complete := a.status.complete || full))
  }

  lemma PublishedNone(g: Geometry, a: Local, from: map<nat, Staged>)
    requires g.Valid()
    ensures Published(g, a, from, []) == a
  {}

  /** A page published is in memory with the CRC it was staged with, and in the delta. */
  lemma {:induction false} PublishedIn(v: View, from: map<nat, Staged>, pages: seq<nat>, p: nat)
    requires (forall k :: 0 <= k < |pages| ==> pages[k] in from) && p in pages
    ensures p in from && Lookup(PublishSeq(v, from, pages).mem, p) == Some(from[p].crc) && p in PublishSeq(v, from, pages).since.sets
  {
    var n := |pages| - 1;
    if p != pages[n] {
      assert p in pages[..n];
      PublishedIn(v, from, pages[..n], p);
    }
  }

  lemma PublishedPage(g: Geometry, a: Local, from: map<nat, Staged>, pages: seq<nat>, p: nat)
    requires g.Valid() && (forall k :: 0 <= k < |pages| ==> pages[k] in from) && p in pages
    ensures var b := Published(g, a, from, pages);
            p in from && Lookup(b.view.mem, p) == Some(from[p].crc) && p in b.view.since.Pages() && b.dirty
  {
    PublishedIn(a.view, from, pages, p);
  }

  lemma {:induction false} PublishGrows(v: View, from: map<nat, Staged>, pages: seq<nat>)
    requires forall k :: 0 <= k < |pages| ==> pages[k] in from
    ensures v.mem.Keys <= PublishSeq(v, from, pages).mem.Keys
  {
    if pages != [] { PublishGrows(v, from, pages[..|pages| - 1]); }
  }

  lemma OnlySnapshot(g: Geometry, m: map<nat, Staged>, data0: seq<Byte>, data: seq<Byte>, lands: nat -> nat,
                     runs: seq<Span>, done: seq<nat>, failed: bool)
    requires g.Valid() && Sized(g, m) && DrainIs(g, m, data0, data, lands, runs, done, failed)
    ensures forall k :: 0 <= k < |done| ==> done[k] in m
  {
    hide Written, RunsOf, Geometry.Npages;
    forall k | 0 <= k < |done| ensures done[k] in m { assert done[k] in done; }
  }

  lemma NothingDrained(g: Geometry, m: map<nat, Staged>, data: seq<Byte>, lands: nat -> nat)
    requires g.Valid() && Sized(g, m) && m.Keys == {}
    ensures DrainIs(g, m, data, data, lands, [], [], false)
  {}

  lemma BelowAlso(d: Delta, p: nat, n: nat)
    requires Below(d, n) && p < n
    ensures Below(Delta(d.sets + {p}, d.clears - {p}), n) && Below(Delta(d.sets - {p}, d.clears + {p}), n)
  {}

  lemma NoneBelow(n: nat)
    ensures Below(NO_DELTA, n)
  {}

  lemma RearmNone(d: Delta)
    requires d.sets !! d.clears
    ensures Rearm(NO_DELTA, d) == d
  {}

  /** Deltas name pages of the table only. */
  ghost predicate Below(d: Delta, n: nat) { (forall p <- d.sets :: p < n) && forall p <- d.clears :: p < n }
}
