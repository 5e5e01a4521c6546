/** Eviction: a least-recently-used pass under two budgets, with pins, open entries and a
    protection window. */
module Evictions {
  import opened Bytes

  /** A scanned entry, and what the pass will find when it gets to it: a pin that landed
      after the scan, and whether its data file can be unlinked. */
  datatype Scan = Scan(hash: string, atime: nat, pinned: bool, bytes: nat, pinnedLate: bool, unlinks: bool)

  datatype Budget = Budget(maxBytes: nat, byteTarget: nat, haveSpace: bool, minFree: nat) {
    function ResumeFree(): nat { minFree + minFree / 10 }

    /** Over the byte budget, or under the free-disk floor. */
    predicate Exceeded(usage: nat, avail: nat) {
      (maxBytes > 0 && usage > byteTarget) || (haveSpace && avail < ResumeFree())
    }
  }

  /** Entries read at or after this are protected; 0 protects nothing. */
  function Cutoff(now: nat, protectSeconds: nat): nat {
    if protectSeconds > 0 && now > protectSeconds then now - protectSeconds else 0
  }

  predicate Held(s: Scan, live: set<string>) { s.pinned || s.hash in live }
  predicate Recent(s: Scan, cutoff: nat) { cutoff > 0 && s.atime >= cutoff }

  /** Nothing forbids removing the entry. */
  predicate Eligible(s: Scan, live: set<string>, cutoff: nat) {
    !Held(s, live) && !Recent(s, cutoff) && !s.pinnedLate
  }

  predicate Removable(s: Scan, live: set<string>, cutoff: nat) { Eligible(s, live, cutoff) && s.unlinks }

  ghost predicate Ordered(order: seq<Scan>) {
    forall i, j :: 0 <= i < j < |order| ==> order[i].atime <= order[j].atime
  }

  function TotalBytes(order: seq<Scan>): nat {
    if order == [] then 0 else TotalBytes(order[..|order| - 1]) + order[|order| - 1].bytes
  }

  /** Bytes of the first `n` entries that are in `gone`, or are not. */
  ghost function BytesOf(order: seq<Scan>, gone: set<nat>, isGone: bool, n: nat): nat
    requires n <= |order|
  {
    if n == 0 then 0
    else BytesOf(order, gone, isGone, n - 1) + if (n - 1 in gone) == isGone then order[n - 1].bytes else 0
  }

  lemma {:induction false} BytesAdd(order: seq<Scan>, gone: set<nat>, i: nat, n: nat)
    requires n <= i < |order|
    ensures BytesOf(order, gone + {i}, true, n) == BytesOf(order, gone, true, n)
    ensures BytesOf(order, gone + {i}, false, n) == BytesOf(order, gone, false, n)
  {
    if n > 0 { BytesAdd(order, gone, i, n - 1); }
  }

  lemma {:induction false} BytesSplit(order: seq<Scan>, gone: set<nat>, n: nat)
    requires n <= |order|
    ensures BytesOf(order, gone, true, n) + BytesOf(order, gone, false, n) == TotalBytes(order[..n])
  {
    if n > 0 {
      BytesSplit(order, gone, n - 1);
      assert order[..n][..n - 1] == order[..n - 1];
    }
  }

  lemma {:induction false} TotalPrefix(order: seq<Scan>, n: nat)
    requires n <= |order|
    ensures TotalBytes(order[..n]) <= TotalBytes(order)
    decreases |order| - n
  {
    if n < |order| {
      assert order[..n + 1][..n] == order[..n];
      TotalPrefix(order, n + 1);
    } else {
      assert order[..n] == order;
    }
  }

  lemma GoneWithin(order: seq<Scan>, gone: set<nat>, n: nat)
    requires n <= |order|
    ensures BytesOf(order, gone, true, n) <= TotalBytes(order)
  {
    BytesSplit(order, gone, n);
    TotalPrefix(order, n);
  }

  /** Usage and free space when the pass looks at entry `j`. */
  ghost function UsageAt(order: seq<Scan>, gone: set<nat>, j: nat): nat
    requires j <= |order|
  {
    GoneWithin(order, gone, j);
    TotalBytes(order) - BytesOf(order, gone, true, j)
  }

  ghost function AvailAt(order: seq<Scan>, gone: set<nat>, avail: nat, j: nat): nat
    requires j <= |order|
  {
    avail + BytesOf(order, gone, true, j)
  }

  /** Total bytes are additive over entries, and an entry counts its own. */
  lemma {:induction false} TotalAdds(a: seq<Scan>, b: seq<Scan>, s: Scan)
    ensures TotalBytes([s]) == s.bytes && TotalBytes(a + b) == TotalBytes(a) + TotalBytes(b)
    decreases |b|
  {
    assert [s][..0] == [];
    if b == [] {
      assert a + b == a;
    } else {
      var front := b[..|b| - 1];
      TotalAdds(a, front, s);
      assert (a + b)[..|a + b| - 1] == a + front;
    }
  }

  // ---- what a caller can rely on, in terms of the entry and the clock ------------------------

  /** An entry that a pass leaves alone: pinned, open, pinned meanwhile, not to be unlinked, or
      read within the window that ends now. */
  ghost predicate Spared(s: Scan, live: set<string>, now: nat, protectSeconds: nat) {
    || s.pinned || s.hash in live || s.pinnedLate || !s.unlinks
    || (0 < protectSeconds < now && s.atime >= now - protectSeconds)
  }

  /** The cache holds more than it should, or the disk has less to spare than it should. */
  ghost predicate OverBudget(b: Budget, held: int, free: int) {
    (b.maxBytes > 0 && held > b.byteTarget) || (b.haveSpace && free < b.minFree + b.minFree / 10)
  }

  lemma SparedExactly(s: Scan, live: set<string>, now: nat, protectSeconds: nat)
    ensures Spared(s, live, now, protectSeconds) <==> !Removable(s, live, Cutoff(now, protectSeconds))
    ensures !Held(s, live) && Recent(s, Cutoff(now, protectSeconds))
            <==> !s.pinned && s.hash !in live && 0 < protectSeconds < now && s.atime >= now - protectSeconds
  {}

  /** The pass, told in these terms. */
  lemma PassedMeans(order: seq<Scan>, gone: set<nat>, live: set<string>, b: Budget, avail: nat, now: nat, protectSeconds: nat, n: nat)
    requires n <= |order| && Passed(order, gone, live, Cutoff(now, protectSeconds), b, avail, n)
    ensures forall i <- gone :: i < n && !Spared(order[i], live, now, protectSeconds)
              && OverBudget(b, TotalBytes(order) - BytesOf(order, gone, true, i), avail + BytesOf(order, gone, true, i))
    ensures forall i :: 0 <= i < n && i !in gone ==> Spared(order[i], live, now, protectSeconds)
    ensures b.Exceeded(UsageAt(order, gone, |order|), AvailAt(order, gone, avail, |order|))
            <==> OverBudget(b, UsageAt(order, gone, |order|), avail + BytesOf(order, gone, true, |order|))
  {
    hide BytesOf, TotalBytes, Spared, Removable;
    forall i | 0 <= i < |order| ensures Spared(order[i], live, now, protectSeconds) <==> !Removable(order[i], live, Cutoff(now, protectSeconds)) {
      SparedExactly(order[i], live, now, protectSeconds);
    }
  }

  // ---- oldest first --------------------------------------------------------------------------

  function Insert(s: Scan, order: seq<Scan>): (r: seq<Scan>)
    ensures multiset(r) == multiset(order) + multiset{s}
  {
    if order == [] || s.atime <= order[0].atime then [s] + order
    else
      assert order == [order[0]] + order[1..];
      [order[0]] + Insert(s, order[1..])
  }

  lemma {:induction false} InsertKeeps(s: Scan, order: seq<Scan>, low: nat)
    requires Ordered(order) && low <= s.atime && forall x <- order :: low <= x.atime
    ensures Ordered(Insert(s, order)) && forall x <- Insert(s, order) :: low <= x.atime
    decreases |order|
  {
    if order != [] && s.atime > order[0].atime {
      forall x <- order[1..] ensures order[0].atime <= x.atime {
        var j :| 0 <= j < |order[1..]| && order[1..][j] == x;
        assert order[j + 1] == x;
      }
      InsertKeeps(s, order[1..], order[0].atime);
      var r := Insert(s, order[1..]);
      forall i, j | 0 <= i < j < |[order[0]] + r| ensures ([order[0]] + r)[i].atime <= ([order[0]] + r)[j].atime {
        assert r[j - 1] in r;
        if i > 0 { assert r[i - 1].atime <= r[j - 1].atime; }
      }
      assert order[0] in order;
    }
  }

  /** Some order of the scan by access time. */
  method SortByAtime(scans: seq<Scan>) returns (order: seq<Scan>)
    ensures multiset(order) == multiset(scans) && Ordered(order) && |order| == |scans|
  {
    order := [];
    for i := 0 to |scans|
      invariant multiset(order) == multiset(scans[..i]) && Ordered(order)
    {
      InsertKeeps(scans[i], order, 0);
      assert scans[..i + 1] == scans[..i] + [scans[i]];
      order := Insert(scans[i], order);
    }
    assert scans[..|scans|] == scans;
    assert |multiset(order)| == |multiset(scans)|;
  }

  method Sum(scans: seq<Scan>) returns (total: nat)
    ensures total == TotalBytes(scans)
  {
    total := 0;
    for i := 0 to |scans|
      invariant total == TotalBytes(scans[..i])
    {
      assert scans[..i + 1][..i] == scans[..i];
      total := total + scans[i].bytes;
    }
    assert scans[..|scans|] == scans;
  }

  lemma {:induction false} TotalIsBag(a: seq<Scan>, b: seq<Scan>)
    requires multiset(a) == multiset(b)
    ensures TotalBytes(a) == TotalBytes(b)
    decreases |a|
  {
    if a == [] {
      assert |multiset(b)| == 0;
    } else {
      var s := a[|a| - 1];
      BagWithout(a, |a| - 1);
      assert a[..|a| - 1] + a[|a|..] == a[..|a| - 1];
      assert s in multiset(b);
      var k :| 0 <= k < |b| && b[k] == s;
      TotalWithout(b, k);
      BagWithout(b, k);
      TotalIsBag(a[..|a| - 1], b[..k] + b[k + 1..]);
    }
  }

  lemma BagWithout(b: seq<Scan>, k: nat)
    requires k < |b|
    ensures multiset(b) - multiset{b[k]} == multiset(b[..k] + b[k + 1..])
  {
    assert b == b[..k] + [b[k]] + b[k + 1..];
  }

  lemma {:induction false} TotalWithout(b: seq<Scan>, k: nat)
    requires k < |b|
    ensures TotalBytes(b) == TotalBytes(b[..k] + b[k + 1..]) + b[k].bytes
    decreases |b|
  {
    var n := |b| - 1;
    if k == n {
      assert b[..k] + b[k + 1..] == b[..n];
    } else {
      TotalWithout(b[..n], k);
      assert (b[..k] + b[k + 1..])[..n - 1] == b[..n][..k] + b[..n][k + 1..];
      assert (b[..k] + b[k + 1..])[n - 1] == b[n];
    }
  }

  // ---- a pass -----------------------------------------------------------------------------------

  /** What a pass that has looked at the first `n` entries has done. */
  ghost predicate Passed(order: seq<Scan>, gone: set<nat>, live: set<string>, cutoff: nat, b: Budget, avail: nat, n: nat)
    requires n <= |order|
  {
    && (forall i <- gone :: i < n && Removable(order[i], live, cutoff))
    && (forall i :: 0 <= i < n && Removable(order[i], live, cutoff) ==> i in gone)
    && (forall i <- gone :: b.Exceeded(UsageAt(order, gone, i), AvailAt(order, gone, avail, i)))
  }

  lemma {:induction false} LaterGone(order: seq<Scan>, gone: set<nat>, i: nat, j: nat)
    requires j <= i < |order|
    ensures UsageAt(order, gone + {i}, j) == UsageAt(order, gone, j)
    ensures forall a: nat :: AvailAt(order, gone + {i}, a, j) == AvailAt(order, gone, a, j)
  {
    BytesAdd(order, gone, i, j);
  }

  lemma PassedNext(order: seq<Scan>, gone: set<nat>, live: set<string>, cutoff: nat, b: Budget, avail: nat, i: nat)
    requires i < |order| && Passed(order, gone, live, cutoff, b, avail, i)
    requires b.Exceeded(UsageAt(order, gone, i), AvailAt(order, gone, avail, i))
    ensures i !in gone
    ensures !Removable(order[i], live, cutoff) ==> Passed(order, gone, live, cutoff, b, avail, i + 1)
    ensures Removable(order[i], live, cutoff) ==> Passed(order, gone + {i}, live, cutoff, b, avail, i + 1)
  {
    hide BytesOf, UsageAt, AvailAt, Removable, Budget.Exceeded;
    forall j <- gone + {i}
      ensures j < i + 1 && UsageAt(order, gone + {i}, j) == UsageAt(order, gone, j)
      ensures AvailAt(order, gone + {i}, avail, j) == AvailAt(order, gone, avail, j)
    {
      LaterGone(order, gone, i, j);
    }
  }

  /** What a pass found and did. */
  datatype PassRecord = PassRecord(order: seq<Scan>, gone: set<nat>, live: set<string>, cutoff: nat, avail: nat)

  /** A pass that could not get below budget because of entries read too recently: everything
      removable is gone, a budget is still exceeded, and some entry that nobody holds survives
      by its recency alone. */
  ghost predicate StuckOnRecent(b: Budget, r: PassRecord) {
    && b.Exceeded(UsageAt(r.order, r.gone, |r.order|), AvailAt(r.order, r.gone, r.avail, |r.order|))
    && (forall i :: 0 <= i < |r.order| && i !in r.gone ==> !Removable(r.order[i], r.live, r.cutoff))
    && exists i :: 0 <= i < |r.order| && i !in r.gone && !Held(r.order[i], r.live) && Recent(r.order[i], r.cutoff)
  }

  class CacheStore {
    const budget: Budget
    var admissionBlocked: bool
    var approxUsage: nat
    var lastEvicted: nat
    ghost var last: Option<PassRecord>

    /** Admission is blocked exactly while the last pass got stuck on recent entries. */
    ghost predicate Valid()
      reads this
    {
      admissionBlocked <==> last.Some? && StuckOnRecent(budget, last.value)
    }

    constructor (budget: Budget)
      ensures Valid() && this.budget == budget && !admissionBlocked && last == None
    {
      this.budget, admissionBlocked, approxUsage, lastEvicted, last := budget, false, 0, 0, None;
    }

    /** evictNow. `gone` are the positions, in `order`, of the entries removed. Removed
        entries are the removable ones among the oldest `n`; each was removed while a budget
        was exceeded; and the pass stops only when no budget is exceeded or nothing more can
        be removed. */
    method EvictNow(scans: seq<Scan>, live: set<string>, avail: nat, now: nat, protectSeconds: nat)
      returns (order: seq<Scan>, gone: set<nat>, n: nat)
      requires Valid()
      modifies this
      ensures Valid() && last == Some(PassRecord(order, gone, live, Cutoff(now, protectSeconds), avail))
      ensures multiset(order) == multiset(scans) && n <= |order|
      ensures Passed(order, gone, live, Cutoff(now, protectSeconds), budget, avail, n)
      ensures gone != {} ==> Ordered(order)
      ensures forall i <- gone :: i < n && !Spared(order[i], live, now, protectSeconds)
                && OverBudget(budget, TotalBytes(scans) - BytesOf(order, gone, true, i), avail + BytesOf(order, gone, true, i))
      ensures forall i :: 0 <= i < n && i !in gone ==> Spared(order[i], live, now, protectSeconds)
      ensures approxUsage == BytesOf(order, gone, false, |order|) == TotalBytes(scans) - BytesOf(order, gone, true, |order|)
      ensures var over := OverBudget(budget, approxUsage, avail + BytesOf(order, gone, true, |order|));
              && (over ==> forall i :: 0 <= i < |order| && i !in gone ==> Spared(order[i], live, now, protectSeconds))
              && (admissionBlocked <==>
                    over && exists s :: s in scans && !s.pinned && s.hash !in live && 0 < protectSeconds < now && s.atime >= now - protectSeconds)
      ensures lastEvicted == |gone|
    {
      hide BytesOf, UsageAt, AvailAt, Passed, Removable, Budget.Exceeded, Ordered, TotalBytes;
      var usage := Sum(scans);
      var free := avail;
      var cutoff := Cutoff(now, protectSeconds);
      order, gone, n := scans, {}, 0;
      var sawProtected := false;
      var evicted := 0;
      NothingYet(scans, live, cutoff, budget, avail);
      if budget.Exceeded(usage, free) {
        order := SortByAtime(scans);
        TotalIsBag(scans, order);
        NothingYet(order, live, cutoff, budget, avail);
        usage, free, gone, sawProtected, n := Pass(order, live, cutoff, avail, usage);
        evicted := |gone|;
      }
      Settled(order, gone, live, cutoff, budget, avail, n);
      admissionBlocked := budget.Exceeded(usage, free) && sawProtected;
      SameEntries(scans, order);
      approxUsage, lastEvicted := usage, evicted;
      last := Some(PassRecord(order, gone, live, cutoff, avail));
      RecentSurvives(order, gone, live, cutoff, budget, avail, n, sawProtected);
      PassedMeans(order, gone, live, budget, avail, now, protectSeconds, n);
      TotalIsBag(scans, order);
      assert approxUsage == TotalBytes(scans) - BytesOf(order, gone, true, |order|) by { UsageIs(order, gone, |order|); }
      forall s: Scan ensures !Held(s, live) && Recent(s, cutoff)
                             <==> !s.pinned && s.hash !in live && 0 < protectSeconds < now && s.atime >= now - protectSeconds
      {
        SparedExactly(s, live, now, protectSeconds);
      }
    }

    /** The loop of the pass over the sorted scan. */
    method Pass(order: seq<Scan>, live: set<string>, cutoff: nat, avail: nat, total: nat)
      returns (usage: nat, free: nat, gone: set<nat>, sawProtected: bool, n: nat)
      requires total == TotalBytes(order)
      ensures n <= |order| && Passed(order, gone, live, cutoff, budget, avail, n)
      ensures usage == UsageAt(order, gone, n) && free == AvailAt(order, gone, avail, n)
      ensures n < |order| ==> !budget.Exceeded(usage, free)
      ensures sawProtected <==> exists i :: 0 <= i < n && !Held(order[i], live) && Recent(order[i], cutoff)
    {
      hide BytesOf, UsageAt, AvailAt, Passed, Budget.Exceeded, TotalBytes;
      usage, free, gone, sawProtected := total, avail, {}, false;
      var i := 0;
      NothingYet(order, live, cutoff, budget, avail);
      while i < |order|
        invariant 0 <= i <= |order| && Passed(order, gone, live, cutoff, budget, avail, i)
        invariant usage == UsageAt(order, gone, i) && free == AvailAt(order, gone, avail, i)
        invariant sawProtected <==> exists k :: 0 <= k < i && !Held(order[k], live) && Recent(order[k], cutoff)
      {
        if !budget.Exceeded(usage, free) {
          n := i;
          return;
        }
        var s := order[i];
        PassedNext(order, gone, live, cutoff, budget, avail, i);
        if Held(s, live) {
          Skipped(order, gone, avail, i);
        } else if Recent(s, cutoff) {
          sawProtected := true;
          Skipped(order, gone, avail, i);
        } else if s.pinnedLate || !s.unlinks {
          Skipped(order, gone, avail, i);
        } else {
          Taken(order, gone, avail, i);
          gone := gone + {i};
          usage := usage - Min(usage, s.bytes);
          free := free + s.bytes;
        }
        i := i + 1;
      }
      n := i;
    }

    /** open's admission rule: only an entry this cache does not hold is ever declined, and then
        the last pass had nothing left to remove, was still over a budget, and was kept there
        by an entry read too recently. */
    method Admit(isLive: bool, onDisk: bool) returns (declined: bool)
      requires Valid()
      ensures declined ==> !isLive && !onDisk && last.Some? && StuckOnRecent(budget, last.value)
      ensures !isLive && !onDisk && last.Some? && StuckOnRecent(budget, last.value) ==> declined
    {
      hide StuckOnRecent;
      if isLive { return false; }
      declined := admissionBlocked && !onDisk;
    }
  }

  lemma UsageIs(order: seq<Scan>, gone: set<nat>, j: nat)
    requires j <= |order|
    ensures UsageAt(order, gone, j) == TotalBytes(order) - BytesOf(order, gone, true, j)
  {}

  /** A protected entry the pass met is one that survived it. */
  lemma RecentSurvives(order: seq<Scan>, gone: set<nat>, live: set<string>, cutoff: nat, b: Budget, avail: nat, n: nat, saw: bool)
    requires n <= |order| && Passed(order, gone, live, cutoff, b, avail, n)
    requires saw <==> exists i :: 0 <= i < n && !Held(order[i], live) && Recent(order[i], cutoff)
    requires n < |order| ==> !b.Exceeded(UsageAt(order, gone, |order|), AvailAt(order, gone, avail, |order|))
    ensures StuckOnRecent(b, PassRecord(order, gone, live, cutoff, avail))
            <==> b.Exceeded(UsageAt(order, gone, |order|), AvailAt(order, gone, avail, |order|)) && saw
  {
    hide UsageAt, AvailAt, Budget.Exceeded, Held, Recent;
    if b.Exceeded(UsageAt(order, gone, |order|), AvailAt(order, gone, avail, |order|)) && saw {
      var i :| 0 <= i < n && !Held(order[i], live) && Recent(order[i], cutoff);
      assert i !in gone;
    }
  }

  lemma NothingYet(order: seq<Scan>, live: set<string>, cutoff: nat, b: Budget, avail: nat)
    ensures Passed(order, {}, live, cutoff, b, avail, 0)
    ensures UsageAt(order, {}, 0) == TotalBytes(order) && AvailAt(order, {}, avail, 0) == avail
  {}

  /** An entry passed over changes nothing. */
  lemma Skipped(order: seq<Scan>, gone: set<nat>, avail: nat, i: nat)
    requires i < |order| && i !in gone
    ensures UsageAt(order, gone, i + 1) == UsageAt(order, gone, i)
    ensures AvailAt(order, gone, avail, i + 1) == AvailAt(order, gone, avail, i)
  {}

  lemma Taken(order: seq<Scan>, gone: set<nat>, avail: nat, i: nat)
    requires i < |order| && i !in gone
    ensures order[i].bytes <= UsageAt(order, gone, i)
    ensures UsageAt(order, gone + {i}, i + 1) == UsageAt(order, gone, i) - order[i].bytes
    ensures AvailAt(order, gone + {i}, avail, i + 1) == AvailAt(order, gone, avail, i) + order[i].bytes
  {
    hide TotalBytes;
    BytesAdd(order, gone, i, i);
    GoneWithin(order, gone + {i}, i + 1);
  }

  /** Entries past the last one looked at are all still there. */
  lemma {:induction false} NoneGoneAfter(order: seq<Scan>, gone: set<nat>, avail: nat, n: nat, k: nat)
    requires n <= k <= |order| && forall i <- gone :: i < n
    ensures UsageAt(order, gone, k) == UsageAt(order, gone, n)
    ensures AvailAt(order, gone, avail, k) == AvailAt(order, gone, avail, n)
  {
    hide UsageAt, AvailAt;
    if n < k {
      NoneGoneAfter(order, gone, avail, n, k - 1);
      Skipped(order, gone, avail, k - 1);
    }
  }

  lemma Settled(order: seq<Scan>, gone: set<nat>, live: set<string>, cutoff: nat, b: Budget, avail: nat, n: nat)
    requires n <= |order| && Passed(order, gone, live, cutoff, b, avail, n)
    ensures UsageAt(order, gone, |order|) == UsageAt(order, gone, n) == BytesOf(order, gone, false, |order|)
    ensures AvailAt(order, gone, avail, |order|) == AvailAt(order, gone, avail, n)
    ensures n == |order| ==> forall i :: 0 <= i < |order| && i !in gone ==> !Removable(order[i], live, cutoff)
  {
    hide TotalBytes, Removable;
    NoneGoneAfter(order, gone, avail, n, |order|);
    BytesSplit(order, gone, |order|);
    assert order[..|order|] == order;
  }

  lemma SameEntries(a: seq<Scan>, b: seq<Scan>)
    requires multiset(a) == multiset(b)
    ensures forall s :: s in a <==> s in b
  {
    forall s ensures s in a <==> s in b {
      assert s in multiset(a) <==> s in multiset(b);
    }
  }

  // ---- cleanup -------------------------------------------------------------------------------------

  datatype Mode = ToSize | OlderThan | NewerThan | All

  predicate Guarded(s: Scan, live: set<string>, keepPinned: bool) {
    s.hash in live || (keepPinned && (s.pinned || s.pinnedLate))
  }

  predicate Stale(mode: Mode, s: Scan, cutoff: nat) {
    match mode
    case OlderThan => s.atime < cutoff
    case NewerThan => s.atime >= cutoff
    case _ => true
  }

  /** Choosing victims to shrink the cache to `arg` bytes: the unguarded among the oldest `n`,
      each chosen while the rest was still too big; what is left fits, or is guarded. */
  ghost predicate Shrunk(order: seq<Scan>, gone: set<nat>, live: set<string>, keepPinned: bool, arg: nat, n: nat)
    requires n <= |order|
  {
    && (forall i <- gone :: i < n && !Guarded(order[i], live, keepPinned))
    && (forall i :: 0 <= i < n && !Guarded(order[i], live, keepPinned) ==> i in gone)
    && (forall i <- gone :: UsageAt(order, gone, i) > arg)
  }

  lemma ShrunkNext(order: seq<Scan>, gone: set<nat>, live: set<string>, keepPinned: bool, arg: nat, i: nat)
    requires i < |order| && Shrunk(order, gone, live, keepPinned, arg, i) && UsageAt(order, gone, i) > arg
    ensures Guarded(order[i], live, keepPinned) ==> Shrunk(order, gone, live, keepPinned, arg, i + 1)
    ensures !Guarded(order[i], live, keepPinned) ==> Shrunk(order, gone + {i}, live, keepPinned, arg, i + 1)
  {
    hide UsageAt, AvailAt, Guarded;
    forall j <- gone + {i} ensures j < i + 1 && UsageAt(order, gone + {i}, j) == UsageAt(order, gone, j) {
      LaterGone(order, gone, i, j);
    }
  }

  method ShrinkTo(scans: seq<Scan>, live: set<string>, keepPinned: bool, arg: nat)
    returns (order: seq<Scan>, gone: set<nat>, n: nat)
    ensures multiset(order) == multiset(scans) && Ordered(order) && n <= |order|
    ensures forall i <- gone :: i < n && order[i].hash !in live && (keepPinned ==> !order[i].pinned && !order[i].pinnedLate)
              && TotalBytes(scans) - BytesOf(order, gone, true, i) > arg
    ensures forall i :: 0 <= i < |order| && i !in gone && (i < n || BytesOf(order, gone, false, |order|) > arg)
              ==> order[i].hash in live || (keepPinned && (order[i].pinned || order[i].pinnedLate))
    ensures BytesOf(order, gone, false, |order|) == TotalBytes(scans) - BytesOf(order, gone, true, |order|)
  {
    hide BytesOf, UsageAt, AvailAt, Shrunk, Guarded, Ordered, TotalBytes;
    order := SortByAtime(scans);
    var total := Sum(order);
    gone := {};
    var i := 0;
    NoVictims(order, live, keepPinned, arg);
    while i < |order|
      invariant 0 <= i <= |order| && Shrunk(order, gone, live, keepPinned, arg, i) && total == UsageAt(order, gone, i)
    {
      if total <= arg { break; }
      ShrunkNext(order, gone, live, keepPinned, arg, i);
      GoneBelow(order, gone, live, keepPinned, arg, i);
      if Guarded(order[i], live, keepPinned) {
        Skipped(order, gone, 0, i);
      } else {
        Taken(order, gone, 0, i);
        gone := gone + {i};
        total := total - Min(total, order[i].bytes);
      }
      i := i + 1;
    }
    n := i;
    ShrinkSettled(order, gone, live, keepPinned, arg, n);
    TotalIsBag(scans, order);
    ShrunkMeans(order, gone, live, keepPinned, arg, n);
  }

  /** The choice of victims, told of the entry's own fields. */
  lemma ShrunkMeans(order: seq<Scan>, gone: set<nat>, live: set<string>, keepPinned: bool, arg: nat, n: nat)
    requires n <= |order| && Shrunk(order, gone, live, keepPinned, arg, n)
    ensures forall i <- gone :: i < n && order[i].hash !in live && (keepPinned ==> !order[i].pinned && !order[i].pinnedLate)
              && TotalBytes(order) - BytesOf(order, gone, true, i) > arg
    ensures forall i :: 0 <= i < n && i !in gone ==> order[i].hash in live || (keepPinned && (order[i].pinned || order[i].pinnedLate))
    ensures forall s: Scan :: Guarded(s, live, keepPinned) ==> s.hash in live || (keepPinned && (s.pinned || s.pinnedLate))
    ensures UsageAt(order, gone, |order|) == TotalBytes(order) - BytesOf(order, gone, true, |order|)
  {
    hide BytesOf, TotalBytes;
  }

  lemma NoVictims(order: seq<Scan>, live: set<string>, keepPinned: bool, arg: nat)
    ensures Shrunk(order, {}, live, keepPinned, arg, 0) && UsageAt(order, {}, 0) == TotalBytes(order)
  {}

  lemma GoneBelow(order: seq<Scan>, gone: set<nat>, live: set<string>, keepPinned: bool, arg: nat, i: nat)
    requires i < |order| && Shrunk(order, gone, live, keepPinned, arg, i)
    ensures i !in gone
  {}

  lemma ShrinkSettled(order: seq<Scan>, gone: set<nat>, live: set<string>, keepPinned: bool, arg: nat, n: nat)
    requires n <= |order| && Shrunk(order, gone, live, keepPinned, arg, n)
    ensures UsageAt(order, gone, n) == UsageAt(order, gone, |order|) == BytesOf(order, gone, false, |order|)
    ensures n == |order| ==> forall i :: 0 <= i < |order| && i !in gone ==> Guarded(order[i], live, keepPinned)
  {
    hide TotalBytes, Guarded;
    NoneGoneAfter(order, gone, 0, n, |order|);
    BytesSplit(order, gone, |order|);
    assert order[..|order|] == order;
  }

  /** Cleanup by age, or of everything: exactly the unguarded entries of that age, in scan
      order. */
  method Select(scans: seq<Scan>, mode: Mode, live: set<string>, keepPinned: bool, now: nat, arg: nat)
    returns (victims: seq<nat>)
    requires !mode.ToSize?
    ensures forall j, k :: 0 <= j < k < |victims| ==> victims[j] < victims[k]
    ensures forall i: nat :: i in victims <==>
              && i < |scans| && scans[i].hash !in live && (keepPinned ==> !scans[i].pinned && !scans[i].pinnedLate)
              && (mode.OlderThan? ==> scans[i].atime + arg < now)
              && (mode.NewerThan? ==> scans[i].atime + arg >= now)
  {
    var cutoff := if now > arg then now - arg else 0;
    victims := [];
    for i := 0 to |scans|
      invariant forall j :: 0 <= j < |victims| ==> victims[j] < i
      invariant forall j, k :: 0 <= j < k < |victims| ==> victims[j] < victims[k]
      invariant forall k: nat :: k in victims <==>
                  k < i && !Guarded(scans[k], live, keepPinned) && Stale(mode, scans[k], cutoff)
    {
      var s := scans[i];
      if Guarded(s, live, keepPinned) { continue; }
      if mode == OlderThan && s.atime >= cutoff { continue; }
      if mode == NewerThan && s.atime < cutoff { continue; }
      victims := victims + [i];
    }
  }
}
