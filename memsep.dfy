/** The memory-separation test: walk the process's mapped ranges in file
    order, try to write into every range mapped without write permission and
    to read from the unmapped gap in front of every range other than the
    stack, each attempt in a child that must die of a fault. */
module Memsep {
  import opened Process

  /** One line of /proc/self/maps after parsing: the range [start, end) and
      the permission field ("r-xp", "rw-p", ...). */
  datatype MapsRecord = MapsRecord(start: nat, end: nat, flags: string)

  /** The kernel never lists an empty range. */
  predicate WellFormed(records: seq<MapsRecord>)
  {
    forall i :: 0 <= i < |records| ==> records[i].start < records[i].end
  }

  /** Ranges listed in increasing address order without overlap, as the
      kernel lists them. */
  predicate SortedDisjoint(records: seq<MapsRecord>)
  {
    && WellFormed(records)
    && forall i, j :: 0 <= i < j < |records| ==> records[i].end <= records[j].start
  }

  predicate Writable(r: MapsRecord)
  {
    'w' in r.flags
  }

  /** The range holding the local `is_stack_area`, whose address is
      `stackAddr`; both comparisons are strict. */
  predicate IsStack(r: MapsRecord, stackAddr: nat)
  {
    r.start < stackAddr < r.end
  }

  datatype Access = Write | Read

  /** A planned probe: the access to attempt and the byte range [lo, hi) in
      which its address is picked. */
  datatype Site = Site(access: Access, lo: nat, hi: nat)

  /** A probe as executed: the access and the address it used. */
  datatype Probe = Probe(access: Access, addr: nat)

  /** The signals `write_read_mem` installs `sig_handler` for. */
  const MEMSEP_SIGNALS: set<int> := {SIGSEGV, SIGILL, SIGBUS}

  /** `get_pointer_in_range`: `start` plus the random value modulo the length
      in bytes; no alignment is applied. */
  function PointerInRange(start: nat, end: nat, rnd: nat): (p: nat)
    requires start < end
    ensures start <= p < end
  {
    start + rnd % (end - start)
  }

  /** Every byte of the range, aligned or not, is a possible probe address. */
  lemma EveryByteReachable(start: nat, end: nat, a: nat)
    requires start <= a < end
    ensures PointerInRange(start, end, a - start) == a
  {
  }

  /** The probes one record contributes, given the end of the previous
      record: first a write probe if the range is not writable, then a read
      probe in the gap before it if that gap is non-empty and the range is
      not the stack. */
  function RecordSites(r: MapsRecord, lastEnd: nat, stackAddr: nat): seq<Site>
  {
    (if !Writable(r) then [Site(Write, r.start, r.end)] else [])
    + (if r.start > lastEnd && !IsStack(r, stackAddr) then [Site(Read, lastEnd, r.start)] else [])
  }

  /** The probes of the records in order, `lastEnd` being the end of the
      record before the first one. At most two per record, and every site is
      a non-empty range. */
  function SitesFrom(records: seq<MapsRecord>, lastEnd: nat, stackAddr: nat): (s: seq<Site>)
    ensures |s| <= 2 * |records|
    ensures WellFormed(records) ==> forall k :: 0 <= k < |s| ==> s[k].lo < s[k].hi
    decreases |records|
  {
    if |records| == 0 then []
    else
      assert WellFormed(records) ==> WellFormed(records[1..]);
      RecordSites(records[0], lastEnd, stackAddr) + SitesFrom(records[1..], records[0].end, stackAddr)
  }

  /** The whole plan of the test: `last_end` starts at 0. */
  function Plan(records: seq<MapsRecord>, stackAddr: nat): seq<Site>
  {
    SitesFrom(records, 0, stackAddr)
  }

  /** The end of the record before record i (`lastEnd` before the first). */
  function PrevEnd(records: seq<MapsRecord>, lastEnd: nat, i: nat): nat
    requires i < |records|
  {
    if i == 0 then lastEnd else records[i - 1].end
  }

  function CountAccess(sites: seq<Site>, a: Access): nat
  {
    if |sites| == 0 then 0
    else (if sites[0].access == a then 1 else 0) + CountAccess(sites[1..], a)
  }

  function CountReadOnly(records: seq<MapsRecord>): nat
  {
    if |records| == 0 then 0
    else (if Writable(records[0]) then 0 else 1) + CountReadOnly(records[1..])
  }

  lemma {:induction false} CountAccessConcat(x: seq<Site>, y: seq<Site>, a: Access)
    ensures CountAccess(x + y, a) == CountAccess(x, a) + CountAccess(y, a)
  {
    if |x| > 0 {
      assert (x + y)[1..] == x[1..] + y;
      CountAccessConcat(x[1..], y, a);
    } else {
      assert x + y == y;
    }
  }

  /** There are exactly as many write probes as ranges mapped without write
      permission; each covers exactly one such range, and each such range is
      covered. */
  lemma {:induction false} WriteSitesExactly(records: seq<MapsRecord>, lastEnd: nat, stackAddr: nat)
    ensures CountAccess(SitesFrom(records, lastEnd, stackAddr), Write) == CountReadOnly(records)
    ensures forall s :: s in SitesFrom(records, lastEnd, stackAddr) && s.access == Write ==>
      exists i :: 0 <= i < |records| && s == Site(Write, records[i].start, records[i].end) && !Writable(records[i])
    ensures forall i :: 0 <= i < |records| && !Writable(records[i]) ==>
      Site(Write, records[i].start, records[i].end) in SitesFrom(records, lastEnd, stackAddr)
  {
    if |records| > 0 {
      var head := RecordSites(records[0], lastEnd, stackAddr);
      var tail := SitesFrom(records[1..], records[0].end, stackAddr);
      WriteSitesExactly(records[1..], records[0].end, stackAddr);
      CountAccessConcat(head, tail, Write);
      forall i | 0 <= i < |records| && !Writable(records[i])
        ensures Site(Write, records[i].start, records[i].end) in head + tail
      {
        if i > 0 {
          assert records[1..][i - 1] == records[i];
        }
      }
      forall s: Site | s in head + tail && s.access == Write
        ensures exists i :: 0 <= i < |records| && s == Site(Write, records[i].start, records[i].end) && !Writable(records[i])
      {
        if s in tail {
          var j :| 0 <= j < |records[1..]| && s == Site(Write, records[1..][j].start, records[1..][j].end) && !Writable(records[1..][j]);
          assert records[1..][j] == records[j + 1];
        } else {
          assert s == Site(Write, records[0].start, records[0].end) && !Writable(records[0]);
        }
      }
    }
  }

  /** Read probes are exactly the non-empty gaps in front of ranges that are
      not the stack: each one covers [end of previous, start) of such a
      range, and each such gap has one. */
  lemma {:induction false} ReadSitesAreGaps(records: seq<MapsRecord>, lastEnd: nat, stackAddr: nat)
    ensures forall s :: s in SitesFrom(records, lastEnd, stackAddr) && s.access == Read ==>
      exists i :: 0 <= i < |records| && s.hi == records[i].start && s.lo == PrevEnd(records, lastEnd, i)
        && s.lo < s.hi && !IsStack(records[i], stackAddr)
    ensures forall i :: 0 <= i < |records| && records[i].start > PrevEnd(records, lastEnd, i) && !IsStack(records[i], stackAddr) ==>
      Site(Read, PrevEnd(records, lastEnd, i), records[i].start) in SitesFrom(records, lastEnd, stackAddr)
  {
    if |records| > 0 {
      var head := RecordSites(records[0], lastEnd, stackAddr);
      var tail := SitesFrom(records[1..], records[0].end, stackAddr);
      ReadSitesAreGaps(records[1..], records[0].end, stackAddr);
      forall i | 0 <= i < |records| && records[i].start > PrevEnd(records, lastEnd, i) && !IsStack(records[i], stackAddr)
        ensures Site(Read, PrevEnd(records, lastEnd, i), records[i].start) in head + tail
      {
        if i > 0 {
          assert records[1..][i - 1] == records[i];
          assert PrevEnd(records[1..], records[0].end, i - 1) == PrevEnd(records, lastEnd, i);
        }
      }
      forall s: Site | s in head + tail && s.access == Read
        ensures exists i :: (0 <= i < |records| && s.hi == records[i].start && s.lo == PrevEnd(records, lastEnd, i)
          && s.lo < s.hi && !IsStack(records[i], stackAddr))
      {
        if s in tail {
          var j :| 0 <= j < |records[1..]| && s.hi == records[1..][j].start && s.lo == PrevEnd(records[1..], records[0].end, j)
            && s.lo < s.hi && !IsStack(records[1..][j], stackAddr);
          assert records[1..][j] == records[j + 1];
          assert PrevEnd(records[1..], records[0].end, j) == PrevEnd(records, lastEnd, j + 1);
        } else {
          assert s == Site(Read, lastEnd, records[0].start);
          assert PrevEnd(records, lastEnd, 0) == lastEnd;
        }
      }
    }
  }

  /** On a kernel-ordered map, every read probe address lies outside every
      mapped range. */
  lemma ReadProbesHitUnmapped(records: seq<MapsRecord>, stackAddr: nat, s: Site, a: nat)
    requires SortedDisjoint(records)
    requires s in Plan(records, stackAddr) && s.access == Read
    requires s.lo <= a < s.hi
    ensures forall j :: 0 <= j < |records| ==> !(records[j].start <= a < records[j].end)
  {
    ReadSitesAreGaps(records, 0, stackAddr);
    var i :| 0 <= i < |records| && s.hi == records[i].start && s.lo == PrevEnd(records, 0, i)
      && s.lo < s.hi && !IsStack(records[i], stackAddr);
    forall j | 0 <= j < |records|
      ensures a < records[j].start || records[j].end <= a
    {
      if j >= i {
        assert records[i].start <= records[j].start;
      } else {
        assert records[j].end <= records[i - 1].end;
      }
    }
  }

  /** On a kernel-ordered map, every write probe address lies in a mapped
      range, and every range containing it lacks write permission. */
  lemma WriteProbesHitReadOnly(records: seq<MapsRecord>, stackAddr: nat, s: Site, a: nat)
    requires SortedDisjoint(records)
    requires s in Plan(records, stackAddr) && s.access == Write
    requires s.lo <= a < s.hi
    ensures exists j :: 0 <= j < |records| && records[j].start <= a < records[j].end
    ensures forall j :: 0 <= j < |records| && records[j].start <= a < records[j].end ==> !Writable(records[j])
  {
    WriteSitesExactly(records, 0, stackAddr);
    var i :| 0 <= i < |records| && s == Site(Write, records[i].start, records[i].end) && !Writable(records[i]);
    assert records[i].start <= a < records[i].end;
  }

  /** Because `last_end` starts at 0, a first range that starts above 0 and
      is not the stack gets a read probe in [0, start). */
  lemma LeadingGapProbed(r: MapsRecord, stackAddr: nat)
    requires 0 < r.start && !IsStack(r, stackAddr)
    ensures Site(Read, 0, r.start) in Plan([r], stackAddr)
  {
    assert RecordSites(r, 0, stackAddr)[|RecordSites(r, 0, stackAddr)| - 1] == Site(Read, 0, r.start);
  }

  /** The three-range example: r-x at 0x1000, rw- at 0x2000, r-- at 0x5000,
      stack elsewhere. Besides the two write probes and the gap read at
      [0x3000, 0x5000), the code also reads the leading gap [0, 0x1000). */
  lemma ThreeRangeExample(stackAddr: nat)
    requires stackAddr >= 0x6000
    ensures Plan([MapsRecord(0x1000, 0x2000, "r-xp"), MapsRecord(0x2000, 0x3000, "rw-p"), MapsRecord(0x5000, 0x6000, "r--p")], stackAddr)
      == [Site(Write, 0x1000, 0x2000), Site(Read, 0, 0x1000), Site(Write, 0x5000, 0x6000), Site(Read, 0x3000, 0x5000)]
  {
    var r0 := MapsRecord(0x1000, 0x2000, "r-xp");
    var r1 := MapsRecord(0x2000, 0x3000, "rw-p");
    var r2 := MapsRecord(0x5000, 0x6000, "r--p");
    assert 'w' !in r0.flags && 'w' in r1.flags && 'w' !in r2.flags by {
      assert r1.flags[1] == 'w';
    }
    assert [r0, r1, r2][1..] == [r1, r2];
    assert [r1, r2][1..] == [r2];
  }

  /** `write_read_mem`'s verdict on one child: normal exit with status 0. It
      holds exactly when the child was forked and its access raised SIGSEGV,
      SIGILL or SIGBUS. */
  predicate Held(run: Spawn)
  {
    run.Ran? && ExitedCleanly(ChildTermination(MEMSEP_SIGNALS, run.behaviour, ExitMinusOne, ZERO))
  }

  /** A child step holds exactly when the access faulted with one of the
      handled signals: a fork failure, a survived access and an unhandled
      signal all fail it. */
  lemma HeldExactlyOnHandledFault(run: Spawn)
    ensures Held(run) <==> run.Ran? && run.behaviour.Faulted? && run.behaviour.sig in MEMSEP_SIGNALS
  {
  }

  /** The index of the first of the first n runs that did not hold. */
  function FirstFailure(runs: seq<Spawn>, n: nat): (f: Option<nat>)
    requires n <= |runs|
    ensures f.None? <==> forall j :: 0 <= j < n ==> Held(runs[j])
    ensures f.Some? ==> f.value < n && !Held(runs[f.value]) && forall j :: 0 <= j < f.value ==> Held(runs[j])
  {
    if n == 0 then None
    else
      match FirstFailure(runs, n - 1)
      case Some(k) => Some(k)
      case None => if Held(runs[n - 1]) then None else Some(n - 1)
  }

  /** The probes of `sites` with the address of the k-th drawn from the k-th
      random value. */
  function Addressed(sites: seq<Site>, rands: seq<nat>): (ps: seq<Probe>)
    requires |sites| <= |rands|
    requires forall k :: 0 <= k < |sites| ==> sites[k].lo < sites[k].hi
    ensures |ps| == |sites|
    ensures forall k :: 0 <= k < |sites| ==> ps[k].access == sites[k].access && sites[k].lo <= ps[k].addr < sites[k].hi
  {
    seq(|sites|, k requires 0 <= k < |sites| => Probe(sites[k].access, PointerInRange(sites[k].lo, sites[k].hi, rands[k])))
  }

  /** What one child step of `write_read_mem` leads to. */
  datatype ProbeEnd = Continue | ExitProcess(status: int)

  /** `write_read_mem`: fork a child that touches `addr`, wait, and exit the
      whole process with -1 unless the child exited with status 0. A fork
      failure exits with -1 too. */
  method WriteReadMem(addr: nat, write: bool, run: Spawn) returns (e: ProbeEnd)
    ensures e == Continue <==> Held(run)
    ensures e == Continue <==> run.Ran? && run.behaviour.Faulted? && run.behaviour.sig in MEMSEP_SIGNALS
    ensures e != Continue ==> e == ExitProcess(255)
  {
    if run.ForkFailed? {
      return ExitProcess(ExitStatus(MINUS_ONE));
    }
    var stat := ChildTermination(MEMSEP_SIGNALS, run.behaviour, ExitMinusOne, ZERO);
    if !(stat.Exited? && stat.status == 0) {
      return ExitProcess(ExitStatus(MINUS_ONE));
    }
    return Continue;
  }

  /** The end of the test and the probes it ran, in order. */
  datatype MemsepResult = MemsepResult(end: TestEnd, probes: seq<Probe>)

  /** `memsep`. `nobodyKnown` is whether `getpwnam("nobody")` succeeded,
      `maps` the parsed lines read before the first failed read (None: the
      file could not be opened), `stackAddr` the address of the local
      `is_stack_area`, `rands` the successive random values and `runs` what
      the successive children did. The probes run are the plan's probes in
      order; the test returns 0 when all of them held, and otherwise the
      process exits with status 255 right after the first that did not. */
  method Memsep(nobodyKnown: bool, maps: Option<seq<MapsRecord>>, stackAddr: nat, rands: seq<nat>, runs: seq<Spawn>)
    returns (r: MemsepResult)
    requires maps.Some? ==> WellFormed(maps.value)
    requires maps.Some? ==> |Plan(maps.value, stackAddr)| <= |rands| && |Plan(maps.value, stackAddr)| <= |runs|
    ensures !nobodyKnown || maps.None? ==> r == MemsepResult(Returned(MINUS_ONE), [])
    ensures nobodyKnown && maps.Some? ==>
      var plan := Plan(maps.value, stackAddr);
      var all := Addressed(plan, rands);
      match FirstFailure(runs, |plan|)
      case None => r == MemsepResult(Returned(ZERO), all)
      case Some(k) => r == MemsepResult(ExitedProcess(255), all[..k + 1])
  {
    if !nobodyKnown {
      return MemsepResult(Returned(MINUS_ONE), []);
    }
    if maps.None? {
      return MemsepResult(Returned(MINUS_ONE), []);
    }
    var probes, e := ProbeRecords(maps.value, stackAddr, rands, runs);
    if e.ExitProcess? {
      return MemsepResult(ExitedProcess(e.status), probes);
    }
    return MemsepResult(Returned(ZERO), probes);
  }

  /** The record loop of `memsep`, with `last_end` starting at 0: it runs the
      plan's probes in order, and either all of them held or it stopped the
      process right after the first that did not. */
  method ProbeRecords(records: seq<MapsRecord>, stackAddr: nat, rands: seq<nat>, runs: seq<Spawn>)
    returns (probes: seq<Probe>, e: ProbeEnd)
    requires WellFormed(records)
    requires |Plan(records, stackAddr)| <= |rands| && |Plan(records, stackAddr)| <= |runs|
    ensures e.Continue? ==> FirstFailure(runs, |Plan(records, stackAddr)|) == None
    ensures e.Continue? ==> probes == Addressed(Plan(records, stackAddr), rands)
    ensures e.ExitProcess? ==> e.status == 255 && StoppedWith(Plan(records, stackAddr), rands, runs, probes)
  {
    ghost var plan := Plan(records, stackAddr);
    ghost var done: seq<Site> := [];
    probes := [];
    e := Continue;
    var lastEnd: nat := 0;
    var i := 0;
    while i < |records|
      invariant 0 <= i <= |records|
      invariant plan == done + SitesFrom(records[i..], lastEnd, stackAddr)
      invariant |done| <= |plan| && forall k :: 0 <= k < |done| ==> done[k].lo < done[k].hi
      invariant probes == Addressed(done, rands)
      invariant AllHeld(runs, |done|)
      invariant e.Continue?
    {
      var rec := records[i];
      Unfold(records, i, lastEnd, stackAddr);
      done, probes, e := ProbeRecord(rec, lastEnd, stackAddr, plan, done, SitesFrom(records[i + 1..], rec.end, stackAddr),
                                     probes, rands, runs);
      if e.ExitProcess? {
        return;
      }
      lastEnd := rec.end;
      i := i + 1;
    }
    assert records[i..] == [];
    AllHeldNoFailure(runs, |plan|);
  }

  /** The test stopped at the plan's first failure, having run the plan's
      probes up to and including it. */
  predicate StoppedWith(plan: seq<Site>, rands: seq<nat>, runs: seq<Spawn>, probes: seq<Probe>)
    requires |plan| <= |rands| && |plan| <= |runs|
    requires forall k :: 0 <= k < |plan| ==> plan[k].lo < plan[k].hi
  {
    FirstFailure(runs, |plan|).Some? && probes == Addressed(plan, rands)[..FirstFailure(runs, |plan|).value + 1]
  }

  /** One iteration of the record loop: the write probe of a range mapped
      without `w`, then the read probe of the non-empty gap in front of a
      range that is not the stack. */
  method ProbeRecord(rec: MapsRecord, lastEnd: nat, stackAddr: nat, ghost plan: seq<Site>, ghost done: seq<Site>,
                     ghost rest: seq<Site>, probes: seq<Probe>, rands: seq<nat>, runs: seq<Spawn>)
    returns (ghost done': seq<Site>, probes': seq<Probe>, e: ProbeEnd)
    requires plan == done + (RecordSites(rec, lastEnd, stackAddr) + rest)
    requires |plan| <= |rands| && |plan| <= |runs|
    requires forall k :: 0 <= k < |plan| ==> plan[k].lo < plan[k].hi
    requires forall k :: 0 <= k < |done| ==> done[k].lo < done[k].hi
    requires probes == Addressed(done, rands)
    requires AllHeld(runs, |done|)
    ensures e.Continue? ==> plan == done' + rest && |done'| <= |plan|
    ensures e.Continue? ==> forall k :: 0 <= k < |done'| ==> done'[k].lo < done'[k].hi
    ensures e.Continue? ==> probes' == Addressed(done', rands) && AllHeld(runs, |done'|)
    ensures e.ExitProcess? ==> e.status == 255 && StoppedWith(plan, rands, runs, probes')
  {
    ghost var writePart := if !Writable(rec) then [Site(Write, rec.start, rec.end)] else [];
    ghost var readPart := if rec.start > lastEnd && !IsStack(rec, stackAddr) then [Site(Read, lastEnd, rec.start)] else [];
    assert RecordSites(rec, lastEnd, stackAddr) + rest == writePart + (readPart + rest);
    done', probes', e := done, probes, Continue;
    if 'w' !in rec.flags {
      done', probes', e := ProbeSite(Site(Write, rec.start, rec.end), plan, done, readPart + rest, probes, rands, runs);
      if e.ExitProcess? {
        return;
      }
    } else {
      SkipEmpty(plan, done, writePart, readPart + rest);
    }
    var isStack := rec.start < stackAddr && stackAddr < rec.end;
    if rec.start > lastEnd && !isStack {
      done', probes', e := ProbeSite(Site(Read, lastEnd, rec.start), plan, done', rest, probes', rands, runs);
    } else {
      SkipEmpty(plan, done', readPart, rest);
    }
  }

  /** One probe of the plan: draw the next random value, pick the address in
      the site's range and run `write_read_mem` on it. `done` are the probes
      of the plan already run, all of which held. */
  method ProbeSite(site: Site, ghost plan: seq<Site>, ghost done: seq<Site>, ghost rest: seq<Site>,
                   probes: seq<Probe>, rands: seq<nat>, runs: seq<Spawn>)
    returns (ghost done': seq<Site>, probes': seq<Probe>, e: ProbeEnd)
    requires plan == done + ([site] + rest)
    requires |plan| <= |rands| && |plan| <= |runs|
    requires forall k :: 0 <= k < |plan| ==> plan[k].lo < plan[k].hi
    requires forall k :: 0 <= k < |done| ==> done[k].lo < done[k].hi
    requires probes == Addressed(done, rands)
    requires AllHeld(runs, |done|)
    ensures done' == done + [site] && plan == done' + rest
    ensures forall k :: 0 <= k < |done'| ==> done'[k].lo < done'[k].hi
    ensures probes' == Addressed(done', rands)
    ensures e.Continue? ==> AllHeld(runs, |done'|)
    ensures e.ExitProcess? ==> e.status == 255
    ensures e.ExitProcess? ==> FirstFailure(runs, |plan|) == Some(|done|)
    ensures e.ExitProcess? ==> probes' == Addressed(plan, rands)[..|done'|]
  {
    Step(plan, done, site, rest);
    var inrange := PointerInRange(site.lo, site.hi, rands[|probes|]);
    e := WriteReadMem(inrange, site.access == Write, runs[|probes|]);
    AddressedSnoc(done, site, rands);
    done' := done + [site];
    probes' := probes + [Probe(site.access, inrange)];
    if e.ExitProcess? {
      StoppedAt(plan, done', runs, rands);
    }
  }

  /** The first n runs all held. */
  predicate AllHeld(runs: seq<Spawn>, n: nat)
  {
    n <= |runs| && forall j :: 0 <= j < n ==> Held(runs[j])
  }

  lemma AllHeldNoFailure(runs: seq<Spawn>, n: nat)
    requires AllHeld(runs, n)
    ensures FirstFailure(runs, n) == None
  {
  }

  lemma Unfold(records: seq<MapsRecord>, i: nat, lastEnd: nat, stackAddr: nat)
    requires i < |records|
    ensures SitesFrom(records[i..], lastEnd, stackAddr)
      == RecordSites(records[i], lastEnd, stackAddr) + SitesFrom(records[i + 1..], records[i].end, stackAddr)
  {
    assert records[i..][1..] == records[i + 1..];
  }

  lemma SkipEmpty(plan: seq<Site>, done: seq<Site>, empty: seq<Site>, rest: seq<Site>)
    requires plan == done + (empty + rest) && empty == []
    ensures plan == done + rest
  {
    assert empty + rest == rest;
  }

  lemma Step(plan: seq<Site>, done: seq<Site>, site: Site, rest: seq<Site>)
    requires plan == done + ([site] + rest)
    ensures plan == (done + [site]) + rest
    ensures |done| < |plan| && plan[|done|] == site
  {
  }

  /** A run that stops at the last probe of `done` stopped at the plan's
      first failure, having run the plan's first |done| probes. */
  lemma StoppedAt(plan: seq<Site>, done: seq<Site>, runs: seq<Spawn>, rands: seq<nat>)
    requires 0 < |done| <= |plan| <= |rands| && |plan| <= |runs|
    requires forall k :: 0 <= k < |plan| ==> plan[k].lo < plan[k].hi
    requires plan == done + plan[|done|..]
    requires AllHeld(runs, |done| - 1)
    requires !Held(runs[|done| - 1])
    ensures FirstFailure(runs, |plan|) == Some(|done| - 1)
    ensures Addressed(done, rands) == Addressed(plan, rands)[..|done|]
  {
    var f := FirstFailure(runs, |plan|);
    assert f.Some? by {
      assert !Held(runs[|done| - 1]);
    }
    assert f.value <= |done| - 1 by {
      assert !Held(runs[|done| - 1]);
    }
    assert f.value >= |done| - 1 by {
      assert !Held(runs[f.value]);
    }
    forall k | 0 <= k < |done|
      ensures Addressed(done, rands)[k] == Addressed(plan, rands)[k]
    {
      assert done[k] == plan[k];
    }
  }

  lemma AddressedSnoc(done: seq<Site>, site: Site, rands: seq<nat>)
    requires |done| < |rands|
    requires forall k :: 0 <= k < |done| ==> done[k].lo < done[k].hi
    requires site.lo < site.hi
    ensures Addressed(done + [site], rands)
      == Addressed(done, rands) + [Probe(site.access, PointerInRange(site.lo, site.hi, rands[|done|]))]
  {
  }

}
