/**
  The incremental consumer of the record log (scripts/dp-suspend-resume.sh).

  One check asks for the record info and then, under a second lock, scans the records past its
  cursor.  The server and other readers may step in between.
 */
module ErrorScan {
  import opened Wrappers
  import opened KmsgBatch
  import opened TraceLog
  import opened RecordFilter

  const MAX_REC_SCAN := 300

  /** An es_* array without its reported entry. */
  datatype Stats = Stats(current: int, last: int, total: int)

  /** `checked` and `start` are the record numbers in current_cycle_checked and current_cycle_start. */
  datatype Counts = Counts(
    checked: nat, start: nat, unfiltered: Stats, filtered: Stats, droppedCurrent: int, droppedTotal: int)

  const NO_COUNTS := Counts(0, 0, Stats(0, 0, 0), Stats(0, 0, 0), 0, 0)

  /** How a recorded line is split into fields, and the configured filter. */
  datatype Config = Config(parse: Rec -> DmesgRec, filter: Filter)

  function Parsed(cfg: Config, recs: seq<Rec>): seq<DmesgRec> {
    seq(|recs|, i requires 0 <= i < |recs| => cfg.parse(recs[i]))
  }

  function MatchCount(cfg: Config, recs: seq<Rec>): (n: nat)
    ensures n <= |recs|
  {
    CountMatching(cfg.filter, Parsed(cfg, recs))
  }

  lemma {:induction false} CountMatchingConcat(f: Filter, a: seq<DmesgRec>, b: seq<DmesgRec>)
    ensures CountMatching(f, a + b) == CountMatching(f, a) + CountMatching(f, b)
    decreases |b|
  {
    if b == [] {
      assert a + b == a;
    } else {
      var n := |b| - 1;
      assert (a + b)[..|a + b| - 1] == a + b[..n];
      CountMatchingConcat(f, a, b[..n]);
    }
  }

  lemma MatchCountConcat(cfg: Config, a: seq<Rec>, b: seq<Rec>)
    ensures MatchCount(cfg, a + b) == MatchCount(cfg, a) + MatchCount(cfg, b)
  {
    assert Parsed(cfg, a + b) == Parsed(cfg, a) + Parsed(cfg, b);
    CountMatchingConcat(cfg.filter, Parsed(cfg, a), Parsed(cfg, b));
  }

  // ---------- The steps of a check ----------

  /** calc_error_stats. */
  function AddErrors(es: Stats, new_: int): Stats {
    Stats(es.current + new_, es.current + new_, es.total + new_)
  }

  /** calc_dropped_errors. */
  function WithDropped(c: Counts, dropped: int): Counts {
    var current := dropped - c.start;
    c.(droppedCurrent := if current < 0 then 0 else current, droppedTotal := dropped)
  }

  /** The number of records to scan: up to the end of the log, but at most MAX_REC_SCAN. */
  function WantedRecs(c: Counts, first: nat, num: nat): int {
    var dump := first + num - c.checked;
    if dump < MAX_REC_SCAN then dump else MAX_REC_SCAN
  }

  /** The counts after `dump` records from `since` on were scanned, `matched` of them matching. */
  function Scanned(c: Counts, since: nat, dump: nat, dropped: nat, matched: nat): Counts {
    WithDropped(c, dropped).(
      unfiltered := AddErrors(c.unfiltered, dump - matched),
      filtered := AddErrors(c.filtered, matched),
      checked := since + dump)
  }

  /** test_cycle_init. */
  function CycleStarted(c: Counts): Counts {
    c.(unfiltered := c.unfiltered.(current := 0), filtered := c.filtered.(current := 0), start := c.checked)
  }

  // ---------- The consumer among the other processes ----------

  /**
    `wanted` is the scan that the consumer is about to make.  `scanned` are the numbers of all
    records ever scanned and `seen` the records; `cycleBase` of them were scanned in earlier cycles,
    and `lastBase` in cycles before that of the last scan.
   */
  datatype Sys = Sys(
    w: World, c: Counts, wanted: Option<int>, scanned: seq<nat>, seen: seq<Rec>, cycleBase: nat, lastBase: nat)

  const SYS_INITIAL := Sys(INITIAL, NO_COUNTS, None, [], [], 0, 0)

  datatype SysStep = Other(step: Step) | AskInfo | Scan | Abort | CycleInit

  predicate SysEnabled(s: Sys, step: SysStep) {
    match step
    case Other(st) => Enabled(s.w, st)
    case AskInfo => s.wanted == None
    case Scan => s.wanted.Some?
    case Abort => s.wanted.Some?
    case CycleInit => s.wanted == None
  }

  function Numbers(from: nat, n: nat): seq<nat> {
    seq(n, i => from + i)
  }

  function ScanDone(cfg: Config, s: Sys, w: World, r: Reply): Sys
    requires r.Recs?
  {
    s.(w := w, wanted := None,
       c := Scanned(s.c, r.since, r.dump, r.dropped, MatchCount(cfg, r.lines)),
       scanned := s.scanned + Numbers(r.since, r.dump),
       seen := s.seen + r.lines,
       lastBase := s.cycleBase)
  }

  function SysNext(cfg: Config, s: Sys, step: SysStep): Sys
    requires SysEnabled(s, step)
  {
    match step
    case Other(st) => s.(w := Next(s.w, st).0)
    case AskInfo =>
      var ri := GetInfo(s.w.ri);
      var dump := WantedRecs(s.c, ri.first, ri.num);
      s.(c := WithDropped(s.c, ri.first), wanted := if dump == 0 then None else Some(dump))
    case Scan =>
      var (w, r) := Next(s.w, Get(Count, s.c.checked, s.wanted.value));
      ScanDone(cfg, s, w, r)
    case Abort => s.(wanted := None)
    case CycleInit => s.(c := CycleStarted(s.c), cycleBase := |s.scanned|)
  }

  /** The scanned numbers increase strictly, so no record is scanned twice, and name the seen records. */
  ghost predicate ScanHistory(s: Sys) {
    && |s.seen| == |s.scanned|
    && (forall i :: 0 <= i < |s.scanned| ==> s.scanned[i] < s.c.checked)
    && (forall i, j :: 0 <= i < j < |s.scanned| ==> s.scanned[i] < s.scanned[j])
    && s.c.checked <= |s.w.log|
    && (forall i :: 0 <= i < |s.scanned| ==> s.seen[i] == s.w.log[s.scanned[i]])
  }

  /** Unscanned records below the cursor were truncated or cleared, and are among those reported as dropped. */
  ghost predicate MissedAreDropped(s: Sys) {
    && (forall k: nat :: k < s.c.checked && k !in s.scanned ==> k < s.c.droppedTotal)
    && s.c.droppedTotal <= AbsOf(s.w).first
    && s.c.checked - |s.scanned| <= s.c.droppedTotal
  }

  /** The running cycle starts at a record number: the cycles before it scanned below, and it scans from there on. */
  ghost predicate CycleBounds(s: Sys) {
    && s.cycleBase <= |s.scanned|
    && (forall i :: 0 <= i < s.cycleBase ==> s.scanned[i] < s.c.start)
    && (forall i :: s.cycleBase <= i < |s.scanned| ==> s.c.start <= s.scanned[i])
  }

  /** The last counts are those that the cycle of the last scan had then. */
  ghost predicate LastCounts(cfg: Config, c: Counts, seen: seq<Rec>, lastBase: nat) {
    && lastBase <= |seen|
    && c.filtered.last == MatchCount(cfg, seen[lastBase..])
    && c.unfiltered.last + c.filtered.last == |seen| - lastBase
  }

  /** The totals are those of the seen records; the current ones are those of the running cycle. */
  ghost predicate Totals(cfg: Config, c: Counts, seen: seq<Rec>, cycleBase: nat) {
    && c.filtered.total == MatchCount(cfg, seen)
    && c.unfiltered.total + c.filtered.total == |seen|
    && cycleBase <= |seen|
    && c.filtered.current == MatchCount(cfg, seen[cycleBase..])
    && c.unfiltered.current + c.filtered.current == |seen| - cycleBase
  }

  ghost predicate SysInv(cfg: Config, s: Sys) {
    && Inv(s.w)
    && s.c.start <= s.c.checked <= AbsOf(s.w).last
    && ScanHistory(s) && MissedAreDropped(s) && Totals(cfg, s.c, s.seen, s.cycleBase)
    && CycleBounds(s) && LastCounts(cfg, s.c, s.seen, s.lastBase)
  }

  lemma NumbersExtend(scanned: seq<nat>, seen: seq<Rec>, log: seq<Rec>, checked: nat, from: nat, n: nat)
    requires |seen| == |scanned| && checked <= from && from + n <= |log|
    requires forall i :: 0 <= i < |scanned| ==> scanned[i] < checked
    requires forall i, j :: 0 <= i < j < |scanned| ==> scanned[i] < scanned[j]
    requires forall i :: 0 <= i < |scanned| ==> scanned[i] < |log| && seen[i] == log[scanned[i]]
    ensures var all, recs := scanned + Numbers(from, n), seen + log[from..from + n];
      && (forall i :: 0 <= i < |all| ==> all[i] < from + n)
      && (forall i, j :: 0 <= i < j < |all| ==> all[i] < all[j])
      && (forall i :: 0 <= i < |all| ==> recs[i] == log[all[i]])
  {
  }

  lemma InNumbers(from: nat, n: nat, k: nat)
    requires from <= k < from + n
    ensures k in Numbers(from, n)
  {
    assert Numbers(from, n)[k - from] == k;
  }

  lemma UnscannedBelow(scanned: seq<nat>, checked: nat, dropped: int, dropped': int, from: nat, n: nat)
    requires checked <= from && dropped <= dropped' && (from == checked || from <= dropped')
    requires forall k: nat :: k < checked && k !in scanned ==> k < dropped
    ensures forall k: nat :: k < from + n && k !in scanned + Numbers(from, n) ==> k < dropped'
  {
    forall k: nat | from <= k < from + n ensures k in Numbers(from, n) {
      InNumbers(from, n, k);
    }
  }

  /** What the scan reads, in terms of the abstract log. */
  function ScanReply(s: Sys): Reply
    requires s.wanted.Some? && AbsOf(s.w).last <= |s.w.log|
  {
    AbsGet(AbsOf(s.w), Count, s.c.checked, s.wanted.value)
  }

  lemma CountReply(w: World, since: int, max: int)
    requires Inv(w)
    ensures Next(w, Get(Count, since, max)) == (w, AbsGet(AbsOf(w), Count, since, max))
  {
    GetRefines(w, Count, since, max);
  }

  lemma ScanStep(cfg: Config, s: Sys)
    requires Inv(s.w) && s.wanted.Some?
    ensures SysNext(cfg, s, Scan) == ScanDone(cfg, s, s.w, ScanReply(s))
  {
    CountReply(s.w, s.c.checked, s.wanted.value);
  }

  lemma ScanRange(s: Sys)
    requires s.wanted.Some? && AbsOf(s.w).first <= AbsOf(s.w).last <= |s.w.log| && s.c.checked <= AbsOf(s.w).last
    ensures var r := ScanReply(s);
      && s.c.checked <= r.since && r.since + r.dump <= AbsOf(s.w).last
      && r.lines == s.w.log[r.since..r.since + r.dump]
  {
  }

  lemma ScanExtendsHistory(cfg: Config, s: Sys)
    requires SysInv(cfg, s) && s.wanted.Some?
    ensures var s' := SysNext(cfg, s, Scan);
      ScanHistory(s') && s.c.checked <= s'.c.checked <= AbsOf(s'.w).last
  {
    hide MatchCount, CycleBounds, LastCounts, Totals, MissedAreDropped;
    assert AbsOf(s.w).first <= AbsOf(s.w).last <= |s.w.log| && Inv(s.w);
    hide Inv;
    ScanStep(cfg, s);
    ScanRange(s);
    var r := ScanReply(s);
    NumbersExtend(s.scanned, s.seen, s.w.log, s.c.checked, r.since, r.dump);
  }

  lemma ScanMissesDropped(cfg: Config, s: Sys)
    requires SysInv(cfg, s) && s.wanted.Some?
    ensures MissedAreDropped(SysNext(cfg, s, Scan))
  {
    ScanStep(cfg, s);
    var r := ScanReply(s);
    UnscannedBelow(s.scanned, s.c.checked, s.c.droppedTotal, r.dropped, r.since, r.dump);
  }

  lemma TotalsExtend(cfg: Config, c: Counts, seen: seq<Rec>, cycleBase: nat, since: nat, dropped: nat, lines: seq<Rec>)
    requires Totals(cfg, c, seen, cycleBase)
    ensures var c' := Scanned(c, since, |lines|, dropped, MatchCount(cfg, lines));
      Totals(cfg, c', seen + lines, cycleBase) && LastCounts(cfg, c', seen + lines, cycleBase)
  {
    MatchCountConcat(cfg, seen, lines);
    MatchCountConcat(cfg, seen[cycleBase..], lines);
    assert (seen + lines)[cycleBase..] == seen[cycleBase..] + lines;
  }

  /** What the other processes do changes neither the scanned records nor where they are in the log. */
  lemma OtherKeepsInv(cfg: Config, s: Sys, w: World)
    requires SysInv(cfg, s) && Inv(w) && Later(AbsOf(s.w), AbsOf(w))
    ensures SysInv(cfg, s.(w := w))
  {
    assert s.w.log == w.log[..|s.w.log|];
  }

  lemma ScanKeepsBounds(cfg: Config, s: Sys)
    requires SysInv(cfg, s) && s.wanted.Some?
    ensures CycleBounds(SysNext(cfg, s, Scan))
  {
    hide MatchCount;
    ScanStep(cfg, s);
    ScanRange(s);
  }

  lemma ScanKeepsInv(cfg: Config, s: Sys)
    requires SysInv(cfg, s) && s.wanted.Some?
    ensures SysInv(cfg, SysNext(cfg, s, Scan)) && s.c.checked <= SysNext(cfg, s, Scan).c.checked
  {
    ScanStep(cfg, s);
    ScanRange(s);
    ScanExtendsHistory(cfg, s);
    ScanMissesDropped(cfg, s);
    ScanKeepsBounds(cfg, s);
    var r := ScanReply(s);
    TotalsExtend(cfg, s.c, s.seen, s.cycleBase, r.since, r.dropped, r.lines);
  }

  lemma SysNextKeepsInv(cfg: Config, s: Sys, step: SysStep)
    requires SysInv(cfg, s) && SysEnabled(s, step)
    ensures SysInv(cfg, SysNext(cfg, s, step))
    ensures s.c.checked <= SysNext(cfg, s, step).c.checked
  {
    match step
    case Other(st) =>
      NextKeepsInv(s.w, st);
      NextRefines(s.w, st);
      OtherKeepsInv(cfg, s, Next(s.w, st).0);
    case Scan => ScanKeepsInv(cfg, s);
    case CycleInit => assert s.seen[|s.scanned|..] == [];
    case _ =>
  }

  ghost predicate SysBehavior(cfg: Config, ss: seq<Sys>, steps: seq<SysStep>) {
    && |ss| == |steps| + 1 && ss[0] == SYS_INITIAL
    && forall i :: 0 <= i < |steps| ==>
         SysEnabled(ss[i], steps[i]) && ss[i + 1] == SysNext(cfg, ss[i], steps[i])
  }

  /** Over every run: each record is scanned at most once, the totals count them, and only dropped ones are missed. */
  lemma {:induction false} RunInv(cfg: Config, ss: seq<Sys>, steps: seq<SysStep>, i: nat)
    requires SysBehavior(cfg, ss, steps) && i < |ss|
    ensures SysInv(cfg, ss[i])
  {
    if i > 0 {
      RunInv(cfg, ss, steps, i - 1);
      SysNextKeepsInv(cfg, ss[i - 1], steps[i - 1]);
    }
  }

  /** The cursor never goes back. */
  lemma {:induction false} CursorMonotone(cfg: Config, ss: seq<Sys>, steps: seq<SysStep>, i: nat, j: nat)
    requires SysBehavior(cfg, ss, steps) && i <= j < |ss|
    ensures ss[i].c.checked <= ss[j].c.checked
  {
    if i < j {
      CursorMonotone(cfg, ss, steps, i, j - 1);
      RunInv(cfg, ss, steps, j - 1);
      SysNextKeepsInv(cfg, ss[j - 1], steps[j - 1]);
    }
  }

  /** Without interference, a check scans every record up to its limit that is still there. */
  lemma UndisturbedCheck(cfg: Config, s: Sys)
    requires SysInv(cfg, s) && s.wanted == None
    requires AbsOf(s.w).first <= s.c.checked < AbsOf(s.w).last
    ensures var s1 := SysNext(cfg, s, AskInfo);
      s1.wanted.Some? &&
      var s2 := SysNext(cfg, s1, Scan);
      var n := s2.c.checked - s.c.checked;
      n == (if AbsOf(s.w).last - s.c.checked < 300 then AbsOf(s.w).last - s.c.checked else 300) &&
      s2.seen == s.seen + s.w.log[s.c.checked..s.c.checked + n]
  {
    var s1 := SysNext(cfg, s, AskInfo);
    assert s1.w == s.w && s1.c.checked == s.c.checked && s1.wanted.Some?;
    ScanStep(cfg, s1);
  }

  /** Both halves of a check report the records that can no longer be read: all of them, and those of the cycle. */
  lemma DroppedAreReported(cfg: Config, s: Sys, step: SysStep)
    requires SysInv(cfg, s) && SysEnabled(s, step) && step in {AskInfo, Scan}
    ensures var s' := SysNext(cfg, s, step);
      && s'.c.droppedTotal == AbsOf(s.w).first
      && s'.c.droppedCurrent == if s.c.start < AbsOf(s.w).first then AbsOf(s.w).first - s.c.start else 0
  {
    if step == Scan {
      ScanStep(cfg, s);
    }
  }

  // ---------- The counters, updated in place ----------

  /** Only records with a numeric priority are ever recorded. */
  ghost predicate NumericPriorities(cfg: Config, recs: seq<Rec>) {
    forall i :: 0 <= i < |recs| ==> cfg.parse(recs[i]).prio != ""
  }

  lemma SliceHasPriorities(cfg: Config, recs: seq<Rec>, from: nat, n: nat)
    requires NumericPriorities(cfg, recs) && from + n <= |recs|
    ensures NumericPriorities(cfg, recs[from..from + n])
  {
  }

  lemma LinesHavePriorities(cfg: Config, w: World, since: nat, wanted: int)
    requires Inv(w) && NumericPriorities(cfg, w.log)
    ensures var r := GetRecs(w.file, w.ri, Count, since, wanted);
      |r.lines| == r.dump && NumericPriorities(cfg, r.lines)
  {
    GetRefines(w, Count, since, wanted);
    var r := AbsGet(AbsOf(w), Count, since, wanted);
    SliceHasPriorities(cfg, w.log, r.since, r.dump);
  }

  method CountRecs(cfg: Config, lines: seq<Rec>) returns (matched: nat)
    requires NumericPriorities(cfg, lines)
    ensures matched == MatchCount(cfg, lines)
  {
    var recs := Parsed(cfg, lines);
    var rc, _ := DumpRecs(recs, cfg.filter, false);
    matched := rc.matched;
  }

  class ErrorScanner {
    var esDmesg: Stats
    var esDmesgFlt: Stats
    var droppedCurrent: int
    var droppedTotal: int
    var checkedRec: nat
    var startRec: nat
    const cfg: Config

    constructor (cfg: Config)
      ensures State() == NO_COUNTS && this.cfg == cfg
    {
      this.cfg := cfg;
      esDmesg, esDmesgFlt := Stats(0, 0, 0), Stats(0, 0, 0);
      droppedCurrent, droppedTotal, checkedRec, startRec := 0, 0, 0, 0;
    }

    ghost function State(): Counts
      reads this
    {
      Counts(checkedRec, startRec, esDmesg, esDmesgFlt, droppedCurrent, droppedTotal)
    }

    method CalcDroppedErrors(dropped: int)
      modifies this`droppedCurrent, this`droppedTotal
      ensures State() == WithDropped(old(State()), dropped)
    {
      droppedCurrent := dropped - startRec;
      if droppedCurrent < 0 {
        droppedCurrent := 0;
      }
      droppedTotal := dropped;
    }

    /** The first half of check_dmesg_errors; `wanted` is the scan to make, if any. */
    method AskRecordInfo(files: TraceFiles) returns (wanted: Option<int>)
      requires files.Valid()
      modifies this`droppedCurrent, this`droppedTotal
      ensures var ri := GetInfo(files.infoFile);
        State() == WithDropped(old(State()), ri.first) &&
        var dump := WantedRecs(old(State()), ri.first, ri.num);
        wanted == if dump == 0 then None else Some(dump)
    {
      var ri := files.GetRecordInfo();
      var dumpRecs := ri.first + ri.num - checkedRec;
      if dumpRecs >= MAX_REC_SCAN {
        dumpRecs := MAX_REC_SCAN;
      }
      CalcDroppedErrors(ri.first);
      wanted := if dumpRecs == 0 then None else Some(dumpRecs);
    }

    /** The statistics of a scan. */
    method AddScan(since: nat, dump: nat, dropped: nat, matched: nat)
      modifies this
      ensures State() == Scanned(old(State()), since, dump, dropped, matched)
    {
      CalcDroppedErrors(dropped);
      var unmatched := dump - matched;
      esDmesg := Stats(esDmesg.current + unmatched, esDmesg.current + unmatched, esDmesg.total + unmatched);
      esDmesgFlt := Stats(esDmesgFlt.current + matched, esDmesgFlt.current + matched, esDmesgFlt.total + matched);
      checkedRec := since + dump;
    }

    /** The second half: the scan itself. */
    method ScanRecords(files: TraceFiles, wanted: int)
      requires files.Valid()
      requires NumericPriorities(cfg, files.log)
      modifies this, files`infoFile
      ensures files.Valid()
      ensures var (w, r) := Next(old(files.State()), Get(Count, old(checkedRec), wanted));
        files.State() == w &&
        State() == Scanned(old(State()), r.since, r.dump, r.dropped, MatchCount(cfg, r.lines))
    {
      LinesHavePriorities(cfg, files.State(), checkedRec, wanted);
      var r := files.GetRecs(Count, checkedRec, wanted);
      var rc := CountRecs(cfg, r.lines);
      AddScan(r.since, r.dump, r.dropped, rc);
    }

    method TestCycleInit()
      modifies this
      ensures State() == CycleStarted(old(State()))
    {
      esDmesg := esDmesg.(current := 0);
      esDmesgFlt := esDmesgFlt.(current := 0);
      startRec := checkedRec;
    }
  }
}
