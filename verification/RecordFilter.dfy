/**
  Counting and printing the records of one read (scripts/trace.sh, trace_dump_recs).

  Runs of equal records are compressed while they are filtered; the results are those of
  filtering each record on its own.
 */
module RecordFilter {
  import opened Wrappers

  datatype DmesgRec = DmesgRec(
    subsystem: string, device: string, prio: string, seqno: int, timestamp: nat, caller: string, message: string)

  /** dr_last before the first record: empty fields, and an empty number counts as 0. */
  const BLANK := DmesgRec("", "", "", 0, 0, "", "")

  datatype MsgConfig = NoFilter | Exclude | Only

  /** The regular expressions are given by the strings they match; no device expression accepts every device. */
  datatype Filter = Filter(config: MsgConfig, msgMatches: string -> bool, devMatches: Option<string -> bool>)

  datatype OutLine =
    | Message(timestamp: nat, caller: string, message: string)
    | Repeat(timestamp: nat, caller: string, count: nat)

  /** rec_matches_filter. */
  predicate Matches(f: Filter, r: DmesgRec) {
    && (f.devMatches.Some? ==> f.devMatches.value(r.device))
    && match f.config
       case NoFilter => true
       case Exclude => !f.msgMatches(r.message)
       case Only => f.msgMatches(r.message)
  }

  /** drecs_match: the second record repeats the first with the next sequence number. */
  predicate DrecsMatch(a: DmesgRec, b: DmesgRec) {
    && a.seqno + 1 == b.seqno
    && a.subsystem == b.subsystem && a.device == b.device && a.prio == b.prio
    && a.caller == b.caller && a.message == b.message
  }

  // ---------- One record at a time ----------

  function CountMatching(f: Filter, recs: seq<DmesgRec>): (n: nat)
    ensures n <= |recs|
  {
    if recs == [] then 0
    else CountMatching(f, recs[..|recs| - 1]) + if Matches(f, recs[|recs| - 1]) then 1 else 0
  }

  /** What a line shows besides its time: the caller and the message. */
  type Shown = (string, string)

  function Key(r: DmesgRec): Shown {
    (r.caller, r.message)
  }

  function MatchingMessages(f: Filter, recs: seq<DmesgRec>): seq<Shown> {
    if recs == [] then []
    else
      var r := recs[|recs| - 1];
      MatchingMessages(f, recs[..|recs| - 1]) + if Matches(f, r) then [Key(r)] else []
  }

  function Copies(n: nat, k: Shown): seq<Shown> {
    seq(n, _ => k)
  }

  /** What one more line shows; a repeat line stands for copies of what was shown last. */
  function Extend(shown: seq<Shown>, l: OutLine): seq<Shown> {
    match l
    case Message(_, caller, message) => shown + [(caller, message)]
    case Repeat(_, _, count) => if shown == [] then [] else shown + Copies(count, shown[|shown| - 1])
  }

  /** The lines with every "repeated N times" written out. */
  function Expand(out: seq<OutLine>): seq<Shown> {
    if out == [] then [] else Extend(Expand(out[..|out| - 1]), out[|out| - 1])
  }

  /** The records that match. */
  function MatchingRecs(f: Filter, recs: seq<DmesgRec>): seq<DmesgRec> {
    if recs == [] then []
    else MatchingRecs(f, recs[..|recs| - 1]) + if Matches(f, recs[|recs| - 1]) then [recs[|recs| - 1]] else []
  }

  lemma MatchingSnoc(f: Filter, recs: seq<DmesgRec>, r: DmesgRec)
    ensures MatchingRecs(f, recs + [r]) == if Matches(f, r) then MatchingRecs(f, recs) + [r] else MatchingRecs(f, recs)
  {
    assert (recs + [r])[..|recs|] == recs;
    assert MatchingRecs(f, recs) + [] == MatchingRecs(f, recs);
  }

  function Keys(recs: seq<DmesgRec>): seq<Shown> {
    seq(|recs|, i requires 0 <= i < |recs| => Key(recs[i]))
  }

  /** The last `n` of the records show the same. */
  predicate SameTail(recs: seq<DmesgRec>, n: nat) {
    n <= |recs| && forall i :: |recs| - n <= i < |recs| ==> Key(recs[i]) == Key(recs[|recs| - 1])
  }

  /**
    The lines are those of the records: a message line is one record with its own time, and a repeat
    line is as many more records as it says, showing what the line before does, up to its own time.
   */
  predicate Explains(out: seq<OutLine>, recs: seq<DmesgRec>) {
    if out == [] then recs == []
    else if recs == [] then false
    else
      var before, last := out[..|out| - 1], recs[|recs| - 1];
      match out[|out| - 1]
      case Message(timestamp, caller, message) =>
        && (timestamp, caller, message) == (last.timestamp, last.caller, last.message)
        && Explains(before, recs[..|recs| - 1])
      case Repeat(timestamp, caller, count) =>
        && (timestamp, caller) == (last.timestamp, last.caller)
        && 2 <= count < |recs| && SameTail(recs, count + 1) && Explains(before, recs[..|recs| - count])
  }

  lemma ExplainsOne(out: seq<OutLine>, recs: seq<DmesgRec>, r: DmesgRec)
    requires Explains(out, recs)
    ensures Explains(out + [Message(r.timestamp, r.caller, r.message)], recs + [r])
  {
    var all := out + [Message(r.timestamp, r.caller, r.message)];
    assert all[..|out|] == out && (recs + [r])[..|recs|] == recs;
  }

  lemma ExplainsMore(out: seq<OutLine>, recs: seq<DmesgRec>, count: nat, r: DmesgRec)
    requires 2 <= count < |recs| && r == recs[|recs| - 1] && SameTail(recs, count + 1)
    requires Explains(out, recs[..|recs| - count])
    ensures Explains(out + [Repeat(r.timestamp, r.caller, count)], recs)
  {
    var all := out + [Repeat(r.timestamp, r.caller, count)];
    assert all[..|out|] == out;
  }

  /** Writing out the repetitions of such lines gives what the records show. */
  lemma {:induction false} ExplainsExpands(out: seq<OutLine>, recs: seq<DmesgRec>)
    requires Explains(out, recs)
    ensures Expand(out) == Keys(recs)
    decreases out
  {
    if out == [] {
      return;
    }
    var before, n := out[..|out| - 1], |recs|;
    match out[|out| - 1]
    case Message(_, _, _) =>
      ExplainsExpands(before, recs[..n - 1]);
      assert Keys(recs) == Keys(recs[..n - 1]) + [Key(recs[n - 1])];
    case Repeat(_, _, count) =>
      var kept := recs[..n - count];
      ExplainsExpands(before, kept);
      assert kept[|kept| - 1] == recs[n - count - 1];
      assert Keys(recs) == Keys(kept) + Copies(count, Key(recs[n - 1]));
  }

  lemma {:induction false} MatchingKeys(f: Filter, recs: seq<DmesgRec>)
    ensures Keys(MatchingRecs(f, recs)) == MatchingMessages(f, recs)
    decreases recs
  {
    if recs != [] {
      MatchingKeys(f, recs[..|recs| - 1]);
    }
  }

  // ---------- What the filter lets through ----------

  predicate DeviceAccepted(f: Filter, r: DmesgRec) {
    f.devMatches == None || f.devMatches.value(r.device)
  }

  /** The device is accepted, and the message matches exactly if only matching ones are wanted. */
  predicate Wanted(f: Filter, r: DmesgRec) {
    DeviceAccepted(f, r) && (f.config == NoFilter || (f.config == Only <==> f.msgMatches(r.message)))
  }

  ghost function WantedAt(f: Filter, recs: seq<DmesgRec>): set<int> {
    set i | 0 <= i < |recs| && Wanted(f, recs[i])
  }

  /** The number of matching records is the number of wanted ones. */
  lemma {:induction false} CountIsWanted(f: Filter, recs: seq<DmesgRec>)
    ensures CountMatching(f, recs) == |WantedAt(f, recs)|
    decreases recs
  {
    if recs == [] {
      assert WantedAt(f, recs) == {};
    } else {
      var n := |recs| - 1;
      CountIsWanted(f, recs[..n]);
      assert WantedAt(f, recs) == WantedAt(f, recs[..n]) + if Wanted(f, recs[n]) then {n} else {};
    }
  }

  /** The matching records are wanted ones of those read. */
  lemma {:induction false} MatchingAreWanted(f: Filter, recs: seq<DmesgRec>)
    ensures forall r :: r in MatchingRecs(f, recs) <==> r in recs && Wanted(f, r)
    decreases recs
  {
    if recs != [] {
      var n := |recs| - 1;
      MatchingAreWanted(f, recs[..n]);
      assert recs == recs[..n] + [recs[n]];
    }
  }

  /** All or none are counted when all or no messages match. */
  lemma {:induction false} CountExtremes(f: Filter, recs: seq<DmesgRec>, all: bool)
    requires forall i :: 0 <= i < |recs| ==> DeviceAccepted(f, recs[i]) && f.msgMatches(recs[i].message) == all
    ensures CountMatching(f, recs) == match f.config
      case NoFilter => |recs|
      case Only => if all then |recs| else 0
      case Exclude => if all then 0 else |recs|
    decreases recs
  {
    if recs != [] {
      CountExtremes(f, recs[..|recs| - 1], all);
    }
  }

  lemma KeysAreWanted(f: Filter, recs: seq<DmesgRec>)
    ensures f.config == Only ==> forall k :: k in Keys(MatchingRecs(f, recs)) ==> f.msgMatches(k.1)
    ensures f.config == Exclude ==> forall k :: k in Keys(MatchingRecs(f, recs)) ==> !f.msgMatches(k.1)
  {
    MatchingAreWanted(f, recs);
    var matching := MatchingRecs(f, recs);
    forall i | 0 <= i < |matching| ensures Wanted(f, matching[i]) {
      assert matching[i] in matching;
    }
  }

  // ---------- Which lines are printed ----------

  /** The same record again, with the next sequence number and any time. */
  predicate Repeats(a: DmesgRec, b: DmesgRec) {
    b == a.(seqno := a.seqno + 1, timestamp := b.timestamp)
  }

  /** Where the run of repetitions starts that ends with the `n`th record. */
  function RunStart(recs: seq<DmesgRec>, n: nat): (s: nat)
    requires 0 < n <= |recs|
    ensures s < n && forall i :: s < i < n ==> Repeats(recs[i - 1], recs[i])
    ensures s == 0 || !Repeats(recs[s - 1], recs[s])
  {
    if n >= 2 && Repeats(recs[n - 2], recs[n - 1]) then RunStart(recs, n - 1) else n - 1
  }

  function LineOf(r: DmesgRec): OutLine {
    Message(r.timestamp, r.caller, r.message)
  }

  /** For `n` repetitions of which `last` is the last. */
  function RepeatLines(last: DmesgRec, n: nat): seq<OutLine> {
    if n == 0 then [] else if n == 1 then [LineOf(last)] else [Repeat(last.timestamp, last.caller, n)]
  }

  function RunLines(run: seq<DmesgRec>): seq<OutLine>
    requires run != []
  {
    [LineOf(run[0])] + RepeatLines(run[|run| - 1], |run| - 1)
  }

  /** The lines of the longest runs of repetitions whose first record is wanted. */
  function Lines(f: Filter, recs: seq<DmesgRec>): seq<OutLine> {
    if recs == [] then []
    else
      var s := RunStart(recs, |recs|);
      Lines(f, recs[..s]) + if Wanted(f, recs[s]) then RunLines(recs[s..]) else []
  }

  lemma {:induction false} RunStartPrefix(recs: seq<DmesgRec>, more: seq<DmesgRec>, n: nat)
    requires 0 < n <= |recs|
    ensures RunStart(recs + more, n) == RunStart(recs, n)
    decreases n
  {
    if n >= 2 {
      var all := recs + more;
      assert all[n - 2] == recs[n - 2] && all[n - 1] == recs[n - 1];
      hide Repeats;
      RunStartPrefix(recs, more, n - 1);
    }
  }

  /** The lines printed so far, while the repetitions in the last run are not. */
  ghost predicate InRun(f: Filter, recs: seq<DmesgRec>, last: DmesgRec, rep: nat, matched: bool, out: seq<OutLine>) {
    if recs == [] then last == BLANK && rep == 0 && !matched && out == []
    else
      var s := RunStart(recs, |recs|);
      && last == recs[|recs| - 1] && rep == |recs| - 1 - s && matched == Wanted(f, recs[s])
      && out == Lines(f, recs[..s]) + if matched then [LineOf(recs[s])] else []
  }

  lemma InRunRepeat(f: Filter, recs: seq<DmesgRec>, last: DmesgRec, rep: nat, matched: bool, out: seq<OutLine>,
                    dr: DmesgRec)
    requires InRun(f, recs, last, rep, matched, out) && DrecsMatch(last, dr) && dr.prio != ""
    ensures InRun(f, recs + [dr], dr, rep + 1, matched, out)
  {
    hide Lines, Wanted;
    var all := recs + [dr];
    RunGoesOn(recs, last, dr);
    var s := RunStart(all, |all|);
    assert all[..s] == recs[..s] && all[s] == recs[s];
  }

  lemma RunGoesOn(recs: seq<DmesgRec>, last: DmesgRec, dr: DmesgRec)
    requires recs != [] && last == recs[|recs| - 1] && DrecsMatch(last, dr)
    ensures RunStart(recs + [dr], |recs| + 1) == RunStart(recs, |recs|)
  {
    var all := recs + [dr];
    RunStartPrefix(recs, [dr], |recs|);
    assert Repeats(all[|recs| - 1], all[|recs|]);
  }

  lemma InRunEnds(f: Filter, recs: seq<DmesgRec>, last: DmesgRec, rep: nat, matched: bool, out: seq<OutLine>)
    requires InRun(f, recs, last, rep, matched, out)
    ensures out + (if matched then RepeatLines(last, rep) else []) == Lines(f, recs)
  {
    if recs != [] {
      var s := RunStart(recs, |recs|);
      var run := recs[s..];
      assert run[0] == recs[s] && run[|run| - 1] == last && |run| - 1 == rep;
    }
  }

  lemma InRunNew(f: Filter, recs: seq<DmesgRec>, dr: DmesgRec)
    requires recs != [] ==> !DrecsMatch(recs[|recs| - 1], dr)
    ensures InRun(f, recs + [dr], dr, 0, Wanted(f, dr), Lines(f, recs) + if Wanted(f, dr) then [LineOf(dr)] else [])
  {
    var all := recs + [dr];
    assert recs != [] ==> !Repeats(all[|recs| - 1], all[|recs|]);
    assert RunStart(all, |all|) == |recs|;
    assert all[..|recs|] == recs;
  }

  // ---------- The compressing pass ----------

  /** The lines are those of the matching records without the last `rep`, which repeat `last`. */
  ghost predicate Owing(matching: seq<DmesgRec>, last: DmesgRec, rep: nat, out: seq<OutLine>) {
    && rep < |matching| && matching[|matching| - 1] == last && SameTail(matching, rep + 1)
    && Explains(out, matching[..|matching| - rep])
  }

  /** print_repeated_dmesg_line: one repetition is printed as a line of its own. */
  method PrintRepeated(printed: bool, matched: bool, repCount: nat, last: DmesgRec, out: seq<OutLine>,
                       ghost matching: seq<DmesgRec>)
    returns (out': seq<OutLine>)
    requires printed && matched ==> Owing(matching, last, repCount, out)
    ensures printed && matched ==> Explains(out', matching)
    ensures out' == if printed && matched then out + RepeatLines(last, repCount) else out
  {
    out' := out;
    if !printed || !matched {
      return;
    }
    var n := |matching|;
    if repCount == 0 {
      assert matching[..n] == matching;
      return;
    }
    if repCount == 1 {
      ExplainsOne(out, matching[..n - 1], last);
      assert matching == matching[..n - 1] + [last];
      out' := out + [Message(last.timestamp, last.caller, last.message)];
      return;
    }
    ExplainsMore(out, matching, repCount, last);
    out' := out + [Repeat(last.timestamp, last.caller, repCount)];
  }

  datatype RecCounts = RecCounts(matched: nat, unmatched: nat, lastSeq: int, lastTimestamp: nat)

  /** `last` is the last of `recs`, and its `rep` repetitions are not counted or printed yet. */
  ghost predicate Pending(f: Filter, recs: seq<DmesgRec>, last: DmesgRec, rep: nat, matched: bool) {
    if recs == [] then last == BLANK && rep == 0 && !matched
    else last == recs[|recs| - 1] && matched == Matches(f, last)
  }

  ghost predicate Counted(f: Filter, recs: seq<DmesgRec>, rep: nat, matched: bool, m: nat, u: nat) {
    m + (if matched then rep else 0) == CountMatching(f, recs) && m + u + rep == |recs|
  }

  ghost predicate Output(f: Filter, recs: seq<DmesgRec>, last: DmesgRec, rep: nat, matched: bool, out: seq<OutLine>) {
    if matched then Owing(MatchingRecs(f, recs), last, rep, out) else Explains(out, MatchingRecs(f, recs))
  }

  lemma RepeatCounts(f: Filter, recs: seq<DmesgRec>, last: DmesgRec, rep: nat, matched: bool, m: nat, u: nat,
                     dr: DmesgRec)
    requires Pending(f, recs, last, rep, matched) && Counted(f, recs, rep, matched, m, u)
    requires DrecsMatch(last, dr) && dr.prio != ""
    ensures Pending(f, recs + [dr], dr, rep + 1, matched) && Counted(f, recs + [dr], rep + 1, matched, m, u)
  {
    assert (recs + [dr])[..|recs|] == recs;
  }

  lemma OwingMore(matching: seq<DmesgRec>, last: DmesgRec, rep: nat, out: seq<OutLine>, dr: DmesgRec)
    requires Owing(matching, last, rep, out) && Key(dr) == Key(last)
    ensures Owing(matching + [dr], dr, rep + 1, out)
  {
    var all := matching + [dr];
    assert all[..|all| - (rep + 1)] == matching[..|matching| - rep];
  }

  lemma RepeatMatches(f: Filter, a: DmesgRec, b: DmesgRec)
    requires DrecsMatch(a, b)
    ensures Matches(f, a) == Matches(f, b) && Key(a) == Key(b)
  {
  }

  lemma RepeatOutput(f: Filter, recs: seq<DmesgRec>, last: DmesgRec, rep: nat, matched: bool, out: seq<OutLine>,
                     dr: DmesgRec)
    requires Pending(f, recs, last, rep, matched) && Output(f, recs, last, rep, matched, out)
    requires DrecsMatch(last, dr) && dr.prio != ""
    ensures Output(f, recs + [dr], dr, rep + 1, matched, out)
  {
    MatchingSnoc(f, recs, dr);
    if recs != [] {
      RepeatMatches(f, last, dr);
    }
    if matched {
      OwingMore(MatchingRecs(f, recs), last, rep, out, dr);
    }
  }

  lemma NewCounts(f: Filter, recs: seq<DmesgRec>, rep: nat, matched: bool, m: nat, u: nat, dr: DmesgRec)
    requires Counted(f, recs, rep, matched, m, u)
    ensures var now := Matches(f, dr);
      Counted(f, recs + [dr], 0, now, m + (if matched then rep else 0) + (if now then 1 else 0),
              u + (if matched then 0 else rep) + (if now then 0 else 1))
  {
    assert (recs + [dr])[..|recs|] == recs;
  }

  lemma OwingNothing(matching: seq<DmesgRec>, out: seq<OutLine>, dr: DmesgRec)
    requires Explains(out, matching)
    ensures Owing(matching + [dr], dr, 0, out + [Message(dr.timestamp, dr.caller, dr.message)])
  {
    ExplainsOne(out, matching, dr);
    assert (matching + [dr])[..|matching| + 1] == matching + [dr];
  }

  lemma NewOutput(f: Filter, recs: seq<DmesgRec>, out: seq<OutLine>, dr: DmesgRec)
    requires Explains(out, MatchingRecs(f, recs))
    ensures var out' := if Matches(f, dr) then out + [Message(dr.timestamp, dr.caller, dr.message)] else out;
      Output(f, recs + [dr], dr, 0, Matches(f, dr), out')
  {
    MatchingSnoc(f, recs, dr);
    if Matches(f, dr) {
      OwingNothing(MatchingRecs(f, recs), out, dr);
    }
  }

  /** The state of the loop: what is counted and printed, and the repetitions that are not yet. */
  ghost predicate Compressed(f: Filter, recs: seq<DmesgRec>, last: DmesgRec, rep: nat, matched: bool, m: nat, u: nat,
                             printed: bool, out: seq<OutLine>) {
    && Pending(f, recs, last, rep, matched) && Counted(f, recs, rep, matched, m, u)
    && (!printed ==> out == [])
    && (printed ==> Output(f, recs, last, rep, matched, out) && InRun(f, recs, last, rep, matched, out))
  }

  /** All lines are printed. */
  ghost predicate Complete(f: Filter, recs: seq<DmesgRec>, printed: bool, out: seq<OutLine>) {
    if printed then Explains(out, MatchingRecs(f, recs)) && out == Lines(f, recs) else out == []
  }

  lemma CompressedRepeat(f: Filter, recs: seq<DmesgRec>, last: DmesgRec, rep: nat, matched: bool, m: nat, u: nat,
                         printed: bool, out: seq<OutLine>, dr: DmesgRec)
    requires Compressed(f, recs, last, rep, matched, m, u, printed, out)
    requires DrecsMatch(last, dr) && dr.prio != ""
    ensures last.(seqno := dr.seqno, timestamp := dr.timestamp) == dr
    ensures Compressed(f, recs + [dr], dr, rep + 1, matched, m, u, printed, out)
  {
    hide InRun, Output;
    RepeatCounts(f, recs, last, rep, matched, m, u, dr);
    if printed {
      RepeatOutput(f, recs, last, rep, matched, out, dr);
      InRunRepeat(f, recs, last, rep, matched, out, dr);
    }
  }

  /** What the repeat line needs and completes. */
  lemma CompressedEnds(f: Filter, recs: seq<DmesgRec>, last: DmesgRec, rep: nat, matched: bool, m: nat, u: nat,
                       printed: bool, out: seq<OutLine>)
    requires Compressed(f, recs, last, rep, matched, m, u, printed, out)
    ensures printed && matched ==> Owing(MatchingRecs(f, recs), last, rep, out)
    ensures var out' := if printed && matched then out + RepeatLines(last, rep) else out;
      (printed && matched ==> Explains(out', MatchingRecs(f, recs))) ==> Complete(f, recs, printed, out')
    ensures m + (if matched then rep else 0) == |WantedAt(f, recs)| == CountMatching(f, recs)
    ensures m + u + rep == |recs|
  {
    CountIsWanted(f, recs);
    if printed {
      InRunEnds(f, recs, last, rep, matched, out);
    }
  }

  lemma CompressedNew(f: Filter, recs: seq<DmesgRec>, last: DmesgRec, rep: nat, matched: bool, m: nat, u: nat,
                      printed: bool, out: seq<OutLine>, out': seq<OutLine>, dr: DmesgRec)
    requires Compressed(f, recs, last, rep, matched, m, u, printed, out) && !DrecsMatch(last, dr)
    requires Complete(f, recs, printed, out')
    ensures var now := Matches(f, dr);
      Compressed(f, recs + [dr], dr, 0, now,
              m + (if matched then rep else 0) + (if now then 1 else 0),
              u + (if matched then 0 else rep) + (if now then 0 else 1), printed,
              if printed && now then out' + [Message(dr.timestamp, dr.caller, dr.message)] else out')
  {
    hide InRun, Output, Explains, Lines;
    NewCounts(f, recs, rep, matched, m, u, dr);
    if printed {
      NewOutput(f, recs, out', dr);
      InRunNew(f, recs, dr);
      assert out' + [] == out';
    }
  }

  /** What the printed lines are. */
  lemma CompleteOutput(f: Filter, recs: seq<DmesgRec>, printed: bool, out: seq<OutLine>)
    requires Complete(f, recs, printed, out)
    ensures if printed then Explains(out, MatchingRecs(f, recs)) else out == []
    ensures Expand(out) == if printed then MatchingMessages(f, recs) else []
    ensures out == if printed then Lines(f, recs) else []
    ensures f.config == Only ==> forall k :: k in Expand(out) ==> f.msgMatches(k.1)
    ensures f.config == Exclude ==> forall k :: k in Expand(out) ==> !f.msgMatches(k.1)
  {
    if printed {
      KeysAreWanted(f, recs);
      ExplainsExpands(out, MatchingRecs(f, recs));
      MatchingKeys(f, recs);
    }
  }

  lemma NothingCompressed(f: Filter, printed: bool)
    ensures Compressed(f, [], BLANK, 0, false, 0, 0, printed, [])
  {
  }

  /** The repetitions of the last record are printed and counted; `recs` are the records so far. */
  method EndRun(f: Filter, ghost recs: seq<DmesgRec>, last: DmesgRec, repCount: nat, recFilterMatch: bool,
                matched: nat, unmatched: nat, printed: bool, out: seq<OutLine>)
    returns (matched': nat, unmatched': nat, out': seq<OutLine>)
    requires Compressed(f, recs, last, repCount, recFilterMatch, matched, unmatched, printed, out)
    ensures Complete(f, recs, printed, out')
    ensures matched' == matched + if recFilterMatch then repCount else 0
    ensures matched' == |WantedAt(f, recs)| == CountMatching(f, recs)
    ensures unmatched' == unmatched + (if recFilterMatch then 0 else repCount) && matched' + unmatched' == |recs|
  {
    CompressedEnds(f, recs, last, repCount, recFilterMatch, matched, unmatched, printed, out);
    hide Compressed, Complete, Owing, Explains, RepeatLines, WantedAt, CountMatching;
    out' := PrintRepeated(printed, recFilterMatch, repCount, last, out, MatchingRecs(f, recs));
    matched', unmatched' := matched, unmatched;
    if recFilterMatch {
      matched' := matched + repCount;
    } else {
      unmatched' := unmatched + repCount;
    }
  }

  /** A record that does not repeat the last one. */
  method NewRun(f: Filter, ghost recs: seq<DmesgRec>, dr: DmesgRec, last: DmesgRec, repCount: nat,
                recFilterMatch: bool, matched: nat, unmatched: nat, printed: bool, out: seq<OutLine>)
    returns (now: bool, matched': nat, unmatched': nat, out': seq<OutLine>)
    requires Compressed(f, recs, last, repCount, recFilterMatch, matched, unmatched, printed, out)
    requires !DrecsMatch(last, dr)
    ensures Compressed(f, recs + [dr], dr, 0, now, matched', unmatched', printed, out')
  {
    hide Compressed, Complete, Matches, DrecsMatch, WantedAt, CountMatching;
    matched', unmatched', out' := EndRun(f, recs, last, repCount, recFilterMatch, matched, unmatched, printed, out);
    CompressedNew(f, recs, last, repCount, recFilterMatch, matched, unmatched, printed, out, out', dr);
    now := Matches(f, dr);
    if now {
      matched' := matched' + 1;
    } else {
      unmatched' := unmatched' + 1;
    }
    if printed && now {
      out' := out' + [Message(dr.timestamp, dr.caller, dr.message)];
    }
  }

  lemma LastOf(f: Filter, recs: seq<DmesgRec>, last: DmesgRec, rep: nat, matched: bool, m: nat, u: nat, printed: bool,
               out: seq<OutLine>)
    requires Compressed(f, recs, last, rep, matched, m, u, printed, out)
    ensures if recs == [] then last == BLANK else last == recs[|recs| - 1]
  {
  }

  /** trace_dump_recs on the records of one read; nothing is printed unless `printed`. */
  method DumpRecs(recs: seq<DmesgRec>, f: Filter, printed: bool) returns (rc: RecCounts, out: seq<OutLine>)
    requires forall i :: 0 <= i < |recs| ==> recs[i].prio != ""  // only numeric priorities are recorded
    ensures rc.matched == CountMatching(f, recs) && rc.matched + rc.unmatched == |recs|
    ensures rc.matched == |WantedAt(f, recs)|
    ensures if printed then Explains(out, MatchingRecs(f, recs)) else out == []
    ensures Expand(out) == if printed then MatchingMessages(f, recs) else []
    ensures out == if printed then Lines(f, recs) else []
    ensures f.config == Only ==> forall k :: k in Expand(out) ==> f.msgMatches(k.1)
    ensures f.config == Exclude ==> forall k :: k in Expand(out) ==> !f.msgMatches(k.1)
    ensures recs != [] ==> (rc.lastSeq, rc.lastTimestamp) == (recs[|recs| - 1].seqno, recs[|recs| - 1].timestamp)
    ensures recs == [] ==> rc == RecCounts(0, 0, 0, 0)
  {
    hide Compressed, Complete, DrecsMatch, WantedAt, CountMatching, Expand, Explains, Lines;
    out := [];
    var last := BLANK;
    var repCount: nat := 0;
    var recFilterMatch := false;
    var matched, unmatched: nat := 0, 0;
    NothingCompressed(f, printed);
    assert recs[..0] == [];
    for i := 0 to |recs|
      invariant Compressed(f, recs[..i], last, repCount, recFilterMatch, matched, unmatched, printed, out)
    {
      var dr := recs[i];
      assert recs[..i + 1] == recs[..i] + [dr];
      if DrecsMatch(last, dr) {
        CompressedRepeat(f, recs[..i], last, repCount, recFilterMatch, matched, unmatched, printed, out, dr);
        last := last.(seqno := dr.seqno, timestamp := dr.timestamp);
        repCount := repCount + 1;
        continue;
      }
      recFilterMatch, matched, unmatched, out :=
        NewRun(f, recs[..i], dr, last, repCount, recFilterMatch, matched, unmatched, printed, out);
      repCount := 0;
      last := dr;
    }
    assert recs[..|recs|] == recs;
    LastOf(f, recs, last, repCount, recFilterMatch, matched, unmatched, printed, out);
    matched, unmatched, out := EndRun(f, recs, last, repCount, recFilterMatch, matched, unmatched, printed, out);
    CompleteOutput(f, recs, printed, out);
    rc := RecCounts(matched, unmatched, last.seqno, last.timestamp);
  }
}
