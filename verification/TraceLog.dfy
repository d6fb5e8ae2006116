/**
  The record log shared by the trace server and its readers (scripts/trace.sh).

  The server appends records to the record file without a lock.  It publishes their number,
  truncates the file and honours the cleared flag under the lock.  Readers take slices by
  absolute record number and set the flag under the same lock.  The step system interleaves
  all of these; `AbsNext` is the simple log that it refines.
 */
module TraceLog {
  import opened Wrappers
  import opened KmsgBatch

  const MAX_LINES := 10000
  const SLACK := 100

  datatype Op = Print | Count | PrintAndClear | Clear {
    predicate Clears() { PrintAndClear? || Clear? }
  }

  /** The info file: the absolute number of the first record, the number of published ones, and the flag. */
  datatype Info = Info(first: nat, num: nat, seqno: int, timestamp: int, cleared: bool)

  const INITIAL_INFO := Info(0, 0, 0, 0, false)

  /** What the locked functions print: a record slice, or the record info. */
  datatype Reply =
    | Nothing
    | Recs(since: nat, dump: nat, dropped: nat, lines: seq<Rec>)
    | RecInfo(first: nat, num: nat, seqno: int, timestamp: int)

  // ---------- The locked operations ----------

  /** trace_update_rec_info. */
  function Published(ri: Info, kb: Batch): Info {
    if kb.recsAdded == 0 && kb.seqno == ri.seqno && kb.timestamp == ri.timestamp then ri
    else ri.(num := ri.num + kb.recsAdded, seqno := kb.seqno, timestamp := kb.timestamp)
  }

  predicate MustTruncate(ri: Info) {
    ri.cleared || ri.num >= MAX_LINES + SLACK
  }

  function KeepLines(ri: Info, kb: Batch): nat {
    var keep := if ri.cleared then kb.recsAdded else MAX_LINES;
    if keep > ri.num then ri.num else keep
  }

  function LastLines(file: seq<Rec>, n: nat): seq<Rec> {
    if n <= |file| then file[|file| - n..] else file
  }

  /** trace_truncate_recs: the new file and info. */
  function Truncated(file: seq<Rec>, ri: Info, kb: Batch): (seq<Rec>, Info) {
    if !MustTruncate(ri) then (file, ri)
    else
      var keep := KeepLines(ri, kb);
      (LastLines(file, keep), ri.(first := ri.first + ri.num - keep, num := keep, cleared := false))
  }

  /** The slice that trace_get_recs_locked announces: first record, number of records, dropped records. */
  function Range(ri: Info, since: int, max: int): (nat, nat, nat) {
    var last := ri.first + ri.num;
    var since := if since > last then last else since;
    var since := if ri.cleared then last else since;
    var dropped := if ri.cleared then last else ri.first;
    var since: nat := if since < ri.first then ri.first else since;
    var dump := last - since;
    (since, if max >= 0 && dump > max then max else dump, dropped)
  }

  /** `n` lines from line number `from` on, as far as the file goes. */
  function SliceLines(file: seq<Rec>, from: nat, n: nat): seq<Rec> {
    var rest := if from <= |file| then file[from..] else [];
    if n <= |rest| then rest[..n] else rest
  }

  function GetRecs(file: seq<Rec>, ri: Info, op: Op, since: int, max: int): Reply {
    var (first, dump, dropped) := Range(ri, since, max);
    Recs(first, dump, dropped, if op == Clear then [] else SliceLines(file, first - ri.first, dump))
  }

  function GetInfo(ri: Info): Reply {
    if ri.cleared then RecInfo(ri.first + ri.num, 0, ri.seqno, ri.timestamp)
    else RecInfo(ri.first, ri.num, ri.seqno, ri.timestamp)
  }

  // ---------- The interleaved system ----------

  /** `log` is the history of all records ever appended. */
  datatype World = World(file: seq<Rec>, ri: Info, server: Server, log: seq<Rec>)

  const INITIAL := World([], INITIAL_INFO, START, [])

  datatype Step = Feed(e: Event) | Update | Get(op: Op, since: int, max: int) | Query

  /** The server feeds lines until its batch is complete, then updates; readers may step in at any time. */
  predicate Enabled(w: World, step: Step) {
    match step
    case Feed(_) => !w.server.emitted
    case Update => w.server.emitted
    case _ => true
  }

  function Next(w: World, step: Step): (World, Reply) {
    match step
    case Feed(e) =>
      var (server, recs) := Iterate(w.server, e);
      (World(w.file + recs, w.ri, server, w.log + recs), Nothing)
    case Update =>
      var (file, ri) := Truncated(w.file, Published(w.ri, w.server.kb), w.server.kb);
      (World(file, ri, Reset(w.server), w.log), Nothing)
    case Get(op, since, max) =>
      (if op.Clears() then w.(ri := w.ri.(cleared := true)) else w, GetRecs(w.file, w.ri, op, since, max))
    case Query => (w, GetInfo(w.ri))
  }

  /** The record file is the log from the first kept record on: the published ones, then the pending ones. */
  ghost predicate Inv(w: World) {
    && ValidServer(w.server)
    && w.ri.num < MAX_LINES + SLACK
    && w.ri.first + w.ri.num + w.server.kb.recsAdded == |w.log|
    && w.file == w.log[w.ri.first..]
  }

  lemma NextKeepsInv(w: World, step: Step)
    requires Inv(w) && Enabled(w, step)
    ensures Inv(Next(w, step).0)
  {
    match step
    case Feed(e) =>
      var (server, recs) := Iterate(w.server, e);
      IterateValid(w.server, e);
      assert (w.log + recs)[w.ri.first..] == w.file + recs;
    case Update =>
      var kb := w.server.kb;
      var ri := Published(w.ri, kb);
      assert |w.file| == ri.num;
      if MustTruncate(ri) {
        var keep := KeepLines(ri, kb);
        assert w.file[|w.file| - keep..] == w.log[ri.first + ri.num - keep..];
      }
    case _ =>
  }

  // ---------- The abstract log ----------

  /** Records numbered `first` to `last` can be read; a clear moves `first` up at once. */
  datatype Abs = Abs(recs: seq<Rec>, first: nat, last: nat, seqno: int, timestamp: int)

  function AbsOf(w: World): Abs {
    var last := w.ri.first + w.ri.num;
    Abs(w.log, if w.ri.cleared then last else w.ri.first, last, w.ri.seqno, w.ri.timestamp)
  }

  function Clamp(lo: nat, hi: nat, k: int): nat
    requires lo <= hi
  {
    if k < lo then lo else if k > hi then hi else k
  }

  function Limit(max: int, n: nat): nat {
    if 0 <= max < n then max else n
  }

  /** What a read of the abstract log returns. */
  function AbsGet(a: Abs, op: Op, since: int, max: int): Reply
    requires a.first <= a.last <= |a.recs|
  {
    var from := Clamp(a.first, a.last, since);
    var n := Limit(max, a.last - from);
    Recs(from, n, a.first, if op == Clear then [] else a.recs[from..from + n])
  }

  ghost predicate AbsNext(a: Abs, step: Step, reply: Reply, a': Abs) {
    && a.first <= a.last <= |a.recs|
    && match step
       case Feed(_) =>
         && reply == Nothing
         && a' == a.(recs := a'.recs)
         && a.recs <= a'.recs && |a'.recs| <= |a.recs| + 1
       case Update =>
         && reply == Nothing
         && a' == a.(first := a'.first, last := |a.recs|, seqno := a'.seqno, timestamp := a'.timestamp)
         && a'.first == if |a.recs| - a.first >= MAX_LINES + SLACK then |a.recs| - MAX_LINES else a.first
       case Get(op, since, max) =>
         && reply == AbsGet(a, op, since, max)
         && a' == if op.Clears() then a.(first := a.last) else a
       case Query =>
         reply == RecInfo(a.first, a.last - a.first, a.seqno, a.timestamp) && a' == a
  }

  lemma SliceOfLog(log: seq<Rec>, first: nat, from: nat, n: nat)
    requires first <= from && from + n <= |log|
    ensures SliceLines(log[first..], from - first, n) == log[from..from + n]
  {
    assert log[first..][from - first..] == log[from..];
    assert log[from..][..n] == log[from..from + n];
  }

  lemma SliceOfFile(file: seq<Rec>, log: seq<Rec>, ri: Info, op: Op, since: int, max: int,
                    from: nat, n: nat, dropped: nat)
    requires ri.first <= from && from + n <= |log| && file == log[ri.first..]
    requires Range(ri, since, max) == (from, n, dropped)
    ensures GetRecs(file, ri, op, since, max) == Recs(from, n, dropped, if op == Clear then [] else log[from..from + n])
  {
    SliceOfLog(log, ri.first, from, n);
  }

  lemma GetRefines(w: World, op: Op, since: int, max: int)
    requires Inv(w)
    ensures GetRecs(w.file, w.ri, op, since, max) == AbsGet(AbsOf(w), op, since, max)
  {
    var a := AbsOf(w);
    var from := Clamp(a.first, a.last, since);
    var n := Limit(max, a.last - from);
    SliceOfFile(w.file, w.log, w.ri, op, since, max, from, n, a.first);
  }

  /** Every step of the files is a step of the abstract log with the same reply. */
  lemma NextRefines(w: World, step: Step)
    requires Inv(w) && Enabled(w, step)
    ensures var (w', reply) := Next(w, step); AbsNext(AbsOf(w), step, reply, AbsOf(w'))
  {
    match step
    case Feed(e) => IterateValid(w.server, e);
    case Update =>
    case Get(op, since, max) => GetRefines(w, op, since, max);
    case Query =>
  }

  /** A read that clears, and no other one, empties what can be read until more is published. */
  lemma ClearHides(w: World, op: Op, since: int, max: int)
    requires Inv(w)
    ensures var w', last := Next(w, Get(op, since, max)).0, w.ri.first + w.ri.num;
      && (op in {Print, Count} ==> w' == w)
      && (op in {PrintAndClear, Clear} ==>
            && GetInfo(w'.ri) == RecInfo(last, 0, w.ri.seqno, w.ri.timestamp)
            && forall o, s, m :: GetRecs(w'.file, w'.ri, o, s, m) == Recs(last, 0, last, []))
  {
    var w' := Next(w, Get(op, since, max)).0;
    if op in {PrintAndClear, Clear} {
      var last := w'.ri.first + w'.ri.num;
      forall o, s, m ensures GetRecs(w'.file, w'.ri, o, s, m) == Recs(last, 0, last, []) {
        NextKeepsInv(w, Get(op, since, max));
        GetRefines(w', o, s, m);
      }
    }
  }

  /** An update makes all records of the log readable that are not cleared, but the last 10000 if there are 10100. */
  lemma UpdatePublishes(w: World)
    requires Inv(w) && w.server.emitted
    ensures var a, a' := AbsOf(w), AbsOf(Next(w, Update).0);
      var n := |w.log| - a.first;
      a'.last == |w.log| && a'.last - a'.first == if n >= 10100 then 10000 else n
  {
    NextRefines(w, Update);
  }

  // ---------- Whole runs ----------

  /** `ws` are the states of a run and `replies` what its steps print. */
  ghost predicate Behavior(ws: seq<World>, steps: seq<Step>, replies: seq<Reply>) {
    && |ws| == |steps| + 1 && |replies| == |steps|
    && ws[0] == INITIAL
    && forall i :: 0 <= i < |steps| ==>
         Enabled(ws[i], steps[i]) && Next(ws[i], steps[i]) == (ws[i + 1], replies[i])
  }

  lemma {:induction false} InvAt(ws: seq<World>, steps: seq<Step>, replies: seq<Reply>, i: nat)
    requires Behavior(ws, steps, replies) && i < |ws|
    ensures Inv(ws[i])
  {
    if i > 0 {
      InvAt(ws, steps, replies, i - 1);
      NextKeepsInv(ws[i - 1], steps[i - 1]);
    }
  }

  /** In every run the file is the right slice of the log, and bounded, and the abstract log explains every reply. */
  lemma RunRefines(ws: seq<World>, steps: seq<Step>, replies: seq<Reply>)
    requires Behavior(ws, steps, replies)
    ensures forall i :: 0 <= i < |ws| ==> Inv(ws[i])
    ensures forall i :: 0 <= i < |steps| ==> AbsNext(AbsOf(ws[i]), steps[i], replies[i], AbsOf(ws[i + 1]))
  {
    forall i | 0 <= i < |ws| ensures Inv(ws[i]) {
      InvAt(ws, steps, replies, i);
    }
    forall i | 0 <= i < |steps| ensures AbsNext(AbsOf(ws[i]), steps[i], replies[i], AbsOf(ws[i + 1])) {
      NextRefines(ws[i], steps[i]);
    }
  }

  /** Later states only have more records, and what was dropped or published stays so. */
  ghost predicate Later(a: Abs, b: Abs) {
    a.recs <= b.recs && a.first <= b.first && a.last <= b.last
  }

  lemma {:induction false} RunMonotone(ws: seq<World>, steps: seq<Step>, replies: seq<Reply>, i: nat, j: nat)
    requires Behavior(ws, steps, replies) && i <= j < |ws|
    ensures Later(AbsOf(ws[i]), AbsOf(ws[j]))
  {
    if i < j {
      RunMonotone(ws, steps, replies, i, j - 1);
      InvAt(ws, steps, replies, j - 1);
      NextRefines(ws[j - 1], steps[j - 1]);
    }
  }

  lemma StepAt(ws: seq<World>, steps: seq<Step>, replies: seq<Reply>, i: nat)
    requires Behavior(ws, steps, replies) && i < |steps|
    ensures Enabled(ws[i], steps[i]) && Next(ws[i], steps[i]) == (ws[i + 1], replies[i])
  {
  }

  lemma SliceOfPrefix(log: seq<Rec>, longer: seq<Rec>, from: nat, n: nat)
    requires log <= longer && from + n <= |log|
    ensures log[from..from + n] == longer[from..from + n]
  {
    assert log == longer[..|log|];
  }

  lemma ReplyIsSlice(w: World, step: Step, reply: Reply, longer: seq<Rec>)
    requires Inv(w) && step.Get? && step.op != Clear && Next(w, step).1 == reply && w.log <= longer
    ensures reply.Recs? && reply.since + reply.dump <= |longer|
    ensures reply.lines == longer[reply.since..reply.since + reply.dump]
  {
    GetRefines(w, step.op, step.since, step.max);
    SliceOfPrefix(w.log, longer, reply.since, reply.dump);
  }

  /** A record that a slice reply returns is the record with that number at the end of the run. */
  lemma ReadsAreSlices(ws: seq<World>, steps: seq<Step>, replies: seq<Reply>, i: nat)
    requires Behavior(ws, steps, replies) && i < |steps| && steps[i].Get? && steps[i].op != Clear
    ensures var r, log := replies[i], ws[|steps|].log;
      r.Recs? && r.since + r.dump <= |log| && r.lines == log[r.since..r.since + r.dump]
  {
    InvAt(ws, steps, replies, i);
    RunMonotone(ws, steps, replies, i, |steps|);
    StepAt(ws, steps, replies, i);
    ReplyIsSlice(ws[i], steps[i], replies[i], ws[|steps|].log);
  }

  // ---------- What the log holds ----------

  function Fed(steps: seq<Step>): seq<Event> {
    if steps == [] then []
    else
      var n := |steps| - 1;
      Fed(steps[..n]) + if steps[n].Feed? then [steps[n].e] else []
  }

  lemma FedNext(steps: seq<Step>, i: nat)
    requires i < |steps|
    ensures Fed(steps[..i + 1]) == if steps[i].Feed? then Fed(steps[..i]) + [steps[i].e] else Fed(steps[..i])
  {
    assert steps[..i + 1][..i] == steps[..i];
  }

  /** The server is in the state `s`, or in the one an update makes of it. */
  predicate Follows(w: World, s: Server, recs: seq<Rec>) {
    w.log == recs && (w.server == s || (s.emitted && w.server == Reset(s)))
  }

  lemma FollowsNext(w: World, step: Step, evs: seq<Event>)
    requires Enabled(w, step) && Follows(w, RunServer(START, evs).0, RunServer(START, evs).1)
    ensures var after := if step.Feed? then evs + [step.e] else evs;
      Follows(Next(w, step).0, RunServer(START, after).0, RunServer(START, after).1)
  {
    if step.Feed? {
      RunServerSnoc(START, evs, step.e);
    }
  }

  lemma {:induction false} LogFollowsServer(ws: seq<World>, steps: seq<Step>, replies: seq<Reply>, i: nat)
    requires Behavior(ws, steps, replies) && i < |ws|
    ensures var (s, recs) := RunServer(START, Fed(steps[..i])); Follows(ws[i], s, recs)
  {
    if i > 0 {
      hide RunServer, Next;
      StepAt(ws, steps, replies, i - 1);
      LogFollowsServer(ws, steps, replies, i - 1);
      FedNext(steps, i - 1);
      FollowsNext(ws[i - 1], steps[i - 1], Fed(steps[..i - 1]));
    }
  }

  /** What an update publishes, until the next one, is the position of the server. */
  lemma {:induction false} PublishedPosition(ws: seq<World>, steps: seq<Step>, replies: seq<Reply>, i: nat, k: nat)
    requires Behavior(ws, steps, replies) && i < k <= |steps| && steps[i].Update?
    requires forall j :: i < j < k ==> !steps[j].Update?
    ensures var kb := RunServer(START, Fed(steps[..i])).0.kb;
      ws[k].ri.seqno == kb.seqno && ws[k].ri.timestamp == kb.timestamp
  {
    hide RunServer;
    StepAt(ws, steps, replies, k - 1);
    if k == i + 1 {
      LogFollowsServer(ws, steps, replies, i);
    } else {
      PublishedPosition(ws, steps, replies, i, k - 1);
    }
  }

  /** The record info gives the position that the server had at the last update. */
  lemma InfoReportsPosition(ws: seq<World>, steps: seq<Step>, replies: seq<Reply>, i: nat, k: nat)
    requires Behavior(ws, steps, replies) && i < k < |steps| && steps[i].Update? && steps[k].Query?
    requires forall j :: i < j < k ==> !steps[j].Update?
    ensures var kb := RunServer(START, Fed(steps[..i])).0.kb;
      replies[k].RecInfo? && replies[k].seqno == kb.seqno && replies[k].timestamp == kb.timestamp
  {
    PublishedPosition(ws, steps, replies, i, k);
    StepAt(ws, steps, replies, k);
  }

  /**
    Whatever reads, clears and updates come in between, once the server has timed out the log holds
    exactly the accepted groups of the lines fed to it, in order of their sequence numbers.
   */
  lemma LogContents(ws: seq<World>, steps: seq<Step>, replies: seq<Reply>)
    requires Behavior(ws, steps, replies)
    requires var evs := Fed(steps); evs != [] && evs[|evs| - 1].Tick?
    ensures ws[|steps|].log == Accept(NO_BATCH, Groups(Fed(steps)))
    ensures Increasing(-1, ws[|steps|].log)
    ensures forall r :: r in ws[|steps|].log ==> r.header.prio.Some? && r.header.prio.value <= 4
    ensures ws[|steps|].log == Groups(Fed(steps)) <==> Orderly(Groups(Fed(steps)))
  {
    LogFollowsServer(ws, steps, replies, |steps|);
    assert steps[..|steps|] == steps;
    BatchesInvisible(Fed(steps));
    RecordedIncrease(NO_BATCH, Groups(Fed(steps)));
    RecordedPriority(START, Fed(steps));
    RecordedWholeIff(Fed(steps));
  }

  // ---------- The files and the server's array, updated in place ----------

  function FeedAll(w: World, evs: seq<Event>): World {
    if evs == [] then w
    else Next(FeedAll(w, evs[..|evs| - 1]), Feed(evs[|evs| - 1])).0
  }

  lemma FeedAllSnoc(w: World, evs: seq<Event>, k: nat)
    requires k < |evs|
    ensures FeedAll(w, evs[..k + 1]) == Next(FeedAll(w, evs[..k]), Feed(evs[k])).0
  {
    assert evs[..k + 1][..k] == evs[..k];
  }

  /** The state in which a batch begins: nothing is collected, and the counters are zero. */
  function Restarted(w: World): World {
    w.(server := Server(w.server.kb.(recsRead := 0, recsAdded := 0), "", false))
  }

  class TraceFiles {
    var recFile: seq<Rec>
    var infoFile: Info
    var kb: Batch
    ghost var cont: string   // the continuation lines collected by a running batch
    ghost var emitted: bool  // the batch is complete
    ghost var log: seq<Rec>

    ghost function State(): World
      reads this
    {
      World(recFile, infoFile, Server(kb, cont, emitted), log)
    }

    ghost predicate Valid()
      reads this
    {
      Inv(State())
    }

    constructor ()
      ensures Valid() && State() == INITIAL
    {
      recFile, infoFile, kb := [], INITIAL_INFO, NO_BATCH;
      cont, emitted, log := "", false, [];
    }

    /** True if the record passes; moves the batch position on. */
    method CheckKmsgHeader(h: HeaderLine) returns (ok: bool)
      modifies this`kb
      ensures kb == Checked(old(kb), h) && ok == Accepted(old(kb), h)
      ensures ok <==> InStep(old(kb), h) && h.prio.Some? && h.prio.value <= 4
      ensures kb == old(kb).(
        recsRead := old(kb).recsRead + 1,
        seqno := if InStep(old(kb), h) then h.seqno else old(kb).seqno,
        timestamp := if InStep(old(kb), h) then h.timestamp else old(kb).timestamp)
    {
      kb := kb.(recsRead := kb.recsRead + 1);
      if kb.seqno == -1 {
        kb := kb.(seqno := h.seqno - 1, timestamp := h.timestamp);
      }
      if h.seqno <= kb.seqno || h.seqno > kb.seqno + MAX_SEQ_STEP ||
         h.timestamp < kb.timestamp - MAX_TIMESTAMP_DELTA_US {
        return false;
      }
      kb := kb.(seqno := h.seqno, timestamp := h.timestamp);
      ok := h.prio.Some? && h.prio.value <= MAX_PRIO;
    }

    method ProcessDmesgLine(line: Option<Line>, contLines: string)
      requires line == kb.lastLine && (line.Some? ==> line.value.Header?)
      modifies this`kb, this`recFile, this`log
      ensures (kb, recFile) == var (kb', recs) := Process(old(kb), contLines); (kb', old(recFile) + recs)
      ensures log == old(log) + Process(old(kb), contLines).1
    {
      if line == None {
        assert recFile == recFile + [] && log == log + [];
        return;
      }
      var ok := CheckKmsgHeader(line.value);
      if ok {
        recFile := recFile + [Rec(contLines, line.value)];
        log := log + [Rec(contLines, line.value)];
        kb := kb.(recsAdded := kb.recsAdded + 1);
      } else {
        assert recFile == recFile + [] && log == log + [];
      }
    }

    /** One round of the batch loop; `stop` says that the batch is complete. */
    method TakeEvent(e: Event, contLines: string) returns (contLines': string, stop: bool)
      requires ValidServer(State().server) && !emitted && contLines == cont
      modifies this
      ensures State() == Next(old(State()), Feed(e)).0
      ensures ValidServer(State().server) && contLines' == cont && stop == emitted && (stop ==> cont == "")
    {
      IterateValid(State().server, e);
      if e.Tick? {
        ProcessDmesgLine(kb.lastLine, contLines);
        kb := kb.(lastLine := None);
        cont, emitted := "", true;
        return "", true;
      }
      if e.line.Continuation? {
        contLines' := contLines + e.line.text;
        cont := contLines';
        assert recFile + [] == recFile && log + [] == log;
        return contLines', false;
      }
      ProcessDmesgLine(kb.lastLine, contLines);
      kb := kb.(lastLine := Some(e.line));
      stop := kb.recsRead >= MAX_BATCH_RECS || kb.recsAdded >= MAX_BATCH_RECS;
      cont, emitted := "", stop;
      contLines' := "";
    }

    /**
      Reads lines until the batch is full or a timeout; `used` events of `input` are consumed.
      `done` is false when the input ends first: the server then gives up without an update.
      Unexpected counters are reset first; the log stays right if no record was waiting to be published.
     */
    method ProcessDmesgLineBatch(input: seq<Event>) returns (used: nat, done: bool)
      requires ValidServer(State().server)
      modifies this
      ensures used <= |input| && State() == FeedAll(Restarted(old(State())), input[..used])
      ensures ValidServer(State().server) && done == emitted && (done || used == |input|)
      ensures old(Valid() && kb.recsAdded == 0) ==> Valid()
      ensures done ==> cont == ""
    {
      if kb.recsRead != 0 || kb.recsAdded != 0 {
        kb := kb.(recsRead := 0, recsAdded := 0);
      }
      cont, emitted := "", false;
      ghost var start, valid := State(), Valid();
      var contLines := "";
      used, done := 0, false;
      while !done && used < |input|
        invariant used <= |input| && ValidServer(State().server) && done == emitted && contLines == cont
        invariant (valid ==> Valid()) && (done ==> cont == "")
        invariant State() == FeedAll(start, input[..used])
      {
        if valid {
          NextKeepsInv(State(), Feed(input[used]));
        }
        FeedAllSnoc(start, input, used);
        contLines, done := TakeEvent(input[used], contLines);
        used := used + 1;
      }
    }

    method UpdateRecInfo()
      modifies this`infoFile
      ensures infoFile == Published(old(infoFile), kb)
    {
      var ri := infoFile;
      if kb.recsAdded == 0 && kb.seqno == ri.seqno && kb.timestamp == ri.timestamp {
        return;
      }
      ri := ri.(num := ri.num + kb.recsAdded);
      ri := ri.(seqno := kb.seqno, timestamp := kb.timestamp);
      infoFile := ri;
    }

    /** `changed` says that the file was rewritten, so that its descriptors have to be reopened. */
    method TruncateRecs() returns (changed: bool)
      modifies this`infoFile, this`recFile
      ensures (recFile, infoFile) == Truncated(old(recFile), old(infoFile), kb)
      ensures changed == MustTruncate(old(infoFile))
    {
      var ri := infoFile;
      var keepLines: nat;
      if !ri.cleared && ri.num < MAX_LINES + SLACK {
        return false;
      }
      if ri.cleared {
        keepLines := kb.recsAdded;
        ri := ri.(cleared := false);
      } else {
        keepLines := MAX_LINES;
      }
      if keepLines > ri.num {
        keepLines := ri.num;
      }
      recFile := LastLines(recFile, keepLines);
      ri := ri.(first := ri.first + ri.num - keepLines, num := keepLines);
      infoFile := ri;
      return true;
    }

    /** The server's locked update after a batch. */
    method UpdateRecFile()
      requires Valid() && emitted
      modifies this
      ensures State() == Next(old(State()), Update).0
      ensures Valid() && !emitted && kb.recsRead == 0 && infoFile.num < MAX_LINES + SLACK
    {
      NextKeepsInv(State(), Update);
      UpdateRecInfo();
      var _ := TruncateRecs();
      kb := kb.(recsAdded := 0, recsRead := 0);
      emitted := false;
    }

    /** trace_get_record_info_locked. */
    method GetRecordInfo() returns (r: Reply)
      ensures Next(State(), Query) == (State(), r)
    {
      var ri := infoFile;
      var firstRec, numRecs := ri.first, ri.num;
      if ri.cleared {
        firstRec := firstRec + numRecs;
        numRecs := 0;
      }
      r := RecInfo(firstRec, numRecs, ri.seqno, ri.timestamp);
    }

    method ClearRecs()
      modifies this`infoFile
      ensures infoFile == old(infoFile).(cleared := true)
    {
      infoFile := infoFile.(cleared := true);
    }

    /** The first half of trace_get_recs_locked. */
    method SliceRange(since: int, max: int) returns (first: nat, dump: nat, dropped: nat)
      ensures (first, dump, dropped) == Range(infoFile, since, max) && infoFile.first <= first
    {
      var ri := infoFile;
      var sinceRec := since;
      var lastRec := ri.first + ri.num;
      if sinceRec > lastRec {
        sinceRec := lastRec;
      }
      var droppedRecs := ri.first;
      if ri.cleared {
        sinceRec := lastRec;
        droppedRecs := lastRec;
      }
      if sinceRec < ri.first {
        sinceRec := ri.first;
      }
      var dumpRecs := lastRec - sinceRec;
      if max >= 0 && dumpRecs > max {
        dumpRecs := max;
      }
      return sinceRec, dumpRecs, droppedRecs;
    }

    /** trace_get_recs_locked. */
    method GetRecs(op: Op, since: int, max: int) returns (r: Reply)
      requires Valid()
      modifies this`infoFile
      ensures Valid() && Next(old(State()), Get(op, since, max)) == (State(), r)
    {
      NextKeepsInv(State(), Get(op, since, max));
      var first, dump, dropped := SliceRange(since, max);
      var lines := if op != Clear then SliceLines(recFile, first - infoFile.first, dump) else [];
      if op.Clears() {
        ClearRecs();
      }
      r := Recs(first, dump, dropped, lines);
    }
  }
}
