/**
  The batched reader of /dev/kmsg in scripts/trace.sh: header checks, the grouping of
  continuation lines with their header, and the serialised batch state.

  A line is given with its header fields already split.  `Tick` is a read timeout.
 */
module KmsgBatch {
  import opened Wrappers

  const MAX_BATCH_RECS := 200
  const MAX_PRIO := 4
  const MAX_SEQ_STEP := 1000
  const MAX_TIMESTAMP_DELTA_US := 100 * 1000

  /** `prio` is None when the priority is not a number. */
  datatype Line =
    | Header(prio: Option<nat>, seqno: nat, timestamp: nat, text: string)
    | Continuation(text: string)

  type HeaderLine = l: Line | l.Header? witness Header(None, 0, 0, "")

  /** One line of the record file: the continuation lines, a comma, the header line. */
  datatype Rec = Rec(cont: string, header: HeaderLine)

  datatype Event = Read(line: Line) | Tick

  /** The kmsg_batch array. */
  datatype Batch = Batch(recsRead: nat, recsAdded: nat, seqno: int, timestamp: int, lastLine: Option<Line>)

  const NO_BATCH := Batch(0, 0, -1, -1, None)

  // ---------- Header check ----------

  predicate PrioAccepted(prio: Option<nat>) {
    prio.Some? && prio.value <= MAX_PRIO
  }

  /** The sequence number and timestamp that `h` is compared with. */
  function Baseline(kb: Batch, h: HeaderLine): (int, int) {
    if kb.seqno == -1 then (h.seqno - 1, h.timestamp) else (kb.seqno, kb.timestamp)
  }

  predicate Consecutive(kb: Batch, h: HeaderLine) {
    var (seqno, timestamp) := Baseline(kb, h);
    seqno < h.seqno <= seqno + MAX_SEQ_STEP && timestamp - MAX_TIMESTAMP_DELTA_US <= h.timestamp
  }

  predicate Accepted(kb: Batch, h: HeaderLine) {
    Consecutive(kb, h) && PrioAccepted(h.prio)
  }

  /** The batch after `h` was checked; a record of too low a priority still moves the position on. */
  function Checked(kb: Batch, h: HeaderLine): Batch {
    var kb := kb.(recsRead := kb.recsRead + 1);
    if Consecutive(kb, h) then kb.(seqno := h.seqno, timestamp := h.timestamp) else kb
  }

  /** process_dmesg_line: the batch after the pending line, and the records it appends. */
  function Process(kb: Batch, cont: string): (r: (Batch, seq<Rec>))
  {
    match kb.lastLine
    case Some(Header(p, s, t, x)) =>
      var h := Header(p, s, t, x);
      var kb' := Checked(kb, h);
      if Accepted(kb, h) then (kb'.(recsAdded := kb.recsAdded + 1), [Rec(cont, h)]) else (kb', [])
    case _ => (kb, [])
  }

  // ---------- One event of the server loop ----------

  /** `emitted` says that the batch is complete and waits for the locked update. */
  datatype Server = Server(kb: Batch, cont: string, emitted: bool)

  const START := Server(NO_BATCH, "", false)

  predicate Full(kb: Batch) {
    kb.recsRead >= MAX_BATCH_RECS || kb.recsAdded >= MAX_BATCH_RECS
  }

  /** One pass of the loop of process_dmesg_line_batch, or its end by a timeout. */
  function Iterate(s: Server, e: Event): (r: (Server, seq<Rec>))
  {
    match e
    case Read(Continuation(text)) => (s.(cont := s.cont + text), [])
    case Read(line) =>
      var (kb, recs) := Process(s.kb, s.cont);
      (Server(kb.(lastLine := Some(line)), "", Full(kb)), recs)
    case Tick =>
      var (kb, recs) := Process(s.kb, s.cont);
      (Server(kb.(lastLine := None), "", true), recs)
  }

  /** update_rec_file resets the two counters; the other batch state is kept. */
  function Reset(s: Server): Server {
    s.(kb := s.kb.(recsRead := 0, recsAdded := 0), emitted := false)
  }

  ghost predicate ValidServer(s: Server) {
    && s.kb.recsAdded <= s.kb.recsRead <= MAX_BATCH_RECS
    && (!s.emitted ==> s.kb.recsRead < MAX_BATCH_RECS)
    && (s.kb.lastLine.Some? ==> s.kb.lastLine.value.Header?)
    && -1 <= s.kb.seqno
  }

  /** A batch never adds more than MAX_BATCH_RECS records, and it counts exactly those it appends. */
  lemma IterateValid(s: Server, e: Event)
    requires ValidServer(s) && !s.emitted
    ensures var (s', recs) := Iterate(s, e);
      ValidServer(s') && s'.kb.recsAdded == s.kb.recsAdded + |recs| && s.kb.seqno <= s'.kb.seqno
    ensures Iterate(s, e).0.emitted <==> e.Tick? || (e.line.Header? && Iterate(s, e).0.kb.recsRead == 200)
  {
  }

  // ---------- What a stream records ----------

  /** The continuation lines at the head of a stream. */
  function Conts(evs: seq<Event>): string {
    if evs != [] && evs[0].Read? && evs[0].line.Continuation?
    then evs[0].line.text + Conts(evs[1..])
    else ""
  }

  /** Each header with the continuation lines that directly follow it. */
  function Groups(evs: seq<Event>): seq<Rec> {
    if evs == [] then []
    else if evs[0].Read? && evs[0].line.Header? then [Rec(Conts(evs[1..]), evs[0].line)] + Groups(evs[1..])
    else Groups(evs[1..])
  }

  /** The accepted ones among `groups`, in one unbounded pass. */
  function Accept(kb: Batch, groups: seq<Rec>): seq<Rec>
    decreases groups
  {
    if groups == [] then []
    else (if Accepted(kb, groups[0].header) then [groups[0]] else []) +
         Accept(Checked(kb, groups[0].header), groups[1..])
  }

  /** The groups that are still to be checked when `evs` is yet to come. */
  function ToCome(s: Server, evs: seq<Event>): seq<Rec> {
    match s.kb.lastLine
    case Some(Header(p, q, t, x)) => [Rec(s.cont + Conts(evs), Header(p, q, t, x))] + Groups(evs)
    case _ => Groups(evs)
  }

  /** The counters and the pending line do not matter to the check. */
  predicate SamePosition(a: Batch, b: Batch) {
    a.seqno == b.seqno && a.timestamp == b.timestamp
  }

  lemma AcceptPosition(a: Batch, b: Batch, groups: seq<Rec>)
    requires SamePosition(a, b)
    ensures Accept(a, groups) == Accept(b, groups)
    decreases groups
  {
    if groups != [] {
      AcceptPosition(Checked(a, groups[0].header), Checked(b, groups[0].header), groups[1..]);
    }
  }

  /** One event appends exactly what the single pass accepts, and leaves the rest to come. */
  lemma IterateAccepts(s: Server, e: Event, evs: seq<Event>)
    requires ValidServer(s)
    ensures var (s', recs) := Iterate(s, e);
      Accept(s.kb, ToCome(s, [e] + evs)) == recs + Accept(s'.kb, ToCome(s', evs))
  {
    var (s', recs) := Iterate(s, e);
    var all := [e] + evs;
    assert all[1..] == evs;
    if e.Read? && e.line.Continuation? {
      assert Conts(all) == e.line.text + Conts(evs);
      assert s.cont + (e.line.text + Conts(evs)) == (s.cont + e.line.text) + Conts(evs);
      assert ToCome(s, all) == ToCome(s', evs);
    } else {
      assert Conts(all) == "";
      var groups := ToCome(s, all);
      if s.kb.lastLine.Some? {
        var h: HeaderLine := s.kb.lastLine.value;
        assert s.cont + Conts(all) == s.cont;
        assert groups[0] == Rec(s.cont, h);
        assert groups[1..] == Groups(all);
        assert Accept(s.kb, groups) == recs + Accept(Checked(s.kb, h), Groups(all));
        AcceptPosition(Checked(s.kb, h), s'.kb, Groups(all));
      } else {
        AcceptPosition(s.kb, s'.kb, Groups(all));
      }
      assert "" + Conts(evs) == Conts(evs);
      assert Groups(all) == ToCome(s', evs);
    }
  }

  /** The server over a stream; a completed batch is reset before the next event. */
  function RunServer(s: Server, evs: seq<Event>): (r: (Server, seq<Rec>))
    decreases evs
  {
    if evs == [] then (s, [])
    else
      var (s1, recs) := Iterate(if s.emitted then Reset(s) else s, evs[0]);
      var (s2, more) := RunServer(s1, evs[1..]);
      (s2, recs + more)
  }

  lemma StepAccepts(s: Server, s0: Server, e: Event, evs: seq<Event>)
    requires ValidServer(s) && s0 == if s.emitted then Reset(s) else s
    ensures var (s', recs) := Iterate(s0, e);
      ValidServer(s') && Accept(s.kb, ToCome(s, [e] + evs)) == recs + Accept(s'.kb, ToCome(s', evs))
  {
    AcceptPosition(s.kb, s0.kb, ToCome(s, [e] + evs));
    IterateValid(s0, e);
    IterateAccepts(s0, e, evs);
  }

  lemma {:induction false} RunServerAccepts(s: Server, evs: seq<Event>)
    requires ValidServer(s)
    ensures var (s', recs) := RunServer(s, evs);
      ValidServer(s') && Accept(s.kb, ToCome(s, evs)) == recs + Accept(s'.kb, ToCome(s', []))
    decreases evs
  {
    if evs != [] {
      var s0 := if s.emitted then Reset(s) else s;
      var e, rest := evs[0], evs[1..];
      assert [e] + rest == evs;
      StepAccepts(s, s0, e, rest);
      RunServerAccepts(Iterate(s0, e).0, rest);
    }
  }

  /** After a timeout nothing is pending. */
  lemma {:induction false} RunServerDrained(s: Server, evs: seq<Event>)
    requires evs != [] && evs[|evs| - 1].Tick?
    ensures RunServer(s, evs).0.kb.lastLine == None && RunServer(s, evs).0.cont == ""
    decreases evs
  {
    var s0 := if s.emitted then Reset(s) else s;
    if |evs| > 1 {
      RunServerDrained(Iterate(s0, evs[0]).0, evs[1..]);
    } else {
      assert RunServer(s, evs).0 == Iterate(s0, evs[0]).0;
    }
  }

  /** Splitting the stream into bounded batches is invisible: the records are those of one unbounded pass. */
  lemma BatchesInvisible(evs: seq<Event>)
    requires evs != [] && evs[|evs| - 1].Tick?
    ensures RunServer(START, evs).1 == Accept(NO_BATCH, Groups(evs))
  {
    RunServerAccepts(START, evs);
    RunServerDrained(START, evs);
  }

  /** Strictly increasing sequence numbers, all above `lo`. */
  ghost predicate Increasing(lo: int, recs: seq<Rec>) {
    && (forall i :: 0 <= i < |recs| ==> lo < recs[i].header.seqno)
    && (forall i, j :: 0 <= i < j < |recs| ==> recs[i].header.seqno < recs[j].header.seqno)
  }

  lemma IncreasingCons(lo: int, r: Rec, rest: seq<Rec>)
    requires lo < r.header.seqno && Increasing(r.header.seqno, rest)
    ensures Increasing(lo, [r] + rest)
  {
    var all := [r] + rest;
    assert forall i :: 1 <= i < |all| ==> all[i] == rest[i - 1];
  }

  /** Recorded sequence numbers strictly increase, and all are above the position of the batch. */
  lemma {:induction false} RecordedIncrease(kb: Batch, groups: seq<Rec>)
    requires -1 <= kb.seqno
    ensures Increasing(kb.seqno, Accept(kb, groups))
    decreases groups
  {
    if groups != [] {
      var h := groups[0].header;
      var kb' := Checked(kb, h);
      RecordedIncrease(kb', groups[1..]);
      if Accepted(kb, h) {
        IncreasingCons(kb.seqno, groups[0], Accept(kb', groups[1..]));
      } else {
        assert Accept(kb, groups) == Accept(kb', groups[1..]);
      }
    }
  }

  lemma {:induction false} RunServerSnoc(s: Server, evs: seq<Event>, e: Event)
    ensures var (s1, recs) := RunServer(s, evs);
      var (s2, more) := Iterate(if s1.emitted then Reset(s1) else s1, e);
      RunServer(s, evs + [e]) == (s2, recs + more)
    decreases evs
  {
    var all := evs + [e];
    if evs == [] {
      assert all[0] == e && all[1..] == [];
      var recs := Iterate(if s.emitted then Reset(s) else s, e).1;
      assert recs + [] == [] + recs;
    } else {
      assert all[0] == evs[0] && all[1..] == evs[1..] + [e];
      var (s1, recs) := Iterate(if s.emitted then Reset(s) else s, evs[0]);
      RunServerSnoc(s1, evs[1..], e);
      var (s2, mid) := RunServer(s1, evs[1..]);
      var last := Iterate(if s2.emitted then Reset(s2) else s2, e).1;
      assert recs + (mid + last) == (recs + mid) + last;
    }
  }

  // ---------- Which headers are recorded ----------

  /** Only headers with a priority of at most 4 are recorded, in whatever state the server starts. */
  lemma {:induction false} RecordedPriority(s: Server, evs: seq<Event>)
    ensures forall r :: r in RunServer(s, evs).1 ==> r.header.prio.Some? && r.header.prio.value <= 4
    decreases evs
  {
    if evs != [] {
      RecordedPriority(Iterate(if s.emitted then Reset(s) else s, evs[0]).0, evs[1..]);
    }
  }

  /** There is no position yet, or `h` is 1 to 1000 numbers after it and at most 100000 microseconds before it. */
  predicate InStep(kb: Batch, h: HeaderLine) {
    kb.seqno == -1 || (1 <= h.seqno - kb.seqno <= 1000 && kb.timestamp - h.timestamp <= 100000)
  }

  function Ready(s: Server): Server {
    if s.emitted then Reset(s) else s
  }

  lemma HeaderThenTick(s: Server, h: HeaderLine)
    requires s.kb.lastLine == None && s.cont == ""
    ensures var (s1, recs1) := Iterate(Ready(s), Read(h));
      var (s2, recs2) := Iterate(Ready(s1), Tick);
      && recs1 == [] && recs2 == (if InStep(s.kb, h) && h.prio.Some? && h.prio.value <= 4 then [Rec("", h)] else [])
      && s2.kb.seqno == (if InStep(s.kb, h) then h.seqno else s.kb.seqno)
      && s2.kb.timestamp == (if InStep(s.kb, h) then h.timestamp else s.kb.timestamp)
  {
  }

  lemma RunServerTwo(s: Server, evs: seq<Event>, e: Event, e': Event)
    ensures var (s1, recs) := RunServer(s, evs);
      var (s2, more) := Iterate(Ready(s1), e);
      var (s3, last) := Iterate(Ready(s2), e');
      RunServer(s, evs + [e, e']) == (s3, recs + more + last)
  {
    hide Iterate, Reset, RunServer;
    RunServerSnoc(s, evs, e);
    RunServerSnoc(s, evs + [e], e');
    assert evs + [e, e'] == evs + [e] + [e'];
  }

  /**
    A header out of step is not recorded and leaves the position alone; one in step moves it on, and is recorded
    if its priority is at most 4.
   */
  lemma HeaderRecordedIff(evs: seq<Event>, h: HeaderLine)
    requires evs == [] || evs[|evs| - 1].Tick?
    ensures var (s, recs) := RunServer(START, evs);
      var (s', recs') := RunServer(START, evs + [Read(h), Tick]);
      && recs' == recs + (if InStep(s.kb, h) && h.prio.Some? && h.prio.value <= 4 then [Rec("", h)] else [])
      && s'.kb.seqno == (if InStep(s.kb, h) then h.seqno else s.kb.seqno)
      && s'.kb.timestamp == (if InStep(s.kb, h) then h.timestamp else s.kb.timestamp)
  {
    hide Iterate, InStep, Ready;
    if evs != [] {
      RunServerDrained(START, evs);
    }
    var (s, recs) := RunServer(START, evs);
    assert s.kb.lastLine == None && s.cont == "";
    hide RunServer;
    HeaderThenTick(s, h);
    RunServerTwo(START, evs, Read(h), Tick);
    assert recs + [] == recs;
  }

  /** Priorities up to 4, sequence numbers that rise by 1 to 1000, timestamps that fall by at most 100000. */
  ghost predicate Orderly(gs: seq<Rec>) {
    && (forall i :: 0 <= i < |gs| ==> Urgent(gs[i]))
    && (forall i, j :: 0 <= i && j == i + 1 && j < |gs| ==> Near(gs[i], gs[j]))
  }

  predicate Urgent(g: Rec) {
    g.header.prio.Some? && g.header.prio.value <= 4
  }

  predicate Near(g: Rec, next: Rec) {
    && 1 <= next.header.seqno - g.header.seqno <= 1000
    && g.header.timestamp - next.header.timestamp <= 100000
  }

  lemma OrderlyCons(g: Rec, rest: seq<Rec>)
    ensures Orderly([g] + rest) <==> Orderly(rest) && Urgent(g) && (rest != [] ==> Near(g, rest[0]))
  {
    hide Urgent, Near;
    var all := [g] + rest;
    assert forall i :: 1 <= i < |all| ==> all[i] == rest[i - 1];
    if Orderly(all) {
      assert all[0] == g && Urgent(all[0]);
      assert rest != [] ==> all[1] == rest[0] && Near(all[0], all[1]);
      assert forall i :: 0 <= i < |rest| ==> rest[i] == all[i + 1];
      forall i, j | 0 <= i && j == i + 1 && j < |rest| ensures Near(rest[i], rest[j]) {
        assert Near(all[i + 1], all[j + 1]);
      }
    }
  }

  lemma {:induction false} AcceptCount(kb: Batch, groups: seq<Rec>)
    ensures |Accept(kb, groups)| <= |groups|
    decreases groups
  {
    if groups != [] {
      AcceptCount(Checked(kb, groups[0].header), groups[1..]);
    }
  }

  lemma {:induction false} AcceptsAllIff(kb: Batch, groups: seq<Rec>)
    ensures Accept(kb, groups) == groups <==> Orderly(groups) && (groups != [] ==> InStep(kb, groups[0].header))
    decreases groups
  {
    if groups != [] {
      var g, rest := groups[0], groups[1..];
      assert groups == [g] + rest;
      OrderlyCons(g, rest);
      AcceptsAllIff(Checked(kb, g.header), rest);
      AcceptCount(Checked(kb, g.header), rest);
      if Accepted(kb, g.header) {
        assert Accept(kb, groups)[1..] == Accept(Checked(kb, g.header), rest);
      }
    }
  }

  /** A stream that ends in a timeout is recorded whole exactly when its headers are orderly. */
  lemma RecordedWholeIff(evs: seq<Event>)
    requires evs != [] && evs[|evs| - 1].Tick?
    ensures RunServer(START, evs).1 == Groups(evs) <==> Orderly(Groups(evs))
  {
    BatchesInvisible(evs);
    AcceptsAllIff(NO_BATCH, Groups(evs));
  }

  function Reads(hs: seq<HeaderLine>): seq<Event> {
    if hs == [] then [Tick] else [Read(hs[0])] + Reads(hs[1..])
  }

  function Bare(hs: seq<HeaderLine>): seq<Rec> {
    seq(|hs|, i requires 0 <= i < |hs| => Rec("", hs[i]))
  }

  lemma {:induction false} GroupsOfReads(hs: seq<HeaderLine>)
    ensures Reads(hs) != [] && Reads(hs)[|Reads(hs)| - 1] == Tick
    ensures Groups(Reads(hs)) == Bare(hs)
  {
    if hs == [] {
      assert Groups([Tick]) == [];
    } else {
      GroupsOfReads(hs[1..]);
      var evs, rest := Reads(hs), Reads(hs[1..]);
      assert evs[1..] == rest && evs[0] == Read(hs[0]);
      assert Conts(rest) == "";
      assert Groups(evs) == [Rec("", hs[0])] + Groups(rest);
      assert Bare(hs) == [Rec("", hs[0])] + Bare(hs[1..]);
    }
  }

  /** In particular, headers alone. */
  lemma HeadersRecordedIff(hs: seq<HeaderLine>)
    ensures RunServer(START, Reads(hs)).1 == Bare(hs) <==> Orderly(Bare(hs))
  {
    GroupsOfReads(hs);
    RecordedWholeIff(Reads(hs));
  }

  // ---------- Timeouts inside a record ----------

  function WithoutTicks(evs: seq<Event>): seq<Event> {
    if evs == [] then []
    else (if evs[0].Tick? then [] else [evs[0]]) + WithoutTicks(evs[1..])
  }

  /** A continuation line comes after a timeout and before the next header. */
  predicate TornTail(evs: seq<Event>, ticked: bool) {
    evs != [] &&
    match evs[0]
    case Tick => TornTail(evs[1..], true)
    case Read(Continuation(_)) => ticked || TornTail(evs[1..], ticked)
    case _ => false
  }

  /** Some timeout falls between a header and one of its continuation lines. */
  predicate Torn(evs: seq<Event>) {
    evs != [] &&
    ((evs[0].Read? && evs[0].line.Header? && TornTail(evs[1..], false)) || Torn(evs[1..]))
  }

  /** A continuation line starts with a space, so it is not empty. */
  predicate WellFormed(evs: seq<Event>) {
    forall i :: 0 <= i < |evs| && evs[i].Read? && evs[i].line.Continuation? ==> evs[i].line.text != ""
  }

  lemma {:induction false} TornTailConts(evs: seq<Event>)
    requires WellFormed(evs)
    ensures TornTail(evs, true) <==> Conts(WithoutTicks(evs)) != ""
    ensures TornTail(evs, false) <==> Conts(WithoutTicks(evs)) != Conts(evs)
    decreases evs
  {
    if evs != [] {
      TornTailConts(evs[1..]);
      var kept := WithoutTicks(evs);
      if !evs[0].Tick? {
        assert kept[0] == evs[0] && kept[1..] == WithoutTicks(evs[1..]);
        if evs[0].line.Continuation? {
          var text := evs[0].line.text;
          assert (text + Conts(kept[1..]))[|text|..] == Conts(kept[1..]);
          assert (text + Conts(evs[1..]))[|text|..] == Conts(evs[1..]);
        }
      } else {
        assert kept == WithoutTicks(evs[1..]);
      }
    }
  }

  lemma {:induction false} GroupCount(evs: seq<Event>)
    ensures |Groups(evs)| == |Groups(WithoutTicks(evs))|
    decreases evs
  {
    if evs != [] {
      GroupCount(evs[1..]);
      var kept := WithoutTicks(evs);
      assert !evs[0].Tick? ==> kept[0] == evs[0] && kept[1..] == WithoutTicks(evs[1..]);
      assert evs[0].Tick? ==> kept == WithoutTicks(evs[1..]);
    }
  }

  /** Timeouts lose nothing exactly when none falls inside a record. */
  lemma {:induction false} TimeoutsInvisibleIff(evs: seq<Event>)
    requires WellFormed(evs)
    ensures Groups(evs) == Groups(WithoutTicks(evs)) <==> !Torn(evs)
    decreases evs
  {
    if evs != [] {
      var rest := evs[1..];
      TimeoutsInvisibleIff(rest);
      var kept := WithoutTicks(evs);
      if evs[0].Tick? {
        assert kept == WithoutTicks(rest);
      } else {
        assert kept[0] == evs[0] && kept[1..] == WithoutTicks(rest);
        if evs[0].line.Header? {
          TornTailConts(rest);
          GroupCount(rest);
          assert Groups(evs)[0] == Rec(Conts(rest), evs[0].line) && Groups(evs)[1..] == Groups(rest);
          assert Groups(kept)[0] == Rec(Conts(WithoutTicks(rest)), evs[0].line);
          assert Groups(kept)[1..] == Groups(WithoutTicks(rest));
        }
      }
    }
  }

  /** Some timeout falls inside a record whose header is accepted. */
  predicate LosesRecord(kb: Batch, evs: seq<Event>)
    decreases evs
  {
    evs != [] &&
    if evs[0].Read? && evs[0].line.Header?
    then (Accepted(kb, evs[0].line) && TornTail(evs[1..], false)) || LosesRecord(Checked(kb, evs[0].line), evs[1..])
    else LosesRecord(kb, evs[1..])
  }

  lemma AcceptCons(kb: Batch, c: string, c': string, h: HeaderLine, rest: seq<Rec>, rest': seq<Rec>)
    ensures Accept(kb, [Rec(c, h)] + rest) == Accept(kb, [Rec(c', h)] + rest') <==>
      (Accepted(kb, h) ==> c == c') && Accept(Checked(kb, h), rest) == Accept(Checked(kb, h), rest')
  {
    var a, a' := Accept(Checked(kb, h), rest), Accept(Checked(kb, h), rest');
    var gs, gs' := [Rec(c, h)] + rest, [Rec(c', h)] + rest';
    assert gs[0] == Rec(c, h) && gs[1..] == rest && gs'[0] == Rec(c', h) && gs'[1..] == rest';
    var all, all' := [Rec(c, h)] + a, [Rec(c', h)] + a';
    assert all == all' ==> all[0] == all'[0] && all[1..] == all'[1..];
    assert all[1..] == a && all'[1..] == a';
    assert [] + a == a && [] + a' == a';
  }

  lemma {:induction false} AcceptTornIff(kb: Batch, evs: seq<Event>)
    requires WellFormed(evs)
    ensures Accept(kb, Groups(evs)) == Accept(kb, Groups(WithoutTicks(evs))) <==> !LosesRecord(kb, evs)
    decreases evs
  {
    if evs == [] {
      return;
    }
    var rest, kept := evs[1..], WithoutTicks(evs);
    assert evs[0].Tick? ==> kept == WithoutTicks(rest);
    assert !evs[0].Tick? ==> kept[0] == evs[0] && kept[1..] == WithoutTicks(rest);
    if evs[0].Read? && evs[0].line.Header? {
      var h: HeaderLine := evs[0].line;
      AcceptTornIff(Checked(kb, h), rest);
      TornTailConts(rest);
      AcceptCons(kb, Conts(rest), Conts(WithoutTicks(rest)), h, Groups(rest), Groups(WithoutTicks(rest)));
    } else {
      AcceptTornIff(kb, rest);
    }
  }

  /** What is recorded is what would be without timeouts exactly when none falls inside an accepted record. */
  lemma RecordsIntactIff(evs: seq<Event>)
    requires WellFormed(evs) && evs != [] && evs[|evs| - 1].Tick?
    ensures RunServer(START, evs).1 == Accept(NO_BATCH, Groups(WithoutTicks(evs))) <==> !LosesRecord(NO_BATCH, evs)
  {
    BatchesInvisible(evs);
    AcceptTornIff(NO_BATCH, evs);
  }

  lemma {:induction false} UntornLosesNothing(kb: Batch, evs: seq<Event>)
    requires !Torn(evs)
    ensures !LosesRecord(kb, evs)
    decreases evs
  {
    if evs != [] {
      if evs[0].Read? && evs[0].line.Header? {
        UntornLosesNothing(Checked(kb, evs[0].line), evs[1..]);
      } else {
        UntornLosesNothing(kb, evs[1..]);
      }
    }
  }

  /** Absent a timeout inside a record, the records are those of one unbounded pass that sees no timeouts. */
  lemma UntornRecords(evs: seq<Event>)
    requires WellFormed(evs) && evs != [] && evs[|evs| - 1].Tick? && !Torn(evs)
    ensures RunServer(START, evs).1 == Accept(NO_BATCH, Groups(WithoutTicks(evs)))
  {
    UntornLosesNothing(NO_BATCH, evs);
    RecordsIntactIff(evs);
  }

  /** A concrete loss: the continuation line that arrives after a timeout is dropped. */
  lemma TimeoutLosesContinuation()
    ensures var h := Header(Some(3), 7, 0, "3,7,0,-;hello");
      var evs := [Read(h), Tick, Read(Continuation(" DEVICE=a")), Tick];
      RunServer(START, evs).1 == [Rec("", h)] != Groups(WithoutTicks(evs))
  {
    var h: HeaderLine := Header(Some(3), 7, 0, "3,7,0,-;hello");
    var c := Read(Continuation(" DEVICE=a"));
    var evs := [Read(h), Tick, c, Tick];
    BatchesInvisible(evs);
    assert evs[1..] == [Tick, c, Tick];
    assert Groups(evs[1..]) == [] by {
      assert [Tick, c, Tick][1..] == [c, Tick] && [c, Tick][1..] == [Tick] && [Tick][1..] == [];
      assert Groups([Tick]) == [] && Groups([c, Tick]) == [];
    }
    assert Groups(evs) == [Rec("", h)];
    assert Accept(NO_BATCH, Groups(evs)) == [Rec("", h)] + Accept(Checked(NO_BATCH, h), []);
    assert TornTail(evs[1..], false);
    TimeoutsInvisibleIff(evs);
  }

  // ---------- Passing the batch out of the subshell ----------

  function Split(s: string, sep: char): (fields: seq<string>)
    ensures fields != []
  {
    if s == [] then [""]
    else
      var rest := Split(s[1..], sep);
      if s[0] == sep then [""] + rest else [[s[0]] + rest[0]] + rest[1..]
  }

  /** The fields with commas between them; the separator is left out while nothing has been written. */
  function Joined(fields: seq<string>): string {
    if fields == [] then ""
    else
      var ret := Joined(fields[..|fields| - 1]);
      ret + (if ret == "" then "" else ",") + fields[|fields| - 1]
  }

  predicate PlainField(s: string) {
    s != "" && ',' !in s && ';' !in s
  }

  /** The index of the first `c`, or the length of `s`. */
  function IndexOf(s: string, c: char): (k: nat)
    ensures k <= |s| && c !in s[..k] && (k < |s| ==> s[k] == c)
  {
    if s == "" || s[0] == c then 0 else 1 + IndexOf(s[1..], c)
  }

  /** kmsg_batch_emit. */
  method KmsgBatchEmit(kb: seq<string>) returns (ret: string)
    requires |kb| == 5
    ensures ret == Joined(kb[..4]) + ";" + kb[4]
    ensures kb[0] != "" ==> ret == kb[0] + "," + kb[1] + "," + kb[2] + "," + kb[3] + ";" + kb[4]
  {
    ret := "";
    for i := 0 to 4
      invariant ret == Joined(kb[..i])
    {
      assert kb[..i + 1][..i] == kb[..i];
      ret := ret + (if ret == "" then "" else ",") + kb[i];
    }
    JoinedFour(kb[0], kb[1], kb[2], kb[3]);
    assert kb[..4] == [kb[0], kb[1], kb[2], kb[3]];
    ret := ret + ";" + kb[4];
  }

  lemma JoinedFour(a: string, b: string, c: string, d: string)
    ensures a != "" ==> Joined([a, b, c, d]) == a + "," + b + "," + c + "," + d
  {
    assert [a, b, c, d][..3] == [a, b, c] && [a, b, c][..2] == [a, b] && [a, b][..1] == [a] && [a][..0] == [];
    assert Joined([a]) == a;
    assert Joined([a, b]) == Joined([a]) + (if a == "" then "" else ",") + b;
    assert Joined([a, b, c]) == Joined([a, b]) + (if Joined([a, b]) == "" then "" else ",") + c;
  }

  /** kmsg_batch_get. */
  function KmsgBatchGet(info: string): seq<string> {
    var k := IndexOf(info, ';');
    Split(info[..k], ',') + [if k < |info| then info[k + 1..] else info]
  }

  lemma {:induction false} IndexOfAt(a: string, b: string, c: char)
    requires c !in a
    ensures IndexOf(a + [c] + b, c) == |a|
  {
    if a != "" {
      assert (a + [c] + b)[1..] == a[1..] + [c] + b;
      IndexOfAt(a[1..], b, c);
    }
  }

  lemma {:induction false} SplitOne(f: string)
    requires ',' !in f
    ensures Split(f, ',') == [f]
  {
    if f != "" {
      SplitOne(f[1..]);
      assert [f[0]] + f[1..] == f;
    }
  }

  lemma {:induction false} SplitLast(s: string, f: string)
    requires ',' !in f
    ensures Split(s + "," + f, ',') == Split(s, ',') + [f]
    decreases s
  {
    SplitOne(f);
    var all := s + "," + f;
    if s != "" {
      SplitLast(s[1..], f);
      assert all[0] == s[0] && all[1..] == s[1..] + "," + f;
    } else {
      assert all[0] == ',' && all[1..] == f;
    }
  }

  lemma {:induction false} SplitJoined(fields: seq<string>)
    requires fields != [] && forall i :: 0 <= i < |fields| ==> PlainField(fields[i])
    ensures Joined(fields) != "" && ';' !in Joined(fields)
    ensures Split(Joined(fields), ',') == fields
  {
    var n := |fields| - 1;
    if n == 0 {
      SplitOne(fields[0]);
      assert Joined(fields) == fields[0];
    } else {
      SplitJoined(fields[..n]);
      SplitLast(Joined(fields[..n]), fields[n]);
      assert Joined(fields) == Joined(fields[..n]) + "," + fields[n];
    }
  }

  /** The batch state survives the trip through the emitted text, whatever the pending line contains. */
  lemma EmitGetRoundTrip(kb: seq<string>)
    requires |kb| == 5 && forall i :: 0 <= i < 4 ==> PlainField(kb[i])
    ensures KmsgBatchGet(Joined(kb[..4]) + ";" + kb[4]) == kb
  {
    var header := Joined(kb[..4]);
    var info := header + ";" + kb[4];
    SplitJoined(kb[..4]);
    assert info == header + [';'] + kb[4];
    IndexOfAt(header, kb[4], ';');
    assert info[..|header|] == header && info[|header| + 1..] == kb[4];
  }

  // ---------- The batch as five fields ----------

  function Digits(n: nat): string {
    if n < 10 then ["0123456789"[n]] else Digits(n / 10) + ["0123456789"[n % 10]]
  }

  function Decimal(n: int): string {
    if n < 0 then "-" + Digits(-n) else Digits(n)
  }

  function DigitValue(c: char): nat {
    if '0' <= c <= '9' then c as int - '0' as int else 0
  }

  function NumberOf(s: string): nat {
    if s == "" then 0 else 10 * NumberOf(s[..|s| - 1]) + DigitValue(s[|s| - 1])
  }

  function IntOf(s: string): int {
    if s != "" && s[0] == '-' then 0 - NumberOf(s[1..]) else NumberOf(s)
  }

  predicate AllDigits(s: string) {
    forall i :: 0 <= i < |s| ==> '0' <= s[i] <= '9'
  }

  lemma {:induction false} DigitsBack(n: nat)
    ensures Digits(n) != "" && AllDigits(Digits(n)) && NumberOf(Digits(n)) == n
  {
    if n >= 10 {
      DigitsBack(n / 10);
      var s := Digits(n);
      assert s[..|s| - 1] == Digits(n / 10);
    } else {
      assert Digits(n)[..0] == "";
    }
  }

  lemma DigitsArePlain(s: string)
    requires s != "" && AllDigits(s)
    ensures PlainField(s) && s[0] != '-' && PlainField("-" + s)
  {
    var t := "-" + s;
    assert forall i :: 0 < i < |t| ==> t[i] == s[i - 1];
  }

  lemma DecimalBack(n: int)
    ensures IntOf(Decimal(n)) == n && PlainField(Decimal(n))
  {
    var s := Digits(if n < 0 then -n else n);
    DigitsBack(if n < 0 then -n else n);
    DigitsArePlain(s);
    assert ("-" + s)[1..] == s;
  }

  /** The array: the counters, the position, and the text of the pending line. */
  function Fields(kb: Batch): (fields: seq<string>)
    ensures |fields| == 5
  {
    [Decimal(kb.recsRead), Decimal(kb.recsAdded), Decimal(kb.seqno), Decimal(kb.timestamp),
     if kb.lastLine == None then "" else kb.lastLine.value.text]
  }

  function NatOf(s: string): nat {
    if IntOf(s) < 0 then 0 else IntOf(s)
  }

  /** The batch that an array stands for; `parse` splits the fields of a line. */
  function BatchOf(fields: seq<string>, parse: string -> Option<Line>): Batch
    requires |fields| == 5
  {
    Batch(NatOf(fields[0]), NatOf(fields[1]), IntOf(fields[2]), IntOf(fields[3]), parse(fields[4]))
  }

  /** The server loop gets back the batch that the subshell printed. */
  lemma BatchSurvives(kb: Batch, parse: string -> Option<Line>)
    requires parse("") == None
    requires kb.lastLine.Some? ==> parse(kb.lastLine.value.text) == kb.lastLine
    ensures var got := KmsgBatchGet(Joined(Fields(kb)[..4]) + ";" + Fields(kb)[4]);
      |got| == 5 && BatchOf(got, parse) == kb
  {
    DecimalBack(kb.recsRead);
    DecimalBack(kb.recsAdded);
    DecimalBack(kb.seqno);
    DecimalBack(kb.timestamp);
    EmitGetRoundTrip(Fields(kb));
  }
}
