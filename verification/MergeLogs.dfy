/**
  Merging log files by timestamp (scripts/merge-logs.py: merge_logs).

  A line carries the timestamp that its prefix denotes, if it has one.  Lines without a timestamp
  continue the entry before them.
 */
module MergeLogs {
  import opened Sequences
  import opened Wrappers

  datatype Line = Line(stamp: Option<real>, text: string)

  /** `order` counts the entries in reading order. */
  datatype Entry = Entry(time: real, order: nat, text: string)

  // ---------- Entries of the logs ----------

  /** A log that can be read: it is empty or starts with a timestamp. */
  predicate Readable(log: seq<Line>) {
    log == [] || log[0].stamp.Some?
  }

  function AddLine(gs: seq<seq<Line>>, line: Line): (r: seq<seq<Line>>)
    requires gs == [] ==> line.stamp.Some?
    ensures r != []
  {
    if line.stamp.Some? then gs + [[line]] else gs[..|gs| - 1] + [gs[|gs| - 1] + [line]]
  }

  /** The lines of a log, cut before each timestamp. */
  function Groups(log: seq<Line>): (gs: seq<seq<Line>>)
    requires Readable(log)
    ensures log != [] ==> gs != []
  {
    if log == [] then [] else AddLine(Groups(log[..|log| - 1]), log[|log| - 1])
  }

  predicate IsGroup(g: seq<Line>) {
    g != [] && g[0].stamp.Some? && forall i :: 0 < i < |g| ==> g[i].stamp == None
  }

  predicate AllGroups(gs: seq<seq<Line>>) {
    forall i :: 0 <= i < |gs| ==> IsGroup(gs[i])
  }

  lemma AddLineFlatten(gs: seq<seq<Line>>, line: Line)
    requires gs == [] ==> line.stamp.Some?
    ensures Flatten(AddLine(gs, line)) == Flatten(gs) + [line]
  {
    if line.stamp.Some? {
      FlattenSnoc(gs, [line]);
    } else {
      var init, last := gs[..|gs| - 1], gs[|gs| - 1];
      FlattenSnoc(init, last + [line]);
      FlattenSnoc(init, last);
      assert gs == init + [last];
    }
  }

  lemma AddLineGroups(gs: seq<seq<Line>>, line: Line)
    requires AllGroups(gs) && (gs == [] ==> line.stamp.Some?)
    ensures AllGroups(AddLine(gs, line))
  {
    if line.stamp == None {
      assert IsGroup(gs[|gs| - 1]);
      assert IsGroup(gs[|gs| - 1] + [line]);
    }
  }

  /** Every line is in one group, in order, and each group is one timestamp with its continuation lines. */
  lemma {:induction false} GroupsKeepLines(log: seq<Line>)
    requires Readable(log)
    ensures Flatten(Groups(log)) == log && AllGroups(Groups(log))
    decreases log
  {
    if log != [] {
      var before, line := log[..|log| - 1], log[|log| - 1];
      GroupsKeepLines(before);
      AddLineFlatten(Groups(before), line);
      AddLineGroups(Groups(before), line);
      assert log == before + [line];
    }
  }

  function Joined(g: seq<Line>): string {
    if g == [] then ""
    else if |g| == 1 then g[0].text
    else Joined(g[..|g| - 1]) + "\n" + g[|g| - 1].text
  }

  /** One entry for each group, numbered from `first`. */
  function EntriesOf(gs: seq<seq<Line>>, first: nat): (es: seq<Entry>)
    requires AllGroups(gs)
    ensures |es| == |gs| && forall i :: 0 <= i < |gs| ==> es[i].order == first + i
  {
    seq(|gs|, i requires 0 <= i < |gs| => Entry(gs[i][0].stamp.value, first + i, Joined(gs[i])))
  }

  predicate AllReadable(logs: seq<seq<Line>>) {
    forall i :: 0 <= i < |logs| ==> Readable(logs[i])
  }

  function LogGroups(log: seq<Line>): (gs: seq<seq<Line>>)
    requires Readable(log)
    ensures AllGroups(gs)
  {
    GroupsKeepLines(log);
    Groups(log)
  }

  /** The entries of all logs, in reading order. */
  function AllEntries(logs: seq<seq<Line>>): (es: seq<Entry>)
    requires AllReadable(logs)
    ensures forall i :: 0 <= i < |es| ==> es[i].order == i
  {
    if logs == [] then []
    else
      var before := AllEntries(logs[..|logs| - 1]);
      before + EntriesOf(LogGroups(logs[|logs| - 1]), |before|)
  }

  // ---------- Sorting ----------

  predicate Before(a: Entry, b: Entry) {
    a.time < b.time || (a.time == b.time && a.order < b.order)
  }

  ghost predicate Ascending(es: seq<Entry>) {
    forall i, j :: 0 <= i < j < |es| ==> Before(es[i], es[j])
  }

  /** Behind every entry of the same or an earlier time. */
  function Insert(e: Entry, es: seq<Entry>): seq<Entry> {
    if es == [] then [e]
    else if es[|es| - 1].time <= e.time then es + [e]
    else Insert(e, es[..|es| - 1]) + [es[|es| - 1]]
  }

  /** A stable sort by time alone. */
  function StableSort(es: seq<Entry>): seq<Entry> {
    if es == [] then [] else Insert(es[|es| - 1], StableSort(es[..|es| - 1]))
  }

  lemma SplitLast(es: seq<Entry>)
    requires es != []
    ensures multiset(es) == multiset(es[..|es| - 1]) + multiset{es[|es| - 1]}
  {
    assert es == es[..|es| - 1] + [es[|es| - 1]];
  }

  lemma {:induction false} InsertKeeps(e: Entry, es: seq<Entry>)
    ensures multiset(Insert(e, es)) == multiset(es) + multiset{e}
    decreases es
  {
    if es != [] && es[|es| - 1].time > e.time {
      InsertKeeps(e, es[..|es| - 1]);
      SplitLast(es);
    }
  }

  lemma {:induction false} SortKeeps(es: seq<Entry>)
    ensures multiset(StableSort(es)) == multiset(es)
    decreases es
  {
    if es != [] {
      SortKeeps(es[..|es| - 1]);
      InsertKeeps(es[|es| - 1], StableSort(es[..|es| - 1]));
      SplitLast(es);
    }
  }

  lemma {:induction false} InsertAscending(e: Entry, es: seq<Entry>)
    requires Ascending(es) && forall x :: x in es ==> x.order < e.order
    ensures Ascending(Insert(e, es))
    decreases es
  {
    if es == [] {
      return;
    }
    var init, last := es[..|es| - 1], es[|es| - 1];
    if last.time <= e.time {
      forall x | x in es ensures Before(x, e) {
        var i :| 0 <= i < |es| && es[i] == x;
      }
    } else {
      InsertAscending(e, init);
      InsertKeeps(e, init);
      var done := Insert(e, init);
      forall x | x in done ensures Before(x, last) {
        assert x in multiset(done);
      }
    }
  }

  /** The stable sort puts ties in reading order. */
  lemma {:induction false} SortAscending(es: seq<Entry>)
    requires forall i, j :: 0 <= i < j < |es| ==> es[i].order < es[j].order
    ensures Ascending(StableSort(es))
    decreases es
  {
    if es == [] {
      return;
    }
    var init, e := es[..|es| - 1], es[|es| - 1];
    SortAscending(init);
    SortKeeps(init);
    var sorted := StableSort(init);
    forall x | x in sorted ensures x.order < e.order {
      assert x in multiset(sorted);
      var i :| 0 <= i < |init| && init[i] == x;
    }
    InsertAscending(e, sorted);
  }

  lemma LastIsMax(es: seq<Entry>, x: Entry)
    requires Ascending(es) && es != [] && x in multiset(es)
    ensures x == es[|es| - 1] || Before(x, es[|es| - 1])
  {
    var i :| 0 <= i < |es| && es[i] == x;
  }

  lemma LastsEqual(a: seq<Entry>, b: seq<Entry>)
    requires Ascending(a) && Ascending(b) && multiset(a) == multiset(b) && a != [] && b != []
    ensures a[|a| - 1] == b[|b| - 1]
  {
    var x, y := a[|a| - 1], b[|b| - 1];
    assert x in multiset(a) && y in multiset(b);
    LastIsMax(a, y);
    LastIsMax(b, x);
  }

  lemma Cancel(m: multiset<Entry>, n: multiset<Entry>, e: Entry)
    requires m + multiset{e} == n + multiset{e}
    ensures m == n
  {
    assert m == m + multiset{e} - multiset{e};
    assert n == n + multiset{e} - multiset{e};
  }

  lemma SameLength(a: seq<Entry>, b: seq<Entry>)
    requires multiset(a) == multiset(b)
    ensures |a| == |b|
  {
    assert |multiset(a)| == |a| && |multiset(b)| == |b|;
  }

  /** Two ascending arrangements of the same entries are equal. */
  lemma {:induction false} AscendingUnique(a: seq<Entry>, b: seq<Entry>)
    requires Ascending(a) && Ascending(b) && multiset(a) == multiset(b)
    ensures a == b
    decreases a
  {
    SameLength(a, b);
    if a == [] {
      return;
    }
    LastsEqual(a, b);
    SplitLast(a);
    SplitLast(b);
    var a', b' := a[..|a| - 1], b[..|b| - 1];
    Cancel(multiset(a'), multiset(b'), a[|a| - 1]);
    AscendingUnique(a', b');
    assert a == a' + [a[|a| - 1]];
  }

  // ---------- The program ----------

  /** heapq.heappop: takes the least entry out of a non-empty heap. */
  method HeapPop(heap: seq<Entry>) returns (least: Entry, rest: seq<Entry>)
    requires heap != []
    ensures least in heap && forall e :: e in heap ==> !Before(e, least)
    ensures multiset(rest) == multiset(heap) - multiset{least}
    ensures |rest| == |heap| - 1
  {
    var at := 0;
    for i := 1 to |heap|
      invariant at < i
      invariant forall k :: 0 <= k < i ==> !Before(heap[k], heap[at])
    {
      if Before(heap[i], heap[at]) {
        at := i;
      }
    }
    least, rest := heap[at], heap[..at] + heap[at + 1..];
    assert heap == heap[..at] + [heap[at]] + heap[at + 1..];
  }

  lemma GroupsGrow(log: seq<Line>, i: nat)
    requires Readable(log) && i < |log|
    ensures Readable(log[..i]) && (Groups(log[..i]) == [] ==> log[i].stamp.Some?)
    ensures Readable(log[..i + 1]) && Groups(log[..i + 1]) == AddLine(Groups(log[..i]), log[i])
  {
    assert log[..i + 1][..i] == log[..i];
  }

  /** The entries of a log that were pushed when `gs` were read, and the one that may still grow. */
  predicate Pushed(gs: seq<seq<Line>>, first: nat, pushed: seq<Entry>, entry: Option<Entry>)
    requires AllGroups(gs)
  {
    if gs == [] then pushed == [] && entry == None
    else entry.Some? && pushed + [entry.value] == EntriesOf(gs, first)
  }

  lemma PushedGrows(gs: seq<seq<Line>>, first: nat, pushed: seq<Entry>, entry: Option<Entry>, line: Line)
    requires AllGroups(gs) && Pushed(gs, first, pushed, entry) && (gs == [] ==> line.stamp.Some?)
    ensures AllGroups(AddLine(gs, line))
    ensures line.stamp.Some? ==>
      Pushed(AddLine(gs, line), first, if entry.Some? then pushed + [entry.value] else pushed,
             Some(Entry(line.stamp.value, first + |gs|, line.text)))
    ensures line.stamp == None ==>
      Pushed(AddLine(gs, line), first, pushed, Some(entry.value.(text := entry.value.text + "\n" + line.text)))
  {
    AddLineGroups(gs, line);
    if line.stamp == None {
      var n := |gs| - 1;
      var last, was := gs[n], EntriesOf(gs, first);
      assert entry.value == was[n] && pushed == was[..n];
      assert (last + [line])[..|last|] == last;
      var now := EntriesOf(AddLine(gs, line), first);
      assert now[..n] == was[..n];
      assert now[n] == entry.value.(text := entry.value.text + "\n" + line.text);
    }
  }

  /** Reading one log: None is the error of a first line that continues nothing. */
  method PushLog(log: seq<Line>, heap: seq<Entry>, count: nat) returns (heap': Option<seq<Entry>>, count': nat)
    ensures heap' == None <==> !Readable(log)
    ensures heap'.Some? ==>
      heap'.value == heap + EntriesOf(LogGroups(log), count) && count' == count + |LogGroups(log)|
  {
    var pushed: seq<Entry>, entry: Option<Entry> := [], None;
    count' := count;
    for i := 0 to |log|
      invariant i > 0 ==> Readable(log)
      invariant Readable(log[..i]) && Pushed(LogGroups(log[..i]), count, pushed, entry)
      invariant count' == count + |LogGroups(log[..i])|
    {
      var line := log[i];
      if line.stamp == None && entry == None {
        return None, count';
      }
      GroupsGrow(log, i);
      PushedGrows(LogGroups(log[..i]), count, pushed, entry, line);
      if line.stamp.Some? {
        if entry.Some? {
          pushed := pushed + [entry.value];
        }
        entry := Some(Entry(line.stamp.value, count', line.text));
        count' := count' + 1;
      } else {
        entry := Some(entry.value.(text := entry.value.text + "\n" + line.text));
      }
    }
    assert log[..|log|] == log;
    if entry.Some? {
      pushed := pushed + [entry.value];
    }
    return Some(heap + pushed), count';
  }

  function Texts(es: seq<Entry>): seq<string> {
    seq(|es|, i requires 0 <= i < |es| => es[i].text)
  }

  lemma PopIsNext(all: seq<Entry>, out: seq<Entry>, heap: seq<Entry>, least: Entry, rest: seq<Entry>)
    requires DistinctOrders(all) && multiset(out) + multiset(heap) == multiset(all)
    requires Ascending(out) && forall x, y :: x in out && y in heap ==> Before(x, y)
    requires least in heap && forall e :: e in heap ==> !Before(e, least)
    requires multiset(rest) == multiset(heap) - multiset{least}
    ensures Ascending(out + [least]) && multiset(out + [least]) + multiset(rest) == multiset(all)
    ensures forall x, y :: x in out + [least] && y in rest ==> Before(x, y)
  {
    forall y | y in rest ensures Before(least, y) {
      LeastOfRest(all, out, heap, least, rest, y);
    }
    forall x, y | x in out + [least] && y in rest ensures Before(x, y) {
      if x != least {
        assert x in out;
        assert y in multiset(rest);
        assert y in heap;
      }
    }
  }

  /** Entries with the same order are the same entry, and it occurs once. */
  ghost predicate DistinctOrders(all: seq<Entry>) {
    && (forall e :: e in multiset(all) ==> multiset(all)[e] == 1)
    && (forall d, e :: d in multiset(all) && e in multiset(all) && d.order == e.order ==> d == e)
  }

  lemma LeastOfRest(all: seq<Entry>, out: seq<Entry>, heap: seq<Entry>, least: Entry, rest: seq<Entry>, y: Entry)
    requires DistinctOrders(all) && multiset(out) + multiset(heap) == multiset(all)
    requires least in heap && forall e :: e in heap ==> !Before(e, least)
    requires multiset(rest) == multiset(heap) - multiset{least}
    requires y in rest
    ensures Before(least, y)
  {
    assert y in multiset(rest) && least in multiset(heap);
    assert y in multiset(heap);
    assert y in heap;
    assert multiset(all)[least] == 1;
    assert multiset(heap)[least] == 1;
    assert y != least;
    assert y in multiset(all) && least in multiset(all);
  }

  lemma {:induction false} NumberedAreDistinct(es: seq<Entry>)
    requires forall i :: 0 <= i < |es| ==> es[i].order == i
    ensures DistinctOrders(es)
    decreases es
  {
    if es == [] {
      return;
    }
    var init, last := es[..|es| - 1], es[|es| - 1];
    NumberedAreDistinct(init);
    SplitLast(es);
    forall e: Entry | e in multiset(init) ensures e.order < last.order {
      assert e in init;
    }
  }

  /** Popping everything gives the entries in ascending order. */
  method PopAll(heap: seq<Entry>) returns (out: seq<Entry>)
    requires DistinctOrders(heap)
    ensures Ascending(out) && multiset(out) == multiset(heap)
  {
    out := [];
    var rest := heap;
    while rest != []
      invariant multiset(out) + multiset(rest) == multiset(heap)
      invariant Ascending(out) && forall x, y :: x in out && y in rest ==> Before(x, y)
      decreases |rest|
    {
      var least, left := HeapPop(rest);
      PopIsNext(heap, out, rest, least, left);
      out, rest := out + [least], left;
    }
  }

  /** What is printed is the stable sort of all entries; nothing is if a log cannot be read. */
  method MergeLogs(logs: seq<seq<Line>>) returns (printed: Option<seq<string>>)
    ensures printed == None <==> !AllReadable(logs)
    ensures printed.Some? ==> printed.value == Texts(StableSort(AllEntries(logs)))
    ensures printed.Some? ==> |printed.value| == |StableSort(AllEntries(logs))|
    ensures printed.Some? ==> forall i :: 0 <= i < |printed.value| ==>
      printed.value[i] == StableSort(AllEntries(logs))[i].text
  {
    var heap: seq<Entry>, count: nat := [], 0;
    for i := 0 to |logs|
      invariant AllReadable(logs[..i])
      invariant heap == AllEntries(logs[..i]) && count == |heap|
    {
      var grown, n := PushLog(logs[i], heap, count);
      if grown == None {
        return None;
      }
      assert logs[..i + 1][..i] == logs[..i];
      heap, count := grown.value, n;
    }
    assert logs[..|logs|] == logs;
    NumberedAreDistinct(heap);
    var out := PopAll(heap);
    SortKeeps(heap);
    SortAscending(heap);
    AscendingUnique(out, StableSort(heap));
    return Some(Texts(out));
  }
}
