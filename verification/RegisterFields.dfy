/**
  Bit fields of 32-bit registers (src/util.rs: genmask_t, RegBit and RegField; src/debugfs.rs:
  Register::set_field and field_value).

  A 32-bit number is given as its bits, lowest first.  Only genmask_t uses arithmetic; that it
  makes the mask of a range is shown on 32-bit numbers.
 */
module RegisterFields {
  // ---------- 32-bit words ----------

  const WIDTH := 32

  type Word = w: seq<bool> | |w| == WIDTH witness seq(WIDTH, _ => false)

  function Zero(): Word {
    seq(WIDTH, _ => false)
  }

  /** The word with only bit `b` set. */
  function OneBit(b: nat): Word
    requires b < WIDTH
  {
    Zero()[b := true]
  }

  function And(a: Word, b: Word): Word {
    seq(WIDTH, k requires 0 <= k < WIDTH => a[k] && b[k])
  }

  function Or(a: Word, b: Word): Word {
    seq(WIDTH, k requires 0 <= k < WIDTH => a[k] || b[k])
  }

  function Not(a: Word): Word {
    seq(WIDTH, k requires 0 <= k < WIDTH => !a[k])
  }

  /** Bits shifted out at the top are lost. */
  function Shl(a: Word, n: nat): Word {
    seq(WIDTH, k requires 0 <= k < WIDTH => n <= k && a[k - n])
  }

  function Shr(a: Word, n: nat): Word {
    seq(WIDTH, k requires 0 <= k < WIDTH => k + n < WIDTH && a[k + n])
  }

  // ---------- Masks ----------

  /** Bits `low` to `high`, inclusive. */
  datatype Field = Field(high: nat, low: nat)

  predicate ValidField(f: Field) {
    f.low <= f.high < WIDTH
  }

  function Mask(f: Field): Word {
    seq(WIDTH, k => f.low <= k <= f.high)
  }

  /** genmask_t!(u32, high, low). */
  function GenMask(high: bv32, low: bv32): bv32
    requires low <= high <= 31
  {
    (0xffff_ffff - (1 << low) + 1) & (0xffff_ffff >> (31 - high))
  }

  /** The arithmetic of genmask_t makes the mask: bit `k` is set exactly in the range. */
  lemma GenMaskBits(high: bv32, low: bv32, k: bv32)
    requires low <= high <= 31 && k <= 31
    ensures (GenMask(high, low) >> k) & 1 == 1 <==> low <= k <= high
  {
  }

  // ---------- Reading and writing ----------

  /** field_value, and RegField::get_field. */
  function FieldValue(v: Word, f: Field): Word {
    Shr(And(v, Mask(f)), f.low)
  }

  /** Register::set_field: the new value is not masked. */
  function SetField(v: Word, f: Field, x: Word): Word {
    Or(And(v, Not(Mask(f))), Shl(x, f.low))
  }

  /** RegField::set_field: the new value is masked. */
  function SetMasked(v: Word, f: Field, x: Word): Word {
    Or(And(Not(Mask(f)), v), And(Mask(f), Shl(x, f.low)))
  }

  /** `x` has no bits above the width of the field. */
  predicate Fits(f: Field, x: Word) {
    forall k :: 0 <= k < WIDTH && f.high - f.low < k ==> !x[k]
  }

  /** A write is read back exactly when the value fits its field, whatever the register held. */
  lemma ReadBackIff(v: Word, f: Field, x: Word)
    requires ValidField(f)
    ensures FieldValue(SetField(v, f, x), f) == x <==> Fits(f, x)
  {
    var got := FieldValue(SetField(v, f, x), f);
    assert forall k :: 0 <= k < WIDTH ==> got[k] == (k <= f.high - f.low && x[k]);
  }

  /** No bit of the value lands outside the field on a bit that the register does not have. */
  predicate NoSpill(v: Word, f: Field, x: Word) {
    forall k :: 0 <= k < WIDTH && f.low <= k && f.high < k && x[k - f.low] ==> v[k]
  }

  /** The other bits of the register survive exactly when the value does not spill onto them. */
  lemma OthersKeptIff(v: Word, f: Field, x: Word)
    requires ValidField(f)
    ensures (forall k :: 0 <= k < WIDTH && !Mask(f)[k] ==> SetField(v, f, x)[k] == v[k]) <==> NoSpill(v, f, x)
  {
    var set_ := SetField(v, f, x);
    if NoSpill(v, f, x) {
      return;
    }
    var k :| 0 <= k < WIDTH && f.low <= k && f.high < k && x[k - f.low] && !v[k];
    assert set_[k] && !Mask(f)[k];
  }

  /** The two setters agree exactly then, too. */
  lemma SettersAgreeIff(v: Word, f: Field, x: Word)
    requires ValidField(f)
    ensures SetField(v, f, x) == SetMasked(v, f, x) <==> NoSpill(v, f, x)
  {
    var set_, masked := SetField(v, f, x), SetMasked(v, f, x);
    if NoSpill(v, f, x) {
      assert forall k :: 0 <= k < WIDTH ==> set_[k] == masked[k];
      return;
    }
    var k :| 0 <= k < WIDTH && f.low <= k && f.high < k && x[k - f.low] && !v[k];
    assert set_[k] && !masked[k];
  }

  /** That is so for every register exactly when the bits that do not fit are all shifted out at the top. */
  lemma NeverSpillsIff(f: Field, x: Word)
    requires ValidField(f)
    ensures (forall v: Word :: NoSpill(v, f, x)) <==> forall k :: f.high - f.low < k < WIDTH - f.low ==> !x[k]
  {
    if forall v: Word :: NoSpill(v, f, x) {
      assert NoSpill(Zero(), f, x);
      forall k | f.high - f.low < k < WIDTH - f.low ensures !x[k] {
        assert !Zero()[k + f.low];
      }
    }
  }

  /** A value that does not fit overwrites its neighbour: 4 in a two-bit field. */
  lemma UnfittingWriteSpills()
    ensures var f, g, four := Field(1, 0), Field(3, 2), OneBit(2);
      !Fits(f, four) && FieldValue(Zero(), g) == Zero() && FieldValue(SetField(Zero(), f, four), g) == OneBit(0)
  {
    var f, g, four := Field(1, 0), Field(3, 2), OneBit(2);
    assert four[2];
    var got := FieldValue(SetField(Zero(), f, four), g);
    assert forall k :: 0 <= k < WIDTH ==> got[k] == (k == 0);
  }

  // ---------- Single bits ----------

  /** 1 << b. */
  function BitMask(b: nat): Word {
    Shl(OneBit(0), b)
  }

  /** RegBit::get_bit. */
  predicate GetBit(v: Word, b: nat)
    requires b < WIDTH
  {
    Shr(And(v, BitMask(b)), b) != Zero()
  }

  /** RegBit::set_bit. */
  function SetBit(v: Word, b: nat, on: bool): Word
    requires b < WIDTH
  {
    Or(And(Not(BitMask(b)), v), if on then BitMask(b) else Zero())
  }

  /** A bit is a field of width one: reading gives the bit, and writing changes only it. */
  lemma BitIsField(v: Word, b: nat, on: bool)
    requires b < WIDTH
    ensures GetBit(v, b) <==> v[b]
    ensures SetBit(v, b, on) == v[b := on] == SetMasked(v, Field(b, b), if on then OneBit(0) else Zero())
  {
    var mask := BitMask(b);
    assert forall k :: 0 <= k < WIDTH ==> mask[k] == (k == b);
    var got := Shr(And(v, mask), b);
    assert forall k :: 0 <= k < WIDTH ==> got[k] == (k == 0 && v[b]);
    assert v[b] ==> got[0];
    var set_ := SetMasked(v, Field(b, b), if on then OneBit(0) else Zero());
    assert forall k :: 0 <= k < WIDTH ==> set_[k] == v[b := on][k];
  }

  // ---------- A register as a record of fields ----------

  ghost predicate DisjointFields(fs: seq<Field>) {
    && (forall i :: 0 <= i < |fs| ==> ValidField(fs[i]))
    && (forall i, j :: 0 <= i < j < |fs| ==> fs[i].high < fs[j].low || fs[j].high < fs[i].low)
  }

  datatype Write = Write(field: nat, value: Word)

  ghost predicate FittingWrites(fs: seq<Field>, ws: seq<Write>)
    requires DisjointFields(fs)
  {
    forall k :: 0 <= k < |ws| ==> ws[k].field < |fs| && Fits(fs[ws[k].field], ws[k].value)
  }

  function Apply(v: Word, fs: seq<Field>, ws: seq<Write>): Word
    requires DisjointFields(fs) && FittingWrites(fs, ws)
  {
    if ws == [] then v
    else
      var w := ws[|ws| - 1];
      SetField(Apply(v, fs, ws[..|ws| - 1]), fs[w.field], w.value)
  }

  /** The value of the last write to a field, or the one it had at first. */
  function LastWrite(first: Word, ws: seq<Write>, i: nat): Word {
    if ws == [] then first
    else if ws[|ws| - 1].field == i then ws[|ws| - 1].value
    else LastWrite(first, ws[..|ws| - 1], i)
  }

  /** After any fitting writes each field reads as its last write. */
  lemma {:induction false} FieldsAreARecord(v: Word, fs: seq<Field>, ws: seq<Write>, i: nat)
    requires DisjointFields(fs) && FittingWrites(fs, ws) && i < |fs|
    ensures FieldValue(Apply(v, fs, ws), fs[i]) == LastWrite(FieldValue(v, fs[i]), ws, i)
    decreases ws
  {
    if ws == [] {
      return;
    }
    var before, w := ws[..|ws| - 1], ws[|ws| - 1];
    FieldsAreARecord(v, fs, before, i);
    OneWrite(Apply(v, fs, before), fs, w, i);
  }

  lemma OneWrite(v: Word, fs: seq<Field>, w: Write, i: nat)
    requires DisjointFields(fs) && w.field < |fs| && Fits(fs[w.field], w.value) && i < |fs|
    ensures FieldValue(SetField(v, fs[w.field], w.value), fs[i]) ==
      if i == w.field then w.value else FieldValue(v, fs[i])
  {
    var f, g := fs[w.field], fs[i];
    ReadBackIff(v, f, w.value);
    if i != w.field {
      var got, had := FieldValue(SetField(v, f, w.value), g), FieldValue(v, g);
      assert forall k :: 0 <= k < WIDTH ==> got[k] == had[k];
    }
  }

  /** Bits that belong to no field are untouched. */
  lemma {:induction false} UnnamedBitsStay(v: Word, fs: seq<Field>, ws: seq<Write>, k: nat)
    requires DisjointFields(fs) && FittingWrites(fs, ws) && k < WIDTH
    requires forall i :: 0 <= i < |fs| ==> !Mask(fs[i])[k]
    ensures Apply(v, fs, ws)[k] == v[k]
    decreases ws
  {
    if ws == [] {
      return;
    }
    var before, w := ws[..|ws| - 1], ws[|ws| - 1];
    UnnamedBitsStay(v, fs, before, k);
    assert !Mask(fs[w.field])[k];
  }
}

/** The register cache and its write-back (src/debugfs.rs: Register, write_changed). */
module RegisterCache {
  import opened RegisterFields

  /** The state of one cached register. */
  datatype Cached = Cached(offset: nat, value: Word, changed: bool)

  datatype Edit = SetValue(value: Word) | SetBits(field: Field, bits: Word)

  /** Edits address a register by its position in the list. */
  datatype EditAt = EditAt(index: nat, edit: Edit)

  predicate ValidEdit(e: Edit) {
    e.SetBits? ==> ValidField(e.field)
  }

  /** What an edit makes of a value. */
  function Edited(v: Word, e: Edit): Word
    requires ValidEdit(e)
  {
    match e
    case SetValue(value) => value
    case SetBits(field, bits) => SetField(v, field, bits)
  }

  /** Writing a value marks the register only if it differs; writing a field always does. */
  function EditRegister(r: Cached, e: Edit): Cached
    requires ValidEdit(e)
  {
    match e
    case SetValue(value) => if r.value != value then r.(value := value, changed := true) else r
    case SetBits(field, bits) => r.(value := SetField(r.value, field, bits), changed := true)
  }

  type Memory = map<nat, Word>

  ghost predicate DistinctOffsets(regs: seq<Cached>) {
    forall i, j :: 0 <= i < j < |regs| ==> regs[i].offset != regs[j].offset
  }

  ghost predicate Present(regs: seq<Cached>, mem: Memory) {
    forall i :: 0 <= i < |regs| ==> regs[i].offset in mem
  }

  /** The cache as read from the device. */
  ghost predicate Fresh(regs: seq<Cached>, mem: Memory) {
    && DistinctOffsets(regs)
    && forall i :: 0 <= i < |regs| ==> regs[i].offset in mem && mem[regs[i].offset] == regs[i].value && !regs[i].changed
  }

  /** An unchanged register still holds the value read from the device. */
  ghost predicate Coherent(regs: seq<Cached>, mem: Memory) {
    && DistinctOffsets(regs)
    && forall i :: 0 <= i < |regs| ==>
         regs[i].offset in mem && (!regs[i].changed ==> mem[regs[i].offset] == regs[i].value)
  }

  ghost predicate ValidEdits(n: nat, es: seq<EditAt>) {
    forall k :: 0 <= k < |es| ==> es[k].index < n && ValidEdit(es[k].edit)
  }

  function EditAll(regs: seq<Cached>, es: seq<EditAt>): (r: seq<Cached>)
    requires ValidEdits(|regs|, es)
    ensures |r| == |regs| && forall i :: 0 <= i < |regs| ==> r[i].offset == regs[i].offset
  {
    if es == [] then regs
    else
      var before := EditAll(regs, es[..|es| - 1]);
      var e := es[|es| - 1];
      before[e.index := EditRegister(before[e.index], e.edit)]
  }

  /** The same edits made directly on the device. */
  function EditMemory(mem: Memory, regs: seq<Cached>, es: seq<EditAt>): (m: Memory)
    requires ValidEdits(|regs|, es) && Present(regs, mem)
    ensures m.Keys == mem.Keys
  {
    if es == [] then mem
    else
      var before := EditMemory(mem, regs, es[..|es| - 1]);
      var e := es[|es| - 1];
      var offset := regs[e.index].offset;
      before[offset := Edited(before[offset], e.edit)]
  }

  /** write_changed: the changed registers are written in list order. */
  function Flush(mem: Memory, regs: seq<Cached>): Memory {
    if regs == [] then mem
    else
      var r := regs[|regs| - 1];
      var before := Flush(mem, regs[..|regs| - 1]);
      if r.changed then before[r.offset := r.value] else before
  }

  /** Unchanged registers stay equal to the device under any edits, and the cache equals the device edited directly. */
  lemma {:induction false} EditsKeepCoherence(mem: Memory, regs: seq<Cached>, es: seq<EditAt>)
    requires Fresh(regs, mem) && ValidEdits(|regs|, es)
    ensures Coherent(EditAll(regs, es), mem)
    ensures forall i :: 0 <= i < |regs| ==> EditAll(regs, es)[i].value == EditMemory(mem, regs, es)[regs[i].offset]
    decreases es
  {
    if es != [] {
      EditsKeepCoherence(mem, regs, es[..|es| - 1]);
    }
  }

  /** The edit sets a field, or a value that the register does not have. */
  predicate Marks(v: Word, e: Edit) {
    e.SetBits? || e.value != v
  }

  /** Edit `k` marks register `i`. */
  predicate MarksAt(regs: seq<Cached>, es: seq<EditAt>, i: nat, k: nat)
    requires ValidEdits(|regs|, es) && i < |regs| && k < |es|
  {
    es[k].index == i && Marks(EditAll(regs, es[..k])[i].value, es[k].edit)
  }

  lemma LastEdit(regs: seq<Cached>, es: seq<EditAt>, i: nat, n: nat)
    requires ValidEdits(|regs|, es) && i < |regs| && |es| == n + 1
    ensures EditAll(regs, es)[i].changed == (EditAll(regs, es[..n])[i].changed || MarksAt(regs, es, i, n))
  {
  }

  lemma SameMarks(regs: seq<Cached>, es: seq<EditAt>, i: nat, n: nat, k: nat)
    requires ValidEdits(|regs|, es) && i < |regs| && k < n < |es|
    ensures MarksAt(regs, es[..n], i, k) == MarksAt(regs, es, i, k)
  {
    assert es[..n][..k] == es[..k];
  }

  /** A register is changed after some edits exactly when it was before or one of them marks it. */
  lemma {:induction false} ChangedIff(regs: seq<Cached>, es: seq<EditAt>, i: nat)
    requires ValidEdits(|regs|, es) && i < |regs|
    ensures EditAll(regs, es)[i].changed <==>
      regs[i].changed || exists k :: 0 <= k < |es| && MarksAt(regs, es, i, k)
    decreases es
  {
    if es != [] {
      hide EditAll, MarksAt;
      var n := |es| - 1;
      ChangedIff(regs, es[..n], i);
      LastEdit(regs, es, i, n);
      forall k | 0 <= k < n ensures MarksAt(regs, es[..n], i, k) == MarksAt(regs, es, i, k) {
        SameMarks(regs, es, i, n, k);
      }
    }
  }

  /** Edits on the device leave every other offset alone. */
  lemma {:induction false} EditsElsewhere(mem: Memory, regs: seq<Cached>, es: seq<EditAt>, offset: nat)
    requires Present(regs, mem) && ValidEdits(|regs|, es)
    requires offset in mem && forall i :: 0 <= i < |regs| ==> regs[i].offset != offset
    ensures EditMemory(mem, regs, es)[offset] == mem[offset]
    decreases es
  {
    if es != [] {
      EditsElsewhere(mem, regs, es[..|es| - 1], offset);
    }
  }

  /** Flushing writes the cached value of each register and leaves the other offsets alone. */
  lemma {:induction false} FlushWrites(mem: Memory, regs: seq<Cached>)
    requires Coherent(regs, mem)
    ensures Flush(mem, regs).Keys == mem.Keys
    ensures forall i :: 0 <= i < |regs| ==> Flush(mem, regs)[regs[i].offset] == regs[i].value
    ensures forall o ::
      o in mem && (forall i :: 0 <= i < |regs| ==> regs[i].offset != o) ==> Flush(mem, regs)[o] == mem[o]
    decreases regs
  {
    if regs != [] {
      FlushWrites(mem, regs[..|regs| - 1]);
    }
  }

  /** Flushing the cache makes the device equal to having made all edits on it in order. */
  lemma FlushEqualsDirectEdits(mem: Memory, regs: seq<Cached>, es: seq<EditAt>)
    requires Fresh(regs, mem) && ValidEdits(|regs|, es)
    ensures Flush(mem, EditAll(regs, es)) == EditMemory(mem, regs, es)
  {
    var cached := EditAll(regs, es);
    EditsKeepCoherence(mem, regs, es);
    FlushWrites(mem, cached);
    forall o | o in mem ensures Flush(mem, cached)[o] == EditMemory(mem, regs, es)[o] {
      if forall i :: 0 <= i < |regs| ==> regs[i].offset != o {
        EditsElsewhere(mem, regs, es, o);
      } else {
        var i :| 0 <= i < |regs| && regs[i].offset == o;
        assert cached[i].offset == o;
      }
    }
  }

  // ---------- Runs of edits, flushes and reads ----------

  datatype Action = Change(at: EditAt) | WriteBack | ReadBack

  datatype System = System(mem: Memory, regs: seq<Cached>)

  predicate ValidAction(n: nat, a: Action) {
    a.Change? ==> a.at.index < n && ValidEdit(a.at.edit)
  }

  ghost predicate ValidActions(n: nat, acts: seq<Action>) {
    forall k :: 0 <= k < |acts| ==> ValidAction(n, acts[k])
  }

  /** read_registers: the values of the device, and no register is changed. */
  function ReadAll(mem: Memory, regs: seq<Cached>): (r: seq<Cached>)
    requires Present(regs, mem)
    ensures |r| == |regs| && forall i :: 0 <= i < |r| ==> r[i] == Cached(regs[i].offset, mem[regs[i].offset], false)
  {
    seq(|regs|, i requires 0 <= i < |regs| => Cached(regs[i].offset, mem[regs[i].offset], false))
  }

  lemma {:induction false} FlushKeepsKeys(mem: Memory, regs: seq<Cached>)
    requires Present(regs, mem)
    ensures Flush(mem, regs).Keys == mem.Keys
    decreases regs
  {
    if regs != [] {
      FlushKeepsKeys(mem, regs[..|regs| - 1]);
    }
  }

  /** Flushing leaves the changed flags set. */
  function Act(s: System, a: Action): (s': System)
    requires Present(s.regs, s.mem) && ValidAction(|s.regs|, a)
    ensures Present(s'.regs, s'.mem) && |s'.regs| == |s.regs|
  {
    match a
    case Change(at) => s.(regs := s.regs[at.index := EditRegister(s.regs[at.index], at.edit)])
    case WriteBack =>
      FlushKeepsKeys(s.mem, s.regs);
      s.(mem := Flush(s.mem, s.regs))
    case ReadBack => s.(regs := ReadAll(s.mem, s.regs))
  }

  function ActAll(s: System, acts: seq<Action>): (s': System)
    requires Present(s.regs, s.mem) && ValidActions(|s.regs|, acts)
    ensures Present(s'.regs, s'.mem) && |s'.regs| == |s.regs|
  {
    if acts == [] then s else Act(ActAll(s, acts[..|acts| - 1]), acts[|acts| - 1])
  }

  /** The edits that have reached the device. */
  function Written(acts: seq<Action>): seq<EditAt> {
    if acts == [] then []
    else
      var before := acts[..|acts| - 1];
      if acts[|acts| - 1].WriteBack? then Shown(before) else Written(before)
  }

  /** The edits that the cache shows: reading back drops those that were not written. */
  function Shown(acts: seq<Action>): seq<EditAt> {
    if acts == [] then []
    else
      var before := acts[..|acts| - 1];
      match acts[|acts| - 1]
      case Change(at) => Shown(before) + [at]
      case WriteBack => Shown(before)
      case ReadBack => Written(before)
  }

  /** The cache holds the values of the device; registers may still be marked as changed. */
  ghost predicate Synced(s: System) {
    && DistinctOffsets(s.regs) && Present(s.regs, s.mem)
    && forall i :: 0 <= i < |s.regs| ==> s.mem[s.regs[i].offset] == s.regs[i].value
  }

  /** The device is the first one with the written edits made on it directly, the cache that with the shown ones. */
  ghost predicate Mirrors(s: System, now: System, written: seq<EditAt>, shown: seq<EditAt>) {
    && Present(s.regs, s.mem) && Coherent(now.regs, now.mem) && |now.regs| == |s.regs|
    && ValidEdits(|s.regs|, written) && ValidEdits(|s.regs|, shown)
    && now.mem == EditMemory(s.mem, s.regs, written)
    && forall i :: 0 <= i < |s.regs| ==>
         && now.regs[i].offset == s.regs[i].offset
         && now.regs[i].value == EditMemory(s.mem, s.regs, shown)[s.regs[i].offset]
  }

  lemma EditedCache(r: Cached, e: Edit)
    requires ValidEdit(e)
    ensures var r' := EditRegister(r, e);
      r'.offset == r.offset && r'.value == Edited(r.value, e) && (!r'.changed ==> r' == r)
  {
  }

  lemma ChangeMirrors(s: System, now: System, written: seq<EditAt>, shown: seq<EditAt>, at: EditAt)
    requires DistinctOffsets(s.regs) && Mirrors(s, now, written, shown) && ValidAction(|s.regs|, Change(at))
    ensures Mirrors(s, Act(now, Change(at)), written, shown + [at])
  {
    hide EditRegister, Edited;
    EditedCache(now.regs[at.index], at.edit);
    assert (shown + [at])[..|shown|] == shown;
  }

  lemma WriteMirrors(s: System, now: System, written: seq<EditAt>, shown: seq<EditAt>)
    requires Mirrors(s, now, written, shown)
    ensures Mirrors(s, Act(now, WriteBack), shown, shown)
  {
    FlushWrites(now.mem, now.regs);
    var mem := Flush(now.mem, now.regs);
    forall o | o in mem ensures mem[o] == EditMemory(s.mem, s.regs, shown)[o] {
      if forall i :: 0 <= i < |s.regs| ==> s.regs[i].offset != o {
        EditsElsewhere(s.mem, s.regs, written, o);
        EditsElsewhere(s.mem, s.regs, shown, o);
      } else {
        var i :| 0 <= i < |s.regs| && s.regs[i].offset == o;
        assert now.regs[i].offset == o;
      }
    }
  }

  /** Over any run of edits, write-backs and reads, the device shows exactly the edits written so far, in order. */
  lemma {:induction false} RunMirrors(s: System, acts: seq<Action>)
    requires Synced(s) && ValidActions(|s.regs|, acts)
    ensures Mirrors(s, ActAll(s, acts), Written(acts), Shown(acts))
    decreases acts
  {
    if acts != [] {
      var before, a := acts[..|acts| - 1], acts[|acts| - 1];
      RunMirrors(s, before);
      var now := ActAll(s, before);
      match a
      case Change(at) => ChangeMirrors(s, now, Written(before), Shown(before), at);
      case WriteBack => WriteMirrors(s, now, Written(before), Shown(before));
      case ReadBack =>
    }
  }

  // ---------- The registers, updated in place ----------

  class Register {
    const offset: nat
    var value: Word
    var changed: bool

    constructor (offset: nat, value: Word)
      ensures State() == Cached(offset, value, false)
    {
      this.offset, this.value, this.changed := offset, value, false;
    }

    function State(): Cached
      reads this
    {
      Cached(offset, value, changed)
    }

    method SetRegisterValue(v: Word)
      modifies this
      ensures State() == EditRegister(old(State()), SetValue(v))
      ensures value == v && (changed <==> old(changed) || v != old(value))
    {
      if value != v {
        value := v;
        changed := true;
      }
    }

    /** The field is found by name in the register description. */
    method SetRegisterField(f: Field, x: Word)
      requires ValidField(f)
      modifies this
      ensures State() == EditRegister(old(State()), SetBits(f, x))
      ensures changed && forall k :: 0 <= k < WIDTH ==>
        value[k] == if k < f.low then old(value)[k] else x[k - f.low] || (f.high < k && old(value)[k])
    {
      var mask := Mask(f);
      value := And(value, Not(mask));
      value := Or(value, Shl(x, f.low));
      changed := true;
    }
  }

  function States(regs: seq<Register>): (cs: seq<Cached>)
    reads regs
    ensures |cs| == |regs|
    ensures forall i :: 0 <= i < |regs| ==> cs[i] == regs[i].State()
  {
    if regs == [] then [] else States(regs[..|regs| - 1]) + [regs[|regs| - 1].State()]
  }

  lemma FlushNext(mem: Memory, regs: seq<Register>, i: nat)
    requires i < |regs|
    ensures Flush(mem, States(regs[..i + 1])) ==
      if regs[i].changed then Flush(mem, States(regs[..i]))[regs[i].offset := regs[i].value]
      else Flush(mem, States(regs[..i]))
  {
    assert regs[..i + 1][..i] == regs[..i];
    var before, c := States(regs[..i]), regs[i].State();
    assert (before + [c])[..i] == before;
  }

  method WriteChanged(regs: seq<Register>, mem: Memory) returns (mem': Memory)
    ensures mem' == Flush(mem, States(regs))
  {
    mem' := mem;
    for i := 0 to |regs|
      invariant mem' == Flush(mem, States(regs[..i]))
    {
      FlushNext(mem, regs, i);
      if regs[i].changed {
        mem' := mem'[regs[i].offset := regs[i].value];
      }
    }
    assert regs[..|regs|] == regs;
  }
}
