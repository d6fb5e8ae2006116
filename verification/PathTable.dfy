/** Reading the path table of an adapter from its registers (src/debugfs.rs: PathEntry::new and read_paths). */
module PathTable {
  import opened Wrappers
  import opened RegisterFields
  import opened PathDiscovery

  datatype PathReg = PathReg(offset: nat, value: Word)

  // The fields of the register PATH_CS_0.
  const OUTPUT_HOP := Field(6, 0)
  const OUTPUT_ADAPTER := Field(16, 11)
  const VALID := Field(31, 31)

  // ---------- One register ----------

  /** The low byte from bit `i` on. */
  function ByteFrom(w: Word, i: nat): bv8
    requires i <= 8
    decreases 8 - i
  {
    if i == 8 then 0 else (ByteFrom(w, i + 1) << 1) | (if w[i] then 1 else 0)
  }

  /** The low 16 bits from bit `i` on, as a number. */
  function NumberFrom(w: Word, i: nat): nat
    requires i <= 16
    decreases 16 - i
  {
    if i == 16 then 0 else 2 * NumberFrom(w, i + 1) + (if w[i] then 1 else 0)
  }

  /** PathEntry::new. */
  function NewEntry(num: bv8, inHop: nat, w: Word): Option<PathEntry> {
    if FieldValue(w, VALID) == Zero() then None
    else
      Some(PathEntry(num, inHop, ByteFrom(FieldValue(w, OUTPUT_ADAPTER), 0), NumberFrom(FieldValue(w, OUTPUT_HOP), 0)))
  }

  lemma FieldBit(w: Word, f: Field, k: nat)
    requires ValidField(f) && k < WIDTH
    ensures FieldValue(w, f)[k] == (k <= f.high - f.low && w[f.low + k])
  {
  }

  function Bound(i: nat): bv8
    requires 0 < i <= 8
  {
    if i == 8 then 0 else if i == 7 then 1 else if i == 6 then 3 else if i == 5 then 7
    else if i == 4 then 15 else if i == 3 then 31 else if i == 2 then 63 else 127
  }

  lemma {:induction false} ByteFromBelow(w: Word, i: nat)
    requires 0 < i <= 8
    ensures ByteFrom(w, i) <= Bound(i)
    decreases 8 - i
  {
    if i < 8 {
      ByteFromBelow(w, i + 1);
    }
  }

  lemma SliceCons(v: Word, w: Word, i: nat, n: nat)
    requires i < n <= WIDTH
    ensures v[i..n] == w[i..n] <==> v[i] == w[i] && v[i + 1..n] == w[i + 1..n]
  {
    assert v[i..n] == [v[i]] + v[i + 1..n] && w[i..n] == [w[i]] + w[i + 1..n];
    assert v[i..n] == w[i..n] ==> v[i..n][0] == w[i..n][0] && v[i..n][1..] == w[i..n][1..];
  }

  /** The low byte gives the bits. */
  lemma {:induction false} ByteInjective(v: Word, w: Word, i: nat)
    requires i <= 8
    ensures ByteFrom(v, i) == ByteFrom(w, i) <==> v[i..8] == w[i..8]
    decreases 8 - i
  {
    if i < 8 {
      ByteInjective(v, w, i + 1);
      ByteFromBelow(v, i + 1);
      ByteFromBelow(w, i + 1);
      SliceCons(v, w, i, 8);
    }
  }

  lemma {:induction false} NumberInjective(v: Word, w: Word, i: nat)
    requires i <= 16
    ensures NumberFrom(v, i) == NumberFrom(w, i) <==> v[i..16] == w[i..16]
    decreases 16 - i
  {
    if i < 16 {
      NumberInjective(v, w, i + 1);
      SliceCons(v, w, i, 16);
    }
  }

  lemma SameField(v: Word, w: Word, f: Field, n: nat)
    requires ValidField(f) && f.high - f.low < n <= WIDTH
    ensures FieldValue(v, f)[0..n] == FieldValue(w, f)[0..n] <==> v[f.low..f.high + 1] == w[f.low..f.high + 1]
  {
    var x, y := FieldValue(v, f), FieldValue(w, f);
    forall k | 0 <= k < n
      ensures x[k] == (k <= f.high - f.low && v[f.low + k])
      ensures y[k] == (k <= f.high - f.low && w[f.low + k])
    {
      FieldBit(v, f, k);
      FieldBit(w, f, k);
    }
    if x[0..n] == y[0..n] {
      forall k | f.low <= k <= f.high ensures v[k] == w[k] {
        assert x[0..n][k - f.low] == y[0..n][k - f.low];
      }
    } else if v[f.low..f.high + 1] == w[f.low..f.high + 1] {
      forall k | 0 <= k < n ensures x[k] == y[k] {
        assert k <= f.high - f.low ==> v[f.low..f.high + 1][k] == w[f.low..f.high + 1][k];
      }
    }
  }

  /** A register holds an entry exactly when its highest bit is set. */
  lemma EntryIff(num: bv8, inHop: nat, w: Word)
    ensures NewEntry(num, inHop, w).Some? <==> w[31]
  {
    FieldBit(w, VALID, 0);
    var v := FieldValue(w, VALID);
    assert forall k :: 0 < k < WIDTH ==> !v[k] by {
      forall k | 0 < k < WIDTH ensures !v[k] {
        FieldBit(w, VALID, k);
      }
    }
  }

  /** Two valid registers hold the same entry exactly when they agree in the output HopID and adapter bits. */
  lemma SameEntryIff(num: bv8, inHop: nat, v: Word, w: Word)
    requires v[31] && w[31]
    ensures NewEntry(num, inHop, v) == NewEntry(num, inHop, w) <==> v[0..7] == w[0..7] && v[11..17] == w[11..17]
  {
    EntryIff(num, inHop, v);
    EntryIff(num, inHop, w);
    ByteInjective(FieldValue(v, OUTPUT_ADAPTER), FieldValue(w, OUTPUT_ADAPTER), 0);
    NumberInjective(FieldValue(v, OUTPUT_HOP), FieldValue(w, OUTPUT_HOP), 0);
    SameField(v, w, OUTPUT_ADAPTER, 8);
    SameField(v, w, OUTPUT_HOP, 16);
  }

  // ---------- Which bits are which number ----------

  function TwoTo(n: nat): nat {
    if n == 0 then 1 else 2 * TwoTo(n - 1)
  }

  /** Bit `k` of a number, by halving it. */
  predicate BitIn(n: nat, k: nat) {
    if k == 0 then n % 2 == 1 else BitIn(n / 2, k - 1)
  }

  lemma {:induction false} BitBeyond(n: nat, m: nat, k: nat)
    requires n < TwoTo(m) && m <= k
    ensures !BitIn(n, k)
  {
    if m > 0 {
      BitBeyond(n / 2, m - 1, k - 1);
    } else if k > 0 {
      BitBeyond(n / 2, m, k - 1);
    }
  }

  /** The bits of a number determine it. */
  lemma {:induction false} BitsDetermine(a: nat, b: nat, n: nat)
    requires a < TwoTo(n) && b < TwoTo(n) && forall k :: 0 <= k < n ==> BitIn(a, k) == BitIn(b, k)
    ensures a == b
  {
    if n > 0 {
      forall k | 0 <= k < n - 1 ensures BitIn(a / 2, k) == BitIn(b / 2, k) {
        assert BitIn(a, k + 1) == BitIn(b, k + 1);
      }
      BitsDetermine(a / 2, b / 2, n - 1);
      assert BitIn(a, 0) == BitIn(b, 0);
    }
  }

  /** Bits `i` to `top` as a number. */
  function FromBits(w: Word, i: nat, top: nat): nat
    requires i <= top <= WIDTH
    decreases top - i
  {
    if i == top then 0 else 2 * FromBits(w, i + 1, top) + (if w[i] then 1 else 0)
  }

  lemma {:induction false} BitsOfNumber(w: Word, i: nat, top: nat)
    requires i <= top <= WIDTH
    ensures FromBits(w, i, top) < TwoTo(top - i)
    ensures forall k :: i <= k < top ==> BitIn(FromBits(w, i, top), k - i) == w[k]
    decreases top - i
  {
    if i < top {
      BitsOfNumber(w, i + 1, top);
      var n := FromBits(w, i, top);
      assert n / 2 == FromBits(w, i + 1, top);
      forall k | i <= k < top ensures BitIn(n, k - i) == w[k] {
        assert k > i ==> BitIn(n, k - i) == BitIn(n / 2, k - (i + 1));
      }
    }
  }

  lemma {:induction false} NumberIs(w: Word, i: nat)
    requires i <= 16
    ensures NumberFrom(w, i) == FromBits(w, i, 16)
    decreases 16 - i
  {
    if i < 16 {
      NumberIs(w, i + 1);
    }
  }

  lemma Doubled(x: bv8, b: bool)
    requires x < 0x80
    ensures ((x << 1) | (if b then 1 else 0)) as nat == 2 * (x as nat) + if b then 1 else 0
  {
  }

  lemma {:induction false} ByteIs(w: Word, i: nat)
    requires i <= 8
    ensures ByteFrom(w, i) as nat == FromBits(w, i, 8)
    decreases 8 - i
  {
    if i < 8 {
      ByteIs(w, i + 1);
      ByteFromBelow(w, i + 1);
      Doubled(ByteFrom(w, i + 1), w[i]);
    }
  }

  /** Bits 0 to 6 are the output HopID, bits 11 to 16 the output adapter, and bit 31 says that there is an entry. */
  predicate Encodes(w: Word, outAdapter: nat, outHop: nat) {
    w[31] && HasBits(w, 0, 7, outHop) && HasBits(w, 11, 6, outAdapter)
  }

  /** The bits of `n` are the `width` bits from `low` on. */
  predicate HasBits(w: Word, low: nat, width: nat, n: nat)
    requires low + width <= WIDTH
  {
    n < TwoTo(width) && forall k :: 0 <= k < width ==> BitIn(n, k) == w[low + k]
  }

  /** The value of a field, from the bits of the word. */
  lemma FieldIs(w: Word, f: Field, top: nat, n: nat)
    requires ValidField(f) && f.high - f.low < top <= WIDTH
    ensures FromBits(FieldValue(w, f), 0, top) == n <==> HasBits(w, f.low, f.high - f.low + 1, n)
  {
    var v, width := FieldValue(w, f), f.high - f.low + 1;
    var m := FromBits(v, 0, top);
    BitsOfNumber(v, 0, top);
    forall k | 0 <= k < top ensures BitIn(m, k) == (k < width && w[f.low + k]) {
      FieldBit(w, f, k);
      assert BitIn(m, k - 0) == v[k];
    }
    SmallNumber(m, width, top);
    assert HasBits(w, f.low, width, m);
    if HasBits(w, f.low, width, n) {
      forall k | 0 <= k < width ensures BitIn(m, k) == BitIn(n, k) {
        assert BitIn(n, k) == w[f.low + k];
      }
      BitsDetermine(m, n, width);
    }
  }

  /** A number without bits from `m` on. */
  lemma {:induction false} SmallNumber(n: nat, m: nat, top: nat)
    requires m <= top && n < TwoTo(top) && forall k :: m <= k < top ==> !BitIn(n, k)
    ensures n < TwoTo(m)
    decreases m
  {
    if m > 0 {
      forall k | m - 1 <= k < top - 1 ensures !BitIn(n / 2, k) {
        assert !BitIn(n, k + 1);
      }
      SmallNumber(n / 2, m - 1, top - 1);
    } else {
      forall k | 0 <= k < top ensures BitIn(n, k) == BitIn(0, k) {
        BitBeyond(0, 0, k);
      }
      assert 0 < TwoTo(top);
      BitsDetermine(n, 0, top);
    }
  }

  /** The entry of a register, from the bits of the two numbers, and the other way round. */
  lemma EntryBitsIff(num: bv8, inHop: nat, w: Word, e: PathEntry)
    ensures NewEntry(num, inHop, w) == Some(e) <==>
      e.inAdapter == num && e.inHop == inHop && Encodes(w, e.outAdapter as nat, e.outHop)
  {
    hide FieldValue, ByteFrom, NumberFrom, FromBits, HasBits;
    EntryIff(num, inHop, w);
    FieldIs(w, OUTPUT_HOP, 16, e.outHop);
    NumberIs(FieldValue(w, OUTPUT_HOP), 0);
    FieldIs(w, OUTPUT_ADAPTER, 8, e.outAdapter as nat);
    ByteIs(FieldValue(w, OUTPUT_ADAPTER), 0);
    SameByte(ByteFrom(FieldValue(w, OUTPUT_ADAPTER), 0), e.outAdapter);
  }

  lemma SameByte(a: bv8, b: bv8)
    ensures a as nat == b as nat <==> a == b
  {
  }

  // ---------- The table ----------

  predicate Selected(reg: PathReg, minHop: nat) {
    minHop * 2 <= reg.offset && reg.offset % 2 == 0
  }

  function EntryOf(num: bv8, minHop: nat, reg: PathReg): Option<PathEntry> {
    if Selected(reg, minHop) then NewEntry(num, reg.offset / 2, reg.value) else None
  }

  function Entries(num: bv8, minHop: nat, regs: seq<PathReg>): seq<PathEntry> {
    if regs == [] then []
    else
      var e := EntryOf(num, minHop, regs[|regs| - 1]);
      Entries(num, minHop, regs[..|regs| - 1]) + if e.Some? then [e.value] else []
  }

  /** The loop of read_paths; the paths are left alone if the adapter has no minimum HopID. */
  method ReadPaths(num: bv8, minHop: Option<nat>, regs: seq<PathReg>, before: Option<seq<PathEntry>>)
    returns (paths: Option<seq<PathEntry>>)
    ensures minHop == None ==> paths == before
    ensures minHop.Some? ==> (paths == None <==> Entries(num, minHop.value, regs) == [])
    ensures minHop.Some? && paths.Some? ==> paths.value == Entries(num, minHop.value, regs)
    ensures minHop.Some? ==> forall e: PathEntry ::
      paths.Some? && e in paths.value <==> e.inAdapter == num && minHop.value <= e.inHop && Encoded(regs, e)
  {
    if minHop == None {
      return before;
    }
    var found: seq<PathEntry> := [];
    for i := 0 to |regs|
      invariant found == Entries(num, minHop.value, regs[..i])
    {
      assert regs[..i + 1][..i] == regs[..i];
      var reg := regs[i];
      if minHop.value * 2 <= reg.offset && reg.offset % 2 == 0 {
        var path := NewEntry(num, reg.offset / 2, reg.value);
        if path.Some? {
          found := found + [path.value];
        }
      }
    }
    assert regs[..|regs|] == regs;
    forall e: PathEntry
      ensures e in found <==> e.inAdapter == num && minHop.value <= e.inHop && Encoded(regs, e)
    {
      EncodedIff(num, minHop.value, regs, e);
    }
    return if found == [] then None else Some(found);
  }

  lemma {:induction false} InEntries(num: bv8, minHop: nat, regs: seq<PathReg>, e: PathEntry)
    ensures e in Entries(num, minHop, regs) <==> exists reg :: reg in regs && EntryOf(num, minHop, reg) == Some(e)
    decreases regs
  {
    if regs != [] {
      var init, last := regs[..|regs| - 1], regs[|regs| - 1];
      InEntries(num, minHop, init, e);
      assert regs == init + [last];
    }
  }

  ghost predicate DistinctRegs(regs: seq<PathReg>) {
    forall r, s :: r in regs && s in regs && r.offset == s.offset ==> r == s
  }

  /** The register of a HopID holds the entry. */
  predicate Holds(num: bv8, minHop: nat, regs: seq<PathReg>, h: nat, e: PathEntry) {
    minHop <= h && exists reg :: reg in regs && reg.offset == 2 * h && NewEntry(num, h, reg.value) == Some(e)
  }

  lemma SelectedIff(reg: PathReg, minHop: nat, h: nat)
    ensures Selected(reg, minHop) && reg.offset / 2 == h <==> minHop <= h && reg.offset == 2 * h
  {
  }

  lemma RegisterOf(num: bv8, minHop: nat, reg: PathReg, h: nat, e: PathEntry)
    ensures EntryOf(num, minHop, reg) == Some(e) && e.inHop == h <==>
      minHop <= h && reg.offset == 2 * h && NewEntry(num, h, reg.value) == Some(e)
  {
    SelectedIff(reg, minHop, h);
  }

  lemma HeldIsIn(num: bv8, minHop: nat, regs: seq<PathReg>, h: nat, e: PathEntry)
    ensures Holds(num, minHop, regs, h, e) <==> e in Entries(num, minHop, regs) && e.inHop == h
  {
    InEntries(num, minHop, regs, e);
    forall reg: PathReg ensures EntryOf(num, minHop, reg) == Some(e) && e.inHop == h <==>
      minHop <= h && reg.offset == 2 * h && NewEntry(num, h, reg.value) == Some(e)
    {
      RegisterOf(num, minHop, reg, h, e);
    }
  }

  /** A lookup finds an entry exactly when the HopID is allowed and its register holds the entry. */
  lemma LookupIff(num: bv8, minHop: nat, regs: seq<PathReg>, h: nat, e: PathEntry)
    requires DistinctRegs(regs)
    ensures FindEntry(Entries(num, minHop, regs), h) == Some(e) <==> Holds(num, minHop, regs, h, e)
  {
    var found := FindEntry(Entries(num, minHop, regs), h);
    HeldIsIn(num, minHop, regs, h, e);
    if found.Some? {
      HeldIsIn(num, minHop, regs, h, found.value);
    }
  }

  /** A register at twice the input HopID holds the bits of the entry. */
  ghost predicate Encoded(regs: seq<PathReg>, e: PathEntry) {
    exists reg :: reg in regs && reg.offset == 2 * e.inHop && Encodes(reg.value, e.outAdapter as nat, e.outHop)
  }

  lemma EncodedIff(num: bv8, minHop: nat, regs: seq<PathReg>, e: PathEntry)
    ensures e in Entries(num, minHop, regs) <==> e.inAdapter == num && minHop <= e.inHop && Encoded(regs, e)
  {
    hide NewEntry, Encodes, Entries;
    HeldIsIn(num, minHop, regs, e.inHop, e);
    forall reg: PathReg
      ensures NewEntry(num, e.inHop, reg.value) == Some(e) <==>
        e.inAdapter == num && Encodes(reg.value, e.outAdapter as nat, e.outHop)
    {
      EntryBitsIff(num, e.inHop, reg.value, e);
    }
  }

  lemma EncodedSnoc(num: bv8, minHop: nat, regs: seq<PathReg>, reg: PathReg, e: PathEntry)
    requires reg.offset == 2 * e.inHop && minHop <= e.inHop && e.inAdapter == num
    requires Encodes(reg.value, e.outAdapter as nat, e.outHop)
    ensures Entries(num, minHop, regs + [reg]) == Entries(num, minHop, regs) + [e]
  {
    EntryBitsIff(num, e.inHop, reg.value, e);
    RegisterOf(num, minHop, reg, e.inHop, e);
    assert (regs + [reg])[..|regs|] == regs;
  }

  /** Registers that hold the bits of a list of entries are read as that list. */
  lemma {:induction false} TableRoundTrip(num: bv8, minHop: nat, regs: seq<PathReg>, es: seq<PathEntry>)
    requires |regs| == |es|
    requires forall i :: 0 <= i < |es| ==>
      && regs[i].offset == 2 * es[i].inHop && minHop <= es[i].inHop && es[i].inAdapter == num
      && Encodes(regs[i].value, es[i].outAdapter as nat, es[i].outHop)
    ensures Entries(num, minHop, regs) == es
    decreases regs
  {
    if regs != [] {
      var n := |regs| - 1;
      TableRoundTrip(num, minHop, regs[..n], es[..n]);
      EncodedSnoc(num, minHop, regs[..n], regs[n], es[n]);
      assert regs == regs[..n] + [regs[n]] && es == es[..n] + [es[n]];
    }
  }

  /** Every entry names the adapter it was read from, and HopIDs below the minimum are left out. */
  lemma EntriesAreOwn(num: bv8, minHop: nat, regs: seq<PathReg>, e: PathEntry)
    requires e in Entries(num, minHop, regs)
    ensures e.inAdapter == num && minHop <= e.inHop
  {
    HeldIsIn(num, minHop, regs, e.inHop, e);
  }
}
