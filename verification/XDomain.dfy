/**
  Annotation of control packets (src/trace.rs: ControlPacket::parse, parse_xdomain,
  parse_xdomain_header, parse_xdomain_data and find_xdomain_metadata).

  The metadata tables are given.  The parser fills in the metadata of the fields in place, in two
  passes; the specification says for each double word on its own which metadata it gets.
 */
module XDomain {
  import opened Wrappers

  // ---------- Metadata and fields ----------

  datatype BitField = BitField(
    low: nat, high: nat, name: string, shortName: Option<string>, valueNames: Option<map<nat, string>>)

  datatype Metadata = Metadata(
    offset: nat, name: Option<string>, bitfields: Option<seq<BitField>>, packetType: Option<string>)

  datatype Field = Field(offset: nat, value: nat, metadata: Option<Metadata>)

  /** A UUID as the four double words it was read from. */
  type Uuid = seq<nat>

  const NIL: Uuid := [0, 0, 0, 0]

  /** Offsets are 16-bit numbers. */
  function Offset(i: nat): nat {
    i % 65536
  }

  function Lower(s: string): string {
    seq(|s|, i requires 0 <= i < |s| => if 'A' <= s[i] <= 'Z' then s[i] - 'A' + 'a' else s[i])
  }

  predicate MatchName(f: BitField, name: string) {
    || Lower(f.name) == Lower(name)
    || (f.shortName.Some? && Lower(f.shortName.value) == Lower(name))
  }

  function FindBitField(fs: seq<BitField>, name: string): Option<BitField> {
    if fs == [] then None
    else if MatchName(fs[0], name) then Some(fs[0])
    else FindBitField(fs[1..], name)
  }

  /** BitFields::field_by_name. */
  function FieldByName(f: Field, name: string): Option<BitField> {
    if f.metadata == None || f.metadata.value.bitfields == None then None
    else FindBitField(f.metadata.value.bitfields.value, name)
  }

  function Pow2(n: nat): (p: nat)
    ensures p > 0
  {
    if n == 0 then 1 else 2 * Pow2(n - 1)
  }

  /** Bits `low` to `high` of the value. */
  function BitFieldValue(v: nat, b: BitField): nat {
    if b.low <= b.high then (v / Pow2(b.low)) % Pow2(b.high - b.low + 1) else 0
  }

  function ValueName(b: BitField, v: nat): Option<string> {
    if b.valueNames.Some? && v in b.valueNames.value then Some(b.valueNames.value[v]) else None
  }

  /** The name of the value of the "Packet Type" bit field. */
  function TypeName(f: Field): Option<string> {
    var b := FieldByName(f, "Packet Type");
    if b == None then None else ValueName(b.value, BitFieldValue(f.value, b.value))
  }

  // ---------- Looking up metadata ----------

  /** The first entry for an offset and exactly this packet type. */
  function FindExact(ms: seq<Metadata>, offset: nat, kind: Option<string>): (r: Option<Metadata>)
    ensures r.Some? ==> r.value in ms && r.value.offset == offset && r.value.packetType == kind
    ensures r == None ==> forall m :: m in ms && m.offset == offset ==> m.packetType != kind
  {
    if ms == [] then None
    else if ms[0].offset == offset && ms[0].packetType == kind then Some(ms[0])
    else FindExact(ms[1..], offset, kind)
  }

  /** find_xdomain_metadata: the entry for the packet type, or else the untyped one. */
  function FindMetadata(ms: seq<Metadata>, offset: nat, kind: Option<string>): (r: Option<Metadata>)
    ensures r.Some? <==> exists m :: m in ms && m.offset == offset && m.packetType in {kind, None}
    ensures r.Some? ==> r.value in ms && r.value.offset == offset
    ensures r.Some? && (exists m :: m in ms && m.offset == offset && m.packetType == kind) ==>
      r.value.packetType == kind
    ensures r.Some? && (forall m :: m in ms && m.offset == offset ==> m.packetType != kind) ==>
      r.value.packetType == None
  {
    var md := FindExact(ms, offset, kind);
    if md.Some? then md else FindExact(ms, offset, None)
  }

  /** The first entry for an offset. */
  function FindOffset(ms: seq<Metadata>, offset: nat): (r: Option<Metadata>)
    ensures r.Some? ==> r.value in ms && r.value.offset == offset
    ensures r == None ==> forall m :: m in ms ==> m.offset != offset
  {
    if ms == [] then None
    else if ms[0].offset == offset then Some(ms[0])
    else FindOffset(ms[1..], offset)
  }

  /** The lookups give the first entry that there is. */
  lemma {:induction false} FirstEntry(ms: seq<Metadata>, offset: nat, kind: Option<string>, k: nat)
    requires k < |ms| && ms[k].offset == offset
    ensures (forall j :: 0 <= j < k ==> ms[j].offset != offset) ==> FindOffset(ms, offset) == Some(ms[k])
    ensures
      ms[k].packetType == kind && (forall j :: 0 <= j < k ==> ms[j].offset != offset || ms[j].packetType != kind) ==>
        FindExact(ms, offset, kind) == Some(ms[k])
  {
    if k > 0 {
      FirstEntry(ms[1..], offset, kind, k - 1);
      assert forall j :: 0 <= j < k - 1 ==> ms[1..][j] == ms[j + 1];
    }
  }

  // ---------- The declarative annotation ----------

  function OrElse(a: Option<Metadata>, b: Option<Metadata>): Option<Metadata> {
    if a.Some? then a else b
  }

  /** The metadata of double word `i` before the protocol is known. */
  function HeaderMetadata(control: seq<Metadata>, header: seq<Metadata>, i: nat): Option<Metadata> {
    OrElse(FindOffset(control, Offset(i)), FindMetadata(header, Offset(i), None))
  }

  /** The packet type that double word `j` names, when it is looked up without a packet type. */
  function TypeAt(base: seq<Field>, protocol: seq<Metadata>, j: nat): Option<string>
    requires j < |base|
  {
    var m := FindMetadata(protocol, Offset(j), None);
    if m == None then None else TypeName(base[j].(metadata := OrElse(base[j].metadata, m)))
  }

  /** The first double word before `i` that names the packet type. */
  predicate NamesType(base: seq<Field>, protocol: seq<Metadata>, i: nat, j: nat)
    requires i <= |base|
  {
    j < i && TypeAt(base, protocol, j).Some? && forall l :: 0 <= l < j ==> TypeAt(base, protocol, l) == None
  }

  /** The packet type known when double word `i` is reached. */
  function TypeBefore(base: seq<Field>, protocol: seq<Metadata>, i: nat): Option<string>
    requires i <= |base|
  {
    if i == 0 then None
    else
      var before := TypeBefore(base, protocol, i - 1);
      if before.Some? then before else TypeAt(base, protocol, i - 1)
  }

  lemma {:induction false} TypeBeforeIs(base: seq<Field>, protocol: seq<Metadata>, i: nat)
    requires i <= |base|
    ensures TypeBefore(base, protocol, i) == None <==> forall j :: 0 <= j < i ==> TypeAt(base, protocol, j) == None
    ensures forall j :: NamesType(base, protocol, i, j) ==> TypeBefore(base, protocol, i) == TypeAt(base, protocol, j)
  {
    if i > 0 {
      hide TypeAt;
      TypeBeforeIs(base, protocol, i - 1);
      forall j: nat | NamesType(base, protocol, i, j)
        ensures TypeBefore(base, protocol, i) == TypeAt(base, protocol, j)
      {
        assert j < i - 1 ==> NamesType(base, protocol, i - 1, j);
      }
    }
  }

  /** The fields before the protocol is known. */
  function BaseFields(control: seq<Metadata>, header: seq<Metadata>, dwords: seq<nat>): (fs: seq<Field>)
    ensures |fs| == |dwords|
  {
    seq(|dwords|, i requires 0 <= i < |dwords| => Field(Offset(i), dwords[i], HeaderMetadata(control, header, i)))
  }

  /** The metadata that the protocol adds to double word `i`. */
  function ProtocolMetadata(base: seq<Field>, protocol: seq<Metadata>, i: nat): Option<Metadata>
    requires i < |base|
  {
    FindMetadata(protocol, Offset(i), TypeBefore(base, protocol, i))
  }

  function AnnotatedAt(base: seq<Field>, protocol: seq<Metadata>, i: nat): Field
    requires i < |base|
  {
    base[i].(metadata := OrElse(base[i].metadata, ProtocolMetadata(base, protocol, i)))
  }

  function Annotated(base: seq<Field>, protocol: seq<Metadata>): (fs: seq<Field>)
    ensures |fs| == |base|
  {
    seq(|base|, i requires 0 <= i < |base| => AnnotatedAt(base, protocol, i))
  }

  /** The values of the double words with a name. */
  function ValuesNamed(fs: seq<Field>, name: string): seq<nat> {
    if fs == [] then []
    else
      var last := fs[|fs| - 1];
      ValuesNamed(fs[..|fs| - 1], name) +
      if last.metadata.Some? && last.metadata.value.name == Some(name) then [last.value] else []
  }

  /** The protocol: exactly four double words are named "UUID". */
  function UuidOf(fs: seq<Field>): Option<Uuid> {
    var values := ValuesNamed(fs, "UUID");
    if |values| == 4 then Some(values) else None
  }

  /** All fields of an inter-domain packet. */
  function XDomainFields(control: seq<Metadata>, tables: map<Uuid, seq<Metadata>>, dwords: seq<nat>): (fs: seq<Field>)
    requires NIL in tables
    ensures |fs| == |dwords|
  {
    var base := BaseFields(control, tables[NIL], dwords);
    var uuid := UuidOf(base);
    if uuid == None || uuid.value !in tables then base else Annotated(base, tables[uuid.value])
  }

  // ---------- What the annotation says of one double word ----------

  /** The metadata of a double word of a packet with a known protocol, by the first double word that names the type. */
  lemma FieldMetadata(control: seq<Metadata>, tables: map<Uuid, seq<Metadata>>, dwords: seq<nat>, i: nat)
    requires NIL in tables && i < |dwords|
    requires var uuid := UuidOf(BaseFields(control, tables[NIL], dwords)); uuid.Some? && uuid.value in tables
    ensures var base := BaseFields(control, tables[NIL], dwords);
      var protocol := tables[UuidOf(base).value];
      var m := XDomainFields(control, tables, dwords)[i].metadata;
      && (FindOffset(control, Offset(i)).Some? ==> m == FindOffset(control, Offset(i)))
      && (FindOffset(control, Offset(i)) == None && FindMetadata(tables[NIL], Offset(i), None).Some? ==>
            m == FindMetadata(tables[NIL], Offset(i), None))
      && (HeaderMetadata(control, tables[NIL], i) == None ==>
            && (forall j :: NamesType(base, protocol, i, j) ==>
                  m == FindMetadata(protocol, Offset(i), TypeAt(base, protocol, j)))
            && ((forall j :: 0 <= j < i ==> TypeAt(base, protocol, j) == None) ==>
                  m == FindMetadata(protocol, Offset(i), None)))
  {
    var base := BaseFields(control, tables[NIL], dwords);
    var protocol := tables[UuidOf(base).value];
    TypeBeforeIs(base, protocol, i);
    assert XDomainFields(control, tables, dwords) == Annotated(base, protocol);
  }

  /** Either no double word before `i` names the packet type, or one of them is the first to. */
  lemma {:induction false} SomeFirst(base: seq<Field>, protocol: seq<Metadata>, i: nat)
    requires i <= |base|
    ensures
      (exists j :: NamesType(base, protocol, i, j)) || forall j :: 0 <= j < i ==> TypeAt(base, protocol, j) == None
    decreases i
  {
    if i > 0 {
      var n := i - 1;
      SomeFirst(base, protocol, n);
      if j :| NamesType(base, protocol, n, j) {
        assert NamesType(base, protocol, i, j);
      } else if TypeAt(base, protocol, n).Some? {
        assert NamesType(base, protocol, i, n);
      }
    }
  }

  lemma FieldIs(control: seq<Metadata>, tables: map<Uuid, seq<Metadata>>, dwords: seq<nat>, i: nat)
    requires NIL in tables && i < |dwords|
    ensures XDomainFields(control, tables, dwords)[i].offset == Offset(i)
    ensures XDomainFields(control, tables, dwords)[i].value == dwords[i]
  {
  }

  /** Field i is double word i with offset i, for every i, exactly when the packet has at most 65536 double words. */
  lemma OffsetsIff(control: seq<Metadata>, tables: map<Uuid, seq<Metadata>>, dwords: seq<nat>, fs: seq<Field>)
    requires NIL in tables && fs == XDomainFields(control, tables, dwords)
    ensures (forall i :: 0 <= i < |fs| ==> fs[i].offset == i && fs[i].value == dwords[i]) <==> |dwords| <= 65536
  {
    hide XDomainFields;
    forall i | 0 <= i < |fs| ensures fs[i].offset == Offset(i) && fs[i].value == dwords[i] {
      FieldIs(control, tables, dwords, i);
    }
    if |dwords| > 65536 {
      assert fs[65536].offset == Offset(65536);
    }
  }

  // ---------- Names, and the numbers in bit fields ----------

  /** The second character is the lower case of the first. */
  predicate LowerCaseOf(u: char, l: char) {
    'A' <= u <= 'Z' && l as int == u as int + 32
  }

  ghost predicate SameButCase(a: string, b: string) {
    |a| == |b| && forall i :: 0 <= i < |a| ==> a[i] == b[i] || LowerCaseOf(a[i], b[i]) || LowerCaseOf(b[i], a[i])
  }

  lemma LowerIff(a: string, b: string)
    ensures Lower(a) == Lower(b) <==> SameButCase(a, b)
  {
    assert |Lower(a)| == |a| && |Lower(b)| == |b|;
    if Lower(a) == Lower(b) {
      forall i | 0 <= i < |a| ensures a[i] == b[i] || LowerCaseOf(a[i], b[i]) || LowerCaseOf(b[i], a[i]) {
        assert Lower(a)[i] == Lower(b)[i];
      }
    }
  }

  ghost predicate Named(f: BitField, name: string) {
    SameButCase(f.name, name) || (f.shortName.Some? && SameButCase(f.shortName.value, name))
  }

  /** Bit field `k` is the first one with the name. */
  ghost predicate FirstNamed(fs: seq<BitField>, name: string, k: int) {
    0 <= k < |fs| && Named(fs[k], name) && forall j :: 0 <= j < k ==> !Named(fs[j], name)
  }

  /** The lookup finds the first bit field whose long or short name is the name, in whatever case. */
  lemma {:induction false} BitFieldByName(fs: seq<BitField>, name: string)
    ensures forall k :: FirstNamed(fs, name, k) ==> FindBitField(fs, name) == Some(fs[k])
    ensures (forall k :: 0 <= k < |fs| ==> !Named(fs[k], name)) ==> FindBitField(fs, name) == None
  {
    if fs != [] {
      LowerIff(fs[0].name, name);
      if fs[0].shortName.Some? {
        LowerIff(fs[0].shortName.value, name);
      }
      var rest := fs[1..];
      BitFieldByName(rest, name);
      assert forall k :: 0 <= k < |rest| ==> rest[k] == fs[k + 1];
      forall k | FirstNamed(fs, name, k) ensures FindBitField(fs, name) == Some(fs[k]) {
        if k > 0 {
          assert FirstNamed(rest, name, k - 1);
        }
      }
    }
  }

  lemma FarMultiple(k: int, d: nat)
    ensures k == 0 || k * d >= d || k * d + d <= 0
  {
  }

  lemma DivisionIs(a: nat, d: nat, q: nat, r: nat)
    requires a == q * d + r && r < d
    ensures a / d == q && a % d == r
  {
    DivisionParts(a, d);
    var k := q - a / d;
    assert k * d == q * d - (a / d) * d;
    FarMultiple(k, d);
  }

  lemma DivisionParts(a: nat, d: nat)
    requires d > 0
    ensures a == (a / d) * d + a % d && a % d < d
  {
  }

  lemma {:induction false} Pow2Sum(m: nat, n: nat)
    ensures Pow2(m + n) == Pow2(m) * Pow2(n)
  {
    if m > 0 {
      Pow2Sum(m - 1, n);
    }
  }

  /** `n` is what `v` holds in the bits of `b`, with `hi` above them and `lo` below. */
  ghost predicate HoldsBits(v: nat, b: BitField, hi: nat, n: nat, lo: nat)
    requires b.low <= b.high
  {
    v == hi * Pow2(b.high + 1) + n * Pow2(b.low) + lo && n < Pow2(b.high - b.low + 1) && lo < Pow2(b.low)
  }

  lemma ShiftedSum(hi: nat, w: nat, n: nat, p: nat)
    ensures hi * (w * p) + n * p == (hi * w + n) * p
  {
  }

  /** A bit field reads as the number that the double word holds in its bits, and as no other. */
  lemma BitFieldReads(v: nat, b: BitField, hi: nat, n: nat, lo: nat)
    requires b.low <= b.high && HoldsBits(v, b, hi, n, lo)
    ensures BitFieldValue(v, b) == n
  {
    var w := Pow2(b.high - b.low + 1);
    Pow2Sum(b.high - b.low + 1, b.low);
    ShiftedSum(hi, w, n, Pow2(b.low));
    DivisionIs(v, Pow2(b.low), hi * w + n, lo);
    DivisionIs(hi * w + n, w, hi, n);
  }

  lemma Parts(v: nat, p: nat, w: nat) returns (hi: nat, n: nat, lo: nat)
    requires p > 0 && w > 0
    ensures n == (v / p) % w && n < w && lo < p
    ensures v == hi * (w * p) + n * p + lo
  {
    DivisionParts(v, p);
    DivisionParts(v / p, w);
    hi, n, lo := (v / p) / w, (v / p) % w, v % p;
    ShiftedSum(hi, w, n, p);
  }

  lemma BitFieldHolds(v: nat, b: BitField) returns (hi: nat, lo: nat)
    requires b.low <= b.high
    ensures HoldsBits(v, b, hi, BitFieldValue(v, b), lo)
  {
    hide Pow2;
    var n: nat;
    Pow2Sum(b.high - b.low + 1, b.low);
    hi, n, lo := Parts(v, Pow2(b.low), Pow2(b.high - b.low + 1));
  }

  /** Double word `j` holds `n` in its packet type bits, and the table has a name for `n`. */
  ghost predicate HoldsType(f: Field, k: int, hi: nat, n: nat, lo: nat, kind: string) {
    && f.metadata.Some? && f.metadata.value.bitfields.Some?
    && var bs := f.metadata.value.bitfields.value;
    && FirstNamed(bs, "Packet Type", k) && bs[k].low <= bs[k].high && HoldsBits(f.value, bs[k], hi, n, lo)
    && bs[k].valueNames.Some? && n in bs[k].valueNames.value && bs[k].valueNames.value[n] == kind
  }

  lemma {:induction false} NamedIndex(fs: seq<BitField>, name: string) returns (k: nat)
    requires FindBitField(fs, name).Some?
    ensures FirstNamed(fs, name, k)
  {
    LowerIff(fs[0].name, name);
    if fs[0].shortName.Some? {
      LowerIff(fs[0].shortName.value, name);
    }
    k := 0;
    if !MatchName(fs[0], name) {
      var rest := fs[1..];
      var j := NamedIndex(rest, name);
      assert forall i :: 1 <= i < |fs| ==> fs[i] == rest[i - 1];
      k := j + 1;
    }
  }

  /** A type name comes from such bits only. */
  lemma TypeNameHolds(f: Field) returns (k: nat, hi: nat, n: nat, lo: nat)
    requires TypeName(f).Some?
    requires forall b :: b in f.metadata.value.bitfields.value ==> b.low <= b.high
    ensures HoldsType(f, k, hi, n, lo, TypeName(f).value)
  {
    var bs := f.metadata.value.bitfields.value;
    k := NamedIndex(bs, "Packet Type");
    BitFieldByName(bs, "Packet Type");
    n := BitFieldValue(f.value, bs[k]);
    hi, lo := BitFieldHolds(f.value, bs[k]);
  }

  lemma TypeNameIs(f: Field, k: int, hi: nat, n: nat, lo: nat, kind: string)
    requires HoldsType(f, k, hi, n, lo, kind)
    ensures TypeName(f) == Some(kind)
  {
    var bs := f.metadata.value.bitfields.value;
    BitFieldByName(bs, "Packet Type");
    BitFieldReads(f.value, bs[k], hi, n, lo);
  }

  /**
    If double word `j` is the first to hold a number with a name in its packet type bits, the double words
    after it get the metadata of the packet type with that name.
   */
  lemma TypedMetadata(control: seq<Metadata>, tables: map<Uuid, seq<Metadata>>, dwords: seq<nat>, j: nat, i: nat,
                      k: int, hi: nat, n: nat, lo: nat, kind: string)
    requires NIL in tables && j < i < |dwords|
    requires var uuid := UuidOf(BaseFields(control, tables[NIL], dwords)); uuid.Some? && uuid.value in tables
    requires var base := BaseFields(control, tables[NIL], dwords);
      var protocol := tables[UuidOf(base).value];
      && (forall l :: 0 <= l < j ==> TypeAt(base, protocol, l) == None)
      && FindMetadata(protocol, Offset(j), None).Some?
      && HoldsType(AnnotatedAt(base, protocol, j), k, hi, n, lo, kind)
    ensures HeaderMetadata(control, tables[NIL], i) == None ==>
      XDomainFields(control, tables, dwords)[i].metadata ==
        FindMetadata(tables[UuidOf(BaseFields(control, tables[NIL], dwords)).value], Offset(i), Some(kind))
  {
    var base := BaseFields(control, tables[NIL], dwords);
    var protocol := tables[UuidOf(base).value];
    TypeBeforeIs(base, protocol, j);
    assert TypeBefore(base, protocol, j) == None;
    TypeNameIs(AnnotatedAt(base, protocol, j), k, hi, n, lo, kind);
    assert TypeAt(base, protocol, j) == Some(kind);
    assert NamesType(base, protocol, i, j);
    FieldMetadata(control, tables, dwords, i);
  }

  // ---------- The protocol ----------

  predicate HasName(f: Field, name: string) {
    f.metadata.Some? && f.metadata.value.name == Some(name)
  }

  predicate Below(at: seq<nat>, n: nat) {
    forall k :: 0 <= k < |at| ==> at[k] < n
  }

  /** The positions of the double words with a name, in order. */
  ghost predicate Positions(fs: seq<Field>, name: string, at: seq<nat>) {
    && Below(at, |fs|)
    && (forall k :: 0 <= k < |at| ==> HasName(fs[at[k]], name))
    && (forall j, k :: 0 <= j < k < |at| ==> at[j] < at[k])
    && (forall i: nat :: i < |fs| && HasName(fs[i], name) ==> i in at)
  }

  lemma PositionsBefore(fs: seq<Field>, name: string, at: seq<nat>, n: nat) returns (before: seq<nat>)
    requires Positions(fs, name, at) && |fs| == n + 1
    ensures Positions(fs[..n], name, before) && Below(before, n)
    ensures at == before + if HasName(fs[n], name) then [n] else []
  {
    before := at;
    if HasName(fs[n], name) {
      var last := |at| - 1;
      before := at[..last];
      assert n in at;
      assert at[last] == n;
      forall i: nat | i < n && HasName(fs[i], name) ensures i in before {
        var k :| 0 <= k < |at| && at[k] == i;
        assert before[k] == i;
      }
    }
  }

  /** The values at some positions. */
  function ValuesAt(fs: seq<Field>, at: seq<nat>): seq<nat>
    requires Below(at, |fs|)
  {
    seq(|at|, k requires 0 <= k < |at| => fs[at[k]].value)
  }

  lemma ValuesSnoc(fs: seq<Field>, name: string, n: nat)
    requires |fs| == n + 1
    ensures ValuesNamed(fs, name) == ValuesNamed(fs[..n], name) + if HasName(fs[n], name) then [fs[n].value] else []
  {
  }

  lemma ValuesAtSnoc(fs: seq<Field>, before: seq<nat>, n: nat)
    requires |fs| == n + 1 && Below(before, n)
    ensures ValuesAt(fs, before) == ValuesAt(fs[..n], before)
    ensures ValuesAt(fs, before + [n]) == ValuesAt(fs[..n], before) + [fs[n].value]
  {
  }

  lemma {:induction false} NamedValues(fs: seq<Field>, name: string, at: seq<nat>)
    requires Positions(fs, name, at)
    ensures ValuesNamed(fs, name) == ValuesAt(fs, at)
    decreases fs
  {
    assert at != [] ==> at[0] < |fs|;
    if fs != [] {
      hide Positions, HasName, ValuesNamed, ValuesAt, Below;
      var n := |fs| - 1;
      var before := PositionsBefore(fs, name, at, n);
      ValuesSnoc(fs, name, n);
      NamedValues(fs[..n], name, before);
      ValuesAtSnoc(fs, before, n);
      assert before + [] == before && ValuesNamed(fs[..n], name) + [] == ValuesNamed(fs[..n], name);
    }
  }

  /** The protocol of a packet is given by the double words named UUID if there are four of them. */
  lemma UuidIs(fs: seq<Field>, at: seq<nat>)
    requires Positions(fs, "UUID", at)
    ensures UuidOf(fs) ==
      if |at| == 4 then Some([fs[at[0]].value, fs[at[1]].value, fs[at[2]].value, fs[at[3]].value]) else None
  {
    NamedValues(fs, "UUID", at);
    var values := ValuesNamed(fs, "UUID");
    if |at| == 4 {
      assert values == [values[0], values[1], values[2], values[3]];
    }
  }

  // ---------- The two passes, in place ----------

  function WithHeader(fs: seq<Field>, header: seq<Metadata>): (r: seq<Field>)
    ensures |r| == |fs|
  {
    seq(|fs|, i requires 0 <= i < |fs| =>
      fs[i].(metadata := OrElse(fs[i].metadata, FindMetadata(header, Offset(i), None))))
  }

  method ParseXDomainHeader(header: seq<Metadata>, fields: array<Field>)
    modifies fields
    ensures fields[..] == WithHeader(old(fields[..]), header)
  {
    for i := 0 to fields.Length
      invariant forall k :: 0 <= k < i ==> fields[k] == WithHeader(old(fields[..]), header)[k]
      invariant forall k :: i <= k < fields.Length ==> fields[k] == old(fields[k])
    {
      var m := FindMetadata(header, Offset(i), None);
      if m.Some? && fields[i].metadata == None {
        fields[i] := fields[i].(metadata := m);
      }
    }
  }

  /** What one round of the second pass makes of the packet type. */
  lemma TypeAfter(base: seq<Field>, protocol: seq<Metadata>, i: nat)
    requires i < |base|
    ensures var kind, field := TypeBefore(base, protocol, i), AnnotatedAt(base, protocol, i);
      TypeBefore(base, protocol, i + 1) ==
        if FindMetadata(protocol, Offset(i), kind).Some? && kind == None && FieldByName(field, "Packet Type").Some?
        then TypeName(field) else kind
  {
    hide FieldByName;
  }

  method ParseXDomainData(protocol: seq<Metadata>, fields: array<Field>)
    modifies fields
    ensures fields[..] == Annotated(old(fields[..]), protocol)
  {
    hide FindMetadata, FieldByName, TypeName;
    ghost var base := fields[..];
    var kind: Option<string> := None;
    for i := 0 to fields.Length
      invariant forall k :: 0 <= k < i ==> fields[k] == AnnotatedAt(base, protocol, k)
      invariant forall k :: i <= k < fields.Length ==> fields[k] == base[k]
      invariant kind == TypeBefore(base, protocol, i)
    {
      TypeAfter(base, protocol, i);
      var m := FindMetadata(protocol, Offset(i), kind);
      if m.Some? {
        if fields[i].metadata == None {
          fields[i] := fields[i].(metadata := m);
        }
        if kind == None && FieldByName(fields[i], "Packet Type").Some? {
          kind := TypeName(fields[i]);
        }
      }
    }
  }

  method ParseXDomain(tables: map<Uuid, seq<Metadata>>, fields: array<Field>) returns (uuid: Option<Uuid>)
    requires NIL in tables
    modifies fields
    ensures var base := WithHeader(old(fields[..]), tables[NIL]);
      && uuid == UuidOf(base)
      && fields[..] == if uuid == None || uuid.value !in tables then base else Annotated(base, tables[uuid.value])
  {
    ParseXDomainHeader(tables[NIL], fields);
    uuid := UuidOf(fields[..]);
    if uuid.Some? && uuid.value in tables {
      ParseXDomainData(tables[uuid.value], fields);
    }
  }

  // ---------- Whole packets ----------

  datatype Pdf =
    | Unknown | ReadRequest | ReadResponse | WriteRequest | WriteResponse | Notification | NotificationAck
    | HotPlugEvent | XdomainRequest | XdomainResponse | EnhancedNotificationAck | IcmEvent | IcmRequest | IcmResponse

  function ToNum(pdf: Pdf): Option<nat> {
    match pdf
    case ReadRequest | ReadResponse => Some(1)
    case WriteRequest | WriteResponse => Some(2)
    case Notification => Some(3)
    case NotificationAck => Some(4)
    case HotPlugEvent => Some(5)
    case XdomainRequest => Some(6)
    case XdomainResponse => Some(7)
    case EnhancedNotificationAck => Some(8)
    case IcmEvent => Some(10)
    case IcmRequest => Some(11)
    case IcmResponse => Some(12)
    case Unknown => None
  }

  predicate CompleteTable(control: map<nat, seq<Metadata>>) {
    {1, 2, 3, 4, 5, 6, 7, 8, 10, 11, 12} <= control.Keys
  }

  datatype Parsed =
    | NotKnown
    | Panicked  // a slice out of range, or an offset past 16 bits
    | Packet(fields: seq<Field>, dataStart: Option<nat>, uuid: Option<Uuid>)

  /** The first field with a bit field of this name. */
  function FirstWith(fs: seq<Field>, name: string): (r: Option<Field>)
    ensures r.Some? ==> r.value in fs && FieldByName(r.value, name).Some?
  {
    if fs == [] then None else if FieldByName(fs[0], name).Some? then Some(fs[0]) else FirstWith(fs[1..], name)
  }

  const PROPERTIES_GENERATION := "Properties Block Generation"

  /** The data follows the properties block generation. */
  function WithProperties(fields: seq<Field>, uuid: Option<Uuid>): Parsed {
    var f := FirstWith(fields, PROPERTIES_GENERATION);
    if f == None then Packet(fields, None, uuid)
    else if f.value.offset == 65535 || |fields| <= f.value.offset then Panicked
    else Packet(fields, Some(f.value.offset + 1), uuid)
  }

  function PacketOf(control: map<nat, seq<Metadata>>, tables: map<Uuid, seq<Metadata>>, pdf: Pdf, dwords: seq<nat>)
    : Parsed
    requires CompleteTable(control) && NIL in tables
  {
    var num := ToNum(pdf);
    if num == None then NotKnown
    else
      var metadata := control[num.value];
      var fields := BaseFields(metadata, [], dwords);
      match pdf
      case ReadResponse | WriteRequest =>
        if |metadata| <= |dwords| then Packet(fields, Some(Offset(|metadata|)), None) else Panicked
      case XdomainRequest | XdomainResponse =>
        WithProperties(XDomainFields(metadata, tables, dwords), UuidOf(BaseFields(metadata, tables[NIL], dwords)))
      case _ => Packet(fields, None, None)
  }

  lemma HeaderAfterControl(control: seq<Metadata>, header: seq<Metadata>, dwords: seq<nat>)
    ensures WithHeader(BaseFields(control, [], dwords), header) == BaseFields(control, header, dwords)
  {
  }

  lemma ControlField(control: seq<Metadata>, dwords: seq<nat>, i: nat)
    requires i < |dwords|
    ensures BaseFields(control, [], dwords)[i] == Field(Offset(i), dwords[i], FindOffset(control, Offset(i)))
  {
  }

  method ParsePacket(control: map<nat, seq<Metadata>>, tables: map<Uuid, seq<Metadata>>, pdf: Pdf, dwords: seq<nat>)
    returns (packet: Parsed)
    requires CompleteTable(control) && NIL in tables
    ensures packet == PacketOf(control, tables, pdf, dwords)
  {
    hide BaseFields, WithHeader, UuidOf, WithProperties, Annotated, FindOffset, Offset;
    var num := ToNum(pdf);
    if num == None {
      return NotKnown;
    }
    var metadata := control[num.value];
    var fields := new Field[|dwords|](_ => Field(0, 0, None));
    for i := 0 to |dwords|
      invariant forall k :: 0 <= k < i ==> fields[k] == BaseFields(metadata, [], dwords)[k]
    {
      ControlField(metadata, dwords, i);
      fields[i] := Field(Offset(i), dwords[i], FindOffset(metadata, Offset(i)));
    }
    assert fields[..] == BaseFields(metadata, [], dwords);
    if pdf.ReadResponse? || pdf.WriteRequest? {
      if |metadata| > |dwords| {
        return Panicked;
      }
      return Packet(fields[..], Some(Offset(|metadata|)), None);
    }
    if pdf.XdomainRequest? || pdf.XdomainResponse? {
      HeaderAfterControl(metadata, tables[NIL], dwords);
      var uuid := ParseXDomain(tables, fields);
      return WithProperties(fields[..], uuid);
    }
    return Packet(fields[..], None, None);
  }

  /** Double word `i` is the first one with the bit field. */
  ghost predicate FirstNaming(fs: seq<Field>, name: string, i: int) {
    0 <= i < |fs| && FieldByName(fs[i], name).Some? && forall j :: 0 <= j < i ==> FieldByName(fs[j], name) == None
  }

  lemma {:induction false} FirstWithIsFirst(fs: seq<Field>, name: string) returns (i: nat)
    ensures FirstWith(fs, name).Some? ==> FirstNaming(fs, name, i) && FirstWith(fs, name) == Some(fs[i])
    ensures FirstWith(fs, name) == None ==> forall j :: 0 <= j < |fs| ==> FieldByName(fs[j], name) == None
    decreases fs
  {
    i := 0;
    if fs != [] && FieldByName(fs[0], name) == None {
      var rest := fs[1..];
      var k := FirstWithIsFirst(rest, name);
      assert forall j :: 0 < j < |fs| ==> fs[j] == rest[j - 1];
      i := k + 1;
    }
  }

  ghost predicate OwnOffsets(fs: seq<Field>) {
    forall i :: 0 <= i < |fs| ==> fs[i].offset == Offset(i)
  }

  lemma OffsetBelow(i: nat)
    ensures Offset(i) <= i
    ensures Offset(i) == 65535 <==> (i + 1) % 65536 == 0
  {
  }

  /** The first field with the bit field is at a double word before a multiple of 65536. */
  ghost predicate DataWraps(fs: seq<Field>, name: string) {
    exists i :: FirstNaming(fs, name, i) && (i + 1) % 65536 == 0
  }

  lemma DataWrapsIff(fs: seq<Field>, name: string)
    requires OwnOffsets(fs)
    ensures DataWraps(fs, name) <==> FirstWith(fs, name).Some? && FirstWith(fs, name).value.offset == 65535
    ensures FirstWith(fs, name).Some? ==> FirstWith(fs, name).value.offset < |fs|
  {
    var k := FirstWithIsFirst(fs, name);
    OffsetBelow(k);
    if i :| FirstNaming(fs, name, i) && (i + 1) % 65536 == 0 {
      assert i == k;
    }
  }

  lemma FieldsOwnOffsets(control: seq<Metadata>, tables: map<Uuid, seq<Metadata>>, dwords: seq<nat>, fs: seq<Field>)
    requires NIL in tables && fs == XDomainFields(control, tables, dwords)
    ensures OwnOffsets(fs)
  {
    forall i | 0 <= i < |fs| ensures fs[i].offset == Offset(i) {
      FieldIs(control, tables, dwords, i);
    }
  }

  /**
    Where overflow is checked, inter-domain parsing panics exactly when the data would start at a
    multiple of 65536; unchecked arithmetic takes the data to start at 0 then.
   */
  lemma XDomainPanicsIff(control: seq<Metadata>, tables: map<Uuid, seq<Metadata>>, dwords: seq<nat>, uuid: Option<Uuid>)
    requires NIL in tables
    ensures WithProperties(XDomainFields(control, tables, dwords), uuid).Panicked? <==>
      DataWraps(XDomainFields(control, tables, dwords), PROPERTIES_GENERATION)
  {
    var fields := XDomainFields(control, tables, dwords);
    FieldsOwnOffsets(control, tables, dwords, fields);
    DataWrapsIff(fields, PROPERTIES_GENERATION);
  }

  lemma ShortDoesNotWrap(fs: seq<Field>, name: string)
    requires |fs| < 65536
    ensures !DataWraps(fs, name)
  {
  }

  /** Read and write packets share a number with their replies, and no other two kinds of packets have the same. */
  lemma PacketNumbers(pdf: Pdf)
    ensures ToNum(pdf) == Some(1) <==> pdf in {ReadRequest, ReadResponse}
    ensures ToNum(pdf) == Some(2) <==> pdf in {WriteRequest, WriteResponse}
    ensures ToNum(pdf) == Some(3) <==> pdf == Notification
    ensures ToNum(pdf) == Some(4) <==> pdf == NotificationAck
    ensures ToNum(pdf) == Some(5) <==> pdf == HotPlugEvent
    ensures ToNum(pdf) == Some(6) <==> pdf == XdomainRequest
    ensures ToNum(pdf) == Some(7) <==> pdf == XdomainResponse
    ensures ToNum(pdf) == Some(8) <==> pdf == EnhancedNotificationAck
    ensures ToNum(pdf) == Some(10) <==> pdf == IcmEvent
    ensures ToNum(pdf) == Some(11) <==> pdf == IcmRequest
    ensures ToNum(pdf) == Some(12) <==> pdf == IcmResponse
    ensures ToNum(pdf) == None <==> pdf == Unknown
  {
  }

  /**
    Where the data starts: after the metadata of a read response or write request, after the first double word
    with the properties generation in an inter-domain packet, and nowhere in other packets.
   */
  lemma DataStart(control: map<nat, seq<Metadata>>, tables: map<Uuid, seq<Metadata>>, pdf: Pdf, dwords: seq<nat>)
    requires CompleteTable(control) && NIL in tables && PacketOf(control, tables, pdf, dwords).Packet?
    ensures var p := PacketOf(control, tables, pdf, dwords);
      && |p.fields| == |dwords|
      && (pdf == ReadResponse ==> p.dataStart == Some(|control[1]| % 65536))
      && (pdf == WriteRequest ==> p.dataStart == Some(|control[2]| % 65536))
      && (pdf in {XdomainRequest, XdomainResponse} ==>
            && (forall i :: FirstNaming(p.fields, "Properties Block Generation", i) ==>
                  p.dataStart == Some(i % 65536 + 1))
            && ((forall i :: 0 <= i < |dwords| ==> FieldByName(p.fields[i], "Properties Block Generation") == None) ==>
                  p.dataStart == None))
      && (pdf !in {ReadResponse, WriteRequest, XdomainRequest, XdomainResponse} ==> p.dataStart == None)
  {
    hide XDomainFields, UuidOf, FieldByName, BaseFields;
    if pdf in {XdomainRequest, XdomainResponse} {
      var metadata := control[ToNum(pdf).value];
      var fields := XDomainFields(metadata, tables, dwords);
      FieldsOwnOffsets(metadata, tables, dwords, fields);
      var k := FirstWithIsFirst(fields, PROPERTIES_GENERATION);
    }
  }

  /** A read response or write request with fewer double words than its metadata has entries. */
  predicate TooShort(control: map<nat, seq<Metadata>>, pdf: Pdf, dwords: seq<nat>)
    requires CompleteTable(control)
  {
    pdf in {ReadResponse, WriteRequest} && |dwords| < |control[ToNum(pdf).value]|
  }

  /** Parsing panics exactly on these packets, and on inter-domain packets whose data start wraps. */
  lemma PacketPanicsIff(control: map<nat, seq<Metadata>>, tables: map<Uuid, seq<Metadata>>, pdf: Pdf, dwords: seq<nat>)
    requires CompleteTable(control) && NIL in tables
    ensures PacketOf(control, tables, pdf, dwords).Panicked? <==>
      || TooShort(control, pdf, dwords)
      || (pdf in {XdomainRequest, XdomainResponse} &&
            DataWraps(XDomainFields(control[ToNum(pdf).value], tables, dwords), PROPERTIES_GENERATION))
  {
    hide XDomainFields, WithProperties, BaseFields, UuidOf;
    if pdf in {XdomainRequest, XdomainResponse} {
      var metadata := control[ToNum(pdf).value];
      XDomainPanicsIff(metadata, tables, dwords, UuidOf(BaseFields(metadata, tables[NIL], dwords)));
    }
  }

  /** Below 65536 double words only those panic, and no inter-domain packet does. */
  lemma ShortPacketsParse(control: map<nat, seq<Metadata>>, tables: map<Uuid, seq<Metadata>>, pdf: Pdf,
                          dwords: seq<nat>)
    requires CompleteTable(control) && NIL in tables && |dwords| < 65536
    ensures PacketOf(control, tables, pdf, dwords).Panicked? <==> TooShort(control, pdf, dwords)
  {
    PacketPanicsIff(control, tables, pdf, dwords);
    if pdf in {XdomainRequest, XdomainResponse} {
      ShortDoesNotWrap(XDomainFields(control[ToNum(pdf).value], tables, dwords), PROPERTIES_GENERATION);
    }
  }
}
