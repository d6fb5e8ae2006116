/**
  The body of a device ROM image (src/drom.rs: Drom::parse, DromEntries and the structural kinds of
  DromEntry).

  An image is a header followed by entries; the first byte of an entry is its length in bytes.
  DromTiling is about cutting the body into entries, DromCodec about what one entry means and when
  decoding it panics, DromIterator about the iterator that does both, and DromDecoder about all entries.
 */
module DromTiling {
  import opened Sequences
  import opened Wrappers

  // ---------- Lengths ----------

  predicate GoodLength(bytes: seq<bv8>, offset: nat)
    requires offset < |bytes|
  {
    bytes[offset] != 0 && offset + bytes[offset] as nat <= |bytes|
  }

  /** The offset of the first entry that is empty or does not fit. */
  function FirstBad(bytes: seq<bv8>, offset: nat): (r: Option<nat>)
    ensures r.Some? ==> r.value < |bytes| && !GoodLength(bytes, r.value)
    decreases |bytes| - offset
  {
    if offset >= |bytes| then None
    else if !GoodLength(bytes, offset) then Some(offset)
    else FirstBad(bytes, offset + bytes[offset] as nat)
  }

  // ---------- The slices tile the body ----------

  /** The first byte of an entry is its length. */
  predicate Sized(e: seq<bv8>) {
    e != [] && e[0] as nat == |e|
  }

  predicate AllSized(es: seq<seq<bv8>>) {
    forall i :: 0 <= i < |es| ==> Sized(es[i])
  }

  /** What the iterator hands to DromEntry::parse. */
  function Slices(bytes: seq<bv8>, offset: nat): seq<seq<bv8>>
    requires FirstBad(bytes, offset) == None
    decreases |bytes| - offset
  {
    if offset >= |bytes| then []
    else
      var next := offset + bytes[offset] as nat;
      [bytes[offset..next]] + Slices(bytes, next)
  }

  lemma {:induction false} SlicesSized(bytes: seq<bv8>, offset: nat)
    requires FirstBad(bytes, offset) == None
    ensures AllSized(Slices(bytes, offset))
    decreases |bytes| - offset
  {
    if offset < |bytes| {
      var next := offset + bytes[offset] as nat;
      SlicesSized(bytes, next);
      assert Sized(bytes[offset..next]);
    }
  }

  lemma Cut<T>(s: seq<T>, i: nat, j: nat)
    requires i <= j <= |s|
    ensures s[i..] == s[i..j] + s[j..]
  {
  }

  /** The slices cover the body exactly, in order and without overlap. */
  lemma {:induction false} SlicesTile(bytes: seq<bv8>, offset: nat)
    requires FirstBad(bytes, offset) == None && offset <= |bytes|
    ensures Flatten(Slices(bytes, offset)) == bytes[offset..]
    decreases |bytes| - offset
  {
    if offset < |bytes| {
      var next := offset + bytes[offset] as nat;
      SlicesTile(bytes, next);
      Cut(bytes, offset, next);
    }
  }

  lemma FirstBytes(bytes: seq<bv8>, offset: nat, e: seq<bv8>, rest: seq<bv8>)
    requires offset <= |bytes| && e != [] && bytes[offset..] == e + rest
    ensures offset + |e| <= |bytes| && bytes[offset] == e[0]
    ensures bytes[offset..offset + |e|] == e && bytes[offset + |e|..] == rest
  {
    var tail := bytes[offset..];
    assert tail[0] == e[0] && tail[..|e|] == e && tail[|e|..] == rest;
  }

  lemma FirstSlice(bytes: seq<bv8>, offset: nat, next: nat)
    requires offset < next <= |bytes| && next == offset + bytes[offset] as nat
    ensures FirstBad(bytes, offset) == FirstBad(bytes, next)
    ensures FirstBad(bytes, next) == None ==> Slices(bytes, offset) == [bytes[offset..next]] + Slices(bytes, next)
  {
  }

  /** Any way to cut the body into entries is the iterator's, and makes the body well-formed. */
  lemma {:induction false} TilingUnique(bytes: seq<bv8>, offset: nat, es: seq<seq<bv8>>)
    requires offset <= |bytes| && AllSized(es) && Flatten(es) == bytes[offset..]
    ensures FirstBad(bytes, offset) == None
    ensures Slices(bytes, offset) == es
    decreases es
  {
    if es != [] {
      var e, rest := es[0], es[1..];
      assert Sized(e) && es == [e] + rest;
      FirstBytes(bytes, offset, e, Flatten(rest));
      FirstSlice(bytes, offset, offset + |e|);
      TilingUnique(bytes, offset + |e|, rest);
    }
  }
}

/** The adapter, USB3 port mapping and DPTX ranking entries: decoding, and what it inverts. */
module DromCodec {
  import opened Wrappers
  import opened DromTiling
  import opened Sequences

  // ---------- Entries ----------

  datatype Kind = DisplayPortIn | DisplayPortOut | Lane | PcieUp | PcieDown | OtherKind

  /** What the decoder needs to know of an adapter of the router. */
  datatype AdapterInfo = AdapterInfo(num: bv8, kind: Kind)

  datatype Usb3PortMap = Usb3PortMap(
    usb3Port: bv8, pdPort: bv8, xhciIndex: bv8, typeC: bool, usb3Adapter: bv8, tunneling: bool)

  datatype RankType = Power | Performance | Reserved(value: bv8)

  datatype DptxRank = DptxRank(rankType: RankType, rank: bv8)

  datatype Entry =
    | Unknown(bytes: seq<bv8>)
    | Adapter(disabled: bool, num: bv8)
    | UnusedAdapter(num: bv8)
    | DisplayPortAdapter(num: bv8, preferredLane: bv8, preferenceValid: bool)
    | LaneAdapter(num: bv8, lane1: bool, dualLane: bool, dualLaneNum: bv8)
    | PcieUpAdapter(num: bv8, functionNum: bv8, deviceNum: bv8)
    | PcieDownAdapter(num: bv8, functionNum: bv8, deviceNum: bv8)
    | Usb3PortMapping(maps: seq<Usb3PortMap>)
    | DptxRanking(num: bv8, nrr: bv8, mh: bool, preferredOrder: bv8, mu: bv8, records: seq<DptxRank>)
    | Undecoded(bytes: seq<bv8>)  // a generic entry whose contents are not modelled

  const ASCII_VENDOR_NAME: bv8 := 0x01
  const ASCII_MODEL_NAME: bv8 := 0x02
  const TMU: bv8 := 0x08
  const PRODUCT: bv8 := 0x09
  const SERIAL_NUMBER: bv8 := 0x0a
  const USB3_PORT_MAPPING: bv8 := 0x0b
  const UTF16_VENDOR_NAME: bv8 := 0x0c
  const UTF16_MODEL_NAME: bv8 := 0x0d
  const SINGLE_DATA_PATH: bv8 := 0x0e
  const DPTX_RANKING: bv8 := 0x0f
  const EMBEDDED_LINK: bv8 := 0x10

  // ---------- Decoding ----------

  /** The first adapter with the number. */
  function KindOf(adapters: seq<AdapterInfo>, num: bv8): Option<Kind> {
    if adapters == [] then None
    else if adapters[0].num == num then Some(adapters[0].kind)
    else KindOf(adapters[1..], num)
  }

  /** The lookup finds the first adapter with the number if there is one. */
  lemma {:induction false} KindOfFirst(adapters: seq<AdapterInfo>, num: bv8, k: nat)
    requires k <= |adapters| && (k < |adapters| ==> adapters[k].num == num)
    requires forall j :: 0 <= j < k ==> adapters[j].num != num
    ensures KindOf(adapters, num) == if k < |adapters| then Some(adapters[k].kind) else None
  {
    if k > 0 {
      KindOfFirst(adapters[1..], num, k - 1);
    }
  }

  function DeviceNum(b: bv8): bv8 {
    (((b & 0x18) >> 3) << 3) | ((b & 0xe0) >> 5)
  }

  /** A byte that goes on a multi-byte character. */
  predicate Tail(b: bv8) {
    0x80 <= b as nat <= 0xbf
  }

  /** Well-formed UTF-8, section 4 of RFC 3629. */
  predicate Utf8(s: seq<bv8>) {
    if s == [] then true
    else
      var b := s[0] as nat;
      if b <= 0x7f then Utf8(s[1..])
      else if 0xc2 <= b <= 0xdf then |s| >= 2 && Tail(s[1]) && Utf8(s[2..])
      else if 0xe0 <= b <= 0xef then
        && |s| >= 3 && Tail(s[1]) && Tail(s[2]) && Utf8(s[3..])
        && (b == 0xe0 ==> 0xa0 <= s[1] as nat) && (b == 0xed ==> s[1] as nat <= 0x9f)
      else if 0xf0 <= b <= 0xf4 then
        && |s| >= 4 && Tail(s[1]) && Tail(s[2]) && Tail(s[3]) && Utf8(s[4..])
        && (b == 0xf0 ==> 0x90 <= s[1] as nat) && (b == 0xf4 ==> s[1] as nat <= 0x8f)
      else false
  }

  /** A code point that is not a surrogate. */
  predicate Scalar(v: nat) {
    v < 0xd800 || 0xe000 <= v < 0x11_0000
  }

  /** The six bits of a byte after the first one. */
  function Six(b: bv8): int {
    b as int - 0x80
  }

  /** The bytes that section 3 of RFC 3629 gives for a code point. */
  predicate EncodesChar(c: seq<bv8>, v: nat) {
    && (forall i :: 1 <= i < |c| ==> 0 <= Six(c[i]) < 64)
    && if v < 0x80 then |c| == 1 && v == c[0] as nat
       else if v < 0x800 then |c| == 2 && v == (c[0] as nat - 0xc0) * 64 + Six(c[1])
       else if v < 0x1_0000 then |c| == 3 && v == (c[0] as nat - 0xe0) * 4096 + Six(c[1]) * 64 + Six(c[2])
       else |c| == 4 && v == (c[0] as nat - 0xf0) * 26_2144 + Six(c[1]) * 4096 + Six(c[2]) * 64 + Six(c[3])
  }

  ghost predicate IsChar(c: seq<bv8>) {
    exists v :: Scalar(v) && EncodesChar(c, v)
  }

  lemma FirstChar(c: seq<bv8>, v: nat, rest: seq<bv8>)
    requires Scalar(v) && EncodesChar(c, v)
    ensures Utf8(c + rest) == Utf8(rest)
  {
    var s := c + rest;
    assert s[|c|..] == rest;
    assert s[0] == c[0] && (|c| > 1 ==> s[1] == c[1]) && (|c| > 2 ==> s[2] == c[2]) && (|c| > 3 ==> s[3] == c[3]);
  }

  lemma CharOfTwo(c: seq<bv8>)
    requires |c| == 2 && 0xc2 <= c[0] as nat <= 0xdf && Tail(c[1])
    ensures IsChar(c)
  {
    assert EncodesChar(c, (c[0] as nat - 0xc0) * 64 + Six(c[1]));
  }

  lemma CharOfThree(c: seq<bv8>)
    requires |c| == 3 && 0xe0 <= c[0] as nat <= 0xef && Tail(c[1]) && Tail(c[2])
    requires (c[0] as nat == 0xe0 ==> 0xa0 <= c[1] as nat) && (c[0] as nat == 0xed ==> c[1] as nat <= 0x9f)
    ensures IsChar(c)
  {
    var v := (c[0] as nat - 0xe0) * 4096 + Six(c[1]) * 64 + Six(c[2]);
    assert Scalar(v) && EncodesChar(c, v);
  }

  lemma FourInRange(b: int, t: int, u: int, w: int)
    requires 0 <= b <= 4 && 0 <= t < 64 && 0 <= u < 64 && 0 <= w < 64 && (b == 0 ==> 16 <= t) && (b == 4 ==> t < 16)
    ensures 0x1_0000 <= b * 26_2144 + t * 4096 + u * 64 + w < 0x11_0000
  {
  }

  lemma CharOfFour(c: seq<bv8>)
    requires |c| == 4 && 0xf0 <= c[0] as nat <= 0xf4 && Tail(c[1]) && Tail(c[2]) && Tail(c[3])
    requires (c[0] as nat == 0xf0 ==> 0x90 <= c[1] as nat) && (c[0] as nat == 0xf4 ==> c[1] as nat <= 0x8f)
    ensures IsChar(c)
  {
    var b, t, u, w := c[0] as int - 0xf0, Six(c[1]), Six(c[2]), Six(c[3]);
    FourInRange(b, t, u, w);
    hide Six;
    var v := b * 26_2144 + t * 4096 + u * 64 + w;
    assert Scalar(v) && EncodesChar(c, v);
  }

  /** The first character of a text. */
  lemma TakeChar(s: seq<bv8>) returns (k: nat)
    requires s != [] && Utf8(s)
    ensures 0 < k <= |s| && IsChar(s[..k]) && Utf8(s[k..])
  {
    var b := s[0] as nat;
    hide IsChar;
    if b <= 0x7f {
      k := 1;
      CharOfOne(s[..1]);
    } else if b <= 0xdf {
      k := 2;
      CharOfTwo(s[..2]);
    } else if b <= 0xef {
      k := 3;
      CharOfThree(s[..3]);
    } else {
      k := 4;
      CharOfFour(s[..4]);
    }
  }

  lemma CharOfOne(c: seq<bv8>)
    requires |c| == 1 && c[0] as nat <= 0x7f
    ensures IsChar(c)
  {
    assert EncodesChar(c, c[0] as nat);
  }

  ghost predicate AllChars(cs: seq<seq<bv8>>) {
    forall i :: 0 <= i < |cs| ==> IsChar(cs[i])
  }

  lemma {:induction false} CharsAreUtf8(cs: seq<seq<bv8>>)
    requires AllChars(cs)
    ensures Utf8(Flatten(cs))
  {
    if cs != [] {
      assert IsChar(cs[0]);
      var v :| Scalar(v) && EncodesChar(cs[0], v);
      CharsAreUtf8(cs[1..]);
      FirstChar(cs[0], v, Flatten(cs[1..]));
    }
  }

  lemma {:induction false} Utf8IsChars(s: seq<bv8>) returns (cs: seq<seq<bv8>>)
    requires Utf8(s)
    ensures AllChars(cs) && Flatten(cs) == s
    decreases |s|
  {
    if s == [] {
      cs := [];
    } else {
      var k := TakeChar(s);
      var rest := Utf8IsChars(s[k..]);
      cs := [s[..k]] + rest;
      assert cs[1..] == rest;
    }
  }

  /** Well-formed UTF-8 is exactly the concatenations of encoded code points. */
  lemma Utf8Iff(s: seq<bv8>)
    ensures Utf8(s) <==> exists cs :: AllChars(cs) && Flatten(cs) == s
  {
    if Utf8(s) {
      var cs := Utf8IsChars(s);
    }
    if cs :| AllChars(cs) && Flatten(cs) == s {
      CharsAreUtf8(cs);
    }
  }

  /** CStr::from_bytes_until_nul: the bytes before the first zero. */
  function UntilNul(s: seq<bv8>): (r: Option<seq<bv8>>)
    ensures r == None <==> 0 !in s
    ensures r.Some? ==> |r.value| < |s| && r.value == s[..|r.value|] && s[|r.value|] == 0 && 0 !in r.value
  {
    if s == [] then None
    else if s[0] == 0 then Some([])
    else
      var rest := UntilNul(s[1..]);
      if rest == None then None else Some([s[0]] + rest.value)
  }

  /** The other generic kinds: None where reading the fields panics. */
  function ParseOther(b: seq<bv8>, kind: bv8): Option<Entry>
    requires 2 <= |b|
  {
    if kind == ASCII_VENDOR_NAME || kind == ASCII_MODEL_NAME then
      var name := UntilNul(b[2..]);
      if name == None || !Utf8(name.value) then None else Some(Undecoded(b))
    else if kind == TMU then (if |b| <= 2 then None else Some(Undecoded(b)))
    else if kind == PRODUCT then (if |b| <= 13 then None else Some(Undecoded(b)))
    else if kind == SERIAL_NUMBER then (if |b| <= 3 || |b[4..]| % 2 != 0 then None else Some(Undecoded(b)))
    else if kind == UTF16_VENDOR_NAME || kind == UTF16_MODEL_NAME then
      if |b[2..]| % 2 != 0 then None else Some(Undecoded(b))
    else if kind == SINGLE_DATA_PATH then (if |b| <= 3 then None else Some(Undecoded(b)))
    else if kind == EMBEDDED_LINK then (if |b| <= 2 then None else Some(Undecoded(b)))
    else Some(Undecoded(b))
  }

  /** DromEntry::parse; None is a panic. */
  function Parse(b: seq<bv8>, adapters: seq<AdapterInfo>): Option<Entry> {
    if |b| < 2 then Some(Unknown(b))
    else if b[1] & 0x80 > 0 then ParseAdapter(b, adapters)
    else if b[1] & 0x3f == USB3_PORT_MAPPING then Some(Usb3PortMapping(Mappings(b[2..])))
    else if b[1] & 0x3f == DPTX_RANKING then ParseRanking(b)
    else ParseOther(b, b[1] & 0x3f)
  }

  function ParseAdapter(b: seq<bv8>, adapters: seq<AdapterInfo>): Option<Entry>
    requires 2 <= |b|
  {
    var num := b[1] & 0x3f;
    if b[1] & 0x40 > 0 then Some(UnusedAdapter(num))
    else
      match KindOf(adapters, num)
      case None | Some(OtherKind) => Some(Adapter(b[1] & 0x40 > 0, num))
      case Some(DisplayPortIn) | Some(DisplayPortOut) =>
        if |b| <= 4 then None else Some(DisplayPortAdapter(num, b[4] & 0x3f, b[4] & 0x40 > 0))
      case Some(Lane) =>
        if |b| <= 3 then None else Some(LaneAdapter(num, b[2] & 0x10 > 0, b[2] & 0x80 > 0, b[3] & 0x3f))
      case Some(PcieUp) => if |b| <= 2 then None else Some(PcieUpAdapter(num, b[2] & 0x07, DeviceNum(b[2])))
      case Some(PcieDown) => if |b| <= 2 then None else Some(PcieDownAdapter(num, b[2] & 0x07, DeviceNum(b[2])))
  }

  function Mapping(m0: bv8, m1: bv8, m2: bv8): Usb3PortMap {
    Usb3PortMap(m0 & 0xf, m1 & 0x1f, (m1 & 0x60) >> 5, m1 & 0x80 > 0, m2 & 0x3f, m2 & 0x80 > 0)
  }

  /** One mapping for each three bytes; one or two bytes at the end are ignored. */
  function Mappings(data: seq<bv8>): seq<Usb3PortMap> {
    if |data| < 3 then [] else [Mapping(data[0], data[1], data[2])] + Mappings(data[3..])
  }

  function Rank(r: bv8): DptxRank {
    DptxRank(if r & 0x1f == 0 then Power else if r & 0x1f == 1 then Performance else Reserved(r & 0x1f), (r >> 5) & 0x7)
  }

  function Ranks(data: seq<bv8>): (rs: seq<DptxRank>)
    ensures |rs| == |data|
  {
    if data == [] then [] else [Rank(data[0])] + Ranks(data[1..])
  }

  function ParseRanking(b: seq<bv8>): Option<Entry>
    requires 2 <= |b|
  {
    if |b| <= 3 then None
    else
      var nrr := b[3] & 0xf;
      var end := 5 + nrr as nat;
      if |b| < end then None
      else
        var mh := b[3] & 0x10 > 0;
        Some(DptxRanking(b[2] & 0x1f, nrr, mh, (b[3] >> 5) & 0x7, if mh then b[4] & 0x1f else 0, Ranks(b[5..end])))
  }

  /** The loop over the chunks of a port mapping. */
  method CollectMappings(data: seq<bv8>) returns (mappings: seq<Usb3PortMap>)
    ensures mappings == Mappings(data)
  {
    mappings := [];
    var i := 0;
    while 3 * i + 3 <= |data|
      invariant 3 * i <= |data|
      invariant mappings + Mappings(data[3 * i..]) == Mappings(data)
    {
      var rest := data[3 * i..];
      assert rest[3..] == data[3 * (i + 1)..];
      mappings := mappings + [Mapping(data[3 * i], data[3 * i + 1], data[3 * i + 2])];
      i := i + 1;
    }
  }

  /** The loop over the records of a ranking. */
  method CollectRanks(data: seq<bv8>) returns (records: seq<DptxRank>)
    ensures records == Ranks(data)
  {
    records := [];
    for i := 0 to |data|
      invariant records + Ranks(data[i..]) == Ranks(data)
    {
      assert data[i..][1..] == data[i + 1..];
      records := records + [Rank(data[i])];
    }
  }

  // ---------- Encoding ----------

  function Flag(on: bool, m: bv8): bv8 {
    if on then m else 0
  }

  function MappingBytes(m: Usb3PortMap): seq<bv8> {
    [m.usb3Port, m.pdPort | (m.xhciIndex << 5) | Flag(m.typeC, 0x80), m.usb3Adapter | Flag(m.tunneling, 0x80)]
  }

  function MappingsBytes(ms: seq<Usb3PortMap>): (r: seq<bv8>)
    ensures |r| == 3 * |ms|
  {
    if ms == [] then [] else MappingBytes(ms[0]) + MappingsBytes(ms[1..])
  }

  function RankByte(r: DptxRank): bv8 {
    (match r.rankType case Power => 0 case Performance => 1 case Reserved(v) => v) | (r.rank << 5)
  }

  function RankBytes(rs: seq<DptxRank>): (r: seq<bv8>)
    ensures |r| == |rs|
  {
    if rs == [] then [] else [RankByte(rs[0])] + RankBytes(rs[1..])
  }

  function PcieByte(functionNum: bv8, deviceNum: bv8): bv8 {
    functionNum | (deviceNum & 0x18) | ((deviceNum & 0x07) << 5)
  }

  /** The bytes of an entry after its length, with zero in the bits that have no meaning. */
  function Payload(e: Entry): seq<bv8>
    requires Structural(e)
  {
    match e
    case Adapter(disabled, num) => [0x80 | Flag(disabled, 0x40) | num]
    case UnusedAdapter(num) => [0x80 | 0x40 | num]
    case DisplayPortAdapter(num, lane, valid) => [0x80 | num, 0, 0, lane | Flag(valid, 0x40)]
    case LaneAdapter(num, lane1, dual, dualNum) => [0x80 | num, Flag(lane1, 0x10) | Flag(dual, 0x80), dualNum]
    case PcieUpAdapter(num, functionNum, deviceNum) => [0x80 | num, PcieByte(functionNum, deviceNum)]
    case PcieDownAdapter(num, functionNum, deviceNum) => [0x80 | num, PcieByte(functionNum, deviceNum)]
    case Usb3PortMapping(maps) => [USB3_PORT_MAPPING] + MappingsBytes(maps)
    case DptxRanking(num, nrr, mh, order, mu, records) =>
      [DPTX_RANKING, num, nrr | Flag(mh, 0x10) | (order << 5), mu] + RankBytes(records)
  }

  predicate Structural(e: Entry) {
    !e.Unknown? && !e.Undecoded?
  }

  /** The entry as laid out in an image: its length, its payload, and bytes that the decoder ignores. */
  function Encode(len: bv8, e: Entry, pad: seq<bv8>): (b: seq<bv8>)
    requires Structural(e) && len as nat == 1 + |Payload(e)| + |pad|
    ensures Sized(b)
  {
    [len] + Payload(e) + pad
  }

  // ---------- Which entries have a layout ----------

  predicate MappingInRange(m: Usb3PortMap) {
    m.usb3Port <= 0xf && m.pdPort <= 0x1f && m.xhciIndex <= 0x3 && m.usb3Adapter <= 0x3f
  }

  predicate RankInRange(r: DptxRank) {
    (r.rankType.Reserved? ==> 2 <= r.rankType.value <= 0x1f) && r.rank <= 0x7
  }

  /** Every field fits its bits, and the kind of an adapter entry is that of the adapter. */
  predicate InRange(e: Entry, adapters: seq<AdapterInfo>) {
    match e
    case Adapter(disabled, num) => !disabled && num <= 0x3f && KindOf(adapters, num) in {None, Some(OtherKind)}
    case UnusedAdapter(num) => num <= 0x3f
    case DisplayPortAdapter(num, lane, _) =>
      num <= 0x3f && lane <= 0x3f && KindOf(adapters, num) in {Some(DisplayPortIn), Some(DisplayPortOut)}
    case LaneAdapter(num, _, _, dualNum) => num <= 0x3f && dualNum <= 0x3f && KindOf(adapters, num) == Some(Lane)
    case PcieUpAdapter(num, functionNum, deviceNum) =>
      num <= 0x3f && functionNum <= 0x7 && deviceNum <= 0x1f && KindOf(adapters, num) == Some(PcieUp)
    case PcieDownAdapter(num, functionNum, deviceNum) =>
      num <= 0x3f && functionNum <= 0x7 && deviceNum <= 0x1f && KindOf(adapters, num) == Some(PcieDown)
    case Usb3PortMapping(maps) => forall i :: 0 <= i < |maps| ==> MappingInRange(maps[i])
    case DptxRanking(num, nrr, mh, order, mu, records) =>
      && num <= 0x1f && |records| <= 15 && nrr as nat == |records| && order <= 0x7 && mu <= 0x1f && (!mh ==> mu == 0)
      && forall i :: 0 <= i < |records| ==> RankInRange(records[i])
    case _ => false
  }

  /** After the mappings a third byte would be part of another mapping. */
  predicate GoodPad(e: Entry, pad: seq<bv8>) {
    e.Usb3PortMapping? ==> |pad| < 3
  }

  // ---------- Decoding inverts encoding ----------

  lemma MappingBack(m: Usb3PortMap, m0: bv8, m1: bv8, m2: bv8)
    requires MappingInRange(m) && MappingBytes(m) == [m0, m1, m2]
    ensures Mapping(m0, m1, m2) == m
  {
    assert m0 == MappingBytes(m)[0] && m1 == MappingBytes(m)[1] && m2 == MappingBytes(m)[2];
  }

  lemma RankBack(r: DptxRank)
    requires RankInRange(r)
    ensures Rank(RankByte(r)) == r
  {
  }

  lemma {:induction false} MappingsBack(ms: seq<Usb3PortMap>, pad: seq<bv8>)
    requires |pad| < 3 && forall i :: 0 <= i < |ms| ==> MappingInRange(ms[i])
    ensures Mappings(MappingsBytes(ms) + pad) == ms
  {
    if ms == [] {
      assert MappingsBytes(ms) + pad == pad;
    } else {
      var rest := MappingsBytes(ms[1..]) + pad;
      assert MappingsBytes(ms) + pad == MappingBytes(ms[0]) + rest;
      MappingsBack(ms[1..], pad);
      var first := MappingBytes(ms[0]);
      MappingBack(ms[0], first[0], first[1], first[2]);
      assert (MappingBytes(ms[0]) + rest)[3..] == rest;
    }
  }

  lemma {:induction false} RanksBack(rs: seq<DptxRank>)
    requires forall i :: 0 <= i < |rs| ==> RankInRange(rs[i])
    ensures Ranks(RankBytes(rs)) == rs
  {
    if rs != [] {
      RankBack(rs[0]);
      RanksBack(rs[1..]);
    }
  }

  lemma RankingBack(e: Entry, b: seq<bv8>, b3: bv8)
    requires e.DptxRanking? && InRange(e, [])
    requires b3 == e.nrr | Flag(e.mh, 0x10) | (e.preferredOrder << 5)
    requires |b| >= 5 + |e.records| && b[2] == e.num && b[3] == b3 && b[4] == e.mu
    requires b[5..5 + |e.records|] == RankBytes(e.records)
    ensures ParseRanking(b) == Some(e)
  {
    RanksBack(e.records);
  }

  lemma AdapterBack(e: Entry, b: seq<bv8>, b1: bv8, adapters: seq<AdapterInfo>)
    requires e.Adapter? || e.UnusedAdapter?
    requires InRange(e, adapters) && b1 == 0x80 | Flag(e.UnusedAdapter?, 0x40) | e.num
    requires |b| >= 2 && b[1] == b1
    ensures Parse(b, adapters) == Some(e)
  {
  }

  lemma DisplayPortFields(e: Entry, b: seq<bv8>, b1: bv8, b4: bv8, adapters: seq<AdapterInfo>)
    requires e.DisplayPortAdapter? && KindOf(adapters, e.num) in {Some(DisplayPortIn), Some(DisplayPortOut)}
    requires b1 & 0x40 == 0 && b1 & 0x3f == e.num
    requires b4 & 0x3f == e.preferredLane && (b4 & 0x40 > 0 <==> e.preferenceValid)
    requires |b| >= 5 && b[1] == b1 && b[4] == b4
    ensures ParseAdapter(b, adapters) == Some(e)
  {
  }

  lemma DisplayPortBack(e: Entry, b: seq<bv8>, b1: bv8, b4: bv8, adapters: seq<AdapterInfo>)
    requires e.DisplayPortAdapter? && InRange(e, adapters)
    requires b1 == 0x80 | e.num && b4 == e.preferredLane | Flag(e.preferenceValid, 0x40)
    requires |b| >= 5 && b[1] == b1 && b[4] == b4
    ensures b1 & 0x80 > 0 && ParseAdapter(b, adapters) == Some(e)
  {
    DisplayPortFields(e, b, b1, b4, adapters);
  }

  lemma LaneBack(e: Entry, b: seq<bv8>, b1: bv8, b2: bv8, b3: bv8, adapters: seq<AdapterInfo>)
    requires e.LaneAdapter? && InRange(e, adapters)
    requires b1 == 0x80 | e.num && b2 == Flag(e.lane1, 0x10) | Flag(e.dualLane, 0x80) && b3 == e.dualLaneNum
    requires |b| >= 4 && b[1] == b1 && b[2] == b2 && b[3] == b3
    ensures b1 & 0x80 > 0 && ParseAdapter(b, adapters) == Some(e)
  {
  }

  lemma PcieBack(e: Entry, b: seq<bv8>, b1: bv8, b2: bv8, adapters: seq<AdapterInfo>)
    requires (e.PcieUpAdapter? || e.PcieDownAdapter?) && InRange(e, adapters)
    requires b1 == 0x80 | e.num && b2 == PcieByte(e.functionNum, e.deviceNum)
    requires |b| >= 3 && b[1] == b1 && b[2] == b2
    ensures b1 & 0x80 > 0 && ParseAdapter(b, adapters) == Some(e)
  {
  }

  lemma IsGenericEntry(b: seq<bv8>, adapters: seq<AdapterInfo>)
    requires |b| >= 2
    ensures b[1] == USB3_PORT_MAPPING ==> Parse(b, adapters) == Some(Usb3PortMapping(Mappings(b[2..])))
    ensures b[1] == DPTX_RANKING ==> Parse(b, adapters) == ParseRanking(b)
  {
  }

  lemma DecodeAdapter(e: Entry, b: seq<bv8>, adapters: seq<AdapterInfo>)
    requires InRange(e, adapters) && !e.Usb3PortMapping? && !e.DptxRanking?
    requires 1 + |Payload(e)| <= |b| && b[1..1 + |Payload(e)|] == Payload(e)
    ensures Parse(b, adapters) == Some(e)
  {
    var p := Payload(e);
    assert b[1] == p[0] && (1 < |p| ==> b[2] == p[1]) && (2 < |p| ==> b[3] == p[2]) && (3 < |p| ==> b[4] == p[3]);
    match e
    case Adapter(_, _) => AdapterBack(e, b, b[1], adapters);
    case UnusedAdapter(_) => AdapterBack(e, b, b[1], adapters);
    case DisplayPortAdapter(_, _, _) =>
      DisplayPortBack(e, b, b[1], b[4], adapters);
    case LaneAdapter(_, _, _, _) =>
      LaneBack(e, b, b[1], b[2], b[3], adapters);
    case PcieUpAdapter(_, _, _) =>
      PcieBack(e, b, b[1], b[2], adapters);
    case PcieDownAdapter(_, _, _) =>
      PcieBack(e, b, b[1], b[2], adapters);
  }

  lemma MappingParts(b: seq<bv8>, maps: seq<bv8>, pad: seq<bv8>, n: nat)
    requires 1 < n == 2 + |maps| <= |b| && b[1..n] == [USB3_PORT_MAPPING] + maps && b[n..] == pad
    ensures b[1] == USB3_PORT_MAPPING && b[2..] == maps + pad
  {
    assert b[1] == b[1..n][0];
    assert b[2..n] == b[1..n][1..];
  }

  lemma DecodeMapping(e: Entry, b: seq<bv8>, pad: seq<bv8>, n: nat, adapters: seq<AdapterInfo>)
    requires InRange(e, adapters) && e.Usb3PortMapping? && |pad| < 3
    requires n == 1 + |Payload(e)| <= |b| && b[1..n] == Payload(e) && b[n..] == pad
    ensures Parse(b, adapters) == Some(e)
  {
    MappingParts(b, MappingsBytes(e.maps), pad, n);
    IsGenericEntry(b, adapters);
    MappingsBack(e.maps, pad);
  }

  lemma DecodeRanking(e: Entry, b: seq<bv8>, n: nat, adapters: seq<AdapterInfo>)
    requires InRange(e, adapters) && e.DptxRanking?
    requires n == 1 + |Payload(e)| <= |b| && b[1..n] == Payload(e)
    ensures Parse(b, adapters) == Some(e)
  {
    var p := Payload(e);
    assert b[1] == p[0] && b[2] == p[1] && b[3] == p[2] && b[4] == p[3];
    IsGenericEntry(b, adapters);
    assert b[5..n] == b[1..n][4..] == RankBytes(e.records);
    RankingBack(e, b, b[3]);
  }

  lemma DecodeParts(e: Entry, b: seq<bv8>, pad: seq<bv8>, n: nat, adapters: seq<AdapterInfo>)
    requires InRange(e, adapters) && GoodPad(e, pad)
    requires n == 1 + |Payload(e)| <= |b| && b[1..n] == Payload(e) && b[n..] == pad
    ensures Parse(b, adapters) == Some(e)
  {
    if e.Usb3PortMapping? {
      DecodeMapping(e, b, pad, n, adapters);
    } else if e.DptxRanking? {
      DecodeRanking(e, b, n, adapters);
    } else {
      DecodeAdapter(e, b, adapters);
    }
  }

  lemma Parts(len: bv8, payload: seq<bv8>, pad: seq<bv8>)
    ensures var b, n := [len] + payload + pad, 1 + |payload|; b[1..n] == payload && b[n..] == pad
  {
  }

  /** The second byte says what an entry is. */
  lemma LayoutKind(len: bv8, e: Entry, pad: seq<bv8>)
    requires Structural(e) && len as nat == 1 + |Payload(e)| + |pad|
    ensures e.Usb3PortMapping? ==> Encode(len, e, pad)[1] == 0x0b
    ensures e.DptxRanking? ==> Encode(len, e, pad)[1] == 0x0f
    ensures !e.Usb3PortMapping? && !e.DptxRanking? ==> Encode(len, e, pad)[1] & 0x80 != 0
  {
    assert Encode(len, e, pad)[1] == Payload(e)[0];
  }

  /** Any entry in range comes back from its layout, whatever bytes follow it. */
  lemma DecodeEncode(len: bv8, e: Entry, pad: seq<bv8>, adapters: seq<AdapterInfo>)
    requires InRange(e, adapters) && GoodPad(e, pad) && len as nat == 1 + |Payload(e)| + |pad|
    ensures Parse(Encode(len, e, pad), adapters) == Some(e)
  {
    Parts(len, Payload(e), pad);
    DecodeParts(e, Encode(len, e, pad), pad, 1 + |Payload(e)|, adapters);
  }

  // ---------- What decoding can give ----------

  lemma MaskLimits(b: bv8)
    ensures b & 0x3f <= 0x3f && b & 0x1f <= 0x1f && b & 0xf <= 0xf && b & 0x07 <= 0x7
    ensures (b & 0x60) >> 5 <= 0x3 && (b >> 5) & 0x7 <= 0x7 && DeviceNum(b) <= 0x1f
  {
  }

  lemma {:induction false} MappingsInRange(data: seq<bv8>, i: nat)
    requires i < |Mappings(data)|
    ensures MappingInRange(Mappings(data)[i])
  {
    if i == 0 {
      MaskLimits(data[0]);
      MaskLimits(data[1]);
      MaskLimits(data[2]);
    } else {
      MappingsInRange(data[3..], i - 1);
    }
  }

  lemma {:induction false} RanksInRange(data: seq<bv8>, i: nat)
    requires i < |data|
    ensures RankInRange(Ranks(data)[i])
  {
    if i > 0 {
      RanksInRange(data[1..], i - 1);
    }
  }

  lemma RankingInRange(b: seq<bv8>, adapters: seq<AdapterInfo>)
    requires 2 <= |b| && ParseRanking(b).Some?
    ensures InRange(ParseRanking(b).value, adapters)
  {
    var e := ParseRanking(b).value;
    MaskLimits(b[2]);
    MaskLimits(b[3]);
    MaskLimits(b[4]);
    var ranks := b[5..5 + |e.records|];
    forall i | 0 <= i < |e.records| ensures RankInRange(e.records[i]) {
      RanksInRange(ranks, i);
    }
  }

  lemma AdapterInRange(b: seq<bv8>, adapters: seq<AdapterInfo>)
    requires 2 <= |b| && ParseAdapter(b, adapters).Some?
    ensures InRange(ParseAdapter(b, adapters).value, adapters)
  {
    hide KindOf, DeviceNum;
    MaskLimits(b[1]);
    if 2 < |b| {
      MaskLimits(b[2]);
    }
    if 3 < |b| {
      MaskLimits(b[3]);
    }
    if 4 < |b| {
      MaskLimits(b[4]);
    }
  }

  /** The decoder only gives entries that have a layout; in particular no disabled adapter entry. */
  lemma DecodedInRange(b: seq<bv8>, adapters: seq<AdapterInfo>)
    requires Parse(b, adapters).Some? && Structural(Parse(b, adapters).value)
    ensures InRange(Parse(b, adapters).value, adapters)
  {
    if b[1] & 0x80 > 0 {
      AdapterInRange(b, adapters);
    } else if b[1] & 0x3f == USB3_PORT_MAPPING {
      var maps := Mappings(b[2..]);
      forall i | 0 <= i < |maps| ensures MappingInRange(maps[i]) {
        MappingsInRange(b[2..], i);
      }
    } else {
      RankingInRange(b, adapters);
    }
  }

  // ---------- Where the fields are, whatever the other bits ----------

  predicate MappingFrom(m: Usb3PortMap, m0: bv8, m1: bv8, m2: bv8) {
    && m.usb3Port == m0 % 16 && m.pdPort == m1 % 32 && m.xhciIndex == m1 / 32 % 4
    && (m.typeC <==> m1 / 128 == 1) && m.usb3Adapter == m2 % 64 && (m.tunneling <==> m2 / 128 == 1)
  }

  predicate RankFrom(r: DptxRank, b: bv8) {
    && r.rank == b / 32
    && match r.rankType
       case Power => b % 32 == 0
       case Performance => b % 32 == 1
       case Reserved(v) => v == b % 32 && 2 <= v
  }

  /** The fields of an entry, by dividing its bytes. */
  predicate FieldsFrom(e: Entry, b: seq<bv8>)
    requires 2 <= |b|
  {
    match e
    case Adapter(_, num) => num == b[1] % 64
    case UnusedAdapter(num) => num == b[1] % 64
    case DisplayPortAdapter(num, lane, valid) =>
      5 <= |b| && num == b[1] % 64 && lane == b[4] % 64 && (valid <==> b[4] / 64 % 2 == 1)
    case LaneAdapter(num, lane1, dual, dualNum) =>
      && 4 <= |b| && num == b[1] % 64 && dualNum == b[3] % 64
      && (lane1 <==> b[2] / 16 % 2 == 1) && (dual <==> b[2] / 128 == 1)
    case PcieUpAdapter(num, functionNum, deviceNum) =>
      && 3 <= |b| && num == b[1] % 64 && functionNum == b[2] % 8
      && deviceNum == (b[2] / 8) % 4 * 8 + b[2] / 32
    case PcieDownAdapter(num, functionNum, deviceNum) =>
      && 3 <= |b| && num == b[1] % 64 && functionNum == b[2] % 8
      && deviceNum == (b[2] / 8) % 4 * 8 + b[2] / 32
    case Usb3PortMapping(maps) =>
      && |maps| == (|b| - 2) / 3
      && forall i :: 0 <= i < |maps| ==> MappingFrom(maps[i], b[2 + 3 * i], b[3 + 3 * i], b[4 + 3 * i])
    case DptxRanking(num, nrr, mh, order, mu, records) =>
      && 5 <= |b| && num == b[2] % 32 && nrr == b[3] % 16 && nrr as nat == |records| && (mh <==> b[3] / 16 % 2 == 1)
      && order == b[3] / 32 && mu == (if mh then b[4] % 32 else 0) && 5 + |records| <= |b|
      && forall i :: 0 <= i < |records| ==> RankFrom(records[i], b[5 + i])
    case _ => true
  }

  lemma MappingIs(m0: bv8, m1: bv8, m2: bv8)
    ensures MappingFrom(Mapping(m0, m1, m2), m0, m1, m2)
  {
  }

  lemma {:induction false} MappingsAre(data: seq<bv8>, i: nat)
    requires 3 * i + 2 < |data|
    ensures |Mappings(data)| == |data| / 3
    ensures MappingFrom(Mappings(data)[i], data[3 * i], data[3 * i + 1], data[3 * i + 2])
  {
    MappingCount(data);
    if i == 0 {
      MappingIs(data[0], data[1], data[2]);
    } else {
      MappingsAre(data[3..], i - 1);
    }
  }

  lemma {:induction false} MappingCount(data: seq<bv8>)
    ensures |Mappings(data)| == |data| / 3
    decreases |data|
  {
    if |data| >= 3 {
      MappingCount(data[3..]);
    }
  }

  lemma RankIs(r: bv8)
    ensures RankFrom(Rank(r), r)
  {
  }

  lemma {:induction false} RanksAre(data: seq<bv8>, i: nat)
    requires i < |data|
    ensures RankFrom(Ranks(data)[i], data[i])
  {
    if i == 0 {
      RankIs(data[0]);
    } else {
      RanksAre(data[1..], i - 1);
    }
  }

  lemma AdapterFields(b: seq<bv8>, adapters: seq<AdapterInfo>)
    requires 2 <= |b| && ParseAdapter(b, adapters).Some?
    ensures FieldsFrom(ParseAdapter(b, adapters).value, b)
  {
    hide KindOf;
  }

  lemma MappingEntryFields(b: seq<bv8>)
    requires 2 <= |b|
    ensures FieldsFrom(Usb3PortMapping(Mappings(b[2..])), b)
  {
    var data := b[2..];
    MappingCount(data);
    hide MappingFrom, Mappings;
    forall i | 0 <= i < |Mappings(data)|
      ensures MappingFrom(Mappings(data)[i], b[2 + 3 * i], b[3 + 3 * i], b[4 + 3 * i])
    {
      MappingsAre(data, i);
      assert data[3 * i] == b[2 + 3 * i] && data[3 * i + 1] == b[3 + 3 * i] && data[3 * i + 2] == b[4 + 3 * i];
    }
  }

  lemma RankingFields(b: seq<bv8>)
    requires 2 <= |b| && ParseRanking(b).Some?
    ensures FieldsFrom(ParseRanking(b).value, b)
  {
    var nrr := b[3] & 0xf;
    var ranks := b[5..5 + nrr as nat];
    hide RankFrom, Ranks;
    forall i | 0 <= i < |ranks| ensures RankFrom(Ranks(ranks)[i], b[5 + i]) {
      RanksAre(ranks, i);
    }
  }

  /** Every field of a decoded entry is where the layout has it; all other bits are ignored. */
  lemma DecodedFields(b: seq<bv8>, adapters: seq<AdapterInfo>)
    requires 2 <= |b| && Parse(b, adapters).Some?
    ensures FieldsFrom(Parse(b, adapters).value, b)
  {
    if b[1] & 0x80 > 0 {
      AdapterFields(b, adapters);
    } else if b[1] & 0x3f == USB3_PORT_MAPPING {
      MappingEntryFields(b);
    } else if b[1] & 0x3f == DPTX_RANKING {
      RankingFields(b);
    }
  }

  /** What kind of entry the second byte and the adapter make it. */
  lemma DecodedKind(b: seq<bv8>, adapters: seq<AdapterInfo>)
    requires 2 <= |b| && Parse(b, adapters).Some?
    ensures var e, low := Parse(b, adapters).value, b[1] % 64;
      var kind := KindOf(adapters, low);
      if b[1] >= 192 then e.UnusedAdapter?
      else if b[1] >= 128 then
        && (e.DisplayPortAdapter? <==> kind in {Some(DisplayPortIn), Some(DisplayPortOut)})
        && (e.LaneAdapter? <==> kind == Some(Lane))
        && (e.PcieUpAdapter? <==> kind == Some(PcieUp)) && (e.PcieDownAdapter? <==> kind == Some(PcieDown))
        && (e.Adapter? <==> kind in {None, Some(OtherKind)})
      else
        && (e.Usb3PortMapping? <==> low == 11) && (e.DptxRanking? <==> low == 15)
        && (e.Undecoded? <==> low !in {11, 15})
  {
    hide KindOf, UntilNul, Utf8, Mappings, Ranks;
  }

  // ---------- When decoding panics ----------

  /** The bytes that an adapter entry must have. */
  function AdapterSize(kind: Option<Kind>): nat {
    match kind
    case Some(DisplayPortIn) | Some(DisplayPortOut) => 5
    case Some(Lane) => 4
    case Some(PcieUp) | Some(PcieDown) => 3
    case Some(OtherKind) | None => 2
  }

  /** A zero byte ends a text of well-formed characters. */
  ghost predicate HasName(data: seq<bv8>) {
    exists n :: 0 <= n < |data| && data[n] == 0 && 0 !in data[..n] && Utf8(data[..n])
  }

  /** A generic entry is too short for its kind, or its text is not what the kind says. */
  ghost predicate GenericUndecodable(b: seq<bv8>, kind: bv8)
    requires 2 <= |b|
  {
    || (kind in {0x01, 0x02} && !HasName(b[2..]))              // ASCII names
    || (kind in {0x08, 0x10} && |b| < 3)                       // TMU, embedded link
    || (kind in {0x0a, 0x0e, 0x0f} && |b| < 4)                 // serial number, single data path, DPTX ranking
    || (kind == 0x09 && |b| < 14)                              // product descriptor
    || (kind in {0x0a, 0x0c, 0x0d} && |b| % 2 != 0)            // serial number, UTF-16 names
    || (kind == 0x0f && |b| < 5 + (b[3] & 0xf) as nat)
  }

  ghost predicate Undecodable(b: seq<bv8>, adapters: seq<AdapterInfo>) {
    2 <= |b| &&
    if b[1] & 0x80 > 0 then b[1] & 0x40 == 0 && |b| < AdapterSize(KindOf(adapters, b[1] & 0x3f))
    else GenericUndecodable(b, b[1] & 0x3f)
  }

  lemma NulIn(data: seq<bv8>, n: nat, m: nat)
    requires n < m <= |data| && data[n] == 0
    ensures 0 in data[..m]
  {
    assert data[..m][n] == 0;
  }

  lemma FirstNul(data: seq<bv8>, m: nat, n: nat)
    requires m < |data| && n < |data| && data[m] == 0 == data[n] && 0 !in data[..m] && 0 !in data[..n]
    ensures m == n
  {
    if m < n {
      NulIn(data, m, n);
    } else if n < m {
      NulIn(data, n, m);
    }
  }

  lemma NameIff(data: seq<bv8>)
    ensures HasName(data) <==> UntilNul(data).Some? && Utf8(UntilNul(data).value)
  {
    var r := UntilNul(data);
    if n :| 0 <= n < |data| && data[n] == 0 && 0 !in data[..n] && Utf8(data[..n]) {
      assert 0 in data;
      FirstNul(data, n, |r.value|);
    }
  }

  lemma OtherPanicsIff(b: seq<bv8>, kind: bv8)
    requires 2 <= |b| && kind != USB3_PORT_MAPPING && kind != DPTX_RANKING
    ensures ParseOther(b, kind) == None <==> GenericUndecodable(b, kind)
  {
    hide UntilNul, Utf8, HasName;
    NameIff(b[2..]);
  }

  /** Decoding panics exactly on these entries. */
  lemma ParsePanicsIff(b: seq<bv8>, adapters: seq<AdapterInfo>)
    ensures Parse(b, adapters) == None <==> Undecodable(b, adapters)
  {
    if 2 <= |b| && b[1] & 0x80 == 0 && b[1] & 0x3f != USB3_PORT_MAPPING && b[1] & 0x3f != DPTX_RANKING {
      OtherPanicsIff(b, b[1] & 0x3f);
    }
  }
}

/** The header of an image, and the iterator over its entries. */
module DromIterator {
  import opened DromCodec
  import opened DromTiling
  import opened Wrappers

  // ---------- The header ----------

  datatype Header = TooSmall | SizeMismatch | Accepted(start: nat)

  /** The length field: the low twelve bits of bytes 14 and 15, little-endian. */
  function LengthField(bytes: seq<bv8>): nat
    requires 16 <= |bytes|
  {
    (bytes[14] as nat + 256 * (bytes[15] as nat)) % 4096
  }

  /** Drom::parse: where the body starts. */
  function ParseHeader(bytes: seq<bv8>): Header {
    if |bytes| < 16 then TooSmall
    else if LengthField(bytes) + 13 != |bytes| then SizeMismatch
    else if bytes[13] < 3 then (if |bytes| < 22 then SizeMismatch else Accepted(22))
    else Accepted(16)
  }

  /** The length `n` is in byte 14 and the low half of byte 15, with `top` in the other half. */
  predicate HasLength(bytes: seq<bv8>, n: nat, top: nat) {
    && 16 <= |bytes| && n < 4096
    && bytes[14] as nat == n % 256 && bytes[15] as nat == n / 256 + 16 * top
  }

  lemma LowTwelve(a: nat, b: nat)
    requires a < 256
    ensures (a + 256 * b) % 4096 == a + 256 * (b % 16)
  {
  }

  lemma LengthIs(bytes: seq<bv8>)
    requires 16 <= |bytes|
    ensures LengthField(bytes) == bytes[14] as nat + 256 * (bytes[15] as nat % 16)
  {
    LowTwelve(bytes[14] as nat, bytes[15] as nat);
  }

  lemma SaidLength(low: nat, high: nat, n: nat, top: nat)
    requires n < 4096 && low == n % 256 && high == n / 256 + 16 * top
    ensures low + 256 * (high % 16) == n
  {
    assert high % 16 == n / 256;
  }

  /** An image is accepted exactly when it is 13 bytes longer than it says and has room for its header. */
  lemma AcceptedIff(bytes: seq<bv8>, n: nat, top: nat)
    requires HasLength(bytes, n, top)
    ensures ParseHeader(bytes) == Accepted(22) <==> |bytes| == n + 13 && bytes[13] < 3 && 9 <= n
    ensures ParseHeader(bytes) == Accepted(16) <==> |bytes| == n + 13 && 3 <= bytes[13]
    ensures ParseHeader(bytes) in {Accepted(22), Accepted(16), SizeMismatch}
  {
    hide LengthField;
    LengthIs(bytes);
    SaidLength(bytes[14] as nat, bytes[15] as nat, n, top);
  }

  lemma Halves(low: nat, high: nat)
    requires low < 256 && high < 256
    ensures var n := low + 256 * (high % 16);
      n < 4096 && low == n % 256 && high == n / 256 + 16 * (high / 16)
  {
  }

  /** Every image of at least 16 bytes says some length; shorter ones are refused. */
  lemma SomeLength(bytes: seq<bv8>)
    ensures 16 <= |bytes| ==> exists n, top :: HasLength(bytes, n, top)
    ensures |bytes| < 16 ==> ParseHeader(bytes) == TooSmall
  {
    if 16 <= |bytes| {
      var low, high := bytes[14] as nat, bytes[15] as nat;
      Halves(low, high);
      assert HasLength(bytes, low + 256 * (high % 16), high / 16);
    }
  }

  /** Drom::entries reads the first byte of the body; these are the accepted images that have none. */
  lemma EmptyBodyIff(bytes: seq<bv8>)
    requires ParseHeader(bytes).Accepted?
    ensures ParseHeader(bytes).start <= |bytes|
    ensures ParseHeader(bytes).start == |bytes| <==>
      bytes[14] as nat == (if bytes[13] < 3 then 9 else 3) && bytes[15] as nat % 16 == 0
  {
    LengthIs(bytes);
    hide LengthField;
  }

  /** Such images exist. */
  lemma EmptyBodyAccepted()
    ensures exists bytes :: ParseHeader(bytes) == Accepted(|bytes|)
  {
    var bytes: seq<bv8> := [0, 0, 0, 0, 0, 0, 0, 0, 0, 0, 0, 0, 0, 3, 3, 0];
    assert ParseHeader(bytes) == Accepted(|bytes|);
  }

  // ---------- The iterator ----------

  datatype Item = NoMore | Entry(entry: Entry) | Panic

  /** What one call of next returns, in a state where the next entry is at `offset`. */
  function ItemAt(bytes: seq<bv8>, adapters: seq<AdapterInfo>, offset: nat): Item {
    if offset >= |bytes| then NoMore
    else
      var next := offset + bytes[offset] as nat;
      if next > |bytes| then Panic
      else match Parse(bytes[offset..next], adapters)
        case None => Panic
        case Some(e) => Entry(e)
  }

  class DromEntries {
    const bytes: seq<bv8>
    const adapters: seq<AdapterInfo>
    var start: nat
    var offset: nat
    var len: nat

    constructor (start: nat, bytes: seq<bv8>, adapters: seq<AdapterInfo>)
      requires start < |bytes|
      ensures this.bytes == bytes && this.adapters == adapters && offset == start
      ensures this.start == start && len == bytes[start] as nat
    {
      this.bytes, this.adapters := bytes, adapters;
      this.start, this.offset, this.len := start, start, bytes[start] as nat;
    }

    method Next() returns (item: Item)
      modifies this
      ensures item == ItemAt(bytes, adapters, old(offset))
      ensures item.NoMore? ==> offset == old(offset)
      ensures item.Entry? ==> start == old(offset) && offset == old(offset) + len && len == bytes[start] as nat
    {
      if offset >= |bytes| {
        return NoMore;
      }
      start := offset;
      len := bytes[start] as nat;
      var next := offset + len;
      if next > |bytes| {
        return Panic;
      }
      var entry := Parse(bytes[start..next], adapters);
      if entry == None {
        return Panic;
      }
      offset := next;
      return Entry(entry.value);
    }
  }

  // ---------- When iterating ends ----------

  /** Ready for the entry at an offset, past the last entry, or panicked. */
  datatype Scan = At(offset: nat) | Ended | Panicked

  /** Drom::entries. */
  function Begin(bytes: seq<bv8>, start: nat): Scan {
    if start < |bytes| then At(start) else Panicked
  }

  function Advance(bytes: seq<bv8>, adapters: seq<AdapterInfo>, offset: nat): Scan {
    match ItemAt(bytes, adapters, offset)
    case NoMore => Ended
    case Panic => Panicked
    case Entry(_) => if offset < |bytes| then At(offset + bytes[offset] as nat) else Ended
  }

  /** The iterator after `k` calls. */
  function After(bytes: seq<bv8>, adapters: seq<AdapterInfo>, s: Scan, k: nat): Scan
    decreases k
  {
    if k == 0 || !s.At? then s else After(bytes, adapters, Advance(bytes, adapters, s.offset), k - 1)
  }

  /** The entry at an offset is not empty, fits, and can be decoded. */
  ghost predicate GoodEntry(bytes: seq<bv8>, adapters: seq<AdapterInfo>, offset: nat)
    requires offset < |bytes|
  {
    GoodLength(bytes, offset) && !Undecodable(bytes[offset..offset + bytes[offset] as nat], adapters)
  }

  /** The offset of the first entry that is not so. */
  ghost function FirstOffending(bytes: seq<bv8>, adapters: seq<AdapterInfo>, offset: nat): (r: Option<nat>)
    ensures r.Some? ==> r.value < |bytes| && !GoodEntry(bytes, adapters, r.value)
    decreases |bytes| - offset
  {
    if offset >= |bytes| then None
    else if !GoodEntry(bytes, adapters, offset) then Some(offset)
    else FirstOffending(bytes, adapters, offset + bytes[offset] as nat)
  }

  /** An empty entry is reached. */
  ghost predicate Stuck(bytes: seq<bv8>, adapters: seq<AdapterInfo>, offset: nat) {
    var z := FirstOffending(bytes, adapters, offset);
    z.Some? && bytes[z.value] == 0
  }

  lemma AdvanceIs(bytes: seq<bv8>, adapters: seq<AdapterInfo>, offset: nat)
    requires offset < |bytes|
    ensures GoodEntry(bytes, adapters, offset) || bytes[offset] == 0 ==>
      Advance(bytes, adapters, offset) == At(offset + bytes[offset] as nat)
    ensures !GoodEntry(bytes, adapters, offset) && bytes[offset] != 0 ==> Advance(bytes, adapters, offset) == Panicked
  {
    var next := offset + bytes[offset] as nat;
    if next <= |bytes| {
      ParsePanicsIff(bytes[offset..next], adapters);
    }
  }

  lemma {:induction false} Reaches(bytes: seq<bv8>, adapters: seq<AdapterInfo>, offset: nat) returns (k: nat)
    requires !Stuck(bytes, adapters, offset)
    ensures After(bytes, adapters, At(offset), k) ==
      if FirstOffending(bytes, adapters, offset) == None then Ended else Panicked
    decreases |bytes| - offset
  {
    if offset >= |bytes| {
      k := 1;
      return;
    }
    AdvanceIs(bytes, adapters, offset);
    if GoodEntry(bytes, adapters, offset) {
      var n := Reaches(bytes, adapters, offset + bytes[offset] as nat);
      k := n + 1;
    } else {
      k := 1;
    }
  }

  lemma {:induction false} StuckForever(bytes: seq<bv8>, adapters: seq<AdapterInfo>, offset: nat, k: nat)
    requires Stuck(bytes, adapters, offset)
    ensures After(bytes, adapters, At(offset), k).At?
    decreases k
  {
    if k > 0 {
      AdvanceIs(bytes, adapters, offset);
      StuckForever(bytes, adapters, offset + bytes[offset] as nat, k - 1);
    }
  }

  lemma {:induction false} OneOutcome(bytes: seq<bv8>, adapters: seq<AdapterInfo>, s: Scan, k: nat, n: nat)
    requires !After(bytes, adapters, s, k).At? && !After(bytes, adapters, s, n).At?
    ensures After(bytes, adapters, s, k) == After(bytes, adapters, s, n)
    decreases k
  {
    if k > 0 && n > 0 && s.At? {
      OneOutcome(bytes, adapters, Advance(bytes, adapters, s.offset), k - 1, n - 1);
    }
  }

  /** Some call returns None. */
  ghost predicate Ends(bytes: seq<bv8>, adapters: seq<AdapterInfo>, start: nat) {
    exists k :: After(bytes, adapters, Begin(bytes, start), k) == Ended
  }

  /** Creating the iterator or some call panics. */
  ghost predicate Panics(bytes: seq<bv8>, adapters: seq<AdapterInfo>, start: nat) {
    exists k :: After(bytes, adapters, Begin(bytes, start), k) == Panicked
  }

  ghost predicate RunsForever(bytes: seq<bv8>, adapters: seq<AdapterInfo>, start: nat) {
    forall k :: After(bytes, adapters, Begin(bytes, start), k).At?
  }

  /** Draining ends, panics or goes on for ever by the first entry that is empty, too long or undecodable. */
  lemma OutcomeIff(bytes: seq<bv8>, adapters: seq<AdapterInfo>, start: nat)
    ensures var z := FirstOffending(bytes, adapters, start);
      && (Ends(bytes, adapters, start) <==> start < |bytes| && z == None)
      && (Panics(bytes, adapters, start) <==> start >= |bytes| || (z.Some? && bytes[z.value] != 0))
      && (RunsForever(bytes, adapters, start) <==> z.Some? && bytes[z.value] == 0)
  {
    var s := Begin(bytes, start);
    if Stuck(bytes, adapters, start) {
      forall k ensures After(bytes, adapters, s, k).At? {
        StuckForever(bytes, adapters, start, k);
      }
      assert After(bytes, adapters, s, 0).At?;
      return;
    }
    var n: nat := 0;
    if start < |bytes| {
      n := Reaches(bytes, adapters, start);
    }
    assert !After(bytes, adapters, s, n).At?;
    forall k | !After(bytes, adapters, s, k).At?
      ensures After(bytes, adapters, s, k) == After(bytes, adapters, s, n)
    {
      OneOutcome(bytes, adapters, s, k, n);
    }
  }

  ghost predicate AllDecodable(slices: seq<seq<bv8>>, adapters: seq<AdapterInfo>) {
    forall i :: 0 <= i < |slices| ==> !Undecodable(slices[i], adapters)
  }

  lemma AllDecodableCons(slice: seq<bv8>, rest: seq<seq<bv8>>, adapters: seq<AdapterInfo>)
    ensures AllDecodable([slice] + rest, adapters) <==> !Undecodable(slice, adapters) && AllDecodable(rest, adapters)
  {
    var all := [slice] + rest;
    assert all[0] == slice && all[1..] == rest;
    if AllDecodable(all, adapters) {
      forall i | 0 <= i < |rest| ensures !Undecodable(rest[i], adapters) {
        assert rest[i] == all[i + 1];
      }
    }
  }

  /** Nothing offends exactly when the lengths tile the body and every slice can be decoded. */
  lemma {:induction false} OffendingIff(bytes: seq<bv8>, adapters: seq<AdapterInfo>, offset: nat)
    ensures FirstOffending(bytes, adapters, offset) == None <==>
      FirstBad(bytes, offset) == None && AllDecodable(Slices(bytes, offset), adapters)
    decreases |bytes| - offset
  {
    if offset < |bytes| && GoodLength(bytes, offset) {
      var next := offset + bytes[offset] as nat;
      OffendingIff(bytes, adapters, next);
      FirstSlice(bytes, offset, next);
      if FirstBad(bytes, next) == None {
        AllDecodableCons(bytes[offset..next], Slices(bytes, next), adapters);
      }
    }
  }

  /** Reading all entries of an accepted image succeeds exactly when it has a body, tiled by decodable entries. */
  lemma DrainSucceedsIff(bytes: seq<bv8>, adapters: seq<AdapterInfo>)
    requires ParseHeader(bytes).Accepted?
    ensures var start := ParseHeader(bytes).start;
      Ends(bytes, adapters, start) <==>
        !(bytes[14] as nat == (if bytes[13] < 3 then 9 else 3) && bytes[15] as nat % 16 == 0) &&
        FirstBad(bytes, start) == None && AllDecodable(Slices(bytes, start), adapters)
  {
    EmptyBodyIff(bytes);
    OutcomeIff(bytes, adapters, ParseHeader(bytes).start);
    OffendingIff(bytes, adapters, ParseHeader(bytes).start);
  }
}

/** Decoding whole images. */
module DromDecoder {
  import opened DromCodec
  import opened DromIterator
  import opened DromTiling
  import opened Sequences
  import opened Wrappers

  // ---------- Draining the iterator ----------

  /** The entries of the slices; None if decoding one of them panics. */
  function ParseAll(slices: seq<seq<bv8>>, adapters: seq<AdapterInfo>): Option<seq<Entry>> {
    if slices == [] then Some([])
    else
      var rest := ParseAll(slices[..|slices| - 1], adapters);
      var last := Parse(slices[|slices| - 1], adapters);
      if rest == None || last == None then None else Some(rest.value + [last.value])
  }

  lemma ParseAllSnoc(slices: seq<seq<bv8>>, last: seq<bv8>, adapters: seq<AdapterInfo>)
    requires ParseAll(slices, adapters).Some? && Parse(last, adapters).Some?
    ensures ParseAll(slices + [last], adapters) ==
      Some(ParseAll(slices, adapters).value + [Parse(last, adapters).value])
  {
    assert (slices + [last])[..|slices|] == slices;
  }

  /** One round of the loop. */
  lemma DrainStep(bytes: seq<bv8>, adapters: seq<AdapterInfo>, offset: nat, next: nat)
    requires offset < |bytes| && next == offset + bytes[offset] as nat && !Stuck(bytes, adapters, offset)
    ensures !GoodEntry(bytes, adapters, offset) ==>
      ItemAt(bytes, adapters, offset) == Panic && FirstOffending(bytes, adapters, offset).Some?
    ensures GoodEntry(bytes, adapters, offset) ==>
      && offset < next <= |bytes| && Parse(bytes[offset..next], adapters).Some?
      && ItemAt(bytes, adapters, offset) == Entry(Parse(bytes[offset..next], adapters).value)
      && FirstOffending(bytes, adapters, offset) == FirstOffending(bytes, adapters, next)
  {
    if next <= |bytes| {
      ParsePanicsIff(bytes[offset..next], adapters);
    }
  }

  lemma SlicesGrow(bytes: seq<bv8>, start: nat, offset: nat, next: nat, before: seq<seq<bv8>>)
    requires offset < next <= |bytes| && next == offset + bytes[offset] as nat
    requires FirstBad(bytes, start) == None && FirstBad(bytes, offset) == None
    requires Slices(bytes, start) == before + Slices(bytes, offset)
    ensures FirstBad(bytes, next) == None
    ensures Slices(bytes, start) == before + [bytes[offset..next]] + Slices(bytes, next)
  {
    FirstSlice(bytes, offset, next);
  }

  /** The loop invariant: the slices up to `offset` gave the entries found. */
  ghost predicate Drained(bytes: seq<bv8>, adapters: seq<AdapterInfo>, start: nat, offset: nat,
                          before: seq<seq<bv8>>, found: seq<Entry>) {
    && !Stuck(bytes, adapters, start) && start < |bytes|
    && FirstOffending(bytes, adapters, offset) == FirstOffending(bytes, adapters, start)
    && ParseAll(before, adapters) == Some(found)
    && (FirstBad(bytes, start) == None ==>
          FirstBad(bytes, offset) == None && Slices(bytes, start) == before + Slices(bytes, offset))
  }

  lemma DrainBegins(bytes: seq<bv8>, adapters: seq<AdapterInfo>, start: nat)
    requires !Stuck(bytes, adapters, start) && start < |bytes|
    ensures Drained(bytes, adapters, start, start, [], [])
  {
    assert FirstBad(bytes, start) == None ==> [] + Slices(bytes, start) == Slices(bytes, start);
  }

  lemma DrainGoesOn(bytes: seq<bv8>, adapters: seq<AdapterInfo>, start: nat, offset: nat, before: seq<seq<bv8>>,
                    found: seq<Entry>, next: nat)
    requires Drained(bytes, adapters, start, offset, before, found)
    requires offset < |bytes| && GoodEntry(bytes, adapters, offset) && next == offset + bytes[offset] as nat
    ensures offset < next <= |bytes| && Parse(bytes[offset..next], adapters).Some?
    ensures Drained(bytes, adapters, start, next, before + [bytes[offset..next]],
                    found + [Parse(bytes[offset..next], adapters).value])
  {
    DrainStep(bytes, adapters, offset, next);
    ParseAllSnoc(before, bytes[offset..next], adapters);
    if FirstBad(bytes, start) == None {
      SlicesGrow(bytes, start, offset, next, before);
    }
  }

  lemma DrainStops(bytes: seq<bv8>, adapters: seq<AdapterInfo>, start: nat, offset: nat, before: seq<seq<bv8>>,
                   found: seq<Entry>)
    requires Drained(bytes, adapters, start, offset, before, found) && offset >= |bytes|
    ensures Ends(bytes, adapters, start) && !Panics(bytes, adapters, start) && FirstBad(bytes, start) == None
    ensures ParseAll(Slices(bytes, start), adapters) == Some(found)
  {
    OutcomeIff(bytes, adapters, start);
    OffendingIff(bytes, adapters, start);
    assert before + [] == before;
  }

  lemma DrainFails(bytes: seq<bv8>, adapters: seq<AdapterInfo>, start: nat)
    requires !Stuck(bytes, adapters, start)
    requires start >= |bytes| || FirstOffending(bytes, adapters, start).Some?
    ensures Panics(bytes, adapters, start) && !Ends(bytes, adapters, start)
  {
    OutcomeIff(bytes, adapters, start);
  }

  /** What the item says. */
  lemma DrainRound(bytes: seq<bv8>, adapters: seq<AdapterInfo>, start: nat, offset: nat, before: seq<seq<bv8>>,
                   found: seq<Entry>, item: Item)
    requires Drained(bytes, adapters, start, offset, before, found) && item == ItemAt(bytes, adapters, offset)
    ensures item.NoMore? ==>
      && Ends(bytes, adapters, start) && !Panics(bytes, adapters, start)
      && FirstBad(bytes, start) == None && ParseAll(Slices(bytes, start), adapters) == Some(found)
    ensures item.Panic? ==> Panics(bytes, adapters, start) && !Ends(bytes, adapters, start)
    ensures item.Entry? ==>
      && offset < |bytes| && bytes[offset] != 0 && offset + bytes[offset] as nat <= |bytes|
      && Drained(bytes, adapters, start, offset + bytes[offset] as nat,
                 before + [bytes[offset..offset + bytes[offset] as nat]], found + [item.entry])
  {
    if offset >= |bytes| {
      DrainStops(bytes, adapters, start, offset, before, found);
      return;
    }
    var next := offset + bytes[offset] as nat;
    DrainStep(bytes, adapters, offset, next);
    if GoodEntry(bytes, adapters, offset) {
      DrainGoesOn(bytes, adapters, start, offset, before, found, next);
    } else {
      DrainFails(bytes, adapters, start);
    }
  }

  /** The loop over all entries; None is a panic. */
  method Drain(start: nat, bytes: seq<bv8>, adapters: seq<AdapterInfo>) returns (entries: Option<seq<Entry>>)
    requires !Stuck(bytes, adapters, start)
    ensures entries.Some? <==> Ends(bytes, adapters, start)
    ensures entries == None <==> Panics(bytes, adapters, start)
    ensures entries.Some? ==> FirstBad(bytes, start) == None && entries == ParseAll(Slices(bytes, start), adapters)
  {
    if start >= |bytes| {
      DrainFails(bytes, adapters, start);
      return None;
    }
    var it := new DromEntries(start, bytes, adapters);
    var found: seq<Entry> := [];
    ghost var before: seq<seq<bv8>> := [];
    DrainBegins(bytes, adapters, start);
    while true
      invariant it.bytes == bytes && it.adapters == adapters
      invariant Drained(bytes, adapters, start, it.offset, before, found)
      decreases |bytes| - it.offset
    {
      ghost var offset := it.offset;
      var item := it.Next();
      DrainRound(bytes, adapters, start, offset, before, found, item);
      match item
      case NoMore => return Some(found);
      case Panic => return None;
      case Entry(e) =>
        before := before + [bytes[offset..it.offset]];
        found := found + [e];
    }
  }

  // ---------- Round trip of a whole image ----------

  datatype Layout = Layout(len: bv8, entry: DromCodec.Entry, pad: seq<bv8>)

  predicate GoodLayout(l: Layout, adapters: seq<AdapterInfo>) {
    && Structural(l.entry) && InRange(l.entry, adapters) && GoodPad(l.entry, l.pad)
    && l.len as nat == 1 + |Payload(l.entry)| + |l.pad|
  }

  function LayoutBytes(l: Layout, adapters: seq<AdapterInfo>): (b: seq<bv8>)
    requires GoodLayout(l, adapters)
    ensures Sized(b) && Parse(b, adapters) == Some(l.entry)
  {
    DecodeEncode(l.len, l.entry, l.pad, adapters);
    Encode(l.len, l.entry, l.pad)
  }

  predicate GoodLayouts(ls: seq<Layout>, adapters: seq<AdapterInfo>) {
    forall i :: 0 <= i < |ls| ==> GoodLayout(ls[i], adapters)
  }

  function Encoded(ls: seq<Layout>, adapters: seq<AdapterInfo>): (slices: seq<seq<bv8>>)
    requires GoodLayouts(ls, adapters)
    ensures |slices| == |ls| && AllSized(slices)
  {
    if ls == [] then []
    else Encoded(ls[..|ls| - 1], adapters) + [LayoutBytes(ls[|ls| - 1], adapters)]
  }

  function Entries(ls: seq<Layout>): seq<DromCodec.Entry> {
    if ls == [] then [] else Entries(ls[..|ls| - 1]) + [ls[|ls| - 1].entry]
  }

  lemma {:induction false} ParseAllBack(ls: seq<Layout>, adapters: seq<AdapterInfo>)
    requires GoodLayouts(ls, adapters)
    ensures ParseAll(Encoded(ls, adapters), adapters) == Some(Entries(ls))
    decreases ls
  {
    if ls != [] {
      var before, l := ls[..|ls| - 1], ls[|ls| - 1];
      ParseAllBack(before, adapters);
      ParseAllSnoc(Encoded(before, adapters), LayoutBytes(l, adapters), adapters);
    }
  }

  lemma {:induction false} ParseAllDecodable(slices: seq<seq<bv8>>, adapters: seq<AdapterInfo>)
    requires ParseAll(slices, adapters).Some?
    ensures AllDecodable(slices, adapters)
    decreases slices
  {
    if slices != [] {
      ParseAllDecodable(slices[..|slices| - 1], adapters);
      ParsePanicsIff(slices[|slices| - 1], adapters);
    }
  }

  /**
    The body is the layouts of a list of entries: the entries of the slices are the list, and iterating
    gets to the end exactly when the list is not empty.
   */
  lemma DecodeImage(bytes: seq<bv8>, start: nat, ls: seq<Layout>, adapters: seq<AdapterInfo>)
    requires ParseHeader(bytes) == Accepted(start)
    requires GoodLayouts(ls, adapters) && bytes[start..] == Flatten(Encoded(ls, adapters))
    ensures FirstBad(bytes, start) == None
    ensures ParseAll(Slices(bytes, start), adapters) == Some(Entries(ls))
    ensures Ends(bytes, adapters, start) <==> ls != []
    ensures Panics(bytes, adapters, start) <==> ls == []
    ensures !Stuck(bytes, adapters, start)
  {
    var slices := Encoded(ls, adapters);
    EmptyBodyIff(bytes);
    TilingUnique(bytes, start, slices);
    ParseAllBack(ls, adapters);
    ParseAllDecodable(slices, adapters);
    OffendingIff(bytes, adapters, start);
    OutcomeIff(bytes, adapters, start);
    assert ls != [] ==> Sized(slices[0]) && bytes[start..] != [];
    assert ls == [] ==> bytes[start..] == [];
  }

  /** Reading an image of this header and body back through the iterator. */
  method ReadImage(bytes: seq<bv8>, adapters: seq<AdapterInfo>, ghost n: nat, ghost top: nat, ghost ls: seq<Layout>)
    returns (entries: Option<seq<Entry>>)
    requires HasLength(bytes, n, top) && |bytes| == n + 13 && (bytes[13] < 3 ==> 9 <= n)
    requires GoodLayouts(ls, adapters)
    requires bytes[if bytes[13] < 3 then 22 else 16..] == Flatten(Encoded(ls, adapters))
    ensures entries == if ls == [] then None else Some(Entries(ls))
  {
    AcceptedIff(bytes, n, top);
    var header := ParseHeader(bytes);
    DecodeImage(bytes, header.start, ls, adapters);
    entries := Drain(header.start, bytes, adapters);
  }
}
