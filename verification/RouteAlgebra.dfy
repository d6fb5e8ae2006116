/**
  Route strings (src/device.rs, src/debugfs.rs): one byte per level, packed in 64 bits with the
  adapter of the host router in the lowest byte.

  A route is given as its eight bytes, lowest first, because every shift in the code is by a
  multiple of ROUTE_SHIFT, which is 8.  RouteBits ties the operations to 64-bit arithmetic.
 */
module RouteAlgebra {
  import opened Wrappers

  const ROUTE_BYTES := 8
  const HOST := Zeros(ROUTE_BYTES)

  function Zeros(n: nat): seq<bv8> {
    seq(n, _ => 0)
  }

  type Route = r: seq<bv8> | |r| == ROUTE_BYTES witness [0, 0, 0, 0, 0, 0, 0, 0]

  /** The number of bytes up to the highest one that is not zero. */
  function Depth(r: seq<bv8>): (d: nat)
    ensures d <= |r|
  {
    if r == [] then 0
    else if r[|r| - 1] != 0 then |r|
    else Depth(r[..|r| - 1])
  }

  lemma {:induction false} DepthTop(r: seq<bv8>)
    ensures Depth(r) > 0 ==> r[Depth(r) - 1] != 0
    ensures forall i :: Depth(r) <= i < |r| ==> r[i] == 0
  {
    if r != [] && r[|r| - 1] == 0 {
      DepthTop(r[..|r| - 1]);
    }
  }

  /** The depth is the only number with these properties. */
  lemma DepthUnique(r: seq<bv8>, d: nat)
    requires d <= |r| && (d > 0 ==> r[d - 1] != 0) && forall i :: d <= i < |r| ==> r[i] == 0
    ensures Depth(r) == d
  {
    DepthTop(r);
  }

  /** The bytes below the depth: the adapters from the host router down. */
  function Path(r: Route): seq<bv8> {
    r[..Depth(r)]
  }

  /** No byte below the depth is zero, and a router below the seventh level does not exist. */
  ghost predicate WellFormed(r: Route) {
    Depth(r) <= 7 && forall i :: 0 <= i < Depth(r) ==> r[i] != 0
  }

  /** `route & ((1 << (k * ROUTE_SHIFT)) - 1)` */
  function Low(r: Route, k: nat): Route
    requires k <= ROUTE_BYTES
  {
    r[..k] + Zeros(ROUTE_BYTES - k)
  }

  /** `route | (adapter << (k * ROUTE_SHIFT))` */
  function OrAt(r: Route, adapter: bv8, k: nat): Route
    requires k < ROUTE_BYTES
  {
    r[k := r[k] | adapter]
  }

  /** Adapter::upstream_route; the subtraction underflows at depth 0. */
  function UpstreamRoute(r: Route): Route
    requires 0 < Depth(r)
  {
    Low(r, Depth(r) - 1)
  }

  /** Adapter::downstream_route; the shift overflows at depth 8. */
  function DownstreamRoute(r: Route, adapter: bv8): Route
    requires Depth(r) < ROUTE_BYTES
  {
    OrAt(r, adapter, Depth(r))
  }

  /** Device::downstream_adapter, for two routers of one domain. */
  function DownstreamAdapter(parent: Route, child: Route): Option<bv8> {
    if Depth(child) == Depth(parent) + 1 && parent == Low(child, Depth(parent))
    then Some(child[Depth(parent)])
    else None
  }

  // ---------- Routes are paths ----------

  lemma PathInjective(r: Route, s: Route)
    requires Path(r) == Path(s)
    ensures r == s
  {
    DepthTop(r);
    DepthTop(s);
    assert Depth(r) == |Path(r)| == |Path(s)| == Depth(s);
    forall i | 0 <= i < ROUTE_BYTES ensures r[i] == s[i] {
      if i < Depth(r) {
        assert r[i] == Path(r)[i] == Path(s)[i];
      }
    }
  }

  /** Going downstream extends the path by the adapter; this holds for every route above depth 8. */
  lemma DownstreamPath(r: Route, a: bv8)
    requires a != 0 && Depth(r) < ROUTE_BYTES
    ensures Path(DownstreamRoute(r, a)) == Path(r) + [a]
    ensures Depth(DownstreamRoute(r, a)) == Depth(r) + 1
  {
    DepthTop(r);
    var c := DownstreamRoute(r, a);
    assert 0 | a == a;
    DepthUnique(c, Depth(r) + 1);
  }

  /** Going upstream from a well-formed route drops the last byte of the path. */
  lemma UpstreamPath(r: Route)
    requires WellFormed(r) && 0 < Depth(r)
    ensures Path(UpstreamRoute(r)) == Path(r)[..Depth(r) - 1]
    ensures Depth(UpstreamRoute(r)) == Depth(r) - 1 && WellFormed(UpstreamRoute(r))
  {
    var p := UpstreamRoute(r);
    DepthUnique(p, Depth(r) - 1);
    assert forall i :: 0 <= i < Depth(r) - 1 ==> p[i] == r[i];
  }

  /** Downstream through an adapter and then upstream is the identity. */
  lemma UpstreamOfDownstream(r: Route, a: bv8)
    requires a != 0 && Depth(r) < ROUTE_BYTES
    ensures Depth(DownstreamRoute(r, a)) == Depth(r) + 1
    ensures UpstreamRoute(DownstreamRoute(r, a)) == r
  {
    DownstreamPath(r, a);
    DepthTop(r);
  }

  /** Without well-formedness, upstream and then downstream need not come back. */
  lemma UpstreamOfIllFormed()
    ensures var r: Route := [1, 0, 3, 0, 0, 0, 0, 0];
      Depth(r) == 3 && Depth(UpstreamRoute(r)) == 1 && DownstreamRoute(UpstreamRoute(r), 3) != r
  {
    var r: Route := [1, 0, 3, 0, 0, 0, 0, 0];
    DepthUnique(r, 3);
    var p := UpstreamRoute(r);
    assert p == [1, 0, 0, 0, 0, 0, 0, 0];
    DepthUnique(p, 1);
    assert DownstreamRoute(p, 3)[1] == 0 | 3;
    assert (0 as bv8) | 3 == 3;
  }

  /** One byte above zero bytes is a depth step for upstream routes only if all bytes below are there. */
  lemma DownstreamOfUpstream(r: Route)
    requires 0 < Depth(r)
    ensures DownstreamRoute(UpstreamRoute(r), r[Depth(r) - 1]) == r <==> Depth(r) == 1 || r[Depth(r) - 2] != 0
  {
    DepthTop(r);
    var d := Depth(r);
    var p := UpstreamRoute(r);
    if d == 1 || r[d - 2] != 0 {
      DepthUnique(p, d - 1);
      LowBack(r, d - 1);
    } else {
      DepthTop(p);
      assert Depth(p) < d - 1;
      assert DownstreamRoute(p, r[d - 1])[d - 1] == 0 != r[d - 1];
    }
  }

  lemma LowBack(r: Route, k: nat)
    requires k < ROUTE_BYTES && forall i :: k < i < ROUTE_BYTES ==> r[i] == 0
    ensures OrAt(Low(r, k), r[k], k) == r
  {
    assert 0 | r[k] == r[k];
  }

  /** An adapter number names the child exactly when the child's route is the parent's extended by it. */
  lemma DownstreamAdapterIff(parent: Route, child: Route, a: bv8)
    requires Depth(parent) < ROUTE_BYTES
    ensures DownstreamAdapter(parent, child) == Some(a) <==> a != 0 && child == DownstreamRoute(parent, a)
  {
    var d := Depth(parent);
    var c := DownstreamRoute(parent, a);
    DepthTop(parent);
    DepthTop(child);
    assert c[d] == a by { assert 0 | a == a; }
    if a != 0 && child == c {
      DownstreamPath(parent, a);
      assert Low(child, d) == parent;
    }
    if DownstreamAdapter(parent, child) == Some(a) {
      LowThenByte(parent, child, a);
    }
  }

  lemma LowThenByte(parent: Route, child: Route, a: bv8)
    requires Depth(parent) < ROUTE_BYTES && DownstreamAdapter(parent, child) == Some(a)
    ensures child == DownstreamRoute(parent, a) && a != 0
  {
    DepthTop(parent);
    DepthTop(child);
    var d := Depth(parent);
    assert 0 | a == a;
    assert forall i :: 0 <= i < d ==> Low(child, d)[i] == child[i];
  }

  /** `n` steps upstream. */
  function Ancestor(r: Route, n: nat): Route
    requires WellFormed(r) && n <= Depth(r)
    decreases n
  {
    if n == 0 then r
    else
      UpstreamPath(r);
      Ancestor(UpstreamRoute(r), n - 1)
  }

  /** Each step upstream shortens the path by one; after depth many steps every route is at the host router. */
  lemma {:induction false} AncestorPath(r: Route, n: nat)
    requires WellFormed(r) && n <= Depth(r)
    ensures Path(Ancestor(r, n)) == Path(r)[..Depth(r) - n]
    ensures n == Depth(r) ==> Ancestor(r, n) == HOST
    decreases n
  {
    if n > 0 {
      UpstreamPath(r);
      AncestorPath(UpstreamRoute(r), n - 1);
    } else if Depth(r) == 0 {
      DepthTop(r);
    }
  }

  // ---------- Order ----------

  /** Numerical order of two routes: the highest byte that differs decides. */
  predicate Less(r: seq<bv8>, s: seq<bv8>)
    requires |r| == |s|
  {
    |r| > 0 &&
    var n := |r| - 1;
    if r[n] != s[n] then r[n] < s[n] else Less(r[..n], s[..n])
  }

  lemma {:induction false} LessAt(r: seq<bv8>, s: seq<bv8>, k: nat)
    requires |r| == |s| && k < |r| && r[k] < s[k] && forall i :: k < i < |r| ==> r[i] == s[i]
    ensures Less(r, s)
    decreases |r|
  {
    var n := |r| - 1;
    if k < n {
      LessAt(r[..n], s[..n], k);
    }
  }

  /** Within a domain, devices sorted by route have every router after its parent. */
  lemma UpstreamSortsFirst(r: Route)
    requires 0 < Depth(r)
    ensures Less(UpstreamRoute(r), r)
  {
    DepthTop(r);
    LessAt(UpstreamRoute(r), r, Depth(r) - 1);
  }
}

/** The byte operations of RouteAlgebra are the 64-bit operations of the code. */
module RouteBits {
  import opened RouteAlgebra

  /** `k * ROUTE_SHIFT` as a shift amount. */
  function ShiftOf(k: nat): (n: bv64)
    requires k < ROUTE_BYTES
    ensures n <= 56 && n & 7 == 0
  {
    match k
    case 0 => 0
    case 1 => 8
    case 2 => 16
    case 3 => 24
    case 4 => 32
    case 5 => 40
    case 6 => 48
    case _ => 56
  }

  /** `(v >> (k * ROUTE_SHIFT)) & 0xff` */
  function ByteAt(v: bv64, k: nat): (b: bv64)
    requires k < ROUTE_BYTES
    ensures b <= 0xff
  {
    (v >> ShiftOf(k)) & 0xff
  }

  function Byte(v: bv64, k: nat): bv8
    requires k < ROUTE_BYTES
  {
    ByteAt(v, k) as bv8
  }

  /** The eight bytes of a 64-bit route. */
  function Bytes(v: bv64): Route {
    [Byte(v, 0), Byte(v, 1), Byte(v, 2), Byte(v, 3), Byte(v, 4), Byte(v, 5), Byte(v, 6), Byte(v, 7)]
  }

  lemma ByteIndex(v: bv64, i: nat)
    requires i < ROUTE_BYTES
    ensures Bytes(v)[i] == Byte(v, i)
  {
  }

  lemma SameBytes(v: bv64, r: Route)
    requires forall i :: 0 <= i < ROUTE_BYTES ==> Byte(v, i) == r[i]
    ensures Bytes(v) == r
  {
  }

  lemma MaskedByte(v: bv64, n: bv64, m: bv64)
    requires n <= 56 && m <= 56 && n & 7 == 0 && m & 7 == 0
    ensures m < n ==> ((v & ((1 << n) - 1)) >> m) & 0xff == (v >> m) & 0xff
    ensures n <= m ==> ((v & ((1 << n) - 1)) >> m) & 0xff == 0
  {
  }

  lemma ShiftOrder(i: nat, k: nat)
    requires i < ROUTE_BYTES && k < ROUTE_BYTES
    ensures i < k <==> ShiftOf(i) < ShiftOf(k)
    ensures i == k <==> ShiftOf(i) == ShiftOf(k)
  {
  }

  lemma MaskBitsAt(v: bv64, k: nat, i: nat)
    requires k < ROUTE_BYTES && i < ROUTE_BYTES
    ensures Byte(v & ((1 << ShiftOf(k)) - 1), i) == if i < k then Byte(v, i) else 0
  {
    MaskedByte(v, ShiftOf(k), ShiftOf(i));
    ShiftOrder(i, k);
  }

  /** Masking keeps the low bytes. */
  lemma MaskBits(v: bv64, k: nat)
    requires k < ROUTE_BYTES
    ensures Bytes(v & ((1 << ShiftOf(k)) - 1)) == Low(Bytes(v), k)
  {
    var low := Low(Bytes(v), k);
    forall i | 0 <= i < 8 ensures Byte(v & ((1 << ShiftOf(k)) - 1), i) == low[i] {
      MaskBitsAt(v, k, i);
      ByteIndex(v, i);
    }
    SameBytes(v & ((1 << ShiftOf(k)) - 1), low);
  }

  lemma OredByte(v: bv64, x: bv64, n: bv64)
    requires n <= 56 && n & 7 == 0
    ensures ((v | x) >> n) & 0xff == ((v >> n) & 0xff) | ((x >> n) & 0xff)
  {
  }

  lemma OrBitsAt(v: bv64, a: bv8, k: nat, i: nat)
    requires k < ROUTE_BYTES && i < ROUTE_BYTES
    ensures Byte(v | ((a as bv64) << ShiftOf(k)), i) == if i == k then Byte(v, i) | a else Byte(v, i)
  {
    OredByte(v, (a as bv64) << ShiftOf(k), ShiftOf(i));
    ShiftOrder(i, k);
    var b := ByteAt(v, i);
    assert b | 0 == b;
    assert (b | (a as bv64)) as bv8 == (b as bv8) | a;
  }

  lemma OneByteChanged(r: Route, w: bv64, a: bv8, k: nat)
    requires k < ROUTE_BYTES
    requires forall i :: 0 <= i < 8 ==> Byte(w, i) == if i == k then r[i] | a else r[i]
    ensures Bytes(w) == OrAt(r, a, k)
  {
    SameBytes(w, OrAt(r, a, k));
  }

  /** Or-ing a shifted adapter number changes one byte. */
  lemma OrBits(v: bv64, a: bv8, k: nat)
    requires k < ROUTE_BYTES
    ensures Bytes(v | ((a as bv64) << ShiftOf(k))) == OrAt(Bytes(v), a, k)
  {
    var r := Bytes(v);
    forall i | 0 <= i < 8
      ensures Byte(v | ((a as bv64) << ShiftOf(k)), i) == if i == k then r[i] | a else r[i]
    {
      OrBitsAt(v, a, k, i);
      ByteIndex(v, i);
    }
    OneByteChanged(r, v | ((a as bv64) << ShiftOf(k)), a, k);
  }

  lemma HighByte(v: bv64, k: nat)
    requires k < 7 && ByteAt(v, k) == 0 && v < 1 << ShiftOf(k + 1)
    ensures v < 1 << ShiftOf(k)
  {
  }

  lemma {:induction false} HighBytes(v: bv64, k: nat)
    requires k < ROUTE_BYTES && forall i :: k <= i < 8 ==> ByteAt(v, i) == 0
    ensures v < 1 << ShiftOf(k)
    decreases 8 - k
  {
    assert ByteAt(v, k) == 0;
    if k < 7 {
      HighBytes(v, k + 1);
      HighByte(v, k);
    }
  }

  lemma LowBytes(v: bv64, k: nat, i: nat)
    requires k <= i < ROUTE_BYTES && v < 1 << ShiftOf(k)
    ensures Byte(v, i) == 0
  {
    ShiftOrder(i, k);
  }

  /** The bits fit below `k * ROUTE_SHIFT` exactly when the depth is at most `k`. */
  lemma DepthBits(v: bv64, k: nat)
    requires k < ROUTE_BYTES
    ensures v < 1 << ShiftOf(k) <==> Depth(Bytes(v)) <= k
  {
    DepthTop(Bytes(v));
    if v < 1 << ShiftOf(k) {
      forall i | k <= i < 8 ensures Byte(v, i) == 0 {
        LowBytes(v, k, i);
      }
    }
    if Depth(Bytes(v)) <= k {
      forall i | k <= i < 8 ensures ByteAt(v, i) == 0 {
        assert Bytes(v)[i] == Byte(v, i);
      }
      HighBytes(v, k);
    }
  }

  // ---------- Order ----------

  /** The eight bytes of a number, each as a number. */
  function Octets(v: bv64): (r: seq<bv64>)
    ensures |r| == 8
  {
    [v & 0xff, (v >> 8) & 0xff, (v >> 16) & 0xff, (v >> 24) & 0xff,
     (v >> 32) & 0xff, (v >> 40) & 0xff, (v >> 48) & 0xff, (v >> 56) & 0xff]
  }

  predicate Below(x: bv64, y: bv64) {
    x < y
  }

  lemma Octet0Decides(v: bv64, w: bv64, x: seq<bv64>, y: seq<bv64>)
    requires x == Octets(v) && y == Octets(w) && Below(x[0], y[0])
    requires x[1] == y[1] && x[2] == y[2] && x[3] == y[3]
    requires x[4] == y[4] && x[5] == y[5] && x[6] == y[6] && x[7] == y[7]
    ensures Below(v, w)
  {
  }

  lemma Octet1Decides(v: bv64, w: bv64, x: seq<bv64>, y: seq<bv64>)
    requires x == Octets(v) && y == Octets(w) && Below(x[1], y[1])
    requires x[2] == y[2] && x[3] == y[3] && x[4] == y[4] && x[5] == y[5] && x[6] == y[6] && x[7] == y[7]
    ensures Below(v, w)
  {
  }

  lemma Octet2Decides(v: bv64, w: bv64, x: seq<bv64>, y: seq<bv64>)
    requires x == Octets(v) && y == Octets(w) && Below(x[2], y[2])
    requires x[3] == y[3] && x[4] == y[4] && x[5] == y[5] && x[6] == y[6] && x[7] == y[7]
    ensures Below(v, w)
  {
  }

  lemma Octet3Decides(v: bv64, w: bv64, x: seq<bv64>, y: seq<bv64>)
    requires x == Octets(v) && y == Octets(w) && Below(x[3], y[3])
    requires x[4] == y[4] && x[5] == y[5] && x[6] == y[6] && x[7] == y[7]
    ensures Below(v, w)
  {
  }

  lemma Octet4Decides(v: bv64, w: bv64, x: seq<bv64>, y: seq<bv64>)
    requires x == Octets(v) && y == Octets(w) && Below(x[4], y[4])
    requires x[5] == y[5] && x[6] == y[6] && x[7] == y[7]
    ensures Below(v, w)
  {
  }

  lemma Octet5Decides(v: bv64, w: bv64, x: seq<bv64>, y: seq<bv64>)
    requires x == Octets(v) && y == Octets(w) && Below(x[5], y[5])
    requires x[6] == y[6] && x[7] == y[7]
    ensures Below(v, w)
  {
  }

  lemma Octet6Decides(v: bv64, w: bv64, x: seq<bv64>, y: seq<bv64>)
    requires x == Octets(v) && y == Octets(w) && Below(x[6], y[6])
    requires x[7] == y[7]
    ensures Below(v, w)
  {
  }

  lemma Octet7Decides(v: bv64, w: bv64, x: seq<bv64>, y: seq<bv64>)
    requires x == Octets(v) && y == Octets(w) && Below(x[7], y[7])
    ensures Below(v, w)
  {
  }

  /** The highest byte that differs decides. */
  lemma OctetDecides(v: bv64, w: bv64, x: seq<bv64>, y: seq<bv64>, k: nat)
    requires x == Octets(v) && y == Octets(w)
    requires k < 8 && Below(x[k], y[k]) && forall i :: k < i < 8 ==> x[i] == y[i]
    ensures Below(v, w)
  {
    hide Octets, Below;
    match k
    case 0 => Octet0Decides(v, w, x, y);
    case 1 => Octet1Decides(v, w, x, y);
    case 2 => Octet2Decides(v, w, x, y);
    case 3 => Octet3Decides(v, w, x, y);
    case 4 => Octet4Decides(v, w, x, y);
    case 5 => Octet5Decides(v, w, x, y);
    case 6 => Octet6Decides(v, w, x, y);
    case _ => Octet7Decides(v, w, x, y);
  }

  lemma OctetsDecide(v: bv64, w: bv64)
    requires Octets(v) == Octets(w)
    ensures v == w
  {
    var x, y := Octets(v), Octets(w);
    assert x[0] == y[0] && x[1] == y[1] && x[2] == y[2] && x[3] == y[3];
    assert x[4] == y[4] && x[5] == y[5] && x[6] == y[6] && x[7] == y[7];
  }

  predicate SameByte(a: bv8, x: bv64) {
    x <= 0xff && a == x as bv8
  }

  lemma AllSameBytes(v: bv64)
    ensures var r, x := Bytes(v), Octets(v);
      && SameByte(r[0], x[0]) && SameByte(r[1], x[1]) && SameByte(r[2], x[2]) && SameByte(r[3], x[3])
      && SameByte(r[4], x[4]) && SameByte(r[5], x[5]) && SameByte(r[6], x[6]) && SameByte(r[7], x[7])
  {
    assert v >> 0 == v;
  }

  lemma BytesAreOctets(v: bv64, i: nat)
    requires i < 8
    ensures SameByte(Bytes(v)[i], Octets(v)[i])
  {
    hide Bytes, Octets, SameByte;
    AllSameBytes(v);
    match i
    case 0 | 1 | 2 | 3 | 4 | 5 | 6 =>
    case _ =>
  }

  lemma ByteOrder(x: bv64, y: bv64, a: bv8, b: bv8)
    requires SameByte(a, x) && SameByte(b, y)
    ensures a < b <==> Below(x, y)
    ensures a == b <==> x == y
  {
  }

  lemma OctetOrder(v: bv64, w: bv64, x: seq<bv64>, y: seq<bv64>, r: Route, s: Route, i: nat)
    requires x == Octets(v) && y == Octets(w) && r == Bytes(v) && s == Bytes(w) && i < 8
    ensures r[i] < s[i] <==> Below(x[i], y[i])
    ensures r[i] == s[i] <==> x[i] == y[i]
  {
    hide Bytes, Octets, SameByte, Below;
    BytesAreOctets(v, i);
    BytesAreOctets(w, i);
    ByteOrder(x[i], y[i], r[i], s[i]);
  }

  /** The highest byte at which a smaller route differs. */
  lemma {:induction false} LessHighest(r: seq<bv8>, s: seq<bv8>) returns (k: nat)
    requires |r| == |s| && Less(r, s)
    ensures k < |r| && r[k] < s[k] && forall i :: k < i < |r| ==> r[i] == s[i]
    decreases |r|
  {
    var n := |r| - 1;
    k := n;
    if r[n] == s[n] {
      k := LessHighest(r[..n], s[..n]);
    }
  }

  lemma {:induction false} LessTotal(r: seq<bv8>, s: seq<bv8>)
    requires |r| == |s|
    ensures Less(r, s) || r == s || Less(s, r)
    decreases |r|
  {
    if r != [] {
      var n := |r| - 1;
      LessTotal(r[..n], s[..n]);
      assert r == r[..n] + [r[n]] && s == s[..n] + [s[n]];
    }
  }

  lemma LessGivesBelow(v: bv64, w: bv64, r: Route, s: Route)
    requires r == Bytes(v) && s == Bytes(w) && Less(r, s)
    ensures Below(v, w)
  {
    hide Bytes, Octets, Below;
    var x, y := Octets(v), Octets(w);
    var k := LessHighest(r, s);
    OctetOrder(v, w, x, y, r, s, k);
    forall i | k < i < 8 ensures x[i] == y[i] {
      OctetOrder(v, w, x, y, r, s, i);
    }
    OctetDecides(v, w, x, y, k);
  }

  lemma SameBytesSameNumber(v: bv64, w: bv64, r: Route)
    requires r == Bytes(v) == Bytes(w)
    ensures v == w
  {
    hide Bytes, Octets, Below;
    var x, y := Octets(v), Octets(w);
    forall i | 0 <= i < 8 ensures x[i] == y[i] {
      OctetOrder(v, w, x, y, r, r, i);
    }
    OctetsDecide(v, w);
  }

  lemma BelowIsOneWay(v: bv64, w: bv64)
    ensures Below(v, w) ==> !Below(w, v)
    ensures !Below(v, v)
  {
  }

  lemma BelowIff(v: bv64, w: bv64, r: Route, s: Route)
    requires r == Bytes(v) && s == Bytes(w)
    ensures Below(v, w) <==> Less(r, s)
  {
    hide Bytes, Below;
    LessTotal(r, s);
    BelowIsOneWay(v, w);
    if Less(r, s) {
      LessGivesBelow(v, w, r, s);
    } else if r == s {
      SameBytesSameNumber(v, w, r);
    } else {
      LessGivesBelow(w, v, s, r);
    }
  }

  /** The order of routes is the order of the 64-bit numbers. */
  lemma LessBits(v: bv64, w: bv64)
    ensures v < w <==> Less(Bytes(v), Bytes(w))
  {
    hide Bytes;
    BelowIff(v, w, Bytes(v), Bytes(w));
  }
}
