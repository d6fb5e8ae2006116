/**
  Path discovery over the router tree (src/tunnel.rs, discover_path), with the device and adapter
  lookups of src/debugfs.rs.

  The walk follows path table entries from router to router until there is no entry or no next
  router.  It terminates when no entry sends traffic back out of its input adapter.
 */
module PathDiscovery {
  import opened Wrappers
  import opened RouteAlgebra

  /** An enabled entry of the path config space. */
  datatype PathEntry = PathEntry(inAdapter: bv8, inHop: nat, outAdapter: bv8, outHop: nat)

  /** `domain` and `route` are those of the owning router. */
  datatype Adapter = Adapter(
    domain: nat, route: Route, num: bv8, lane: bool, upstream: bool, paths: Option<seq<PathEntry>>)

  datatype Kind = Router | Xdomain | OtherKind

  /** `upstreamAdapter` is None until the router registers were read. */
  datatype Device = Device(
    kind: Kind, domain: nat, route: Route, upstreamAdapter: Option<bv8>, adapters: Option<seq<Adapter>>)

  datatype Hop = Hop(entry: PathEntry, device: Device)

  // ---------- Lookups ----------

  function FindEntry(paths: seq<PathEntry>, inHop: nat): (r: Option<PathEntry>)
    ensures r.Some? ==> r.value in paths && r.value.inHop == inHop
    ensures r == None ==> forall e :: e in paths ==> e.inHop != inHop
  {
    if paths == [] then None
    else if paths[0].inHop == inHop then Some(paths[0])
    else FindEntry(paths[1..], inHop)
  }

  /** Adapter::path. */
  function EntryAt(a: Adapter, inHop: nat): Option<PathEntry> {
    if a.paths == None then None else FindEntry(a.paths.value, inHop)
  }

  function FindNum(adapters: seq<Adapter>, num: bv8): (r: Option<Adapter>)
    ensures r.Some? ==> r.value in adapters && r.value.num == num
  {
    if adapters == [] then None
    else if adapters[0].num == num then Some(adapters[0])
    else FindNum(adapters[1..], num)
  }

  /** Device::adapter. */
  function AdapterOf(d: Device, num: bv8): (r: Option<Adapter>)
    ensures r.Some? ==> d.adapters.Some? && r.value in d.adapters.value && r.value.num == num
  {
    if d.adapters == None then None else FindNum(d.adapters.value, num)
  }

  function FindRouter(devices: seq<Device>, domain: nat, route: Route): (r: Option<Device>)
    ensures r.Some? ==> r.value in devices && r.value.kind.Router? && r.value.domain == domain && r.value.route == route
    ensures r == None ==> forall d :: d in devices && d.kind.Router? && d.domain == domain ==> d.route != route
  {
    if devices == [] then None
    else if devices[0].kind.Router? && devices[0].domain == domain && devices[0].route == route then Some(devices[0])
    else FindRouter(devices[1..], domain, route)
  }

  /** The lookups find the first one if there is one. */
  lemma {:induction false} EntryFirst(paths: seq<PathEntry>, inHop: nat, k: nat)
    requires k <= |paths| && (k < |paths| ==> paths[k].inHop == inHop)
    requires forall j :: 0 <= j < k ==> paths[j].inHop != inHop
    ensures FindEntry(paths, inHop) == if k < |paths| then Some(paths[k]) else None
  {
    if k > 0 {
      EntryFirst(paths[1..], inHop, k - 1);
    }
  }

  lemma {:induction false} AdapterFirst(adapters: seq<Adapter>, num: bv8, k: nat)
    requires k <= |adapters| && (k < |adapters| ==> adapters[k].num == num)
    requires forall j :: 0 <= j < k ==> adapters[j].num != num
    ensures FindNum(adapters, num) == if k < |adapters| then Some(adapters[k]) else None
  {
    if k > 0 {
      AdapterFirst(adapters[1..], num, k - 1);
    }
  }

  predicate IsRouter(d: Device, domain: nat, route: Route) {
    d.kind == Router && d.domain == domain && d.route == route
  }

  lemma {:induction false} RouterFirst(devices: seq<Device>, domain: nat, route: Route, k: nat)
    requires k <= |devices| && (k < |devices| ==> IsRouter(devices[k], domain, route))
    requires forall j :: 0 <= j < k ==> !IsRouter(devices[j], domain, route)
    ensures FindRouter(devices, domain, route) == if k < |devices| then Some(devices[k]) else None
  {
    if k > 0 {
      RouterFirst(devices[1..], domain, route, k - 1);
      assert forall j :: 0 <= j < |devices| - 1 ==> devices[1..][j] == devices[j + 1];
    }
  }

  /** Adapter::upstream_device; the route arithmetic underflows for a lane adapter of a host router. */
  function UpstreamDevice(devices: seq<Device>, a: Adapter): Option<Device>
    requires a.lane && a.upstream ==> 0 < Depth(a.route)
  {
    if a.lane && a.upstream then FindRouter(devices, a.domain, UpstreamRoute(a.route)) else None
  }

  /** Adapter::downstream_device. */
  function DownstreamDevice(devices: seq<Device>, a: Adapter): Option<Device>
    requires a.lane ==> Depth(a.route) < ROUTE_BYTES
  {
    if a.lane then FindRouter(devices, a.domain, DownstreamRoute(a.route, a.num)) else None
  }

  /** Device::downstream_adapter. */
  function DownstreamAdapterTo(parent: Device, child: Device): Option<bv8> {
    if child.domain == parent.domain then DownstreamAdapter(parent.route, child.route) else None
  }

  // ---------- Well-formed topologies ----------

  ghost predicate GoodAdapter(d: Device, a: Adapter) {
    && a.domain == d.domain && a.route == d.route && a.num != 0
    && (a.upstream <==> d.upstreamAdapter == Some(a.num))
    && (a.upstream ==> (a.lane <==> Depth(d.route) > 0))
    && (a.paths.Some? ==> forall e :: e in a.paths.value ==>
          e.inAdapter == a.num && AdapterOf(d, e.outAdapter).Some?)
  }

  ghost predicate GoodDevice(d: Device) {
    d.kind.Router? ==>
      && WellFormed(d.route)
      && d.upstreamAdapter.Some? && AdapterOf(d, d.upstreamAdapter.value).Some?
      && forall a :: a in d.adapters.value ==> GoodAdapter(d, a)
  }

  /** The adapter of `p` that the route of `c` names is a lane adapter away from the host. */
  ghost predicate GoodLink(p: Device, c: Device)
    requires 0 < Depth(c.route)
  {
    var a := AdapterOf(p, c.route[Depth(c.route) - 1]);
    a.Some? && a.value.lane && !a.value.upstream
  }

  ghost predicate GoodTopology(devices: seq<Device>) {
    && (forall d :: d in devices ==> GoodDevice(d))
    && (forall p, c :: p in devices && c in devices && IsParent(p, c) ==> GoodLink(p, c))
  }

  /** `p` is a router of the domain of `c`, one level up on its route. */
  predicate IsAbove(p: Device, c: Device) {
    p.kind.Router? && p.domain == c.domain && 0 < Depth(c.route) && p.route == UpstreamRoute(c.route)
  }

  predicate IsParent(p: Device, c: Device) {
    c.kind.Router? && IsAbove(p, c)
  }

  /** No entry sends traffic back out of the adapter it came in by. */
  ghost predicate NoUTurn(devices: seq<Device>) {
    forall d :: d in devices && d.kind.Router? && d.adapters.Some? ==>
      forall a :: a in d.adapters.value && a.paths.Some? ==>
        forall e :: e in a.paths.value ==> e.outAdapter != a.num
  }

  /** The entry at a position sends the traffic back. */
  predicate TurnsBack(pos: Pos) {
    var entry := EntryAt(pos.adapter, pos.inHop);
    entry.Some? && entry.value.outAdapter == pos.adapter.num
  }

  ghost predicate DepthAtMost(devices: seq<Device>, m: nat) {
    forall d :: d in devices && d.kind.Router? ==> Depth(d.route) <= m
  }

  // ---------- One step of the walk ----------

  datatype Pos = Pos(device: Device, adapter: Adapter, inHop: nat)

  datatype Outcome =
    | Moved(hop: Hop, next: Pos)
    | NoEntry
    | NoRouter(hop: Hop)
    | Failed    // an operator `?` gives up
    | Panicked  // an unwrap or an underflow

  function Step(devices: seq<Device>, pos: Pos): Outcome {
    var entry := EntryAt(pos.adapter, pos.inHop);
    if entry == None then NoEntry
    else
      var hop := Hop(entry.value, pos.device);
      var out := AdapterOf(pos.device, entry.value.outAdapter);
      if out == None then Panicked
      else if out.value.upstream then ThroughUpstream(devices, out.value, hop)
      else ThroughDownstream(devices, out.value, hop)
  }

  function ThroughUpstream(devices: seq<Device>, out: Adapter, hop: Hop): Outcome
    requires out.upstream
  {
    if out.lane && Depth(out.route) == 0 then Panicked
    else
      var dev := UpstreamDevice(devices, out);
      if dev == None then NoRouter(hop) else EnterFromBelow(dev.value, hop)
  }

  function ThroughDownstream(devices: seq<Device>, out: Adapter, hop: Hop): Outcome {
    if out.lane && Depth(out.route) == ROUTE_BYTES then Panicked
    else
      var dev := DownstreamDevice(devices, out);
      if dev == None then NoRouter(hop) else EnterFromAbove(dev.value, hop)
  }

  function EnterFromBelow(dev: Device, hop: Hop): Outcome {
    var num := DownstreamAdapterTo(dev, hop.device);
    if num == None then Failed
    else
      var a := AdapterOf(dev, num.value);
      if a == None then Failed else Moved(hop, Pos(dev, a.value, hop.entry.outHop))
  }

  function EnterFromAbove(dev: Device, hop: Hop): Outcome {
    if !dev.kind.Router? || dev.upstreamAdapter == None then Failed
    else
      var a := AdapterOf(dev, dev.upstreamAdapter.value);
      if a == None then Failed else Moved(hop, Pos(dev, a.value, hop.entry.outHop))
  }

  /** The position after `n` steps, if the walk gets that far. */
  function After(devices: seq<Device>, pos: Pos, n: nat): Option<Pos>
    decreases n
  {
    if n == 0 then Some(pos)
    else
      var o := Step(devices, pos);
      if o.Moved? then After(devices, o.next, n - 1) else None
  }

  lemma {:induction false} AfterSum(devices: seq<Device>, pos: Pos, n: nat, m: nat)
    requires After(devices, pos, n).Some?
    ensures After(devices, pos, n + m) == After(devices, After(devices, pos, n).value, m)
    decreases n
  {
    hide Step;
    if n > 0 {
      AfterSum(devices, Step(devices, pos).next, n - 1, m);
    }
  }

  /** No entry on the walk sends traffic back out of its input adapter; at the source it may. */
  ghost predicate NoTurnOnWalk(devices: seq<Device>, start: Pos) {
    forall n :: n > 0 && After(devices, start, n).Some? ==> !TurnsBack(After(devices, start, n).value)
  }

  // ---------- Hops and links ----------

  ghost predicate GoodPos(devices: seq<Device>, pos: Pos) {
    && pos.device in devices && pos.device.kind.Router?
    && AdapterOf(pos.device, pos.adapter.num) == Some(pos.adapter)
  }

  /** The hop is the entry that the table of its input adapter holds for its input HopID. */
  ghost predicate HopAt(pos: Pos, hop: Hop) {
    hop.device == pos.device && EntryAt(pos.adapter, pos.inHop) == Some(hop.entry)
  }

  /** The link from adapter `out` of `d` goes up to `in_` of the parent, or down to the upstream adapter of a child. */
  ghost predicate Linked(d: Device, out: Adapter, next: Pos) {
    && next.device.domain == d.domain
    && if out.upstream
       then 0 < Depth(d.route) && next.device.route == UpstreamRoute(d.route)
            && next.adapter.num == d.route[Depth(d.route) - 1] && !next.adapter.upstream
       else Depth(d.route) < ROUTE_BYTES && next.device.route == DownstreamRoute(d.route, out.num)
            && next.adapter.upstream
  }

  /** What a step that moves has done: a table entry, an output adapter, and the link behind it. */
  ghost predicate StepTo(pos: Pos, hop: Hop, next: Pos) {
    && HopAt(pos, hop)
    && hop.entry.inAdapter == pos.adapter.num && hop.entry.inHop == pos.inHop
    && AdapterOf(pos.device, hop.entry.outAdapter).Some?
    && Linked(pos.device, AdapterOf(pos.device, hop.entry.outAdapter).value, next)
    && next.inHop == hop.entry.outHop
  }

  /** `route` is not the route of a router in the domain of `d`. */
  ghost predicate NoSuchRouter(devices: seq<Device>, d: Device, route: Route) {
    forall x :: x in devices && x.kind.Router? && x.domain == d.domain ==> x.route != route
  }

  /** No router is at the other end of the output adapter. */
  ghost predicate Leaves(devices: seq<Device>, hop: Hop) {
    var d := hop.device;
    var out := AdapterOf(d, hop.entry.outAdapter);
    && out.Some?
    && (out.value.lane && out.value.upstream && 0 < Depth(d.route) ==> NoSuchRouter(devices, d, UpstreamRoute(d.route)))
    && (out.value.lane && !out.value.upstream && Depth(d.route) < ROUTE_BYTES ==>
          NoSuchRouter(devices, d, DownstreamRoute(d.route, out.value.num)))
  }

  lemma OutOf(devices: seq<Device>, pos: Pos, entry: PathEntry) returns (out: Adapter)
    requires GoodTopology(devices) && GoodPos(devices, pos) && EntryAt(pos.adapter, pos.inHop) == Some(entry)
    ensures entry.inAdapter == pos.adapter.num && entry.inHop == pos.inHop
    ensures AdapterOf(pos.device, entry.outAdapter) == Some(out) && GoodAdapter(pos.device, out)
    ensures WellFormed(pos.device.route)
  {
    assert GoodDevice(pos.device);
    assert GoodAdapter(pos.device, pos.adapter);
    assert entry in pos.adapter.paths.value;
    out := AdapterOf(pos.device, entry.outAdapter).value;
  }

  lemma ChildAdapter(r: Route)
    requires WellFormed(r) && 0 < Depth(r)
    ensures DownstreamAdapter(UpstreamRoute(r), r) == Some(r[Depth(r) - 1])
  {
    DepthTop(r);
    UpstreamPath(r);
    DownstreamOfUpstream(r);
    DownstreamAdapterIff(UpstreamRoute(r), r, r[Depth(r) - 1]);
  }

  lemma GoingUp(devices: seq<Device>, hop: Hop, dev: Device)
    requires GoodTopology(devices) && hop.device in devices && dev in devices
    requires IsParent(dev, hop.device)
    ensures var num := hop.device.route[Depth(hop.device.route) - 1];
      && AdapterOf(dev, num).Some?
      && EnterFromBelow(dev, hop) == Moved(hop, Pos(dev, AdapterOf(dev, num).value, hop.entry.outHop))
      && !AdapterOf(dev, num).value.upstream
  {
    hide DownstreamAdapter, UpstreamRoute, Depth, AdapterOf;
    assert GoodDevice(hop.device) && GoodLink(dev, hop.device);
    ChildAdapter(hop.device.route);
  }

  lemma GoingDown(devices: seq<Device>, hop: Hop, dev: Device)
    requires GoodTopology(devices) && dev in devices && dev.kind.Router?
    ensures dev.upstreamAdapter.Some? && AdapterOf(dev, dev.upstreamAdapter.value).Some?
    ensures var a := AdapterOf(dev, dev.upstreamAdapter.value).value;
      a.upstream && EnterFromAbove(dev, hop) == Moved(hop, Pos(dev, a, hop.entry.outHop))
  {
    assert GoodDevice(dev);
    assert GoodAdapter(dev, AdapterOf(dev, dev.upstreamAdapter.value).value);
  }

  /** What holds of the outcome behind a good output adapter. */
  ghost predicate GoodOutcome(devices: seq<Device>, pos: Pos, o: Outcome) {
    match o
    case Moved(hop, next) => StepTo(pos, hop, next) && GoodPos(devices, next)
    case NoEntry => EntryAt(pos.adapter, pos.inHop) == None
    case NoRouter(hop) => HopAt(pos, hop) && Leaves(devices, hop)
    case _ => false
  }

  lemma UpstreamOutcome(devices: seq<Device>, pos: Pos, hop: Hop, out: Adapter)
    requires GoodTopology(devices) && GoodPos(devices, pos) && HopAt(pos, hop) && out.upstream
    requires hop.entry.inAdapter == pos.adapter.num && hop.entry.inHop == pos.inHop
    requires AdapterOf(pos.device, hop.entry.outAdapter) == Some(out) && GoodAdapter(pos.device, out)
    ensures GoodOutcome(devices, pos, ThroughUpstream(devices, out, hop))
  {
    assert !(out.lane && Depth(out.route) == 0);
    var dev := UpstreamDevice(devices, out);
    if dev.Some? {
      GoingUp(devices, hop, dev.value);
    }
  }

  lemma NothingBelow(devices: seq<Device>, hop: Hop, out: Adapter)
    requires AdapterOf(hop.device, hop.entry.outAdapter) == Some(out) && GoodAdapter(hop.device, out) && !out.upstream
    requires Depth(hop.device.route) <= 7 && DownstreamDevice(devices, out) == None
    ensures Leaves(devices, hop)
  {
  }

  lemma DownstreamOutcome(devices: seq<Device>, pos: Pos, hop: Hop, out: Adapter)
    requires GoodTopology(devices) && GoodPos(devices, pos) && HopAt(pos, hop) && !out.upstream
    requires hop.entry.inAdapter == pos.adapter.num && hop.entry.inHop == pos.inHop
    requires AdapterOf(pos.device, hop.entry.outAdapter) == Some(out) && GoodAdapter(pos.device, out)
    requires Depth(pos.device.route) <= 7
    ensures GoodOutcome(devices, pos, ThroughDownstream(devices, out, hop))
  {
    var dev := DownstreamDevice(devices, out);
    if dev.Some? {
      GoingDown(devices, hop, dev.value);
    } else {
      NothingBelow(devices, hop, out);
    }
  }

  /** On a well-formed topology a step moves along a link, or it stops for want of an entry or a router. */
  lemma StepWellFormed(devices: seq<Device>, pos: Pos)
    requires GoodTopology(devices) && GoodPos(devices, pos)
    ensures GoodOutcome(devices, pos, Step(devices, pos))
  {
    var entry := EntryAt(pos.adapter, pos.inHop);
    if entry.Some? {
      var out := OutOf(devices, pos, entry.value);
      var hop := Hop(entry.value, pos.device);
      if out.upstream {
        UpstreamOutcome(devices, pos, hop, out);
      } else {
        DownstreamOutcome(devices, pos, hop, out);
      }
    }
  }

  // ---------- The shape of a walk ----------

  ghost predicate Extends(a: seq<bv8>, b: seq<bv8>) {
    |b| == |a| + 1 && a <= b
  }

  ghost predicate DownStep(paths: seq<seq<bv8>>, i: nat)
    requires 0 < i < |paths|
  {
    Extends(paths[i - 1], paths[i]) && !(paths[i] <= paths[0])
  }

  /** The paths go up to `top` and from there only down, away from the way up. */
  ghost predicate UpThenDown(paths: seq<seq<bv8>>, top: nat) {
    && top < |paths| && top <= |paths[0]|
    && (forall i :: 0 <= i <= top ==> paths[i] == paths[0][..|paths[0]| - i])
    && (forall i :: top < i < |paths| ==> DownStep(paths, i))
  }

  lemma {:induction false} LengthsBelow(paths: seq<seq<bv8>>, top: nat, j: nat)
    requires UpThenDown(paths, top) && top <= j < |paths|
    ensures |paths[j]| == |paths[0]| - top + (j - top)
  {
    if top < j {
      LengthsBelow(paths, top, j - 1);
      assert DownStep(paths, j);
    }
  }

  /** No router is visited twice. */
  lemma WalkIsSimple(paths: seq<seq<bv8>>, top: nat, i: nat, j: nat)
    requires UpThenDown(paths, top) && i < j < |paths|
    ensures paths[i] != paths[j]
  {
    if top < i {
      LengthsBelow(paths, top, i);
      LengthsBelow(paths, top, j);
    } else if top < j {
      assert paths[i] <= paths[0];
      assert DownStep(paths, j);
    }
  }

  /** A walk whose deepest router is at depth `m` has at most depth(source) + m + 1 routers. */
  lemma WalkBounded(paths: seq<seq<bv8>>, top: nat, m: nat)
    requires UpThenDown(paths, top) && |paths[|paths| - 1]| <= m
    ensures |paths| <= |paths[0]| + m + 1
  {
    LengthsBelow(paths, top, |paths| - 1);
  }

  /** On the way up the walk is at an ancestor of the source and came in by the adapter towards it. */
  ghost predicate OnWayUp(s: seq<bv8>, pos: Pos) {
    var p := Path(pos.device.route);
    && p <= s
    && (|p| < |s| ==> pos.adapter.num == s[|p|] && !pos.adapter.upstream)
  }

  ghost predicate OnWayDown(s: seq<bv8>, pos: Pos) {
    !(Path(pos.device.route) <= s) && pos.adapter.upstream
  }

  lemma LinkedPaths(d: Device, out: Adapter, next: Pos)
    requires Linked(d, out, next) && WellFormed(d.route) && out.num != 0
    ensures out.upstream ==> (var n := |Path(d.route)| - 1;
      n >= 0 && Path(next.device.route) == Path(d.route)[..n] && next.adapter.num == Path(d.route)[n])
    ensures !out.upstream ==> Path(next.device.route) == Path(d.route) + [out.num]
  {
    if out.upstream {
      UpstreamPath(d.route);
    } else {
      DownstreamPath(d.route, out.num);
    }
  }

  /** The output adapter of a step: good, and not the input adapter unless the step turns back. */
  lemma StepOut(devices: seq<Device>, pos: Pos, hop: Hop, next: Pos) returns (out: Adapter)
    requires GoodTopology(devices) && GoodPos(devices, pos) && StepTo(pos, hop, next)
    ensures AdapterOf(pos.device, hop.entry.outAdapter) == Some(out) && Linked(pos.device, out, next)
    ensures out.num != 0 && WellFormed(pos.device.route)
    ensures !TurnsBack(pos) ==> out.num != pos.adapter.num && !(out.upstream && pos.adapter.upstream)
  {
    out := OutOf(devices, pos, hop.entry);
    assert GoodDevice(pos.device) && GoodAdapter(pos.device, pos.adapter);
    assert hop.entry in pos.adapter.paths.value;
  }

  /** A step on the way up goes on up or turns down; a step on the way down goes on down. */
  lemma StepDirection(devices: seq<Device>, s: seq<bv8>, pos: Pos, hop: Hop, next: Pos)
    requires GoodTopology(devices) && GoodPos(devices, pos) && StepTo(pos, hop, next)
    requires OnWayUp(s, pos) || OnWayDown(s, pos)
    requires !TurnsBack(pos) || Path(pos.device.route) == s
    ensures var p, q := Path(pos.device.route), Path(next.device.route);
      || (OnWayUp(s, pos) && OnWayUp(s, next) && |p| > 0 && q == p[..|p| - 1])
      || (OnWayDown(s, next) && Extends(p, q))
  {
    var out := StepOut(devices, pos, hop, next);
    LinkedPaths(pos.device, out, next);
    var p := Path(pos.device.route);
    if out.upstream {
      assert OnWayUp(s, pos);
      assert p[..|p| - 1] <= p;
    } else if OnWayUp(s, pos) && |p| < |s| {
      assert (p + [out.num])[|p|] != s[|p|];
    }
  }

  // ---------- Discovery ----------

  function HopPath(h: Hop): seq<bv8> {
    Path(h.device.route)
  }

  function PathsOf(hops: seq<Hop>): seq<seq<bv8>> {
    seq(|hops|, i requires 0 <= i < |hops| => HopPath(hops[i]))
  }

  /** The hop is a valid entry in the path table of its input adapter. */
  ghost predicate ValidHop(devices: seq<Device>, h: Hop) {
    var a := AdapterOf(h.device, h.entry.inAdapter);
    && h.device in devices && h.device.kind.Router?
    && a.Some? && EntryAt(a.value, h.entry.inHop) == Some(h.entry)
  }

  /** Consecutive hops sit at the two ends of one link, and the output HopID is the next input HopID. */
  ghost predicate HopLink(h: Hop, g: Hop) {
    var out, in_ := AdapterOf(h.device, h.entry.outAdapter), AdapterOf(g.device, g.entry.inAdapter);
    && out.Some? && in_.Some?
    && Linked(h.device, out.value, Pos(g.device, in_.value, g.entry.inHop))
    && g.entry.inHop == h.entry.outHop
  }

  ghost predicate Chain(devices: seq<Device>, start: Pos, hops: seq<Hop>) {
    && (hops != [] ==> HopAt(start, hops[0]))
    && (forall i :: 0 <= i < |hops| ==> ValidHop(devices, hops[i]))
    && (forall i :: 0 <= i < |hops| - 1 ==> HopLink(hops[i], hops[i + 1]))
  }

  /** The walk has come by `hops` to `pos`. */
  ghost predicate Arrived(start: Pos, hops: seq<Hop>, pos: Pos) {
    if hops == [] then pos == start
    else
      var h := hops[|hops| - 1];
      var out := AdapterOf(h.device, h.entry.outAdapter);
      out.Some? && Linked(h.device, out.value, pos) && pos.inHop == h.entry.outHop
  }

  /** Nothing can be added at the end of the path. */
  ghost predicate Complete(devices: seq<Device>, start: Pos, hops: seq<Hop>) {
    || (hops != [] && Leaves(devices, hops[|hops| - 1]))
    || exists pos :: GoodPos(devices, pos) && Arrived(start, hops, pos) && EntryAt(pos.adapter, pos.inHop) == None
  }

  lemma ChainGrows(devices: seq<Device>, start: Pos, hops: seq<Hop>, pos: Pos, hop: Hop)
    requires GoodTopology(devices) && GoodPos(devices, pos) && HopAt(pos, hop)
    requires Chain(devices, start, hops) && Arrived(start, hops, pos)
    ensures Chain(devices, start, hops + [hop])
  {
    assert ValidHop(devices, hop);
    var all := hops + [hop];
    if hops != [] {
      assert all[0] == hops[0];
    }
    forall i | 0 <= i < |all| - 1 ensures HopLink(all[i], all[i + 1]) {
      assert i < |hops| - 1 ==> HopLink(hops[i], hops[i + 1]);
    }
  }

  lemma PathsGrow(paths: seq<seq<bv8>>, top: nat, q: seq<bv8>)
    requires UpThenDown(paths, top)
    requires Extends(paths[|paths| - 1], q) && !(q <= paths[0])
    ensures UpThenDown(paths + [q], top)
  {
    var all := paths + [q];
    forall i | top < i < |all| ensures DownStep(all, i) {
      assert i < |paths| ==> DownStep(paths, i);
    }
  }

  lemma PathsClimb(paths: seq<seq<bv8>>, q: seq<bv8>)
    requires paths != [] && UpThenDown(paths, |paths| - 1)
    requires var p := paths[|paths| - 1]; |p| > 0 && q == p[..|p| - 1]
    ensures UpThenDown(paths + [q], |paths|)
  {
    var n := |paths| - 1;
    assert paths[n] == paths[0][..|paths[0]| - n];
    assert q == paths[0][..|paths[0]| - |paths|];
  }

  /** The routers of the hops and the one the walk is at now. */
  ghost predicate Shape(devices: seq<Device>, start: Pos, hops: seq<Hop>, pos: Pos, top: nat) {
    var paths := PathsOf(hops) + [Path(pos.device.route)];
    var s := Path(start.device.route);
    && paths[0] == s && UpThenDown(paths, top)
    && (if top == |hops| then OnWayUp(s, pos) else OnWayDown(s, pos))
  }

  lemma ShapeMoves(devices: seq<Device>, start: Pos, hops: seq<Hop>, pos: Pos, hop: Hop, next: Pos, top: nat)
    returns (top': nat)
    requires GoodTopology(devices) && GoodPos(devices, pos) && StepTo(pos, hop, next)
    requires !TurnsBack(pos) || Path(pos.device.route) == Path(start.device.route)
    requires Shape(devices, start, hops, pos, top)
    ensures Shape(devices, start, hops + [hop], next, top')
  {
    var s := Path(start.device.route);
    var paths := PathsOf(hops) + [Path(pos.device.route)];
    var q := Path(next.device.route);
    assert PathsOf(hops + [hop]) == paths;
    StepDirection(devices, s, pos, hop, next);
    if OnWayUp(s, pos) && OnWayUp(s, next) {
      PathsClimb(paths, q);
      top' := |paths|;
    } else {
      PathsGrow(paths, top, q);
      top' := top;
    }
  }

  lemma ShapeBounded(devices: seq<Device>, start: Pos, hops: seq<Hop>, pos: Pos, top: nat, m: nat)
    requires Shape(devices, start, hops, pos, top) && GoodPos(devices, pos) && DepthAtMost(devices, m)
    ensures |hops| <= Depth(start.device.route) + m
  {
    WalkBounded(PathsOf(hops) + [Path(pos.device.route)], top, m);
  }

  /** The routers of a discovered path: first up, then only down. */
  ghost predicate Tour(hops: seq<Hop>) {
    exists top :: UpThenDown(PathsOf(hops), top)
  }

  lemma PathsPrefix(paths: seq<seq<bv8>>, top: nat, prefix: seq<seq<bv8>>, top': nat)
    requires UpThenDown(paths, top) && prefix != [] && prefix == paths[..|paths| - 1]
    requires top' == if top == |prefix| then top - 1 else top
    ensures UpThenDown(prefix, top')
  {
    forall i | top' < i < |prefix| ensures DownStep(prefix, i) {
      assert DownStep(paths, i);
    }
  }

  lemma ShapeToTour(devices: seq<Device>, start: Pos, hops: seq<Hop>, pos: Pos, top: nat, done: seq<Hop>)
    requires Shape(devices, start, hops, pos, top) && done != []
    requires done == hops || (|done| == |hops| + 1 && hops == done[..|hops|] && done[|hops|].device == pos.device)
    ensures Tour(done)
  {
    var paths := PathsOf(hops) + [Path(pos.device.route)];
    if done == hops {
      var t := if top == |hops| then top - 1 else top;
      PathsPrefix(paths, top, PathsOf(done), t);
    } else {
      assert PathsOf(done) == paths;
    }
  }

  /** The loop invariant: the walk has come by `hops` to `pos`. */
  ghost predicate Walked(devices: seq<Device>, start: Pos, hops: seq<Hop>, pos: Pos, top: nat, m: nat) {
    && GoodPos(devices, pos) && Shape(devices, start, hops, pos, top)
    && After(devices, start, |hops|) == Some(pos) && Chain(devices, start, hops) && Arrived(start, hops, pos)
    && (hops != [] ==> EntryAt(start.adapter, start.inHop).Some?)
    && |hops| <= Depth(start.device.route) + m
  }

  lemma WalkStarts(devices: seq<Device>, start: Pos, m: nat)
    requires GoodPos(devices, start)
    ensures Walked(devices, start, [], start, 0, m)
  {
    assert PathsOf([]) + [Path(start.device.route)] == [Path(start.device.route)];
  }

  lemma WalkMoves(devices: seq<Device>, start: Pos, hops: seq<Hop>, pos: Pos, hop: Hop, next: Pos, top: nat, m: nat)
    returns (top': nat)
    requires GoodTopology(devices) && NoTurnOnWalk(devices, start) && DepthAtMost(devices, m)
    requires Walked(devices, start, hops, pos, top, m) && Step(devices, pos) == Moved(hop, next)
    requires StepTo(pos, hop, next) && GoodPos(devices, next)
    ensures Walked(devices, start, hops + [hop], next, top', m)
  {
    AfterSum(devices, start, |hops|, 1);
    assert After(devices, pos, 1) == After(devices, next, 0);
    if hops == [] {
      assert pos == start;
    }
    ChainGrows(devices, start, hops, pos, hop);
    top' := ShapeMoves(devices, start, hops, pos, hop, next, top);
    ShapeBounded(devices, start, hops + [hop], next, top', m);
  }

  /** A path that has nowhere to go on. */
  ghost predicate Discovered(devices: seq<Device>, start: Pos, hops: seq<Hop>, m: nat) {
    && hops != [] && Chain(devices, start, hops) && Complete(devices, start, hops)
    && Tour(hops) && |hops| <= Depth(start.device.route) + m + 1
  }

  lemma WalkEnds(devices: seq<Device>, start: Pos, hops: seq<Hop>, pos: Pos, top: nat, m: nat)
    requires Walked(devices, start, hops, pos, top, m) && EntryAt(pos.adapter, pos.inHop) == None && hops != []
    ensures Discovered(devices, start, hops, m)
  {
    ShapeToTour(devices, start, hops, pos, top, hops);
  }

  lemma WalkLeaves(devices: seq<Device>, start: Pos, hops: seq<Hop>, pos: Pos, hop: Hop, top: nat, m: nat)
    requires GoodTopology(devices)
    requires Walked(devices, start, hops, pos, top, m) && HopAt(pos, hop) && Leaves(devices, hop)
    ensures Discovered(devices, start, hops + [hop], m)
  {
    ChainGrows(devices, start, hops, pos, hop);
    ShapeToTour(devices, start, hops, pos, top, hops + [hop]);
  }

  /** discover_path: a maximal chain of hops that goes up and then down, or None if the source has no such entry. */
  method DiscoverPath(srcDevice: Device, srcAdapter: Adapter, srcHop: nat, devices: seq<Device>, ghost m: nat)
    returns (r: Option<seq<Hop>>)
    requires GoodTopology(devices) && DepthAtMost(devices, m)
    requires NoTurnOnWalk(devices, Pos(srcDevice, srcAdapter, srcHop))
    requires GoodPos(devices, Pos(srcDevice, srcAdapter, srcHop))
    ensures r == None <==> EntryAt(srcAdapter, srcHop) == None
    ensures r.Some? ==> r.value != [] && Chain(devices, Pos(srcDevice, srcAdapter, srcHop), r.value)
    ensures r.Some? ==> Complete(devices, Pos(srcDevice, srcAdapter, srcHop), r.value)
    ensures r.Some? ==> Tour(r.value) && |r.value| <= Depth(srcDevice.route) + m + 1
  {
    ghost var start := Pos(srcDevice, srcAdapter, srcHop);
    r := None;
    var pos := Pos(srcDevice, srcAdapter, srcHop);
    var hops: seq<Hop> := [];
    ghost var top: nat := 0;
    WalkStarts(devices, start, m);
    while true
      invariant Walked(devices, start, hops, pos, top, m)
      decreases Depth(srcDevice.route) + m - |hops|
    {
      StepWellFormed(devices, pos);
      match Step(devices, pos)
      case NoEntry =>
        if hops == [] {
          return None;
        }
        WalkEnds(devices, start, hops, pos, top, m);
        return Some(hops);
      case NoRouter(hop) =>
        WalkLeaves(devices, start, hops, pos, hop, top, m);
        return Some(hops + [hop]);
      case Moved(hop, next) =>
        top := WalkMoves(devices, start, hops, pos, hop, next, top, m);
        hops := hops + [hop];
        pos := next;
      case _ => assert false;
    }
  }

  // ---------- There is only one such path ----------

  ghost predicate UniqueRouters(devices: seq<Device>) {
    forall d, e :: d in devices && e in devices && d.kind.Router? && e.kind.Router? ==>
      d.domain == e.domain && d.route == e.route ==> d == e
  }

  /** Where the walk was when it found the hop. */
  ghost function PosOf(devices: seq<Device>, h: Hop): (pos: Pos)
    requires ValidHop(devices, h)
    ensures GoodPos(devices, pos) && HopAt(pos, h)
  {
    Pos(h.device, AdapterOf(h.device, h.entry.inAdapter).value, h.entry.inHop)
  }

  lemma UpstreamIsOne(devices: seq<Device>, a: Pos, b: Pos)
    requires GoodTopology(devices) && GoodPos(devices, a) && GoodPos(devices, b) && a.device == b.device
    requires a.adapter.upstream && b.adapter.upstream
    ensures a.adapter == b.adapter
  {
    assert GoodDevice(a.device);
    assert GoodAdapter(a.device, a.adapter) && GoodAdapter(a.device, b.adapter);
  }

  /** A link has one other end. */
  lemma LinkEnd(devices: seq<Device>, d: Device, out: Adapter, a: Pos, b: Pos)
    requires GoodTopology(devices) && UniqueRouters(devices) && GoodPos(devices, a) && GoodPos(devices, b)
    requires Linked(d, out, a) && Linked(d, out, b) && a.inHop == b.inHop
    ensures a == b
  {
    assert a.device == b.device;
    if !out.upstream {
      UpstreamIsOne(devices, a, b);
    }
  }

  lemma {:induction false} SamePrefix(devices: seq<Device>, start: Pos, a: seq<Hop>, b: seq<Hop>, i: nat)
    requires GoodTopology(devices) && UniqueRouters(devices) && Chain(devices, start, a) && Chain(devices, start, b)
    requires i < |a| && i < |b|
    ensures a[i] == b[i]
  {
    if i > 0 {
      var n := i - 1;
      SamePrefix(devices, start, a, b, n);
      assert HopLink(a[n], a[n + 1]) && HopLink(b[n], b[n + 1]);
      var h := a[n];
      var out := AdapterOf(h.device, h.entry.outAdapter).value;
      LinkEnd(devices, h.device, out, PosOf(devices, a[i]), PosOf(devices, b[i]));
    }
  }

  /** There is a router at the other end of a link, so the adapter is a lane adapter. */
  lemma LinkIsLane(devices: seq<Device>, h: Hop, next: Pos)
    requires GoodTopology(devices) && ValidHop(devices, h) && GoodPos(devices, next)
    requires var out := AdapterOf(h.device, h.entry.outAdapter); out.Some? && Linked(h.device, out.value, next)
    ensures !Leaves(devices, h)
  {
    var d, out := h.device, AdapterOf(h.device, h.entry.outAdapter).value;
    assert GoodDevice(d) && GoodAdapter(d, out);
    if !out.upstream {
      UpstreamOfDownstream(d.route, out.num);
      DownstreamPath(d.route, out.num);
      assert IsParent(d, next.device) && GoodLink(d, next.device);
      var path := Path(next.device.route);
      assert path[|path| - 1] == out.num;
    }
  }

  lemma LongerNotComplete(devices: seq<Device>, start: Pos, a: seq<Hop>, b: seq<Hop>)
    requires GoodTopology(devices) && UniqueRouters(devices) && Chain(devices, start, b)
    requires a < b
    ensures !Complete(devices, start, a)
  {
    var n := |a|;
    var next := PosOf(devices, b[n]);
    if a != [] {
      assert HopLink(b[n - 1], b[n - 1 + 1]);
      LinkIsLane(devices, b[n - 1], next);
    }
    forall pos | GoodPos(devices, pos) && Arrived(start, a, pos) ensures EntryAt(pos.adapter, pos.inHop).Some? {
      if a != [] {
        var h := b[n - 1];
        LinkEnd(devices, h.device, AdapterOf(h.device, h.entry.outAdapter).value, pos, next);
      }
    }
  }

  /** A source position has only one complete chain, so it is the one that discover_path returns. */
  lemma PathUnique(devices: seq<Device>, start: Pos, a: seq<Hop>, b: seq<Hop>)
    requires GoodTopology(devices) && UniqueRouters(devices)
    requires Chain(devices, start, a) && Complete(devices, start, a)
    requires Chain(devices, start, b) && Complete(devices, start, b)
    ensures a == b
  {
    forall i | 0 <= i < |a| && i < |b| ensures a[i] == b[i] {
      SamePrefix(devices, start, a, b, i);
    }
    if |a| < |b| {
      LongerNotComplete(devices, start, a, b);
    } else if |b| < |a| {
      LongerNotComplete(devices, start, b, a);
    }
  }

  // ---------- When the walk ends ----------

  lemma MoveIsGood(devices: seq<Device>, pos: Pos)
    requires Step(devices, pos).Moved?
    ensures EntryAt(pos.adapter, pos.inHop).Some?
    ensures GoodPos(devices, Step(devices, pos).next)
  {
  }

  lemma {:induction false} AfterIsGood(devices: seq<Device>, pos: Pos, n: nat)
    requires GoodPos(devices, pos) && After(devices, pos, n).Some?
    ensures GoodPos(devices, After(devices, pos, n).value)
    decreases n
  {
    hide Step;
    if n > 0 {
      MoveIsGood(devices, pos);
      AfterIsGood(devices, Step(devices, pos).next, n - 1);
    }
  }

  /** If no table has an entry that turns back, no walk meets one. */
  lemma NoUTurnOnWalk(devices: seq<Device>, start: Pos)
    requires NoUTurn(devices) && GoodPos(devices, start)
    ensures NoTurnOnWalk(devices, start)
  {
    forall n | n > 0 && After(devices, start, n).Some? ensures !TurnsBack(After(devices, start, n).value) {
      AfterIsGood(devices, start, n);
    }
  }

  /** A place in a path table. */
  datatype Slot = Slot(device: Device, adapter: Adapter, entry: PathEntry)

  /** All places in the path tables of all devices. */
  ghost function Slots(devices: seq<Device>): set<Slot> {
    set d, a, e | d in devices && d.adapters.Some? && a in d.adapters.value && a.paths.Some? && e in a.paths.value ::
      Slot(d, a, e)
  }

  lemma {:induction false} AfterBefore(devices: seq<Device>, pos: Pos, n: nat, m: nat)
    requires m <= n && After(devices, pos, n).Some?
    ensures After(devices, pos, m).Some?
    ensures m < n ==> EntryAt(After(devices, pos, m).value.adapter, After(devices, pos, m).value.inHop).Some?
    decreases n
  {
    hide Step;
    if m > 0 {
      AfterBefore(devices, Step(devices, pos).next, n - 1, m - 1);
    } else if n > 0 {
      MoveIsGood(devices, pos);
    }
  }

  ghost function SlotOf(pos: Pos): Slot
    requires EntryAt(pos.adapter, pos.inHop).Some?
  {
    Slot(pos.device, pos.adapter, EntryAt(pos.adapter, pos.inHop).value)
  }

  lemma {:induction false} Pigeonhole<T>(s: seq<T>, u: set<T>) returns (i: nat, j: nat)
    requires |s| > |u| && forall k :: 0 <= k < |s| ==> s[k] in u
    ensures i < j < |s| && s[i] == s[j]
    decreases |s|
  {
    var n := |s| - 1;
    if k :| 0 <= k < n && s[k] == s[n] {
      i, j := k, n;
    } else {
      i, j := Pigeonhole(s[..n], u - {s[n]});
    }
  }

  /** A walk that comes back to a position goes on for ever. */
  lemma {:induction false} CycleRuns(devices: seq<Device>, pos: Pos, c: nat, n: nat)
    requires c > 0 && After(devices, pos, c) == Some(pos)
    ensures After(devices, pos, n).Some?
    decreases n
  {
    hide After, Step;
    if n <= c {
      AfterBefore(devices, pos, c, n);
    } else {
      CycleRuns(devices, pos, c, n - c);
      AfterSum(devices, pos, c, n - c);
    }
  }

  lemma Repeats(devices: seq<Device>, start: Pos, i: nat, j: nat, n: nat)
    requires i < j && After(devices, start, i).Some? && After(devices, start, j) == After(devices, start, i)
    ensures After(devices, start, n).Some?
  {
    hide After, Step;
    if n <= j {
      AfterBefore(devices, start, j, n);
    } else {
      var pos := After(devices, start, i).value;
      AfterSum(devices, start, i, j - i);
      CycleRuns(devices, pos, j - i, n - i);
      AfterSum(devices, start, i, n - i);
    }
  }

  /** Some position repeats in a walk longer than there are places in the tables. */
  lemma LongWalkRepeats(devices: seq<Device>, start: Pos) returns (i: nat, j: nat)
    requires GoodPos(devices, start) && After(devices, start, |Slots(devices)| + 1).Some?
    ensures i < j && After(devices, start, i).Some? && After(devices, start, i) == After(devices, start, j)
  {
    var n := |Slots(devices)| + 1;
    forall k: nat | k < n
      ensures After(devices, start, k).Some?
      ensures EntryAt(After(devices, start, k).value.adapter, After(devices, start, k).value.inHop).Some?
      ensures SlotOf(After(devices, start, k).value) in Slots(devices)
    {
      AfterBefore(devices, start, n, k);
      AfterIsGood(devices, start, k);
    }
    var slots := seq(n, k requires 0 <= k < n => SlotOf(After(devices, start, k).value));
    i, j := Pigeonhole(slots, Slots(devices));
    assert SlotOf(After(devices, start, i).value) == SlotOf(After(devices, start, j).value);
  }

  /** On any topology, the walk goes on for ever exactly when it takes more steps than there are path entries. */
  lemma RunsForeverIff(devices: seq<Device>, start: Pos)
    requires GoodPos(devices, start)
    ensures (forall n :: After(devices, start, n).Some?) <==> After(devices, start, |Slots(devices)| + 1).Some?
  {
    if After(devices, start, |Slots(devices)| + 1).Some? {
      var i, j := LongWalkRepeats(devices, start);
      forall n ensures After(devices, start, n).Some? {
        Repeats(devices, start, i, j, n);
      }
    }
  }

  // ---------- How the walk ends ----------

  /** The table names an adapter that does not exist, or the route of the next router under- or overflows. */
  predicate PanicsAt(pos: Pos) {
    var entry := EntryAt(pos.adapter, pos.inHop);
    && entry.Some?
    && var out := AdapterOf(pos.device, entry.value.outAdapter);
       out.Some? ==> out.value.lane && Depth(out.value.route) == if out.value.upstream then 0 else ROUTE_BYTES
  }

  /** An adapter of `dev` faces `child`. */
  ghost predicate Faces(dev: Device, child: Device) {
    exists a :: a != 0 && AdapterOf(dev, a).Some? && dev.domain == child.domain && Depth(dev.route) < ROUTE_BYTES &&
      child.route == DownstreamRoute(dev.route, a)
  }

  /** There is a next router, but not the adapter of it through which to come in. */
  ghost predicate FailsAt(devices: seq<Device>, pos: Pos) {
    && !PanicsAt(pos) && EntryAt(pos.adapter, pos.inHop).Some?
    && var out := AdapterOf(pos.device, EntryAt(pos.adapter, pos.inHop).value.outAdapter).value;
       if out.upstream
       then var dev := UpstreamDevice(devices, out); dev.Some? && !Faces(dev.value, pos.device)
       else
         var dev := DownstreamDevice(devices, out);
         dev.Some? &&
         (dev.value.upstreamAdapter == None || AdapterOf(dev.value, dev.value.upstreamAdapter.value) == None)
  }

  lemma FacesIff(dev: Device, child: Device)
    ensures Faces(dev, child) <==>
      DownstreamAdapterTo(dev, child).Some? && AdapterOf(dev, DownstreamAdapterTo(dev, child).value).Some?
  {
    if Depth(dev.route) < ROUTE_BYTES {
      forall a {
        DownstreamAdapterIff(dev.route, child.route, a);
      }
    }
  }

  lemma StepFailsIff(devices: seq<Device>, pos: Pos)
    ensures Step(devices, pos).Panicked? <==> PanicsAt(pos)
    ensures Step(devices, pos).Failed? <==> FailsAt(devices, pos)
  {
    hide Faces, DownstreamAdapterTo;
    if !PanicsAt(pos) && EntryAt(pos.adapter, pos.inHop).Some? {
      var out := AdapterOf(pos.device, EntryAt(pos.adapter, pos.inHop).value.outAdapter).value;
      if out.upstream && UpstreamDevice(devices, out).Some? {
        FacesIff(UpstreamDevice(devices, out).value, pos.device);
      }
    }
  }

  /** The outcome after `n` steps, which does not move on. */
  ghost predicate StopsAt(devices: seq<Device>, start: Pos, n: nat, o: Outcome) {
    After(devices, start, n).Some? && Step(devices, After(devices, start, n).value) == o && !o.Moved?
  }

  ghost predicate PanicsAfter(devices: seq<Device>, start: Pos, n: nat) {
    After(devices, start, n).Some? && PanicsAt(After(devices, start, n).value)
  }

  ghost predicate FailsAfter(devices: seq<Device>, start: Pos, n: nat) {
    After(devices, start, n).Some? && FailsAt(devices, After(devices, start, n).value)
  }

  lemma StopFailsIff(devices: seq<Device>, start: Pos, n: nat)
    ensures StopsAt(devices, start, n, Panicked) <==> PanicsAfter(devices, start, n)
    ensures StopsAt(devices, start, n, Failed) <==> FailsAfter(devices, start, n)
  {
    hide Step, PanicsAt, FailsAt;
    if After(devices, start, n).Some? {
      StepFailsIff(devices, After(devices, start, n).value);
    }
  }

  lemma AfterOne(devices: seq<Device>, pos: Pos)
    ensures After(devices, pos, 1) == if Step(devices, pos).Moved? then Some(Step(devices, pos).next) else None
  {
    assert Step(devices, pos).Moved? ==> After(devices, Step(devices, pos).next, 0) == Some(Step(devices, pos).next);
  }

  lemma StopIsLast(devices: seq<Device>, start: Pos, n: nat, o: Outcome, m: nat)
    requires StopsAt(devices, start, n, o) && n < m
    ensures After(devices, start, m) == None
  {
    AfterSum(devices, start, n, m - n);
  }

  lemma {:induction false} StopsBefore(devices: seq<Device>, start: Pos, m: nat) returns (n: nat, o: Outcome)
    requires After(devices, start, m) == None
    ensures n < m && StopsAt(devices, start, n, o)
    decreases m
  {
    if After(devices, start, m - 1).Some? {
      n := m - 1;
      o := Step(devices, After(devices, start, n).value);
      AfterSum(devices, start, n, 1);
      AfterOne(devices, After(devices, start, n).value);
    } else {
      n, o := StopsBefore(devices, start, m - 1);
    }
  }

  lemma StopsInTime(devices: seq<Device>, start: Pos, n: nat, o: Outcome)
    requires GoodPos(devices, start) && StopsAt(devices, start, n, o)
    ensures n <= |Slots(devices)|
  {
    hide Step, Slots;
    if n > |Slots(devices)| {
      AfterBefore(devices, start, n, |Slots(devices)| + 1);
      RunsForeverIff(devices, start);
      StopIsLast(devices, start, n, o, n + 1);
    }
  }

  /** The walk stops with this outcome. */
  ghost predicate StopsWith(devices: seq<Device>, start: Pos, o: Outcome) {
    exists n :: StopsAt(devices, start, n, o)
  }

  /** A walk goes on for ever, or it stops, and then with one outcome. */
  lemma OneOutcome(devices: seq<Device>, start: Pos)
    ensures (exists o :: StopsWith(devices, start, o)) <==> !forall n :: After(devices, start, n).Some?
    ensures forall o, o' :: StopsWith(devices, start, o) && StopsWith(devices, start, o') ==> o == o'
  {
    hide Step;
    forall n: nat, o, m: nat | StopsAt(devices, start, n, o) && n < m ensures After(devices, start, m) == None {
      StopIsLast(devices, start, n, o, m);
    }
    if m :| After(devices, start, m) == None {
      var n, o := StopsBefore(devices, start, m);
      assert StopsWith(devices, start, o);
    }
    if o :| StopsWith(devices, start, o) {
      var n: nat :| StopsAt(devices, start, n, o);
      assert After(devices, start, n + 1) == None;
    }
  }

  /**
    For any devices, the walk panics or gives up exactly when one of its first steps, as many as there are
    path entries and one more, comes to a place where it does.
   */
  lemma WalkFailsIff(devices: seq<Device>, start: Pos)
    requires GoodPos(devices, start)
    ensures StopsWith(devices, start, Panicked) <==>
      exists n :: 0 <= n <= |Slots(devices)| && PanicsAfter(devices, start, n)
    ensures StopsWith(devices, start, Failed) <==>
      exists n :: 0 <= n <= |Slots(devices)| && FailsAfter(devices, start, n)
  {
    hide Slots, StopsAt, PanicsAfter, FailsAfter;
    forall n: nat
      ensures StopsAt(devices, start, n, Panicked) <==> PanicsAfter(devices, start, n)
      ensures StopsAt(devices, start, n, Failed) <==> FailsAfter(devices, start, n)
    {
      StopFailsIff(devices, start, n);
    }
    forall n: nat, o | StopsAt(devices, start, n, o) ensures n <= |Slots(devices)| {
      StopsInTime(devices, start, n, o);
    }
  }

  // ---------- The parent device ----------

  datatype Parent = Found(device: Device) | NoParent | Underflows

  function FromOption(d: Option<Device>): Parent {
    if d == None then NoParent else Found(d.value)
  }

  /** Device::parent_from. */
  function ParentFrom(devices: seq<Device>, d: Device): Parent {
    match d.kind
    case Router =>
      if d.upstreamAdapter == None then NoParent
      else
        var a := AdapterOf(d, d.upstreamAdapter.value);
        if a == None then NoParent
        else if a.value.lane && a.value.upstream && Depth(a.value.route) == 0 then Underflows
        else FromOption(UpstreamDevice(devices, a.value))
    case Xdomain =>
      if Depth(d.route) == 0 then Underflows
      else FromOption(FindRouter(devices, d.domain, UpstreamRoute(d.route)))
    case OtherKind => NoParent
  }

  /** `n` parents up. */
  function Climb(devices: seq<Device>, d: Device, n: nat): Parent
    decreases n
  {
    if n == 0 then Found(d)
    else
      var p := ParentFrom(devices, d);
      if p.Found? then Climb(devices, p.device, n - 1) else p
  }

  /** A router, or a remote host behind one. */
  ghost predicate InTree(d: Device) {
    d.kind.Router? || (d.kind.Xdomain? && WellFormed(d.route) && 0 < Depth(d.route))
  }

  /** The lookup finds a router of the domain one level up, whenever there is one. */
  lemma ParentFromIff(devices: seq<Device>, d: Device)
    requires GoodTopology(devices) && d in devices && InTree(d)
    ensures var p := ParentFrom(devices, d);
      && !p.Underflows?
      && (p.Found? ==> p.device in devices && IsAbove(p.device, d))
      && (p.NoParent? <==> forall x :: x in devices ==> !IsAbove(x, d))
  {
    assert GoodDevice(d);
  }

  /** Every device below the host router has a router above it. */
  ghost predicate Connected(devices: seq<Device>) {
    forall d :: d in devices && InTree(d) && 0 < Depth(d.route) ==> exists p :: p in devices && IsAbove(p, d)
  }

  lemma ParentPath(devices: seq<Device>, d: Device)
    requires GoodTopology(devices) && Connected(devices) && d in devices && InTree(d) && 0 < Depth(d.route)
    ensures var p := ParentFrom(devices, d);
      && p.Found? && p.device in devices && p.device.kind.Router? && p.device.domain == d.domain
      && Depth(p.device.route) == Depth(d.route) - 1
      && Path(p.device.route) == Path(d.route)[..Depth(d.route) - 1]
  {
    ParentFromIff(devices, d);
    assert GoodDevice(d);
    UpstreamPath(d.route);
  }

  /** After `n` parents the path has lost its last `n` adapters. */
  lemma {:induction false} ClimbPath(devices: seq<Device>, d: Device, n: nat)
    requires GoodTopology(devices) && Connected(devices) && d in devices && InTree(d) && n <= Depth(d.route)
    ensures var c := Climb(devices, d, n);
      && c.Found? && c.device in devices && InTree(c.device) && (n > 0 ==> c.device.kind.Router?)
      && c.device.domain == d.domain && Path(c.device.route) == Path(d.route)[..Depth(d.route) - n]
    decreases n
  {
    hide ParentFrom, GoodTopology, Connected, Depth;
    if n > 0 {
      ParentPath(devices, d);
      var p := ParentFrom(devices, d).device;
      ClimbPath(devices, p, n - 1);
      assert Path(p.route)[..Depth(p.route) - (n - 1)] == Path(d.route)[..Depth(d.route) - n];
    }
  }

  /** Climbing as far as the device is deep gives the host router of its domain. */
  ghost predicate ReachesHost(devices: seq<Device>, d: Device) {
    var c := Climb(devices, d, Depth(d.route));
    c.Found? && c.device.kind.Router? && c.device.route == HOST && c.device.domain == d.domain
  }

  /** All devices get to the host router, which is where climbing ends, exactly when none is without a router above. */
  lemma HostReachedIff(devices: seq<Device>)
    requires GoodTopology(devices)
    ensures Connected(devices) <==> forall d :: d in devices && InTree(d) ==> ReachesHost(devices, d)
    ensures forall d :: d in devices && d.kind.Router? && d.route == HOST ==> ParentFrom(devices, d).NoParent?
  {
    DepthUnique(HOST, 0);
    if Connected(devices) {
      forall d | d in devices && InTree(d) ensures ReachesHost(devices, d) {
        ClimbPath(devices, d, Depth(d.route));
        var c := Climb(devices, d, Depth(d.route)).device;
        assert Path(c.route) == [] == Path(HOST);
        PathInjective(c.route, HOST);
      }
    }
    forall d | d in devices && InTree(d) && (0 < Depth(d.route) || d.route == HOST)
      ensures 0 < Depth(d.route) && ReachesHost(devices, d) ==> exists p :: p in devices && IsAbove(p, d)
      ensures d.route == HOST ==> ParentFrom(devices, d).NoParent?
    {
      ParentFromIff(devices, d);
    }
  }

  // ---------- A U-turn ----------

  const UP_ENTRY := PathEntry(1, 8, 1, 8)
  const HOST_ADAPTER := Adapter(0, HOST, 1, true, false, Some([UP_ENTRY]))
  const NHI_ADAPTER := Adapter(0, HOST, 7, false, true, None)
  const HOST_ROUTER := Device(Router, 0, HOST, Some(7), Some([HOST_ADAPTER, NHI_ADAPTER]))
  const CHILD_ROUTE: Route := [1, 0, 0, 0, 0, 0, 0, 0]
  const CHILD_ADAPTER := Adapter(0, CHILD_ROUTE, 1, true, true, Some([UP_ENTRY]))
  const CHILD_ROUTER := Device(Router, 0, CHILD_ROUTE, Some(1), Some([CHILD_ADAPTER]))
  const U_TURN_DEVICES := [HOST_ROUTER, CHILD_ROUTER]

  lemma UTurnHost()
    ensures GoodDevice(HOST_ROUTER)
  {
    DepthUnique(HOST, 0);
    assert AdapterOf(HOST_ROUTER, 1) == Some(HOST_ADAPTER);
    assert FindNum(HOST_ROUTER.adapters.value[1..], 7) == Some(NHI_ADAPTER);
    assert GoodAdapter(HOST_ROUTER, HOST_ADAPTER) && GoodAdapter(HOST_ROUTER, NHI_ADAPTER);
  }

  lemma UTurnChild()
    ensures GoodDevice(CHILD_ROUTER)
  {
    DepthUnique(CHILD_ROUTE, 1);
    assert AdapterOf(CHILD_ROUTER, 1) == Some(CHILD_ADAPTER);
    assert GoodAdapter(CHILD_ROUTER, CHILD_ADAPTER);
  }

  lemma UTurnRoutes()
    ensures Depth(HOST) == 0 && Depth(CHILD_ROUTE) == 1
    ensures UpstreamRoute(CHILD_ROUTE) == HOST && HOST != CHILD_ROUTE
  {
    DepthUnique(HOST, 0);
    DepthUnique(CHILD_ROUTE, 1);
    assert CHILD_ROUTE[0] != HOST[0];
  }

  lemma UTurnLink()
    requires Depth(CHILD_ROUTE) == 1
    ensures GoodLink(HOST_ROUTER, CHILD_ROUTER)
  {
    assert AdapterOf(HOST_ROUTER, 1) == Some(HOST_ADAPTER);
  }

  /** The host is the only parent, and the child its only child. */
  lemma OnlyParent(p: Device, c: Device, host: Route, child: Route)
    requires Depth(host) == 0 && 0 < Depth(child) && UpstreamRoute(child) == host && host != child
    requires p.route == host || p.route == child
    requires c.route == host || c.route == child
    requires IsParent(p, c)
    ensures p.route == host && c.route == child
  {
  }

  /** The two routers form a well-formed topology; only the U-turn is wrong. */
  lemma UTurnIsWellFormed()
    ensures GoodTopology(U_TURN_DEVICES) && !NoUTurn(U_TURN_DEVICES)
  {
    UTurnHost();
    UTurnChild();
    UTurnRoutes();
    UTurnLink();
    forall p, c | p in U_TURN_DEVICES && c in U_TURN_DEVICES && IsParent(p, c) ensures GoodLink(p, c) {
      OnlyParent(p, c, HOST, CHILD_ROUTE);
    }
    assert HOST_ROUTER in U_TURN_DEVICES && HOST_ADAPTER in HOST_ROUTER.adapters.value;
    assert UP_ENTRY in HOST_ADAPTER.paths.value;
  }

  lemma UTurnSteps()
    ensures var a, b := Pos(HOST_ROUTER, HOST_ADAPTER, 8), Pos(CHILD_ROUTER, CHILD_ADAPTER, 8);
      && Step(U_TURN_DEVICES, a) == Moved(Hop(UP_ENTRY, HOST_ROUTER), b)
      && Step(U_TURN_DEVICES, b) == Moved(Hop(UP_ENTRY, CHILD_ROUTER), a)
  {
    DepthUnique(HOST, 0);
    DepthUnique(CHILD_ROUTE, 1);
    assert (0 as bv8) | 1 == 1;
    assert DownstreamRoute(HOST, 1) == CHILD_ROUTE;
    assert UpstreamRoute(CHILD_ROUTE) == HOST;
    assert Low(CHILD_ROUTE, 0) == HOST;
  }

  lemma {:induction false} TwoCycle(devices: seq<Device>, a: Pos, b: Pos, n: nat)
    requires Step(devices, a).Moved? && Step(devices, a).next == b
    requires Step(devices, b).Moved? && Step(devices, b).next == a
    ensures After(devices, a, n).Some?
    decreases n
  {
    if n > 0 {
      TwoCycle(devices, b, a, n - 1);
    }
  }

  /** If two entries send the traffic back to each other, the walk never ends. */
  lemma UTurnNeverEnds(n: nat)
    ensures After(U_TURN_DEVICES, Pos(HOST_ROUTER, HOST_ADAPTER, 8), n).Some?
  {
    UTurnSteps();
    TwoCycle(U_TURN_DEVICES, Pos(HOST_ROUTER, HOST_ADAPTER, 8), Pos(CHILD_ROUTER, CHILD_ADAPTER, 8), n);
  }
}
