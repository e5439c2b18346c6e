/** Routes built from caller-supplied IDs: fixed segments with percent-encoded IDs between them (classic_devices.go,
    aliases.go, networks.go, snapshot_metrics.go), and what `resolveScoped` makes of them. */
module Routes {
  import opened GoBytes
  import opened DotSegments
  import opened RequestPaths
  import Percent
  import opened Wrappers

  datatype Part = Fixed(segment: Bytes) | ID(value: Bytes)

  predicate Plain(segment: Bytes) {
    segment != [] && !IsDot(segment) && forall c | c in segment :: Percent.Unreserved(c)
  }

  /** "/api/..." with plain fixed segments and non-empty IDs. */
  predicate Template(parts: seq<Part>) {
    && |parts| >= 2 && parts[0] == Fixed("api")
    && forall i | 0 <= i < |parts| :: PartOk(parts[i])
  }

  predicate PartOk(p: Part) {
    match p
    case Fixed(segment) => Plain(segment)
    case ID(value) => IsBytes(value) && value != []
  }

  function Meaning(p: Part): Bytes {
    if p.Fixed? then p.segment else p.value
  }

  function Render(p: Part): Bytes
    requires PartOk(p)
  {
    if p.Fixed? then p.segment else Percent.PathEscape(p.value)
  }

  function RenderAll(parts: seq<Part>): seq<Bytes>
    requires forall i | 0 <= i < |parts| :: PartOk(parts[i])
  {
    seq(|parts|, i requires 0 <= i < |parts| => Render(parts[i]))
  }

  function Route(parts: seq<Part>): Bytes
    requires forall i | 0 <= i < |parts| :: PartOk(parts[i])
  {
    Flat(RenderAll(parts))
  }

  lemma {:induction false} PlainDecodes(s: Bytes)
    requires forall c | c in s :: Percent.Unreserved(c)
    ensures Percent.Unescape(s) == Some(s)
  {
    if s == [] {
    } else {
      PlainDecodes(s[1..]);
      assert s[0] in s && s == [s[0]] + s[1..];
    }
  }

  predicate RouteChar(c: char) {
    Percent.SegmentSafe(c) || c == '%' || c == '/'
  }

  lemma EscapedPart(value: Bytes)
    requires IsBytes(value) && value != []
    ensures Percent.Unescape(Percent.PathEscape(value)) == Some(value)
    ensures Percent.PathEscape(value) != []
    ensures forall c | c in Percent.PathEscape(value) :: RouteChar(c) && c != '/'
  {
    Percent.UnescapeEscape(value, Percent.SegmentSafe);
    Percent.EscapedChars(value);
    assert !Percent.SegmentSafe('/');
  }

  /** Every rendered part is a single non-empty segment that decodes to what it means. */
  lemma RenderedPart(p: Part)
    requires PartOk(p)
    ensures Percent.Unescape(Render(p)) == Some(Meaning(p))
    ensures Render(p) != []
    ensures forall c | c in Render(p) :: RouteChar(c) && c != '/'
  {
    if p.Fixed? {
      PlainDecodes(p.segment);
      assert !Percent.Unreserved('/');
    } else {
      EscapedPart(p.value);
    }
  }

  lemma RenderedParts(parts: seq<Part>)
    requires forall i | 0 <= i < |parts| :: PartOk(parts[i])
    ensures Segments(RenderAll(parts)) && Decodable(RenderAll(parts))
    ensures forall i | 0 <= i < |parts| :: Percent.Unescape(RenderAll(parts)[i]) == Some(Meaning(parts[i]))
  {
    forall i | 0 <= i < |parts|
      ensures '/' !in RenderAll(parts)[i] && Percent.Unescape(RenderAll(parts)[i]) == Some(Meaning(parts[i]))
    {
      RenderedPart(parts[i]);
    }
  }

  lemma {:induction false} FlatChars(segs: seq<Bytes>)
    requires forall i | 0 <= i < |segs| :: forall c | c in segs[i] :: RouteChar(c)
    ensures forall c | c in Flat(segs) :: RouteChar(c)
  {
    if segs == [] {
    } else {
      FlatChars(segs[1..]);
    }
  }

  lemma RouteChars(parts: seq<Part>)
    requires forall i | 0 <= i < |parts| :: PartOk(parts[i])
    ensures forall c | c in Route(parts) :: RouteChar(c)
  {
    forall i | 0 <= i < |parts| ensures forall c | c in RenderAll(parts)[i] :: RouteChar(c) {
      RenderedPart(parts[i]);
    }
    FlatChars(RenderAll(parts));
  }

  /** A route has the segments of its template, no more and no fewer, and each decodes to what was put there. */
  lemma RouteSegments(parts: seq<Part>)
    requires Template(parts)
    ensures Route(parts) != [] && |Split(Route(parts)[1..])| == |parts|
    ensures forall i | 0 <= i < |parts| ::
      Percent.Unescape(Split(Route(parts)[1..])[i]) == Some(Meaning(parts[i]))
  {
    RenderedParts(parts);
    SplitFlat(RenderAll(parts));
  }

  /** Distinct IDs give distinct routes, within one template or across two. */
  lemma RouteInjective(a: seq<Part>, b: seq<Part>)
    requires Template(a) && Template(b) && Route(a) == Route(b)
    ensures |a| == |b| && forall i | 0 <= i < |a| :: Meaning(a[i]) == Meaning(b[i])
  {
    RouteSegments(a);
    RouteSegments(b);
    forall i | 0 <= i < |a| ensures Meaning(a[i]) == Meaning(b[i]) {
      assert Percent.Unescape(Split(Route(a)[1..])[i]) == Some(Meaning(a[i]));
    }
  }

  lemma RouteStart(parts: seq<Part>)
    requires Template(parts)
    ensures "/api/" <= Route(parts) && !("//" <= Route(parts)) && Allowed(Route(parts), Api)
  {
    var segs := RenderAll(parts);
    var rest := Flat(segs[1..]);
    assert segs[0] == "api" && segs[1..] != [];
    assert Route(parts) == ['/'] + "api" + rest;
    assert rest[0] == '/';
    assert Route(parts)[..5] == "/api/";
    assert Route(parts)[1] == 'a';
  }

  lemma RouteCharIsOrdinary(c: char)
    requires RouteChar(c)
    ensures c as int < 128 && !Space1(c) && c != '#' && c != '?' && !(c < ' ') && c as int != 0x7f
    ensures Percent.ValidPathChar(c) || c == '%'
  {
  }

  lemma {:induction false} NotFound(s: Bytes, c: char)
    requires c !in s
    ensures IndexOf(s, c) == |s|
  {
    if s == [] {
    } else {
      NotFound(s[1..], c);
    }
  }

  /** A rooted text of route characters that decodes is parsed as nothing but a path: itself. */
  lemma OrdinaryReference(route: Bytes)
    requires forall c | c in route :: RouteChar(c)
    requires "/" <= route && !("//" <= route) && Percent.Unescape(route).Some?
    ensures IsBytes(route) && Reference(route) == Ok(Target(route, []))
  {
    forall c | c in route
      ensures c as int < 128 && !Space1(c) && c != '#' && c != '?' && !(c < ' ') && c as int != 0x7f
      ensures Percent.ValidPathChar(c)
    {
      RouteCharIsOrdinary(c);
    }
    assert IsBytes(route) by { assert forall i | 0 <= i < |route| :: route[i] in route; }
    NoSpaceToTrim(route);
    NotFound(route, '#');
    NotFound(route, '?');
    assert Before(route, '#') == route && After(route, '#') == [];
    assert Before(route, '?') == route && From(route, '?') == [];
    assert !HasControl(route) && !NamesOrigin(route);
    assert Percent.EscapedPath(route) == route;
    assert ParseReference(route) == Ok(Target(route, []));
  }

  lemma RouteReference(parts: seq<Part>)
    requires Template(parts)
    ensures IsBytes(Route(parts)) && Reference(Route(parts)) == Ok(Target(Route(parts), []))
    ensures Percent.Unescape(Route(parts)).Some?
  {
    RouteChars(parts);
    RouteStart(parts);
    RenderedParts(parts);
    DecodableSegments(RenderAll(parts));
    OrdinaryReference(Route(parts));
  }

  predicate HasDot(parts: seq<Part>) {
    exists i | 0 <= i < |parts| :: IsDot(Meaning(parts[i]))
  }

  lemma RouteDots(parts: seq<Part>)
    requires Template(parts)
    ensures Route(parts) != []
    ensures NoDotWhenDecoded(Split(Route(parts))) <==> !HasDot(parts)
  {
    var route, segs := Route(parts), RenderAll(parts);
    RenderedParts(parts);
    SplitFlat(segs);
    RootedSplit(route);
    assert forall i | 0 <= i < |parts| :: DecodesToDot(segs[i]) <==> IsDot(Meaning(parts[i]));
    SplitNoDots(route, segs);
  }

  /** For which IDs a built route is accepted: all but "." and "..". It is then sent exactly as built. */
  lemma RouteAcceptedExactly(parts: seq<Part>)
    requires Template(parts)
    ensures IsBytes(Route(parts))
    ensures Resolve(Route(parts), Api) == if HasDot(parts) then Err(DotSegment) else Ok(Target(Route(parts), []))
  {
    RouteReference(parts);
    RouteStart(parts);
    RouteDots(parts);
    if !HasDot(parts) {
      NoDotsExactly(Route(parts));
    }
  }

  // ----- The routes themselves -----

  /** An empty network ID means the network the client is bound to. */
  function ResolveNetworkID(bound: Bytes, networkID: Bytes): Result<Bytes> {
    var id := if TrimSpace(networkID) == [] then bound else TrimSpace(networkID);
    if id == [] then Err(MissingID) else Ok(id)
  }

  function ClassicDevicePath(bound: Bytes, networkID: Bytes, deviceName: Bytes): Result<Bytes>
    requires IsBytes(bound) && IsBytes(networkID) && IsBytes(deviceName)
  {
    TrimmedBytes(networkID);
    TrimmedBytes(deviceName);
    match ResolveNetworkID(bound, networkID)
    case Err(e) => Err(e)
    case Ok(id) =>
      var path := "/api/networks/" + Percent.PathEscape(id) + "/" + "classic-devices";
      if TrimSpace(deviceName) == [] then Err(MissingID)
      else Ok(path + "/" + Percent.PathEscape(TrimSpace(deviceName)))
  }

  function AliasPath(snapshotID: Bytes, name: Bytes): Result<Bytes>
    requires IsBytes(snapshotID) && IsBytes(name)
  {
    TrimmedBytes(snapshotID);
    TrimmedBytes(name);
    if TrimSpace(snapshotID) == [] then Err(MissingID)
    else
      var path := "/api/snapshots/" + Percent.PathEscape(TrimSpace(snapshotID)) + "/" + "aliases";
      if TrimSpace(name) == [] then Err(MissingID)
      else Ok(path + "/" + Percent.PathEscape(TrimSpace(name)))
  }

  function DeviceTemplate(collection: Bytes, id: Bytes, kind: Bytes, name: Bytes): seq<Part> {
    [Fixed("api"), Fixed(collection), ID(id), Fixed(kind), ID(name)]
  }

  lemma FiveSegments(a: Bytes, b: Bytes, c: Bytes, d: Bytes, e: Bytes)
    ensures Flat([a, b, c, d, e]) == "/" + a + "/" + b + "/" + c + "/" + d + "/" + e
  {
    assert Flat([e]) == "/" + e;
    assert [a, b, c, d, e][1..] == [b, c, d, e] && [b, c, d, e][1..] == [c, d, e];
    assert [c, d, e][1..] == [d, e] && [d, e][1..] == [e];
    assert Flat([c, d, e]) == "/" + c + "/" + d + "/" + e;
  }

  lemma DeviceRoute(start: Bytes, collection: Bytes, id: Bytes, kind: Bytes, name: Bytes)
    requires start == "/" + "api" + "/" + collection + "/"
    requires Plain(collection) && Plain(kind) && IsBytes(id) && id != [] && IsBytes(name) && name != []
    ensures Template(DeviceTemplate(collection, id, kind, name))
    ensures Route(DeviceTemplate(collection, id, kind, name))
         == start + Percent.PathEscape(id) + "/" + kind + "/" + Percent.PathEscape(name)
  {
    var parts := DeviceTemplate(collection, id, kind, name);
    assert forall i | 0 <= i < 5 :: PartOk(parts[i]);
    FiveSegments("api", collection, Percent.PathEscape(id), kind, Percent.PathEscape(name));
    assert RenderAll(parts) == ["api", collection, Percent.PathEscape(id), kind, Percent.PathEscape(name)];
  }

  /** A device route, for usable IDs after trimming, is the five-segment template holding exactly those IDs; with no
      usable ID there is no route, so never the collection's. */
  lemma ClassicDevicePathIsTemplate(bound: Bytes, networkID: Bytes, name: Bytes)
    requires IsBytes(bound) && IsBytes(networkID) && IsBytes(name)
    ensures var r := ClassicDevicePath(bound, networkID, name);
            if ResolveNetworkID(bound, networkID).Err? || TrimSpace(name) == [] then r == Err(MissingID)
            else
              var id := ResolveNetworkID(bound, networkID).value;
              var parts := DeviceTemplate("networks", id, "classic-devices", TrimSpace(name));
              Template(parts) && r == Ok(Route(parts))
  {
    TrimmedBytes(networkID);
    TrimmedBytes(name);
    if TrimSpace(name) != [] && ResolveNetworkID(bound, networkID).Ok? {
      var id := ResolveNetworkID(bound, networkID).value;
      DeviceRoute("/api/networks/", "networks", id, "classic-devices", TrimSpace(name));
    }
  }

  lemma AliasPathIsTemplate(snapshotID: Bytes, name: Bytes)
    requires IsBytes(snapshotID) && IsBytes(name)
    ensures var r := AliasPath(snapshotID, name);
            if TrimSpace(snapshotID) == [] || TrimSpace(name) == [] then r == Err(MissingID)
            else
              var parts := DeviceTemplate("snapshots", TrimSpace(snapshotID), "aliases", TrimSpace(name));
              Template(parts) && r == Ok(Route(parts))
  {
    TrimmedBytes(snapshotID);
    TrimmedBytes(name);
    if TrimSpace(name) != [] && TrimSpace(snapshotID) != [] {
      DeviceRoute("/api/snapshots/", "snapshots", TrimSpace(snapshotID), "aliases", TrimSpace(name));
    }
  }

  /** Which network a device route names: the one given, unless it is blank, and else the one the client is bound to. */
  lemma GivenNetworkWins(bound: Bytes, networkID: Bytes, name: Bytes)
    requires IsBytes(bound) && IsBytes(networkID) && IsBytes(name)
    ensures var (given, device) := (TrimSpace(networkID), TrimSpace(name));
            && IsBytes(given) && IsBytes(device)
            && var id := if given == "" then bound else given;
               ClassicDevicePath(bound, networkID, name) ==
                 if device == "" || id == "" then Err(MissingID)
                 else Ok(DevicePath("/api/networks/", id, "/classic-devices/", device))
  {
    TrimmedBytes(networkID);
    TrimmedBytes(name);
    var (given, device) := (TrimSpace(networkID), TrimSpace(name));
    var id := if given == "" then bound else given;
    Slashes("/api/networks/" + Percent.PathEscape(id), "classic-devices", Percent.PathEscape(device));
    Collections();
  }

  function DevicePath(start: Bytes, id: Bytes, kind: Bytes, name: Bytes): Bytes
    requires IsBytes(id) && IsBytes(name)
  {
    start + Percent.PathEscape(id) + kind + Percent.PathEscape(name)
  }

  lemma Slashes(a: Bytes, kind: Bytes, b: Bytes)
    ensures a + "/" + kind + "/" + b == a + ("/" + kind + "/") + b
  {
  }

  lemma Collections()
    ensures "/" + "classic-devices" + "/" == "/classic-devices/" && "/" + "aliases" + "/" == "/aliases/"
  {
  }

  lemma AliasPathExactly(snapshotID: Bytes, name: Bytes)
    requires IsBytes(snapshotID) && IsBytes(name)
    ensures var (r, id, alias) := (AliasPath(snapshotID, name), TrimSpace(snapshotID), TrimSpace(name));
            && IsBytes(id) && IsBytes(alias)
            && r == if id == "" || alias == "" then Err(MissingID)
                    else Ok(DevicePath("/api/snapshots/", id, "/aliases/", alias))
  {
    TrimmedBytes(snapshotID);
    TrimmedBytes(name);
    var (id, alias) := (TrimSpace(snapshotID), TrimSpace(name));
    Slashes("/api/snapshots/" + Percent.PathEscape(id), "aliases", Percent.PathEscape(alias));
    Collections();
  }

  /** Two calls that build the same device route name the same network and the same device. */
  lemma DevicePathInjective(bound: Bytes, net1: Bytes, name1: Bytes, net2: Bytes, name2: Bytes)
    requires IsBytes(bound) && IsBytes(net1) && IsBytes(name1) && IsBytes(net2) && IsBytes(name2)
    requires ClassicDevicePath(bound, net1, name1).Ok?
    requires ClassicDevicePath(bound, net1, name1) == ClassicDevicePath(bound, net2, name2)
    ensures ResolveNetworkID(bound, net1) == ResolveNetworkID(bound, net2) && TrimSpace(name1) == TrimSpace(name2)
  {
    ClassicDevicePathIsTemplate(bound, net1, name1);
    ClassicDevicePathIsTemplate(bound, net2, name2);
    var a := DeviceTemplate("networks", ResolveNetworkID(bound, net1).value, "classic-devices", TrimSpace(name1));
    var b := DeviceTemplate("networks", ResolveNetworkID(bound, net2).value, "classic-devices", TrimSpace(name2));
    RouteInjective(a, b);
    assert Meaning(a[2]) == Meaning(b[2]) && Meaning(a[4]) == Meaning(b[4]);
  }
}
