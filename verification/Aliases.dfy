/** Alias definitions: the body a write sends, what a read decodes to, and the conversion from one to the other
    (aliases.go, canonical.go). */
module Aliases {
  import opened Json
  import opened Sorting
  import opened Wrappers

  const HOSTS := "HOSTS"
  const DEVICES := "DEVICES"
  const INTERFACES := "INTERFACES"
  const HEADERS := "HEADERS"
  const LOGICAL_NETWORK := "LOGICAL_NETWORK"

  const HEADER_CATEGORIES: set<string> := {"mac_addr", "eth_type", "vlan_vid", "ip_addr", "ip_proto", "tp_port"}

  datatype Builder = Builder(
    name: string, kind: string,
    values: Strings, locations: Strings, vlanIDs: Strings, vlanIntfTypes: Strings,
    isExposurePoint: Option<bool>, headerValues: Option<map<string, Strings>>,
    devices: Strings, edgeNodes: Strings)

  datatype Alias = Alias(name: string, kind: string, createdAt: string, creatorID: string, definition: Option<Json>)

  // ----- Which builders can be written -----

  predicate KnownKind(kind: string) {
    kind == HOSTS || kind == DEVICES || kind == INTERFACES || kind == HEADERS || kind == LOGICAL_NETWORK
  }

  predicate NoHeaders(b: Builder) {
    b.headerValues.None? || b.headerValues.value == map[]
  }

  /** Only the fields the type owns are set. */
  predicate OnlyOwnFields(b: Builder) {
    && (Empty(b.values) || b.kind == HOSTS || b.kind == DEVICES || b.kind == INTERFACES)
    && (Empty(b.locations) || b.kind == HOSTS)
    && (Empty(b.vlanIDs) || b.kind == INTERFACES)
    && (Empty(b.vlanIntfTypes) || b.kind == INTERFACES)
    && (b.isExposurePoint.None? || b.kind == INTERFACES)
    && (NoHeaders(b) || b.kind == HEADERS)
    && (Empty(b.devices) || b.kind == LOGICAL_NETWORK)
    && (Empty(b.edgeNodes) || b.kind == LOGICAL_NETWORK)
  }

  predicate VlanTypesOk(s: Strings) {
    s.Some? ==> forall t | t in s.value :: t == "ACCESS" || t == "TRUNK"
  }

  predicate CategoriesOk(b: Builder) {
    b.headerValues.Some? && forall key | key in b.headerValues.value :: key in HEADER_CATEGORIES
  }

  predicate Writable(b: Builder) {
    && b.name != "" && KnownKind(b.kind) && OnlyOwnFields(b)
    && (b.kind == HOSTS ==> !Empty(b.values) || !Empty(b.locations))
    && (b.kind == HEADERS ==> !NoHeaders(b) && CategoriesOk(b))
    && (b.kind == INTERFACES ==> VlanTypesOk(b.vlanIntfTypes))
  }

  datatype FieldName =
    Values | Locations | VLANIDs | VLANIntfTypes | IsExposurePoint | HeaderValues | Devices | EdgeNodes

  /** One owned field of a type and whether the builder sets it. */
  datatype Field = Field(name: FieldName, isSet: bool)

  const KINDS: seq<string> := [HOSTS, DEVICES, INTERFACES, HEADERS, LOGICAL_NETWORK]

  function Owned(b: Builder, kind: string): seq<Field> {
    if kind == HOSTS then [Field(Values, !Empty(b.values)), Field(Locations, !Empty(b.locations))]
    else if kind == DEVICES then [Field(Values, !Empty(b.values))]
    else if kind == INTERFACES then
      [Field(Values, !Empty(b.values)), Field(VLANIDs, !Empty(b.vlanIDs)),
       Field(VLANIntfTypes, !Empty(b.vlanIntfTypes)), Field(IsExposurePoint, b.isExposurePoint.Some?)]
    else if kind == HEADERS then [Field(HeaderValues, !NoHeaders(b))]
    else [Field(Devices, !Empty(b.devices)), Field(EdgeNodes, !Empty(b.edgeNodes))]
  }

  function Names(fields: seq<Field>): set<FieldName> {
    set f | f in fields :: f.name
  }

  predicate AllWithin(fields: seq<Field>, allowed: set<FieldName>) {
    forall f | f in fields && f.isSet :: f.name in allowed
  }

  lemma OwnNames(b: Builder)
    ensures Names(Owned(b, HOSTS)) == {Values, Locations}
    ensures Names(Owned(b, DEVICES)) == {Values}
    ensures Names(Owned(b, INTERFACES)) == {Values, VLANIDs, VLANIntfTypes, IsExposurePoint}
    ensures Names(Owned(b, HEADERS)) == {HeaderValues}
    ensures Names(Owned(b, LOGICAL_NETWORK)) == {Devices, EdgeNodes}
  {
    forall kind, i | 0 <= i < |Owned(b, kind)| ensures Owned(b, kind)[i].name in Names(Owned(b, kind)) {
      assert Owned(b, kind)[i] in Owned(b, kind);
    }
    assert Owned(b, HOSTS)[0].name == Owned(b, DEVICES)[0].name == Owned(b, INTERFACES)[0].name == Values;
    assert Owned(b, HOSTS)[1].name == Locations && Owned(b, INTERFACES)[1].name == VLANIDs;
    assert Owned(b, INTERFACES)[2].name == VLANIntfTypes && Owned(b, INTERFACES)[3].name == IsExposurePoint;
    assert Owned(b, HEADERS)[0].name == HeaderValues;
    assert Owned(b, LOGICAL_NETWORK)[0].name == Devices && Owned(b, LOGICAL_NETWORK)[1].name == EdgeNodes;
  }

  /** Whether the fields of each type stay within a set of names, spelled out. */
  lemma WithinExactly(b: Builder, allowed: set<FieldName>)
    ensures AllWithin(Owned(b, HOSTS), allowed) <==>
              (Empty(b.values) || Values in allowed) && (Empty(b.locations) || Locations in allowed)
    ensures AllWithin(Owned(b, DEVICES), allowed) <==> Empty(b.values) || Values in allowed
    ensures AllWithin(Owned(b, INTERFACES), allowed) <==>
              && (Empty(b.values) || Values in allowed) && (Empty(b.vlanIDs) || VLANIDs in allowed)
              && (Empty(b.vlanIntfTypes) || VLANIntfTypes in allowed)
              && (b.isExposurePoint.None? || IsExposurePoint in allowed)
    ensures AllWithin(Owned(b, HEADERS), allowed) <==> NoHeaders(b) || HeaderValues in allowed
    ensures AllWithin(Owned(b, LOGICAL_NETWORK), allowed) <==>
              (Empty(b.devices) || Devices in allowed) && (Empty(b.edgeNodes) || EdgeNodes in allowed)
  {
    forall kind ensures AllWithin(Owned(b, kind), allowed) <==>
        forall i | 0 <= i < |Owned(b, kind)| && Owned(b, kind)[i].isSet :: Owned(b, kind)[i].name in allowed {
      assert forall i | 0 <= i < |Owned(b, kind)| :: Owned(b, kind)[i] in Owned(b, kind);
    }
    assert Owned(b, HOSTS)[0].name == Values && Owned(b, HOSTS)[1].name == Locations;
    assert Owned(b, DEVICES)[0].name == Values && Owned(b, HEADERS)[0].name == HeaderValues;
    assert Owned(b, INTERFACES)[1].name == VLANIDs && Owned(b, INTERFACES)[2].name == VLANIntfTypes;
    assert Owned(b, INTERFACES)[0].name == Values && Owned(b, INTERFACES)[3].name == IsExposurePoint;
    assert Owned(b, LOGICAL_NETWORK)[0].name == Devices && Owned(b, LOGICAL_NETWORK)[1].name == EdgeNodes;
  }

  /** The comparison of field names refuses exactly the builders that set a field of another type. */
  lemma OwnFieldsExactly(b: Builder)
    requires KnownKind(b.kind)
    ensures (forall kind | kind in KINDS :: AllWithin(Owned(b, kind), Names(Owned(b, b.kind)))) <==> OnlyOwnFields(b)
  {
    OwnNames(b);
    KindsAreFive(b, Names(Owned(b, b.kind)));
    WithinExactly(b, Names(Owned(b, b.kind)));
  }

  lemma KindsAreFive(b: Builder, allowed: set<FieldName>)
    ensures (forall kind | kind in KINDS :: AllWithin(Owned(b, kind), allowed)) <==>
              && AllWithin(Owned(b, HOSTS), allowed) && AllWithin(Owned(b, DEVICES), allowed)
              && AllWithin(Owned(b, INTERFACES), allowed) && AllWithin(Owned(b, HEADERS), allowed)
              && AllWithin(Owned(b, LOGICAL_NETWORK), allowed)
  {
    assert KINDS[0] in KINDS && KINDS[1] in KINDS && KINDS[2] in KINDS && KINDS[3] in KINDS && KINDS[4] in KINDS;
  }

  /** `AliasBuilder.check`, with its loops over types, fields, categories and interface types. */
  method Check(b: Builder) returns (ok: bool)
    ensures ok <==> Writable(b)
  {
    if b.name == "" || !KnownKind(b.kind) {
      return false;
    }
    var own := CheckOwnFields(b);
    if !own {
      return false;
    }
    if b.kind == HOSTS {
      ok := !Empty(b.values) || !Empty(b.locations);
    } else if b.kind == HEADERS {
      ok := CheckCategories(b);
    } else if b.kind == INTERFACES {
      ok := CheckVlanTypes(b.vlanIntfTypes);
    } else {
      ok := true;
    }
  }

  method CheckOwnFields(b: Builder) returns (ok: bool)
    requires KnownKind(b.kind)
    ensures ok <==> OnlyOwnFields(b)
  {
    OwnFieldsExactly(b);
    var allowed := {};
    var mine := Owned(b, b.kind);
    for k := 0 to |mine|
      invariant allowed == Names(mine[..k])
    {
      allowed := allowed + {mine[k].name};
      assert mine[..k + 1] == mine[..k] + [mine[k]];
    }
    assert mine[..|mine|] == mine;
    for n := 0 to |KINDS|
      invariant forall i | 0 <= i < n :: AllWithin(Owned(b, KINDS[i]), allowed)
    {
      var within := CheckWithin(Owned(b, KINDS[n]), allowed);
      if !within {
        assert KINDS[n] in KINDS;
        return false;
      }
    }
    return true;
  }

  method CheckWithin(fields: seq<Field>, allowed: set<FieldName>) returns (ok: bool)
    ensures ok <==> AllWithin(fields, allowed)
  {
    for k := 0 to |fields|
      invariant forall i | 0 <= i < k && fields[i].isSet :: fields[i].name in allowed
    {
      if fields[k].isSet && fields[k].name !in allowed {
        assert fields[k] in fields;
        return false;
      }
    }
    return true;
  }

  method CheckCategories(b: Builder) returns (ok: bool)
    ensures ok <==> !NoHeaders(b) && CategoriesOk(b)
  {
    if NoHeaders(b) {
      return false;
    }
    var todo := b.headerValues.value.Keys;
    while todo != {}
      invariant todo <= b.headerValues.value.Keys
      invariant forall key | key in b.headerValues.value.Keys - todo :: key in HEADER_CATEGORIES
      decreases |todo|
    {
      var key :| key in todo;
      if key !in HEADER_CATEGORIES {
        return false;
      }
      todo := todo - {key};
    }
    return true;
  }

  method CheckVlanTypes(s: Strings) returns (ok: bool)
    ensures ok <==> VlanTypesOk(s)
  {
    if s.Some? {
      for k := 0 to |s.value|
        invariant forall i | 0 <= i < k :: s.value[i] == "ACCESS" || s.value[i] == "TRUNK"
      {
        if s.value[k] != "ACCESS" && s.value[k] != "TRUNK" {
          assert s.value[k] in s.value;
          return false;
        }
      }
    }
    return true;
  }

  // ----- Marshalling -----

  function Put(body: map<string, Json>, key: string, values: Strings): map<string, Json> {
    if Empty(values) then body else body[key := FromStrings(values.value)]
  }

  /** A slice as a JSON value: nil is null. */
  function SliceJson(s: Strings): Json {
    if s.None? then Null else FromStrings(s.value)
  }

  function HeadersJson(h: map<string, Strings>): Json {
    Object(map key | key in h :: SliceJson(h[key]))
  }

  function Body(b: Builder): map<string, Json>
    requires Writable(b)
  {
    var body := map["name" := String(b.name), "type" := String(b.kind)];
    if b.kind == HOSTS then Put(Put(body, "values", b.values), "locations", b.locations)
    else if b.kind == DEVICES then Put(body, "values", b.values)
    else if b.kind == INTERFACES then
      var lists := Put(Put(Put(body, "values", b.values), "vlanIds", b.vlanIDs), "vlanIntfTypes", b.vlanIntfTypes);
      if b.isExposurePoint.Some? then lists["isExposurePoint" := Bool(b.isExposurePoint.value)] else lists
    else if b.kind == HEADERS then body["values" := HeadersJson(b.headerValues.value)]
    else Put(Put(body, "devices", b.devices), "edgeNodes", b.edgeNodes)
  }

  function Marshal(b: Builder): Decoded<Json> {
    if Writable(b) then Ok(Object(Body(b))) else Mistyped
  }

  // ----- Reading an alias -----

  /** A string field of a struct: absent and null leave it empty. */
  function StringField(fields: map<string, Json>, key: string): Decoded<string> {
    if key !in fields then Ok("")
    else if ToStr(fields[key]).None? then Mistyped
    else Ok(ToStr(fields[key]).value)
  }

  /** `Identifier` also takes a number, by its text. */
  function IdentifierField(fields: map<string, Json>, key: string): Decoded<string> {
    if key in fields && fields[key].Number? then Ok(fields[key].text) else StringField(fields, key)
  }

  /** `Alias.UnmarshalJSON`: the common fields, and the whole value kept. */
  function Unmarshal(data: Json): Decoded<Alias> {
    match data
    case Null => Ok(Alias("", "", "", "", Some(Null)))
    case Object(fields) =>
      var name, kind, createdAt, creatorID :=
        StringField(fields, "name"), StringField(fields, "type"), StringField(fields, "createdAt"),
        IdentifierField(fields, "creatorId");
      if name.Ok? && kind.Ok? && createdAt.Ok? && creatorID.Ok?
      then Ok(Alias(name.value, kind.value, createdAt.value, creatorID.value, Some(data)))
      else Mistyped
    case _ => Mistyped
  }

  // ----- Converting what was read to what can be written -----

  const READ_ONLY_KEYS: set<string> := {"name", "type", "createdAt", "creatorId", "resolvedValue"}

  function DefinitionKeys(kind: string): set<string>
    requires KnownKind(kind)
  {
    if kind == HOSTS then {"values", "locations"}
    else if kind == DEVICES then {"values"}
    else if kind == INTERFACES then {"values", "vlanIds", "vlanIntfTypes", "isExposurePoint"}
    else if kind == HEADERS then {"values"}
    else {"devices", "edgeNodes"}
  }

  datatype Error =
    | NoName | NoDefinition | UnknownKind | NotAnObject | UnknownFields(keys: set<string>) | WrongType | NotWritable

  datatype Converted<+T> = Builds(builder: T) | Fails(error: Error)

  /** `sortedCopy`: sorted, and nil when there is nothing. */
  function SortedCopy(s: Strings): (r: Strings)
    ensures r.None? <==> Empty(s)
  {
    if Empty(s) then None
    else
      SortContents(s.value, (x: string) => x);
      Some(SortStrings(s.value))
  }

  /** A field read as a sorted list of strings. */
  function ReadList(fields: map<string, Json>, key: string): Decoded<Strings> {
    if key !in fields then Ok(None)
    else
      match ToStrings(fields[key])
      case Mistyped => Mistyped
      case Ok(s) => Ok(SortedCopy(s))
  }

  function ReadFlag(fields: map<string, Json>, key: string): Decoded<Option<bool>> {
    if key !in fields || fields[key].Null? then Ok(None)
    else if !fields[key].Bool? then Mistyped
    else Ok(if fields[key].b then Some(true) else None)
  }

  predicate AllLists(h: map<string, Json>) {
    forall key | key in h :: ToStrings(h[key]).Ok?
  }

  function HeaderLists(h: map<string, Json>): map<string, Strings>
    requires AllLists(h)
  {
    map key | key in h :: SortedCopy(ToStrings(h[key]).value)
  }

  function ReadHeaders(fields: map<string, Json>): Decoded<map<string, Strings>> {
    if "values" !in fields || fields["values"].Null? then Ok(map[])
    else if !fields["values"].Object? || !AllLists(fields["values"].fields) then Mistyped
    else Ok(HeaderLists(fields["values"].fields))
  }

  function Blank(name: string, kind: string): Builder {
    Builder(name, kind, None, None, None, None, None, None, None, None)
  }

  /** The builder the known fields of a definition spell out. */
  function ReadFields(name: string, kind: string, fields: map<string, Json>): Decoded<Builder>
    requires KnownKind(kind)
  {
    var b := Blank(name, kind);
    if kind == HOSTS then
      var values, locations := ReadList(fields, "values"), ReadList(fields, "locations");
      if values.Ok? && locations.Ok? then Ok(b.(values := values.value, locations := locations.value)) else Mistyped
    else if kind == DEVICES then
      var values := ReadList(fields, "values");
      if values.Ok? then Ok(b.(values := values.value)) else Mistyped
    else if kind == INTERFACES then
      var values, ids, types, flag :=
        ReadList(fields, "values"), ReadList(fields, "vlanIds"), ReadList(fields, "vlanIntfTypes"),
        ReadFlag(fields, "isExposurePoint");
      if values.Ok? && ids.Ok? && types.Ok? && flag.Ok?
      then
        Ok(b.(values := values.value, vlanIDs := ids.value, vlanIntfTypes := types.value,
              isExposurePoint := flag.value))
      else Mistyped
    else if kind == HEADERS then
      var headers := ReadHeaders(fields);
      if headers.Ok? then Ok(b.(headerValues := Some(headers.value))) else Mistyped
    else
      var devices, edgeNodes := ReadList(fields, "devices"), ReadList(fields, "edgeNodes");
      if devices.Ok? && edgeNodes.Ok? then Ok(b.(devices := devices.value, edgeNodes := edgeNodes.value)) else Mistyped
  }

  function KnownKeys(kind: string, ignore: set<string>): set<string>
    requires KnownKind(kind)
  {
    DefinitionKeys(kind) + READ_ONLY_KEYS + ignore
  }

  /** The fields of a definition; null counts as an object with none. */
  function DefinitionFields(definition: Json): Decoded<map<string, Json>> {
    match definition
    case Null => Ok(map[])
    case Object(fields) => Ok(fields)
    case _ => Mistyped
  }

  /** `Alias.Builder`. */
  function Convert(a: Alias, ignore: set<string>): Converted<Builder> {
    if a.name == "" then Fails(NoName)
    else if a.definition.None? then Fails(NoDefinition)
    else if !KnownKind(a.kind) then Fails(UnknownKind)
    else
      match DefinitionFields(a.definition.value)
      case Mistyped => Fails(NotAnObject)
      case Ok(fields) =>
        var unknown := fields.Keys - KnownKeys(a.kind, ignore);
        if unknown != {} then Fails(UnknownFields(unknown))
        else
          match ReadFields(a.name, a.kind, fields)
          case Mistyped => Fails(WrongType)
          case Ok(b) => if Writable(b) then Builds(b) else Fails(NotWritable)
  }

  // ----- The same as written -----

  /** `AliasBuilder.MarshalJSON`: the body map filled by assignment. */
  method MarshalJSON(b: Builder) returns (r: Decoded<Json>)
    ensures r == Marshal(b)
  {
    var ok := Check(b);
    if !ok {
      return Mistyped;
    }
    var body := map["name" := String(b.name), "type" := String(b.kind)];
    if b.kind == HOSTS {
      body := Put(body, "values", b.values);
      body := Put(body, "locations", b.locations);
    } else if b.kind == DEVICES {
      body := Put(body, "values", b.values);
    } else if b.kind == INTERFACES {
      body := Put(body, "values", b.values);
      body := Put(body, "vlanIds", b.vlanIDs);
      body := Put(body, "vlanIntfTypes", b.vlanIntfTypes);
      if b.isExposurePoint.Some? {
        body := body["isExposurePoint" := Bool(b.isExposurePoint.value)];
      }
    } else if b.kind == HEADERS {
      body := body["values" := HeadersJson(b.headerValues.value)];
    } else {
      body := Put(body, "devices", b.devices);
      body := Put(body, "edgeNodes", b.edgeNodes);
    }
    return Ok(Object(body));
  }

  /** The loop over header categories. */
  method ConvertHeaders(h: map<string, Json>) returns (r: Decoded<map<string, Strings>>)
    ensures r == if AllLists(h) then Ok(HeaderLists(h)) else Mistyped
  {
    var todo, out: map<string, Strings> := h.Keys, map[];
    while todo != {}
      invariant todo <= h.Keys && out.Keys == h.Keys - todo
      invariant forall key | key in out :: ToStrings(h[key]).Ok? && out[key] == SortedCopy(ToStrings(h[key]).value)
      decreases |todo|
    {
      var key :| key in todo;
      var values := ToStrings(h[key]);
      if values.Mistyped? {
        return Mistyped;
      }
      out, todo := out[key := SortedCopy(values.value)], todo - {key};
    }
    assert out == HeaderLists(h);
    return Ok(out);
  }

  /** `Alias.Builder`: the known keys collected, the unknown ones looked for, the fields read and checked. */
  method ToBuilder(a: Alias, ignoreKeys: seq<string>) returns (r: Converted<Builder>)
    ensures r == Convert(a, set key | key in ignoreKeys)
  {
    if a.name == "" {
      return Fails(NoName);
    }
    if a.definition.None? {
      return Fails(NoDefinition);
    }
    if !KnownKind(a.kind) {
      return Fails(UnknownKind);
    }
    var decoded := DefinitionFields(a.definition.value);
    if decoded.Mistyped? {
      return Fails(NotAnObject);
    }
    var known := CollectKnown(a.kind, ignoreKeys);
    var unknown := FindUnknown(decoded.value, known);
    if unknown != {} {
      return Fails(UnknownFields(unknown));
    }
    var read := ReadBuilder(a.name, a.kind, decoded.value);
    if read.Mistyped? {
      return Fails(WrongType);
    }
    var ok := Check(read.value);
    return if ok then Builds(read.value) else Fails(NotWritable);
  }

  method CollectKnown(kind: string, ignoreKeys: seq<string>) returns (known: set<string>)
    requires KnownKind(kind)
    ensures known == KnownKeys(kind, set key | key in ignoreKeys)
  {
    known := DefinitionKeys(kind) + READ_ONLY_KEYS;
    for k := 0 to |ignoreKeys|
      invariant known == KnownKeys(kind, set key | key in ignoreKeys[..k])
    {
      known := known + {ignoreKeys[k]};
      assert ignoreKeys[..k + 1] == ignoreKeys[..k] + [ignoreKeys[k]];
    }
    assert ignoreKeys[..|ignoreKeys|] == ignoreKeys;
  }

  method FindUnknown(fields: map<string, Json>, known: set<string>) returns (unknown: set<string>)
    ensures unknown == fields.Keys - known
  {
    unknown := {};
    var todo := fields.Keys;
    while todo != {}
      invariant todo <= fields.Keys && unknown == fields.Keys - todo - known
      decreases |todo|
    {
      var key :| key in todo;
      if key !in known {
        unknown := unknown + {key};
      }
      todo := todo - {key};
    }
  }

  /** The local function `stringList`. */
  method StringList(fields: map<string, Json>, key: string) returns (r: Decoded<Strings>)
    ensures r == ReadList(fields, key)
  {
    if key !in fields || fields[key].Null? {
      return Ok(None);
    }
    var list := ToStrings(fields[key]);
    if list.Mistyped? {
      return Mistyped;
    }
    return Ok(SortedCopy(list.value));
  }

  /** The switch over the type: fields read one after the other, up to the first of the wrong type. */
  method ReadBuilder(name: string, kind: string, fields: map<string, Json>) returns (r: Decoded<Builder>)
    requires KnownKind(kind)
    ensures r == ReadFields(name, kind, fields)
  {
    if kind == HOSTS {
      r := ReadHosts(name, fields);
    } else if kind == DEVICES {
      var values := StringList(fields, "values");
      r := if values.Ok? then Ok(Blank(name, kind).(values := values.value)) else Mistyped;
    } else if kind == INTERFACES {
      r := ReadInterfaces(name, fields);
    } else if kind == HEADERS {
      r := ReadHeaderBuilder(name, fields);
    } else {
      r := ReadLogicalNetwork(name, fields);
    }
  }

  method ReadHosts(name: string, fields: map<string, Json>) returns (r: Decoded<Builder>)
    ensures r == ReadFields(name, HOSTS, fields)
  {
    var b := Blank(name, HOSTS);
    var values := StringList(fields, "values");
    if values.Mistyped? {
      return Mistyped;
    }
    b := b.(values := values.value);
    var locations := StringList(fields, "locations");
    if locations.Mistyped? {
      return Mistyped;
    }
    return Ok(b.(locations := locations.value));
  }

  method ReadInterfaces(name: string, fields: map<string, Json>) returns (r: Decoded<Builder>)
    ensures r == ReadFields(name, INTERFACES, fields)
  {
    var b := Blank(name, INTERFACES);
    var values := StringList(fields, "values");
    if values.Mistyped? {
      return Mistyped;
    }
    b := b.(values := values.value);
    var ids := StringList(fields, "vlanIds");
    if ids.Mistyped? {
      return Mistyped;
    }
    b := b.(vlanIDs := ids.value);
    var types := StringList(fields, "vlanIntfTypes");
    if types.Mistyped? {
      return Mistyped;
    }
    b := b.(vlanIntfTypes := types.value);
    if "isExposurePoint" in fields && !fields["isExposurePoint"].Null? {
      if !fields["isExposurePoint"].Bool? {
        return Mistyped;
      }
      if fields["isExposurePoint"].b {
        b := b.(isExposurePoint := Some(true));
      }
    }
    return Ok(b);
  }

  method ReadHeaderBuilder(name: string, fields: map<string, Json>) returns (r: Decoded<Builder>)
    ensures r == ReadFields(name, HEADERS, fields)
  {
    var b := Blank(name, HEADERS);
    if "values" !in fields || fields["values"].Null? {
      return Ok(b.(headerValues := Some(map[])));
    }
    if !fields["values"].Object? {
      return Mistyped;
    }
    var headers := ConvertHeaders(fields["values"].fields);
    return if headers.Ok? then Ok(b.(headerValues := Some(headers.value))) else Mistyped;
  }

  method ReadLogicalNetwork(name: string, fields: map<string, Json>) returns (r: Decoded<Builder>)
    ensures r == ReadFields(name, LOGICAL_NETWORK, fields)
  {
    var b := Blank(name, LOGICAL_NETWORK);
    var devices := StringList(fields, "devices");
    if devices.Mistyped? {
      return Mistyped;
    }
    b := b.(devices := devices.value);
    var edgeNodes := StringList(fields, "edgeNodes");
    if edgeNodes.Mistyped? {
      return Mistyped;
    }
    return Ok(b.(edgeNodes := edgeNodes.value));
  }
}
