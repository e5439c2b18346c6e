/** Which field of a builder is written under which key and read from which, field by field (aliases.go, canonical.go).
    */
module AliasFields {
  import opened Json
  import opened Aliases
  import opened AliasRoundTrip
  import opened Sorting
  import opened AliasRules
  import opened Wrappers

  // ----- Writing -----

  /** A list that holds something is written as an array of its strings; an empty one is not written. */
  predicate WrittenAs(s: Strings, j: Option<Json>) {
    if !IsSet(s) then j == None
    else
      && j.Some? && j.value.Array? && |j.value.items| == |s.value|
      && forall i | 0 <= i < |s.value| :: j.value.items[i] == String(s.value[i])
  }

  /** What is written under a key. */
  function At(b: Builder, key: string): Option<Json>
    requires Writable(b)
  {
    Lookup(Body(b), key)
  }

  lemma ListWritten(body: map<string, Json>, key: string, s: Strings)
    requires key !in body
    ensures WrittenAs(s, Lookup(Put(body, key, s), key))
  {
  }

  lemma NameAndFlagWritten(b: Builder)
    requires Writable(b)
    ensures At(b, "name") == Some(String(b.name)) && At(b, "type") == Some(String(b.kind))
    ensures At(b, "isExposurePoint") == if b.isExposurePoint.Some? then Some(Bool(b.isExposurePoint.value)) else None
  {
  }

  /** Every list of a builder is written under its own key, whatever the type. */
  lemma WritesExactly(b: Builder)
    requires Writable(b)
    ensures b.kind != "HEADERS" ==> WrittenAs(b.values, At(b, "values"))
    ensures WrittenAs(b.locations, At(b, "locations"))
    ensures WrittenAs(b.vlanIDs, At(b, "vlanIds")) && WrittenAs(b.vlanIntfTypes, At(b, "vlanIntfTypes"))
    ensures WrittenAs(b.devices, At(b, "devices")) && WrittenAs(b.edgeNodes, At(b, "edgeNodes"))
  {
    if b.kind == "HOSTS" || b.kind == "DEVICES" {
      HostsWritten(b);
    } else if b.kind == "INTERFACES" {
      InterfacesWritten(b);
    } else if b.kind == "LOGICAL_NETWORK" {
      NetworkWritten(b);
    }
  }

  lemma NetworkWritten(b: Builder)
    requires Writable(b) && b.kind == "LOGICAL_NETWORK"
    ensures WrittenAs(b.devices, At(b, "devices")) && WrittenAs(b.edgeNodes, At(b, "edgeNodes"))
    ensures At(b, "values") == None
  {
    ListWritten(Start(b), "devices", b.devices);
    ListWritten(Put(Start(b), "devices", b.devices), "edgeNodes", b.edgeNodes);
  }

  lemma HostsWritten(b: Builder)
    requires Writable(b) && (b.kind == "HOSTS" || b.kind == "DEVICES")
    ensures WrittenAs(b.values, At(b, "values")) && WrittenAs(b.locations, At(b, "locations"))
  {
    ListWritten(Start(b), "values", b.values);
    ListWritten(Put(Start(b), "values", b.values), "locations", b.locations);
  }

  lemma InterfacesWritten(b: Builder)
    requires Writable(b) && b.kind == "INTERFACES"
    ensures WrittenAs(b.values, At(b, "values")) && WrittenAs(b.vlanIDs, At(b, "vlanIds"))
    ensures WrittenAs(b.vlanIntfTypes, At(b, "vlanIntfTypes"))
  {
    var one := Put(Start(b), "values", b.values);
    ListWritten(Start(b), "values", b.values);
    ListWritten(one, "vlanIds", b.vlanIDs);
    ListWritten(Put(one, "vlanIds", b.vlanIDs), "vlanIntfTypes", b.vlanIntfTypes);
  }

  /** The categories of a header alias: each with its strings, or null for a nil slice. */
  lemma HeadersWritten(b: Builder, category: string)
    requires Writable(b) && b.kind == "HEADERS"
    ensures At(b, "values").Some? && At(b, "values").value.Object?
    ensures var (written, h) := (At(b, "values").value.fields, b.headerValues.value);
            && written.Keys == h.Keys
            && (category in h ==>
                  if h[category].None? then written[category] == Null
                  else
                    && written[category].Array? && |written[category].items| == |h[category].value|
                    && forall i | 0 <= i < |h[category].value| ::
                         written[category].items[i] == String(h[category].value[i]))
  {
  }

  // ----- Reading -----

  /** An array of strings and nulls. */
  predicate StringArray(j: Json) {
    j.Array? && forall i | 0 <= i < |j.items| :: j.items[i].String? || j.items[i].Null?
  }

  /** A list read from a field: nothing when it is absent, null or empty, and else its strings, sorted. */
  ghost predicate ReadFrom(s: Strings, j: Option<Json>) {
    if j.None? || j.value == Null || j.value == Array([]) then s == None
    else
      && StringArray(j.value) && s.Some? && SortedBy(s.value, (x: string) => x)
      && multiset(s.value) == multiset(Texts(j.value.items))
  }

  /** The text of each item, null having none. */
  function Texts(items: seq<Json>): seq<string>
    requires StringArray(Array(items))
  {
    seq(|items|, i requires 0 <= i < |items| => if items[i].String? then items[i].s else "")
  }

  lemma ListRead(fields: map<string, Json>, key: string)
    ensures ReadList(fields, key).Mistyped? <==> key in fields && fields[key] != Null && !StringArray(fields[key])
    ensures ReadList(fields, key).Ok? ==> ReadFrom(ReadList(fields, key).value, Lookup(fields, key))
  {
    if key in fields && fields[key].Array? {
      var items := fields[key].items;
      NoElements(items);
      if StringArray(fields[key]) {
        ElementsExactly(items, Texts(items));
        assert ToElements(items) == Some(Texts(items));
        SortSorted(Texts(items), (x: string) => x);
        SortContents(Texts(items), (x: string) => x);
      }
    }
  }

  /** Each field of a builder is read from the key of its type, and from nothing for another type. */
  lemma ReadsExactly(name: string, kind: string, fields: map<string, Json>)
    requires KnownKind(kind) && ReadFields(name, kind, fields).Ok?
    ensures var b := ReadFields(name, kind, fields).value;
            && b.name == name && b.kind == kind
            && (kind in {"HOSTS", "DEVICES", "INTERFACES"} ==> ReadFrom(b.values, Lookup(fields, "values")))
            && (kind in {"HEADERS", "LOGICAL_NETWORK"} ==> b.values == None)
            && (if kind == "HOSTS" then ReadFrom(b.locations, Lookup(fields, "locations")) else b.locations == None)
  {
    ListRead(fields, "values");
    ListRead(fields, "locations");
  }

  lemma ReadsNetworks(name: string, kind: string, fields: map<string, Json>)
    requires KnownKind(kind) && ReadFields(name, kind, fields).Ok?
    ensures var b := ReadFields(name, kind, fields).value;
            if kind == "LOGICAL_NETWORK"
            then ReadFrom(b.devices, Lookup(fields, "devices")) && ReadFrom(b.edgeNodes, Lookup(fields, "edgeNodes"))
            else b.devices == None && b.edgeNodes == None
  {
    ListRead(fields, "devices");
    ListRead(fields, "edgeNodes");
  }

  lemma ReadsInterfaces(name: string, kind: string, fields: map<string, Json>)
    requires KnownKind(kind) && ReadFields(name, kind, fields).Ok?
    ensures var b := ReadFields(name, kind, fields).value;
            && (kind != "INTERFACES" ==> b.vlanIDs == None && b.vlanIntfTypes == None && b.isExposurePoint == None)
            && (kind == "INTERFACES" ==>
                  && ReadFrom(b.vlanIDs, Lookup(fields, "vlanIds"))
                  && ReadFrom(b.vlanIntfTypes, Lookup(fields, "vlanIntfTypes"))
                  && b.isExposurePoint ==
                       if Lookup(fields, "isExposurePoint") == Some(Bool(true)) then Some(true) else None)
  {
    ListRead(fields, "vlanIds");
    ListRead(fields, "vlanIntfTypes");
  }

  /** The categories of a header alias: those of its object, each with its strings. */
  lemma ReadsHeaders(name: string, kind: string, fields: map<string, Json>, category: string)
    requires KnownKind(kind) && ReadFields(name, kind, fields).Ok?
    ensures var (h, j) := (ReadFields(name, kind, fields).value.headerValues, Lookup(fields, "values"));
            if kind != "HEADERS" then h == None
            else if j == None || j.value == Null then h == Some(map[])
            else
              && h.Some? && j.value.Object? && h.value.Keys == j.value.fields.Keys
              && (category in h.value ==> ReadFrom(h.value[category], Some(j.value.fields[category])))
  {
    if kind == "HEADERS" && "values" in fields && fields["values"].Object? {
      ListRead(fields["values"].fields, category);
    }
  }

  // ----- An alias as the server sends it -----

  /** A field read as text: absent and null are empty. */
  predicate TextFrom(text: string, j: Option<Json>) {
    ((j == None || j.value == Null) && text == "") || j == Some(String(text))
  }

  /** An object reads as an alias exactly when its name, type and creation time are texts and its creator a text or a
      number, each under its own key; the whole object is the definition. */
  lemma UnmarshalExactly(fields: map<string, Json>, a: Alias)
    ensures Unmarshal(Object(fields)) == Ok(a) <==>
              && a.definition == Some(Object(fields))
              && TextFrom(a.name, Lookup(fields, "name")) && TextFrom(a.kind, Lookup(fields, "type"))
              && TextFrom(a.createdAt, Lookup(fields, "createdAt"))
              && (TextFrom(a.creatorID, Lookup(fields, "creatorId")) ||
                  Lookup(fields, "creatorId") == Some(Number(a.creatorID)))
  {
    TextExactly(fields, "name", a.name);
    TextExactly(fields, "type", a.kind);
    TextExactly(fields, "createdAt", a.createdAt);
    TextExactly(fields, "creatorId", a.creatorID);
  }

  lemma TextExactly(fields: map<string, Json>, key: string, text: string)
    ensures StringField(fields, key) == Ok(text) <==> TextFrom(text, Lookup(fields, key))
  {
  }
}
