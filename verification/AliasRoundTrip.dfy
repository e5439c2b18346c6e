/** Writing an alias, reading it back and converting it: the round trip, and that a conversion drops and invents nothing
    (aliases.go, canonical.go). */
module AliasRoundTrip {
  import opened Json
  import opened Sorting
  import opened Aliases
  import opened Wrappers

  /** What a round trip leaves of a builder: lists sorted, empty ones nil, and a false exposure flag dropped. */
  function Normal(b: Builder): Builder {
    Builder(b.name, b.kind,
            SortedCopy(b.values), SortedCopy(b.locations), SortedCopy(b.vlanIDs), SortedCopy(b.vlanIntfTypes),
            if b.isExposurePoint == Some(true) then b.isExposurePoint else None,
            if b.kind == HEADERS && b.headerValues.Some?
            then Some(map key | key in b.headerValues.value :: SortedCopy(b.headerValues.value[key])) else None,
            SortedCopy(b.devices), SortedCopy(b.edgeNodes))
  }

  lemma SortedCopyIdempotent(s: Strings)
    ensures SortedCopy(SortedCopy(s)) == SortedCopy(s)
  {
    if !Empty(s) {
      var key := (x: string) => x;
      SortSorted(s.value, key);
      SortIdempotent(Sort(s.value, key), key);
    }
  }

  lemma SortedCopyElements(s: Strings)
    requires !Empty(s)
    ensures SortedCopy(s).Some? && multiset(SortedCopy(s).value) == multiset(s.value)
    ensures forall x | x in SortedCopy(s).value :: x in s.value
  {
    SortContents(s.value, (x: string) => x);
    SameElements(SortedCopy(s).value, s.value);
  }

  lemma NormalIdempotent(b: Builder)
    ensures Normal(Normal(b)) == Normal(b)
  {
    SortedCopyIdempotent(b.values);
    SortedCopyIdempotent(b.locations);
    SortedCopyIdempotent(b.vlanIDs);
    SortedCopyIdempotent(b.vlanIntfTypes);
    SortedCopyIdempotent(b.devices);
    SortedCopyIdempotent(b.edgeNodes);
    if b.kind == HEADERS && b.headerValues.Some? {
      NormalHeadersIdempotent(b);
    }
  }

  lemma NormalHeadersIdempotent(b: Builder)
    requires b.kind == HEADERS && b.headerValues.Some?
    ensures Normal(Normal(b)).headerValues == Normal(b).headerValues
  {
    var h := b.headerValues.value;
    var once, twice := Normal(b).headerValues.value, Normal(Normal(b)).headerValues.value;
    assert once.Keys == twice.Keys == h.Keys;
    forall key | key in h ensures twice[key] == once[key] {
      SortedCopyIdempotent(h[key]);
    }
    assert once == twice;
  }

  lemma NormalWritable(b: Builder)
    requires Writable(b)
    ensures Writable(Normal(b))
  {
    if b.kind == INTERFACES && !Empty(b.vlanIntfTypes) {
      SortedCopyElements(b.vlanIntfTypes);
    }
    if b.kind == HEADERS {
      assert Normal(b).headerValues.value.Keys == b.headerValues.value.Keys;
      var key :| key in b.headerValues.value;
      assert key in Normal(b).headerValues.value;
    }
  }

  // ----- Reading what was put -----

  lemma ReadPut(body: map<string, Json>, key: string, s: Strings)
    requires key !in body
    ensures ReadList(Put(body, key, s), key) == Ok(SortedCopy(s))
  {
    if !Empty(s) {
      StringsRoundTrip(s.value);
    }
  }

  lemma ReadOther(body: map<string, Json>, key: string, other: string, s: Strings)
    requires key != other
    ensures ReadList(Put(body, other, s), key) == ReadList(body, key)
    ensures key in Put(body, other, s) <==> key in body
  {
  }

  lemma ReadTwo(b: Builder, body: map<string, Json>, k1: string, s1: Strings, k2: string, s2: Strings)
    requires k1 != k2 && k1 !in body && k2 !in body
    ensures ReadList(Put(Put(body, k1, s1), k2, s2), k1) == Ok(SortedCopy(s1))
    ensures ReadList(Put(Put(body, k1, s1), k2, s2), k2) == Ok(SortedCopy(s2))
  {
    ReadPut(body, k1, s1);
    ReadOther(Put(body, k1, s1), k1, k2, s2);
    ReadPut(Put(body, k1, s1), k2, s2);
  }

  function Start(b: Builder): map<string, Json> {
    map["name" := String(b.name), "type" := String(b.kind)]
  }

  lemma HostsRoundTrip(b: Builder)
    requires Writable(b) && b.kind == HOSTS
    ensures ReadFields(b.name, b.kind, Body(b)) == Ok(Normal(b))
  {
    ReadTwo(b, Start(b), "values", b.values, "locations", b.locations);
  }

  lemma DevicesRoundTrip(b: Builder)
    requires Writable(b) && b.kind == DEVICES
    ensures ReadFields(b.name, b.kind, Body(b)) == Ok(Normal(b))
  {
    ReadPut(Start(b), "values", b.values);
  }

  lemma LogicalNetworkRoundTrip(b: Builder)
    requires Writable(b) && b.kind == LOGICAL_NETWORK
    ensures ReadFields(b.name, b.kind, Body(b)) == Ok(Normal(b))
  {
    ReadTwo(b, Start(b), "devices", b.devices, "edgeNodes", b.edgeNodes);
  }

  lemma InterfaceLists(b: Builder)
    ensures var lists :=
              Put(Put(Put(Start(b), "values", b.values), "vlanIds", b.vlanIDs), "vlanIntfTypes", b.vlanIntfTypes);
            && "isExposurePoint" !in lists
            && ReadList(lists, "values") == Ok(SortedCopy(b.values))
            && ReadList(lists, "vlanIds") == Ok(SortedCopy(b.vlanIDs))
            && ReadList(lists, "vlanIntfTypes") == Ok(SortedCopy(b.vlanIntfTypes))
  {
    var two := Put(Put(Start(b), "values", b.values), "vlanIds", b.vlanIDs);
    ReadTwo(b, Start(b), "values", b.values, "vlanIds", b.vlanIDs);
    ReadOther(two, "values", "vlanIntfTypes", b.vlanIntfTypes);
    ReadOther(two, "vlanIds", "vlanIntfTypes", b.vlanIntfTypes);
    ReadPut(two, "vlanIntfTypes", b.vlanIntfTypes);
  }

  lemma InterfacesRoundTrip(b: Builder)
    requires Writable(b) && b.kind == INTERFACES
    ensures ReadFields(b.name, b.kind, Body(b)) == Ok(Normal(b))
  {
    InterfaceLists(b);
    var lists := Put(Put(Put(Start(b), "values", b.values), "vlanIds", b.vlanIDs), "vlanIntfTypes", b.vlanIntfTypes);
    forall key | key != "isExposurePoint" ensures ReadList(Body(b), key) == ReadList(lists, key) {
    }
    assert ReadFlag(Body(b), "isExposurePoint") == Ok(if b.isExposurePoint == Some(true) then Some(true) else None);
  }

  lemma HeadersRoundTrip(b: Builder)
    requires Writable(b) && b.kind == HEADERS
    ensures ReadFields(b.name, b.kind, Body(b)) == Ok(Normal(b))
  {
    var h := b.headerValues.value;
    var written := HeadersJson(h).fields;
    forall key | key in h ensures ToStrings(written[key]) == Ok(h[key]) {
      if h[key].Some? {
        StringsRoundTrip(h[key].value);
      }
    }
    assert AllLists(written);
    assert ReadHeaders(Body(b)).value == Normal(b).headerValues.value;
  }

  lemma BodyKeys(b: Builder)
    requires Writable(b)
    ensures Body(b).Keys <= DefinitionKeys(b.kind) + {"name", "type"}
    ensures "name" in Body(b) && Body(b)["name"] == String(b.name)
    ensures "type" in Body(b) && Body(b)["type"] == String(b.kind)
  {
  }

  lemma FieldsRoundTrip(b: Builder)
    requires Writable(b)
    ensures ReadFields(b.name, b.kind, Body(b)) == Ok(Normal(b))
  {
    if b.kind == HOSTS {
      HostsRoundTrip(b);
    } else if b.kind == DEVICES {
      DevicesRoundTrip(b);
    } else if b.kind == INTERFACES {
      InterfacesRoundTrip(b);
    } else if b.kind == HEADERS {
      HeadersRoundTrip(b);
    } else {
      LogicalNetworkRoundTrip(b);
    }
  }

  lemma WrittenUnmarshals(b: Builder)
    requires Writable(b)
    ensures Unmarshal(Object(Body(b))) == Ok(Alias(b.name, b.kind, "", "", Some(Object(Body(b)))))
  {
    BodyKeys(b);
    assert "createdAt" !in Body(b) && "creatorId" !in Body(b);
  }

  /** The round trip: every builder that can be written comes back from its own body, whatever extra keys are ignored,
      as its normal form; a second trip changes nothing. */
  lemma RoundTrip(b: Builder, ignore: set<string>)
    requires Writable(b)
    ensures Marshal(b).Ok? && Unmarshal(Marshal(b).value).Ok?
    ensures Convert(Unmarshal(Marshal(b).value).value, ignore) == Builds(Normal(b))
    ensures Marshal(Normal(b)).Ok? && Unmarshal(Marshal(Normal(b)).value).Ok?
    ensures Convert(Unmarshal(Marshal(Normal(b)).value).value, ignore) == Builds(Normal(b))
  {
    OneTrip(b, ignore);
    NormalWritable(b);
    OneTrip(Normal(b), ignore);
    NormalIdempotent(b);
  }

  lemma OneTrip(b: Builder, ignore: set<string>)
    requires Writable(b)
    ensures Marshal(b).Ok? && Unmarshal(Marshal(b).value).Ok?
    ensures Convert(Unmarshal(Marshal(b).value).value, ignore) == Builds(Normal(b))
  {
    WrittenUnmarshals(b);
    BodyKeys(b);
    FieldsRoundTrip(b);
    NormalWritable(b);
    assert Body(b).Keys - KnownKeys(b.kind, ignore) == {};
  }

  // ----- Nothing dropped, nothing invented -----

  /** The strings a definition's list stands for: none when it is absent or null. */
  function Items(j: Option<Json>): seq<string> {
    if j.Some? && j.value.Array? && ToElements(j.value.items).Some? then ToElements(j.value.items).value else []
  }

  /** The written list holds exactly the strings of the one read, sorted; an empty one is not written. */
  ghost predicate SameList(read: Option<Json>, written: Option<Json>) {
    if Items(read) == [] then written == None
    else exists m ::
      written == Some(FromStrings(m)) && SortedBy(m, (x: string) => x) && multiset(m) == multiset(Items(read))
  }

  function Listed(s: Strings): Option<Json> {
    if Empty(s) then None else Some(FromStrings(s.value))
  }

  lemma ListKept(fields: map<string, Json>, key: string)
    requires ReadList(fields, key).Ok?
    ensures SameList(Lookup(fields, key), Listed(ReadList(fields, key).value))
  {
    if Items(Lookup(fields, key)) != [] {
      var items := Items(Lookup(fields, key));
      SortSorted(items, (x: string) => x);
      SortContents(items, (x: string) => x);
      assert Listed(ReadList(fields, key).value) == Some(FromStrings(SortStrings(items)));
    }
  }

  lemma ReadIsNormal(name: string, kind: string, fields: map<string, Json>)
    requires KnownKind(kind) && ReadFields(name, kind, fields).Ok?
    ensures Normal(ReadFields(name, kind, fields).value) == ReadFields(name, kind, fields).value
  {
    forall key | ReadList(fields, key).Ok?
      ensures SortedCopy(ReadList(fields, key).value) == ReadList(fields, key).value
    {
      if key in fields {
        SortedCopyIdempotent(ToStrings(fields[key]).value);
      }
    }
    if kind == HEADERS {
      HeadersAreNormal(fields);
    }
  }

  lemma HeadersAreNormal(fields: map<string, Json>)
    requires ReadHeaders(fields).Ok?
    ensures var h := ReadHeaders(fields).value; h == map key | key in h :: SortedCopy(h[key])
  {
    var h := ReadHeaders(fields).value;
    forall key | key in h ensures SortedCopy(h[key]) == h[key] {
      SortedCopyIdempotent(ToStrings(fields["values"].fields[key]).value);
    }
  }

  lemma PutLookup(body: map<string, Json>, key: string, s: Strings)
    requires key !in body
    ensures Lookup(Put(body, key, s), key) == Listed(s)
    ensures forall other | other != key :: Lookup(Put(body, key, s), other) == Lookup(body, other)
  {
  }

  /** Which list each definition key carries. */
  function ListOf(b: Builder, key: string): Strings {
    if key == "locations" then b.locations
    else if key == "vlanIds" then b.vlanIDs
    else if key == "vlanIntfTypes" then b.vlanIntfTypes
    else if key == "devices" then b.devices
    else if key == "edgeNodes" then b.edgeNodes
    else b.values
  }

  lemma BodyLists(b: Builder, key: string)
    requires Writable(b) && key in DefinitionKeys(b.kind) && b.kind != HEADERS && key != "isExposurePoint"
    ensures Lookup(Body(b), key) == Listed(ListOf(b, key))
  {
    if b.kind == INTERFACES {
      PutLookup(Start(b), "values", b.values);
      PutLookup(Put(Start(b), "values", b.values), "vlanIds", b.vlanIDs);
      PutLookup(Put(Put(Start(b), "values", b.values), "vlanIds", b.vlanIDs), "vlanIntfTypes", b.vlanIntfTypes);
    } else if b.kind == LOGICAL_NETWORK {
      PutLookup(Start(b), "devices", b.devices);
      PutLookup(Put(Start(b), "devices", b.devices), "edgeNodes", b.edgeNodes);
    } else {
      PutLookup(Start(b), "values", b.values);
      PutLookup(Put(Start(b), "values", b.values), "locations", b.locations);
    }
  }

  lemma ReadLists(name: string, kind: string, fields: map<string, Json>, key: string)
    requires KnownKind(kind) && key in DefinitionKeys(kind) && kind != HEADERS && key != "isExposurePoint"
    requires ReadFields(name, kind, fields).Ok?
    ensures ReadList(fields, key) == Ok(ListOf(ReadFields(name, kind, fields).value, key))
  {
  }

  /** A conversion that succeeds accounts for every key of the definition and loses no value. The builder is already in
      normal form and keeps the name and type; each list it would write is the one read, sorted; an exposure flag is
      written exactly when it was true; and the header categories are the same, each with its values. */
  lemma NothingLost(a: Alias, fields: map<string, Json>, ignore: set<string>, key: string)
    requires a.definition == Some(Object(fields)) && Convert(a, ignore).Builds?
    ensures var b := Convert(a, ignore).builder;
            && Writable(b) && Normal(b) == b && b.name == a.name && b.kind == a.kind
            && (key in fields ==> key in KnownKeys(a.kind, ignore))
            && (key in DefinitionKeys(a.kind) ==>
                  if a.kind == HEADERS then SameHeaders(Lookup(fields, key), Lookup(Body(b), key))
                  else if key == "isExposurePoint" then
                    Lookup(Body(b), key) == if Lookup(fields, key) == Some(Bool(true)) then Some(Bool(true)) else None
                  else SameList(Lookup(fields, key), Lookup(Body(b), key)))
  {
    var b := Convert(a, ignore).builder;
    ReadIsNormal(a.name, a.kind, fields);
    if key in fields {
      assert key !in fields.Keys - KnownKeys(a.kind, ignore);
    }
    if key in DefinitionKeys(a.kind) {
      KeyKept(b, fields, key);
    }
  }

  lemma KeyKept(b: Builder, fields: map<string, Json>, key: string)
    requires Writable(b) && ReadFields(b.name, b.kind, fields) == Ok(b) && key in DefinitionKeys(b.kind)
    ensures if b.kind == HEADERS then SameHeaders(Lookup(fields, key), Lookup(Body(b), key))
            else if key == "isExposurePoint" then
              Lookup(Body(b), key) == if Lookup(fields, key) == Some(Bool(true)) then Some(Bool(true)) else None
            else SameList(Lookup(fields, key), Lookup(Body(b), key))
  {
    if b.kind == HEADERS {
      HeadersKept(b, fields);
    } else if key != "isExposurePoint" {
      ListKept(fields, key);
      ReadLists(b.name, b.kind, fields, key);
      BodyLists(b, key);
    }
  }

  /** The same categories, and in each the same values, sorted; nothing at all reads as null. */
  ghost predicate SameHeaders(read: Option<Json>, written: Option<Json>) {
    && read.Some? && written.Some? && read.value.Object? && written.value.Object?
    && read.value.fields.Keys == written.value.fields.Keys
    && forall category | category in read.value.fields ::
         if Items(Some(read.value.fields[category])) == [] then written.value.fields[category] == Null
         else SameList(Some(read.value.fields[category]), Some(written.value.fields[category]))
  }

  lemma HeadersKept(b: Builder, fields: map<string, Json>)
    requires Writable(b) && b.kind == HEADERS && ReadFields(b.name, b.kind, fields) == Ok(b)
    ensures SameHeaders(Lookup(fields, "values"), Lookup(Body(b), "values"))
  {
    var h := b.headerValues.value;
    assert h != map[];
    var read := fields["values"].fields;
    assert Body(b)["values"] == HeadersJson(h);
    forall category | category in read
      ensures if Items(Some(read[category])) == [] then HeadersJson(h).fields[category] == Null
              else SameList(Some(read[category]), Some(HeadersJson(h).fields[category]))
    {
      assert ReadList(read, category) == Ok(h[category]);
      ListKept(read, category);
    }
  }
}
