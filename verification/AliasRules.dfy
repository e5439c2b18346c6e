/** Which aliases can be written and which fields a conversion knows, field by field (aliases.go, canonical.go). */
module AliasRules {
  import opened Json
  import opened Aliases
  import opened Wrappers

  predicate IsSet(s: Strings) {
    s.Some? && |s.value| > 0
  }

  predicate Categorised(h: map<string, Strings>) {
    forall key | key in h ::
      key == "mac_addr" || key == "eth_type" || key == "vlan_vid" || key == "ip_addr" || key == "ip_proto" ||
      key == "tp_port"
  }

  predicate SetsHeaders(b: Builder) {
    b.headerValues.Some? && |b.headerValues.value| > 0
  }

  /** A builder can be written exactly when it has a name, one of the five types, sets no field of another type, and
      meets what its type asks for: hosts or locations, known header categories, known interface types. */
  lemma WritableExactly(b: Builder)
    ensures Writable(b) <==>
              && |b.name| > 0
              && (b.kind == "HOSTS" || b.kind == "DEVICES" || b.kind == "INTERFACES" || b.kind == "HEADERS" ||
                  b.kind == "LOGICAL_NETWORK")
              && (IsSet(b.values) ==> b.kind == "HOSTS" || b.kind == "DEVICES" || b.kind == "INTERFACES")
              && (IsSet(b.locations) ==> b.kind == "HOSTS")
              && (b.kind == "HOSTS" ==> IsSet(b.values) || IsSet(b.locations))
              && (IsSet(b.vlanIDs) || IsSet(b.vlanIntfTypes) || b.isExposurePoint.Some? ==> b.kind == "INTERFACES")
              && (IsSet(b.vlanIntfTypes) ==>
                    forall i | 0 <= i < |b.vlanIntfTypes.value| :: b.vlanIntfTypes.value[i] in {"ACCESS", "TRUNK"})
              && (SetsHeaders(b) <==> b.kind == "HEADERS")
              && (SetsHeaders(b) ==> Categorised(b.headerValues.value))
              && (IsSet(b.devices) || IsSet(b.edgeNodes) ==> b.kind == "LOGICAL_NETWORK")
  {
    TypesExactly(b.vlanIntfTypes);
    assert NoHeaders(b) <==> !SetsHeaders(b);
    assert Empty(b.values) <==> !IsSet(b.values);
    assert Empty(b.locations) <==> !IsSet(b.locations);
  }

  lemma TypesExactly(s: Strings)
    ensures VlanTypesOk(s) <==>
              (IsSet(s) ==> forall i | 0 <= i < |s.value| :: s.value[i] in {"ACCESS", "TRUNK"})
  {
    if VlanTypesOk(s) && IsSet(s) {
      forall i | 0 <= i < |s.value| ensures s.value[i] in {"ACCESS", "TRUNK"} {
        assert s.value[i] in s.value;
      }
    }
  }

  /** The fields that belong to each type, by field. */
  predicate Owns(kind: string, key: string) {
    || (key == "values" && kind != "LOGICAL_NETWORK")
    || (key == "locations" && kind == "HOSTS")
    || ((key == "vlanIds" || key == "vlanIntfTypes" || key == "isExposurePoint") && kind == "INTERFACES")
    || ((key == "devices" || key == "edgeNodes") && kind == "LOGICAL_NETWORK")
  }

  /** What the server adds to a definition and no write sends back. */
  predicate ServerKey(key: string) {
    key == "name" || key == "type" || key == "createdAt" || key == "creatorId" || key == "resolvedValue"
  }

  lemma KnownExactly(kind: string, ignore: set<string>, key: string)
    requires KnownKind(kind)
    ensures key in KnownKeys(kind, ignore) <==> Owns(kind, key) || ServerKey(key) || key in ignore
  {
  }

  /** A conversion fails on its first unmet need, in this order: a name, a definition, a known type, an object, no field
      that is neither the type's nor the server's nor ignored. */
  lemma FailsInOrder(a: Alias, ignore: set<string>)
    ensures a.name == "" ==> Convert(a, ignore) == Fails(NoName)
    ensures a.name != "" && a.definition.None? ==> Convert(a, ignore) == Fails(NoDefinition)
    ensures a.name != "" && a.definition.Some? && !KnownKind(a.kind) ==> Convert(a, ignore) == Fails(UnknownKind)
    ensures a.name != "" && KnownKind(a.kind) && a.definition.Some? ==>
              !a.definition.value.Object? && !a.definition.value.Null? ==> Convert(a, ignore) == Fails(NotAnObject)
    ensures a.name != "" && KnownKind(a.kind) && a.definition == Some(Null) ==>
              Convert(a, ignore) == Convert(a.(definition := Some(Object(map[]))), ignore)
  {
  }

  lemma UnknownFieldsFail(a: Alias, fields: map<string, Json>, ignore: set<string>)
    requires a.name != "" && KnownKind(a.kind) && a.definition == Some(Object(fields))
    ensures var r := Convert(a, ignore);
            if exists key :: key in fields && !Owns(a.kind, key) && !ServerKey(key) && key !in ignore
            then
              && r.Fails? && r.error.UnknownFields?
              && forall key ::
                key in r.error.keys <==> key in fields && !Owns(a.kind, key) && !ServerKey(key) && key !in ignore
            else r.Fails? ==> r.error.WrongType? || r.error.NotWritable?
  {
    forall key ensures key in KnownKeys(a.kind, ignore) <==> Owns(a.kind, key) || ServerKey(key) || key in ignore {
      KnownExactly(a.kind, ignore, key);
    }
    var unknown := fields.Keys - KnownKeys(a.kind, ignore);
    if key :| key in fields && !Owns(a.kind, key) && !ServerKey(key) && key !in ignore {
      assert key in unknown;
    } else {
      assert unknown == {};
    }
  }

  /** A field of the server changes nothing, whatever its value. */
  lemma ServerKeysChangeNothing(a: Alias, fields: map<string, Json>, ignore: set<string>, key: string, value: Json)
    requires a.definition == Some(Object(fields)) && ServerKey(key)
    ensures Convert(a, ignore) == Convert(a.(definition := Some(Object(fields[key := value]))), ignore)
  {
    if KnownKind(a.kind) {
      KnownExactly(a.kind, ignore, key);
      var more := fields[key := value];
      assert more.Keys - KnownKeys(a.kind, ignore) == fields.Keys - KnownKeys(a.kind, ignore);
      ReadsOwnOnly(a.name, a.kind, fields, more);
    }
  }

  /** The builder depends only on the fields of the type. */
  lemma ReadsOwnOnly(name: string, kind: string, f: map<string, Json>, g: map<string, Json>)
    requires KnownKind(kind)
    requires forall key | Owns(kind, key) :: Lookup(f, key) == Lookup(g, key)
    ensures ReadFields(name, kind, f) == ReadFields(name, kind, g)
  {
    SameKeys(kind, f, g);
  }

  lemma SameKeys(kind: string, f: map<string, Json>, g: map<string, Json>)
    requires KnownKind(kind)
    requires forall key | Owns(kind, key) :: Lookup(f, key) == Lookup(g, key)
    ensures kind != "LOGICAL_NETWORK" ==> Lookup(f, "values") == Lookup(g, "values")
    ensures kind == "HOSTS" ==> Lookup(f, "locations") == Lookup(g, "locations")
    ensures kind == "INTERFACES" ==>
              && Lookup(f, "vlanIds") == Lookup(g, "vlanIds")
              && Lookup(f, "vlanIntfTypes") == Lookup(g, "vlanIntfTypes")
              && Lookup(f, "isExposurePoint") == Lookup(g, "isExposurePoint")
    ensures kind == "LOGICAL_NETWORK" ==>
              Lookup(f, "devices") == Lookup(g, "devices") && Lookup(f, "edgeNodes") == Lookup(g, "edgeNodes")
  {
  }
}
