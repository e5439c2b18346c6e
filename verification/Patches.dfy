/** Patches that set, clear or leave each property (classic_devices.go, collectors.go): a property that is set is sent,
    a cleared one is sent as null, any other is not sent. */
module Patches {
  import opened Json
  import opened Wrappers

  /** `raw` is the object the set properties encode to; a reference to a nil list or map encodes to null. */
  datatype Patch<K> = Patch(raw: map<K, Json>, clear: seq<K>)

  /** Which names may be cleared, and whether one that is set to null may be. */
  datatype Rules<K> = Rules(clearable: set<K>, nullMayBeCleared: bool)

  datatype Error<K> = NotClearable(name: K) | SetAndCleared(name: K)

  datatype Encoded<K> = Encodes(body: map<K, Json>) | Refused(error: Error<K>)

  function Elements<K>(list: seq<K>): set<K> {
    set name | name in list
  }

  function Nulls<K>(names: set<K>): map<K, Json> {
    map name | name in names :: Null
  }

  predicate MayClear<K>(raw: map<K, Json>, name: K, rules: Rules<K>) {
    name in rules.clearable && (name in raw ==> rules.nullMayBeCleared && raw[name] == Null)
  }

  /** Why the first name that cannot be cleared cannot; None when there is no such name. */
  function FirstError<K>(raw: map<K, Json>, clear: seq<K>, rules: Rules<K>): Option<Error<K>> {
    if clear == [] then None
    else if clear[0] !in rules.clearable then Some(NotClearable(clear[0]))
    else if !MayClear(raw, clear[0], rules) then Some(SetAndCleared(clear[0]))
    else FirstError(raw, clear[1..], rules)
  }

  function Encode<K>(p: Patch<K>, rules: Rules<K>): Encoded<K> {
    match FirstError(p.raw, p.clear, rules)
    case Some(error) => Refused(error)
    case None => Encodes(p.raw + Nulls(Elements(p.clear)))
  }

  /** Encoding fails exactly when some name is not clearable or is also set. */
  lemma {:induction false} FailsExactly<K>(raw: map<K, Json>, clear: seq<K>, rules: Rules<K>)
    ensures FirstError(raw, clear, rules).None? <==> forall name | name in Elements(clear) :: MayClear(raw, name, rules)
  {
    if clear == [] {
    } else {
      FailsExactly(raw, clear[1..], rules);
      assert clear[0] in Elements(clear);
      assert Elements(clear) == {clear[0]} + Elements(clear[1..]);
    }
  }

  /** Neither the order of the names to clear nor their repetition matters to what is sent, or to whether it is. */
  lemma ClearOrderIsIrrelevant<K>(raw: map<K, Json>, a: seq<K>, b: seq<K>, rules: Rules<K>)
    requires Elements(a) == Elements(b)
    ensures Encode(Patch(raw, a), rules).Encodes? <==> Encode(Patch(raw, b), rules).Encodes?
    ensures Encode(Patch(raw, a), rules).Encodes? ==> Encode(Patch(raw, a), rules) == Encode(Patch(raw, b), rules)
  {
    FailsExactly(raw, a, rules);
    FailsExactly(raw, b, rules);
  }

  // ----- What a patch means -----

  /** Applied to stored properties: null unsets, anything else replaces, what is not sent stays. */
  function Apply<K>(body: map<K, Json>, stored: map<K, Json>): map<K, Json> {
    map name | name in stored.Keys + body.Keys && (name in body ==> body[name] != Null) ::
      if name in body then body[name] else stored[name]
  }

  function NullKeys<K>(body: map<K, Json>): set<K> {
    set name | name in body && body[name] == Null
  }

  /** What a patch sets to a value. */
  function Values<K>(p: Patch<K>): map<K, Json> {
    p.raw - NullKeys(p.raw)
  }

  /** What a patch unsets: the names it clears, and the properties it sets to null. */
  function Unset<K>(p: Patch<K>): set<K> {
    Elements(p.clear) + NullKeys(p.raw)
  }

  /** Every body that encodes is what the patch sets and a null for each name it unsets, and no name is both. */
  lemma EncodedIs<K>(p: Patch<K>, rules: Rules<K>)
    requires Encode(p, rules).Encodes?
    ensures Values(p).Keys !! Unset(p)
    ensures Encode(p, rules).body == Values(p) + Nulls(Unset(p))
  {
    FailsExactly(p.raw, p.clear, rules);
    forall name | name in Elements(p.clear) ensures name !in Values(p) {
      assert MayClear(p.raw, name, rules);
    }
    var (x, y) := (p.raw + Nulls(Elements(p.clear)), Values(p) + Nulls(Unset(p)));
    forall name ensures name in x <==> name in y {
    }
    forall name | name in x ensures x[name] == y[name] {
    }
  }

  /** Every patch that encodes sets exactly the properties it gives a value, unsets exactly the cleared ones and those
      it sets to null, and leaves the rest. */
  lemma AppliedExactly<K>(p: Patch<K>, rules: Rules<K>, stored: map<K, Json>)
    requires Encode(p, rules).Encodes?
    ensures var after := Apply(Encode(p, rules).body, stored);
            && (forall name | name in p.raw && p.raw[name] != Null :: name in after && after[name] == p.raw[name])
            && (forall name | name in p.clear :: name !in after)
            && (forall name | name in p.raw && p.raw[name] == Null :: name !in after)
            && (forall name | name !in p.raw && name !in p.clear :: name in after <==> name in stored)
            && (forall name | name !in p.raw && name !in p.clear && name in stored :: after[name] == stored[name])
  {
    EncodedIs(p, rules);
    forall name | name in p.clear ensures name in Unset(p) {
      assert name in Elements(p.clear);
    }
    forall name | name in p.raw && p.raw[name] != Null ensures name in Values(p) && name !in Unset(p) {
    }
  }

  /** The names sent as null are the cleared ones exactly when every property set to null is also cleared. */
  lemma NullsExactly<K>(p: Patch<K>, rules: Rules<K>)
    requires Encode(p, rules).Encodes?
    ensures NullKeys(Encode(p, rules).body) == Unset(p)
    ensures Unset(p) == Elements(p.clear) <==> forall name | name in p.raw && p.raw[name] == Null :: name in p.clear
  {
    EncodedIs(p, rules);
    if forall name | name in p.raw && p.raw[name] == Null :: name in p.clear {
      assert forall name | name in p.clear :: name in Elements(p.clear);
    } else {
      var name :| name in p.raw && p.raw[name] == Null && name !in p.clear;
      assert name in Unset(p) && name !in Elements(p.clear);
    }
  }

  /** Two patches have one body exactly when they set the same values and unset the same names. */
  lemma SameBodyExactly<K>(p: Patch<K>, q: Patch<K>, rules: Rules<K>)
    requires Encode(p, rules).Encodes? && Encode(q, rules).Encodes?
    ensures Encode(p, rules) == Encode(q, rules) <==> Values(p) == Values(q) && Unset(p) == Unset(q)
  {
    EncodedIs(p, rules);
    EncodedIs(q, rules);
    BodyParts(Values(p), Unset(p));
    BodyParts(Values(q), Unset(q));
  }

  lemma BodyParts<K>(values: map<K, Json>, unset: set<K>)
    requires values.Keys !! unset && NullKeys(values) == {}
    ensures var body := values + Nulls(unset); NullKeys(body) == unset && body - NullKeys(body) == values
  {
    var body := values + Nulls(unset);
    forall name ensures name in NullKeys(body) <==> name in unset {
      if name in values {
        assert name !in NullKeys(values);
      }
    }
  }

  lemma ApplyTwice<K>(first: map<K, Json>, second: map<K, Json>, stored: map<K, Json>)
    ensures Apply(first, Apply(first, stored)) == Apply(first, stored)
    ensures Apply(second, Apply(first, stored)) == Apply(first + second, stored)
  {
  }

  /** `both` is what `p` and then `q` say: the later one wins. */
  predicate InTurn<K>(p: Patch<K>, q: Patch<K>, both: Patch<K>) {
    && both.raw == (p.raw + q.raw) - Elements(q.clear)
    && Elements(both.clear) == (Elements(p.clear) - q.raw.Keys) + Elements(q.clear)
  }

  /** Two encoded patches sent in turn do what one patch does, which also encodes; one sent twice does what it does
      once. */
  lemma PatchesCompose<K>(p: Patch<K>, q: Patch<K>, both: Patch<K>, rules: Rules<K>, stored: map<K, Json>)
    requires Encode(p, rules).Encodes? && Encode(q, rules).Encodes? && InTurn(p, q, both)
    ensures Encode(both, rules).Encodes?
    ensures var (first, second) := (Encode(p, rules).body, Encode(q, rules).body);
            && Apply(second, Apply(first, stored)) == Apply(Encode(both, rules).body, stored)
            && Apply(first, Apply(first, stored)) == Apply(first, stored)
  {
    BothEncode(p, q, both, rules);
    ApplyTwice(Encode(p, rules).body, Encode(q, rules).body, stored);
    OneBody(p.raw, Elements(p.clear), q.raw, Elements(q.clear));
  }

  lemma BothEncode<K>(p: Patch<K>, q: Patch<K>, both: Patch<K>, rules: Rules<K>)
    requires Encode(p, rules).Encodes? && Encode(q, rules).Encodes? && InTurn(p, q, both)
    ensures Encode(both, rules).Encodes?
  {
    FailsExactly(p.raw, p.clear, rules);
    FailsExactly(q.raw, q.clear, rules);
    forall name | name in Elements(both.clear) ensures MayClear(both.raw, name, rules) {
      assert name in Elements(q.clear) || MayClear(p.raw, name, rules);
    }
    FailsExactly(both.raw, both.clear, rules);
  }

  lemma OneBody<K>(raw: map<K, Json>, cleared: set<K>, raw': map<K, Json>, cleared': set<K>)
    ensures (raw + Nulls(cleared)) + (raw' + Nulls(cleared'))
         == ((raw + raw') - cleared') + Nulls((cleared - raw'.Keys) + cleared')
  {
    var x := (raw + Nulls(cleared)) + (raw' + Nulls(cleared'));
    var y := ((raw + raw') - cleared') + Nulls((cleared - raw'.Keys) + cleared');
    forall name ensures name in x <==> name in y {
    }
    forall name | name in x ensures x[name] == y[name] {
    }
  }

  // ----- The two encoders -----

  const CLASSIC_DEVICE_CLEARABLE: set<string> := {
    "type", "collect", "cliCredentialId", "cliCredential2Id", "cliCredential3Id", "httpCredentialId",
    "snmpCredentialId", "jumpServerId", "collectorId", "note", "port", "enableSnmpCollection",
    "collectBgpAdvertisements", "bgpTableType", "bgpPeerType", "bgpAndBmpFailureHandling", "disableIpv6Collection",
    "fullCollectionLog", "paginationMode", "terminalWidth", "largeRtt", "minBytesReadPerSec", "maxConnectionsPerMin",
    "useFileTransferForLargeOutput", "prompt", "promptResponse", "bmpStationHost", "bgpSubnetsToCollect",
    "highCpuUsage", "highMemoryUsage", "highInputUtilization", "highOutputUtilization", "mediumCpuUsage",
    "mediumMemoryUsage", "mediumInputUtilization", "mediumOutputUtilization"}

  const COLLECTION_SETTINGS_CLEARABLE: set<string> := {
    "maxDeviceAuthNPerSecond", "maxScanConnectionsPerSecond", "deviceCollectionTimeoutMinutes", "commandDelayMs",
    "perDeviceConcurrencyBoost", "perDeviceSnmpConcurrency", "collectionRetries", "collectionRetryDelayMillis",
    "collectionMaxRetryDelayMillis", "maxCommandAuthZPerSecond", "deviceDiscoveryTimeoutMinutes",
    "generalJobTimeoutMinutes", "snapshotCollectionTimeoutMinutes"}

  const CLASSIC_DEVICE: Rules<string> := Rules(CLASSIC_DEVICE_CLEARABLE, false)
  const COLLECTION_SETTINGS: Rules<string> := Rules(COLLECTION_SETTINGS_CLEARABLE, true)

  lemma FirstErrorFrom<K>(clear: seq<K>, n: nat)
    requires n < |clear|
    ensures clear[n..][0] == clear[n] && clear[n..][1..] == clear[n + 1..]
  {
  }

  lemma NullsSnoc<K>(raw: map<K, Json>, clear: seq<K>, n: nat)
    requires n < |clear|
    ensures Elements(clear[..n + 1]) == Elements(clear[..n]) + {clear[n]}
    ensures raw + Nulls(Elements(clear[..n + 1])) == (raw + Nulls(Elements(clear[..n])))[clear[n] := Null]
  {
    assert clear[..n + 1] == clear[..n] + [clear[n]];
  }

  /** `ClassicDevicePatch.MarshalJSON`: a name found in the object was set, unless an earlier entry of the list cleared
      it. */
  method ClearUnset<K(==)>(p: Patch<K>, clearable: set<K>) returns (r: Encoded<K>)
    ensures r == Encode(p, Rules(clearable, false))
  {
    ghost var rules := Rules(clearable, false);
    var fields, cleared := p.raw, {};
    for n := 0 to |p.clear|
      invariant cleared == Elements(p.clear[..n]) && fields == p.raw + Nulls(cleared) && cleared !! p.raw.Keys
      invariant FirstError(p.raw, p.clear, rules) == FirstError(p.raw, p.clear[n..], rules)
    {
      var name := p.clear[n];
      FirstErrorFrom(p.clear, n);
      if name !in clearable {
        return Refused(NotClearable(name));
      }
      if name in fields && name !in cleared {
        return Refused(SetAndCleared(name));
      }
      NullsSnoc(p.raw, p.clear, n);
      cleared := cleared + {name};
      fields := fields[name := Null];
    }
    assert p.clear[..|p.clear|] == p.clear;
    return Encodes(fields);
  }

  /** `OrgCollectionSettingsPatch.MarshalJSON`: a name whose value is null may be cleared, whoever made it null. */
  method ClearNulls<K(==)>(p: Patch<K>, clearable: set<K>) returns (r: Encoded<K>)
    ensures r == Encode(p, Rules(clearable, true))
  {
    ghost var rules := Rules(clearable, true);
    var fields := p.raw;
    for n := 0 to |p.clear|
      invariant fields == p.raw + Nulls(Elements(p.clear[..n]))
      invariant forall name | name in p.clear[..n] && name in p.raw :: p.raw[name] == Null
      invariant FirstError(p.raw, p.clear, rules) == FirstError(p.raw, p.clear[n..], rules)
    {
      var name := p.clear[n];
      FirstErrorFrom(p.clear, n);
      if name !in clearable {
        return Refused(NotClearable(name));
      }
      if name in fields && fields[name] != Null {
        return Refused(SetAndCleared(name));
      }
      NullsSnoc(p.raw, p.clear, n);
      fields := fields[name := Null];
    }
    assert p.clear[..|p.clear|] == p.clear;
    return Encodes(fields);
  }

  method MarshalClassicDevice(p: Patch<string>) returns (r: Encoded<string>)
    ensures r == Encode(p, CLASSIC_DEVICE)
  {
    if |p.clear| == 0 {
      return Encodes(p.raw);
    }
    r := ClearUnset(p, CLASSIC_DEVICE_CLEARABLE);
  }

  method MarshalCollectionSettings(p: Patch<string>) returns (r: Encoded<string>)
    ensures r == Encode(p, COLLECTION_SETTINGS)
  {
    if |p.clear| == 0 {
      return Encodes(p.raw);
    }
    r := ClearNulls(p, COLLECTION_SETTINGS_CLEARABLE);
  }

  /** The properties a device patch has fields for, and those a settings patch has. */
  const CLASSIC_DEVICE_FIELDS: set<string> := {
    "name", "host", "type", "port", "cliCredentialId", "httpCredentialId", "collect", "note", "collectorId",
    "cliCredential2Id", "cliCredential3Id", "snmpCredentialId", "jumpServerId", "enableSnmpCollection",
    "collectBgpAdvertisements", "bgpTableType", "bgpPeerType", "bgpAndBmpFailureHandling", "disableIpv6Collection",
    "fullCollectionLog", "paginationMode", "terminalWidth", "largeRtt", "minBytesReadPerSec", "maxConnectionsPerMin",
    "useFileTransferForLargeOutput", "prompt", "promptResponse", "bmpStationHost", "bgpSubnetsToCollect",
    "highCpuUsage", "highMemoryUsage", "highInputUtilization", "highOutputUtilization", "mediumCpuUsage",
    "mediumMemoryUsage", "mediumInputUtilization", "mediumOutputUtilization"}

  const COLLECTION_SETTINGS_FIELDS: set<string> := {
    "maxDeviceAuthNPerSecond", "maxScanConnectionsPerSecond", "deviceCollectionTimeoutMinutes", "commandDelayMs",
    "perDeviceConcurrencyBoost", "perDeviceSnmpConcurrency", "collectionRetries", "collectionRetryDelayMillis",
    "collectionMaxRetryDelayMillis", "disabledCommands"}

  /** Every property a device patch can set can be cleared but the name and the host; every one a settings patch can set
      but the disabled commands, and four it cannot set. */
  lemma ClearableExactly()
    ensures CLASSIC_DEVICE_FIELDS == CLASSIC_DEVICE_CLEARABLE + {"name", "host"}
    ensures COLLECTION_SETTINGS_FIELDS + {
              "maxCommandAuthZPerSecond", "deviceDiscoveryTimeoutMinutes", "generalJobTimeoutMinutes",
              "snapshotCollectionTimeoutMinutes"} == COLLECTION_SETTINGS_CLEARABLE + {"disabledCommands"}
  {
  }

  /** A device patch is refused when a name to clear is not clearable or is set at all; a settings patch only when it is
      set to a value. */
  lemma RefusesExactly(p: Patch<string>)
    ensures Encode(p, CLASSIC_DEVICE).Refused? <==>
              exists name | name in p.clear :: name !in CLASSIC_DEVICE_CLEARABLE || name in p.raw
    ensures Encode(p, COLLECTION_SETTINGS).Refused? <==>
              exists name | name in p.clear ::
                name !in COLLECTION_SETTINGS_CLEARABLE || (name in p.raw && p.raw[name] != Null)
  {
    FailsExactly(p.raw, p.clear, CLASSIC_DEVICE);
    FailsExactly(p.raw, p.clear, COLLECTION_SETTINGS);
    assert forall name :: name in Elements(p.clear) <==> name in p.clear;
  }

  /** The error names the first name that cannot be cleared, and why. */
  lemma {:induction false} FirstBadName<K>(raw: map<K, Json>, clear: seq<K>, rules: Rules<K>, k: nat)
    requires k < |clear| && !MayClear(raw, clear[k], rules) && forall i | 0 <= i < k :: MayClear(raw, clear[i], rules)
    ensures Encode(Patch(raw, clear), rules) ==
              Refused(if clear[k] in rules.clearable then SetAndCleared(clear[k]) else NotClearable(clear[k]))
  {
    if k == 0 {
    } else {
      assert MayClear(raw, clear[0], rules);
      assert clear[1..][k - 1] == clear[k];
      FirstBadName(raw, clear[1..], rules, k - 1);
    }
  }

  /** A device keeps its name and host whatever is cleared. */
  lemma NameAndHostStay(p: Patch<string>)
    ensures "name" in p.clear || "host" in p.clear ==> Encode(p, CLASSIC_DEVICE).Refused?
  {
    FailsExactly(p.raw, p.clear, CLASSIC_DEVICE);
    assert "name" !in CLASSIC_DEVICE_CLEARABLE && "host" !in CLASSIC_DEVICE_CLEARABLE;
    assert "name" in p.clear ==> "name" in Elements(p.clear);
    assert "host" in p.clear ==> "host" in Elements(p.clear);
  }

  /** A settings patch whose map of disabled commands is a reference to nil encodes, and sends a null that Clear does
      not name. */
  lemma NullWithoutClear()
    ensures var p := Patch(map["disabledCommands" := Null], []);
            Encode(p, COLLECTION_SETTINGS).Encodes? && Unset(p) == {"disabledCommands"} && Elements(p.clear) == {}
  {
    var p: Patch<string> := Patch(map["disabledCommands" := Null], []);
    assert Elements(p.clear) == {};
  }
}
