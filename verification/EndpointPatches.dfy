/** Endpoint profile patches (endpoints.go): the profile's type, read off its ID, decides which fields a patch may set
    or clear. A wire name is a constructor, or an unknown text. */
module EndpointPatches {
  import opened Json
  import opened Sorting
  import Patches
  import opened Wrappers

  datatype Name =
    | Name | DetectorPatterns | NameDetectorPatterns | ResponseTimeoutSec
    | DetectorCommand | DetectorErrorPatterns | NameDetectorCommand | Prompt | PromptResponse | PagePrompt
    | PagePromptResponse | PtyType | PtyColumnSize | ClearPrompt | CommandSets | CustomCommands
    | DetectorOid | NameDetectorOid | OidSets | CustomOids
    | Https | AuthType | Headers | DetectorUri | Endpoints
    | Unknown(text: string)

  /** The Go fields; None is nil, and a value stands for what the field encodes to. */
  datatype Patch = Patch(
    name: Option<Json>, detectorPatterns: Option<Json>, nameDetectorPatterns: Option<Json>,
    responseTimeoutSec: Option<Json>,
    detectorCommand: Option<Json>, detectorErrorPatterns: Option<Json>, nameDetectorCommand: Option<Json>,
    prompt: Option<Json>,
    promptResponse: Option<Json>, pagePrompt: Option<Json>, pagePromptResponse: Option<Json>, ptyType: Option<Json>,
    ptyColumnSize: Option<Json>, clearPrompt: Option<Json>, commandSets: Option<Json>, customCommands: Option<Json>,
    detectorOid: Option<Json>, nameDetectorOid: Option<Json>, oidSets: Option<Json>, customOids: Option<Json>,
    https: Option<Json>, authType: Option<Json>, headers: Option<Json>, detectorUri: Option<Json>,
    endpoints: Option<Json>)

  /** What a patch states under one wire name. */
  function Stated(p: Patch, name: Name): Option<Json> {
    match name
    case Name => p.name
    case DetectorPatterns => p.detectorPatterns
    case NameDetectorPatterns => p.nameDetectorPatterns
    case ResponseTimeoutSec => p.responseTimeoutSec
    case DetectorCommand => p.detectorCommand
    case DetectorErrorPatterns => p.detectorErrorPatterns
    case NameDetectorCommand => p.nameDetectorCommand
    case Prompt => p.prompt
    case PromptResponse => p.promptResponse
    case PagePrompt => p.pagePrompt
    case PagePromptResponse => p.pagePromptResponse
    case PtyType => p.ptyType
    case PtyColumnSize => p.ptyColumnSize
    case ClearPrompt => p.clearPrompt
    case CommandSets => p.commandSets
    case CustomCommands => p.customCommands
    case DetectorOid => p.detectorOid
    case NameDetectorOid => p.nameDetectorOid
    case OidSets => p.oidSets
    case CustomOids => p.customOids
    case Https => p.https
    case AuthType => p.authType
    case Headers => p.headers
    case DetectorUri => p.detectorUri
    case Endpoints => p.endpoints
    case Unknown(_) => None
  }

  // ----- Each field under its own wire name -----

  // Setting a field changes what is stated under its own name, and under no other.

  predicate Sets(before: Patch, after: Patch, any: Name, own: bool, j: Json) {
    Stated(after, any) == if own then Some(j) else Stated(before, any)
  }

  lemma GeneralFields(p: Patch, j: Json, any: Name)
    ensures Sets(p, p.(name := Some(j)), any, any.Name?, j)
    ensures Sets(p, p.(detectorPatterns := Some(j)), any, any.DetectorPatterns?, j)
    ensures Sets(p, p.(nameDetectorPatterns := Some(j)), any, any.NameDetectorPatterns?, j)
    ensures Sets(p, p.(responseTimeoutSec := Some(j)), any, any.ResponseTimeoutSec?, j)
  {
  }

  lemma DetectionFields(p: Patch, j: Json, any: Name)
    ensures Sets(p, p.(detectorCommand := Some(j)), any, any.DetectorCommand?, j)
    ensures Sets(p, p.(detectorErrorPatterns := Some(j)), any, any.DetectorErrorPatterns?, j)
    ensures Sets(p, p.(nameDetectorCommand := Some(j)), any, any.NameDetectorCommand?, j)
    ensures Sets(p, p.(prompt := Some(j)), any, any.Prompt?, j)
  {
  }

  lemma PagingFields(p: Patch, j: Json, any: Name)
    ensures Sets(p, p.(promptResponse := Some(j)), any, any.PromptResponse?, j)
    ensures Sets(p, p.(pagePrompt := Some(j)), any, any.PagePrompt?, j)
    ensures Sets(p, p.(pagePromptResponse := Some(j)), any, any.PagePromptResponse?, j)
    ensures Sets(p, p.(ptyType := Some(j)), any, any.PtyType?, j)
  {
  }

  lemma CommandFields(p: Patch, j: Json, any: Name)
    ensures Sets(p, p.(ptyColumnSize := Some(j)), any, any.PtyColumnSize?, j)
    ensures Sets(p, p.(clearPrompt := Some(j)), any, any.ClearPrompt?, j)
    ensures Sets(p, p.(commandSets := Some(j)), any, any.CommandSets?, j)
    ensures Sets(p, p.(customCommands := Some(j)), any, any.CustomCommands?, j)
  {
  }

  lemma SnmpFields(p: Patch, j: Json, any: Name)
    ensures Sets(p, p.(detectorOid := Some(j)), any, any.DetectorOid?, j)
    ensures Sets(p, p.(nameDetectorOid := Some(j)), any, any.NameDetectorOid?, j)
    ensures Sets(p, p.(oidSets := Some(j)), any, any.OidSets?, j)
    ensures Sets(p, p.(customOids := Some(j)), any, any.CustomOids?, j)
  {
  }

  lemma HttpFields(p: Patch, j: Json, any: Name)
    ensures Sets(p, p.(https := Some(j)), any, any.Https?, j)
    ensures Sets(p, p.(authType := Some(j)), any, any.AuthType?, j)
    ensures Sets(p, p.(headers := Some(j)), any, any.Headers?, j)
    ensures Sets(p, p.(detectorUri := Some(j)), any, any.DetectorUri?, j)
    ensures Sets(p, p.(endpoints := Some(j)), any, any.Endpoints?, j)
  {
  }

  function Lookup(m: map<Name, Json>, name: Name): Option<Json> {
    if name in m then Some(m[name]) else None
  }

  function Put(body: map<Name, Json>, name: Name, value: Option<Json>): map<Name, Json> {
    if value.Some? then body[name := value.value] else body
  }

  datatype Kind = Cli | Snmp | Http

  predicate Allowed(kind: Kind, name: Name) {
    match kind
    case Cli =>
      name in {Name.Name, DetectorCommand, DetectorPatterns, DetectorErrorPatterns, NameDetectorCommand,
               NameDetectorPatterns, Prompt, PromptResponse, PagePrompt, PagePromptResponse, PtyType, PtyColumnSize,
               ClearPrompt, ResponseTimeoutSec, CommandSets, CustomCommands}
    case Snmp =>
      name in {Name.Name, DetectorOid, DetectorPatterns, NameDetectorOid, NameDetectorPatterns, ResponseTimeoutSec,
               OidSets, CustomOids}
    case Http =>
      name in {Name.Name, Https, AuthType, Headers, DetectorUri, DetectorPatterns, Endpoints}
  }

  /** The text before the first dash; None when there is no dash. */
  function BeforeDash(id: string): Option<string> {
    if id == "" then None
    else if id[0] == '-' then Some("")
    else if BeforeDash(id[1..]).None? then None
    else Some([id[0]] + BeforeDash(id[1..]).value)
  }

  function KindOf(id: string): Option<Kind> {
    var prefix := BeforeDash(id);
    if prefix == Some("CLI") then Some(Cli)
    else if prefix == Some("SNMP") then Some(Snmp)
    else if prefix == Some("HTTP") then Some(Http)
    else None
  }

  lemma {:induction false} BeforeDashExactly(id: string, prefix: string)
    ensures BeforeDash(id) == Some(prefix) <==> prefix + "-" <= id && '-' !in prefix
  {
    if prefix == "" {
      assert "-" <= id <==> id != "" && id[0] == '-';
    } else if id != "" {
      BeforeDashExactly(id[1..], prefix[1..]);
      assert prefix == [prefix[0]] + prefix[1..] && id == [id[0]] + id[1..];
      if BeforeDash(id) == Some(prefix) {
        assert BeforeDash(id[1..]).value == prefix[1..];
      }
      assert prefix + "-" <= id <==> prefix[0] == id[0] && prefix[1..] + "-" <= id[1..];
      assert '-' in prefix <==> prefix[0] == '-' || '-' in prefix[1..];
    }
  }

  /** An ID names a type exactly when it begins with the type's letters and a dash. */
  lemma KindExactly(id: string)
    ensures KindOf(id) == Some(Cli) <==> "CLI-" <= id
    ensures KindOf(id) == Some(Snmp) <==> "SNMP-" <= id
    ensures KindOf(id) == Some(Http) <==> "HTTP-" <= id
  {
    BeforeDashExactly(id, "CLI");
    BeforeDashExactly(id, "SNMP");
    BeforeDashExactly(id, "HTTP");
    assert "CLI" + "-" == "CLI-" && "SNMP" + "-" == "SNMP-" && "HTTP" + "-" == "HTTP-";
  }

  /** Which types have a field, by field. */
  lemma AllowedExactly(kind: Kind, name: Name)
    ensures General(name) ==> (Allowed(kind, name) <==> name.Name? || name.DetectorPatterns? || !kind.Http?)
    ensures Detection(name) || Paging(name) || Commands(name) ==> (Allowed(kind, name) <==> kind.Cli?)
    ensures SnmpOnly(name) ==> (Allowed(kind, name) <==> kind.Snmp?)
    ensures HttpOnly(name) ==> (Allowed(kind, name) <==> kind.Http?)
    ensures name.Unknown? ==> !Allowed(kind, name)
  {
  }

  datatype Error =
    | BadID | NotAField(name: Name) | CannotClear(name: Name) | NeverCleared(name: Name) | SetAndCleared(name: Name)
    | Empty

  datatype Encoded = Encodes(body: map<Name, Json>) | Refused(error: Error)

  predicate NeverClear(name: Name) {
    name == Https || name == Name.Name
  }

  predicate Distinct(s: seq<Name>) {
    forall i, j | 0 <= i < j < |s| :: s[i] != s[j]
  }

  predicate NameOk(kind: Kind, stated: map<Name, Json>, name: Name) {
    Allowed(kind, name) && !NeverClear(name) && name !in stated
  }

  /** Every name once, cleared by the type and not set. */
  predicate ClearOk(kind: Kind, stated: map<Name, Json>, clear: seq<Name>) {
    Distinct(clear) && forall name | name in clear :: NameOk(kind, stated, name)
  }

  predicate Fits(kind: Kind, stated: map<Name, Json>, clear: seq<Name>) {
    && (forall name | name in stated :: Allowed(kind, name))
    && ClearOk(kind, stated, clear)
    && (stated != map[] || clear != [])
  }

  predicate StatedOk(kind: Kind, stated: map<Name, Json>) {
    forall name | name in stated :: Allowed(kind, name)
  }

  /** The first name of the list that cannot be cleared. */
  predicate FirstBad(kind: Kind, stated: map<Name, Json>, clear: seq<Name>, n: int) {
    0 <= n < |clear| && ClearOk(kind, stated, clear[..n]) && !ClearOk(kind, stated, clear[..n + 1])
  }

  function WhyNot(kind: Kind, name: Name): Error {
    if !Allowed(kind, name) then CannotClear(name)
    else if NeverClear(name) then NeverCleared(name)
    else SetAndCleared(name)
  }

  /** Why the encoding of a patch of this type fails: a field that does not fit, or else the first name that cannot be
      cleared, or else that nothing is stated. */
  ghost predicate Explains(kind: Kind, stated: map<Name, Json>, clear: seq<Name>, error: Error) {
    if error.NotAField? then error.name in stated && !Allowed(kind, error.name)
    else
      && StatedOk(kind, stated)
      && if error.Empty? then stated == map[] && clear == []
         else exists n :: FirstBad(kind, stated, clear, n) && error == WhyNot(kind, clear[n])
  }

  predicate General(name: Name) {
    name.Name? || name.DetectorPatterns? || name.NameDetectorPatterns? || name.ResponseTimeoutSec?
  }

  predicate Detection(name: Name) {
    name.DetectorCommand? || name.DetectorErrorPatterns? || name.NameDetectorCommand? || name.Prompt?
  }

  predicate Paging(name: Name) {
    name.PromptResponse? || name.PagePrompt? || name.PagePromptResponse? || name.PtyType?
  }

  predicate Commands(name: Name) {
    name.PtyColumnSize? || name.ClearPrompt? || name.CommandSets? || name.CustomCommands?
  }

  predicate SnmpOnly(name: Name) {
    name.DetectorOid? || name.NameDetectorOid? || name.OidSets? || name.CustomOids?
  }

  predicate HttpOnly(name: Name) {
    name.Https? || name.AuthType? || name.Headers? || name.DetectorUri? || name.Endpoints?
  }

  method PutGeneral(p: Patch, sent: map<Name, Json>) returns (body: map<Name, Json>)
    ensures forall name ::
              Lookup(body, name) ==
                if General(name) && Stated(p, name).Some? then Stated(p, name) else Lookup(sent, name)
  {
    body := sent;
    body := Put(body, Name.Name, p.name);
    body := Put(body, DetectorPatterns, p.detectorPatterns);
    body := Put(body, NameDetectorPatterns, p.nameDetectorPatterns);
    body := Put(body, ResponseTimeoutSec, p.responseTimeoutSec);
  }

  method PutDetection(p: Patch, sent: map<Name, Json>) returns (body: map<Name, Json>)
    ensures forall name ::
              Lookup(body, name) ==
                if Detection(name) && Stated(p, name).Some? then Stated(p, name) else Lookup(sent, name)
  {
    body := sent;
    body := Put(body, DetectorCommand, p.detectorCommand);
    body := Put(body, DetectorErrorPatterns, p.detectorErrorPatterns);
    body := Put(body, NameDetectorCommand, p.nameDetectorCommand);
    body := Put(body, Prompt, p.prompt);
  }

  method PutPaging(p: Patch, sent: map<Name, Json>) returns (body: map<Name, Json>)
    ensures forall name ::
              Lookup(body, name) ==
                if Paging(name) && Stated(p, name).Some? then Stated(p, name) else Lookup(sent, name)
  {
    body := sent;
    body := Put(body, PromptResponse, p.promptResponse);
    body := Put(body, PagePrompt, p.pagePrompt);
    body := Put(body, PagePromptResponse, p.pagePromptResponse);
    body := Put(body, PtyType, p.ptyType);
  }

  method PutCommands(p: Patch, sent: map<Name, Json>) returns (body: map<Name, Json>)
    ensures forall name ::
              Lookup(body, name) ==
                if Commands(name) && Stated(p, name).Some? then Stated(p, name) else Lookup(sent, name)
  {
    body := sent;
    body := Put(body, PtyColumnSize, p.ptyColumnSize);
    body := Put(body, ClearPrompt, p.clearPrompt);
    body := Put(body, CommandSets, p.commandSets);
    body := Put(body, CustomCommands, p.customCommands);
  }

  method PutSnmpOnly(p: Patch, sent: map<Name, Json>) returns (body: map<Name, Json>)
    ensures forall name ::
              Lookup(body, name) ==
                if SnmpOnly(name) && Stated(p, name).Some? then Stated(p, name) else Lookup(sent, name)
  {
    body := sent;
    body := Put(body, DetectorOid, p.detectorOid);
    body := Put(body, NameDetectorOid, p.nameDetectorOid);
    body := Put(body, OidSets, p.oidSets);
    body := Put(body, CustomOids, p.customOids);
  }

  method PutHttpOnly(p: Patch, sent: map<Name, Json>) returns (body: map<Name, Json>)
    ensures forall name ::
              Lookup(body, name) ==
                if HttpOnly(name) && Stated(p, name).Some? then Stated(p, name) else Lookup(sent, name)
  {
    body := sent;
    body := Put(body, Https, p.https);
    body := Put(body, AuthType, p.authType);
    body := Put(body, Headers, p.headers);
    body := Put(body, DetectorUri, p.detectorUri);
    body := Put(body, Endpoints, p.endpoints);
  }

  /** `EndpointProfilePatch.fields`: only the fields that are set are sent, each under its own wire name. */
  method Fields(p: Patch) returns (body: map<Name, Json>)
    ensures forall name :: Lookup(body, name) == Stated(p, name)
  {
    body := PutGeneral(p, map[]);
    body := PutDetection(p, body);
    body := PutPaging(p, body);
    body := PutCommands(p, body);
    body := PutSnmpOnly(p, body);
    body := PutHttpOnly(p, body);
  }

  method CheckStated(kind: Kind, stated: map<Name, Json>) returns (bad: Option<Name>)
    ensures bad.None? <==> forall name | name in stated :: Allowed(kind, name)
    ensures bad.Some? ==> bad.value in stated && !Allowed(kind, bad.value)
  {
    var todo := stated.Keys;
    while todo != {}
      invariant todo <= stated.Keys && forall name | name in stated.Keys - todo :: Allowed(kind, name)
      decreases |todo|
    {
      var name :| name in todo;
      if !Allowed(kind, name) {
        return Some(name);
      }
      todo := todo - {name};
    }
    return None;
  }

  /** The loop over the names to clear: each one joins the body, so that a second one is found there. */
  method ClearEach(kind: Kind, stated: map<Name, Json>, clear: seq<Name>) returns (r: Encoded)
    ensures r.Encodes? <==> ClearOk(kind, stated, clear)
    ensures r.Encodes? ==> r.body == stated + Patches.Nulls(Patches.Elements(clear))
    ensures r.Refused? ==> exists n :: FirstBad(kind, stated, clear, n) && r.error == WhyNot(kind, clear[n])
  {
    var body := stated;
    for n := 0 to |clear|
      invariant ClearOk(kind, stated, clear[..n]) && body == stated + Patches.Nulls(Patches.Elements(clear[..n]))
    {
      var name := clear[n];
      if !Allowed(kind, name) {
        NotOk(kind, stated, clear, n);
        return Refused(CannotClear(name));
      }
      if NeverClear(name) {
        NotOk(kind, stated, clear, n);
        return Refused(NeverCleared(name));
      }
      if name in body {
        Repeated(stated, clear, n);
        NotOk(kind, stated, clear, n);
        return Refused(SetAndCleared(name));
      }
      Patches.NullsSnoc(stated, clear, n);
      ClearOkSnoc(kind, stated, clear, n);
      body := body[name := Null];
    }
    assert clear[..|clear|] == clear;
    return Encodes(body);
  }

  lemma Repeated(stated: map<Name, Json>, clear: seq<Name>, n: nat)
    requires n < |clear| && clear[n] in stated + Patches.Nulls(Patches.Elements(clear[..n]))
    ensures clear[n] in stated || exists i :: 0 <= i < n && clear[i] == clear[n]
  {
    if clear[n] !in stated {
      assert clear[n] in clear[..n];
      var i :| 0 <= i < n && clear[..n][i] == clear[n];
    }
  }

  lemma ClearOkSnoc(kind: Kind, stated: map<Name, Json>, clear: seq<Name>, n: nat)
    requires n < |clear| && ClearOk(kind, stated, clear[..n]) && NameOk(kind, stated, clear[n])
    requires clear[n] !in stated + Patches.Nulls(Patches.Elements(clear[..n]))
    ensures ClearOk(kind, stated, clear[..n + 1])
  {
    assert clear[..n + 1] == clear[..n] + [clear[n]];
    forall i | 0 <= i < n ensures clear[i] != clear[n] {
      assert clear[..n][i] in Patches.Elements(clear[..n]);
    }
  }

  lemma NotOk(kind: Kind, stated: map<Name, Json>, clear: seq<Name>, n: nat)
    requires n < |clear|
    requires ClearOk(kind, stated, clear[..n])
    requires !NameOk(kind, stated, clear[n]) || exists i :: 0 <= i < n && clear[i] == clear[n]
    ensures !ClearOk(kind, stated, clear) && FirstBad(kind, stated, clear, n)
  {
    var upTo := clear[..n + 1];
    assert clear[n] in clear && upTo[n] == clear[n] && upTo[n] in upTo;
    if i :| 0 <= i < n && clear[i] == clear[n] {
      assert upTo[i] == upTo[n];
    }
  }

  /** `EndpointProfilePatch.body`: fails exactly when the ID names no type, a field does not fit it, a name cannot be
      cleared, is set or cleared twice, or nothing is stated; which field a failure names is left open. */
  method Body(profileID: string, stated: map<Name, Json>, clear: seq<Name>) returns (r: Encoded)
    ensures r.Encodes? <==> KindOf(profileID).Some? && Fits(KindOf(profileID).value, stated, clear)
    ensures r.Encodes? ==> r.body == stated + Patches.Nulls(Patches.Elements(clear))
    ensures r.Refused? ==>
              if KindOf(profileID).None? then r.error == BadID
                else Explains(KindOf(profileID).value, stated, clear, r.error)
  {
    var kind := KindOf(profileID);
    if kind.None? {
      return Refused(BadID);
    }
    var bad := CheckStated(kind.value, stated);
    if bad.Some? {
      return Refused(NotAField(bad.value));
    }
    r := ClearEach(kind.value, stated, clear);
    if r.Encodes? && |r.body| == 0 {
      EmptyBody(stated, clear);
      return Refused(Empty);
    }
  }

  /** Which error a patch gets: any field that does not fit, if there is one; else the one that goes with the first name
      that cannot be cleared; and else, of the patches that do not encode, there is only the empty one. */
  lemma ErrorExactly(kind: Kind, stated: map<Name, Json>, clear: seq<Name>, error: Error, n: nat)
    ensures !StatedOk(kind, stated) ==>
              (Explains(kind, stated, clear, error) <==>
                 exists name | name in stated :: !Allowed(kind, name) && error == NotAField(name))
    ensures StatedOk(kind, stated) && FirstBad(kind, stated, clear, n) && Explains(kind, stated, clear, error) ==>
              var name := clear[n];
              && (error == CannotClear(name) <==> !Allowed(kind, name))
              && (error == NeverCleared(name) <==> Allowed(kind, name) && (name.Name? || name.Https?))
              && (error == SetAndCleared(name) <==> Allowed(kind, name) && !name.Name? && !name.Https?)
    ensures StatedOk(kind, stated) && ClearOk(kind, stated, clear) && Explains(kind, stated, clear, error) ==>
              error == Empty && stated == map[] && clear == []
  {
    if StatedOk(kind, stated) && Explains(kind, stated, clear, error) && !error.Empty? {
      var m :| FirstBad(kind, stated, clear, m) && error == WhyNot(kind, clear[m]);
      PrefixBad(kind, stated, clear, m + 1);
      if FirstBad(kind, stated, clear, n) {
        OneFirstBad(kind, stated, clear, m, n);
      }
    } else if StatedOk(kind, stated) && Explains(kind, stated, clear, error) {
      assert clear == [];
    }
  }

  lemma PrefixOk(kind: Kind, stated: map<Name, Json>, clear: seq<Name>, m: nat, n: nat)
    requires m <= n <= |clear| && ClearOk(kind, stated, clear[..n])
    ensures ClearOk(kind, stated, clear[..m])
  {
    assert clear[..n][..m] == clear[..m];
    forall i, j | 0 <= i < j < m ensures clear[..m][i] != clear[..m][j] {
      assert clear[..n][i] != clear[..n][j];
    }
    forall name | name in clear[..m] ensures NameOk(kind, stated, name) {
      assert name in clear[..n];
    }
  }

  lemma OneFirstBad(kind: Kind, stated: map<Name, Json>, clear: seq<Name>, m: nat, n: nat)
    requires FirstBad(kind, stated, clear, m) && FirstBad(kind, stated, clear, n)
    ensures m == n
  {
    if m < n {
      PrefixOk(kind, stated, clear, m + 1, n);
    } else if n < m {
      PrefixOk(kind, stated, clear, n + 1, m);
    }
  }

  lemma PrefixBad(kind: Kind, stated: map<Name, Json>, clear: seq<Name>, m: nat)
    requires m <= |clear| && !ClearOk(kind, stated, clear[..m])
    ensures !ClearOk(kind, stated, clear)
  {
    assert clear[..|clear|] == clear;
    if ClearOk(kind, stated, clear) {
      PrefixOk(kind, stated, clear, m, |clear|);
    }
  }

  /** Which names may be cleared: the type's own, except the name and the HTTPS flag. */
  lemma ClearsExactly(kind: Kind, name: Name)
    ensures Fits(kind, map[], [name]) <==> Allowed(kind, name) && !name.Name? && !name.Https?
  {
    assert name in [name];
  }

  /** When a patch of a type can be sent, in terms of its Go fields. */
  ghost predicate Sendable(kind: Kind, p: Patch, clear: seq<Name>) {
    && (forall name | Stated(p, name).Some? :: Allowed(kind, name))
    && (forall name | name in clear :: Allowed(kind, name) && !NeverClear(name) && Stated(p, name).None?)
    && Distinct(clear)
    && (clear != [] || exists name :: Stated(p, name).Some?)
  }

  lemma SendableFits(kind: Kind, p: Patch, stated: map<Name, Json>, clear: seq<Name>)
    requires forall name :: Lookup(stated, name) == Stated(p, name)
    ensures Fits(kind, stated, clear) <==> Sendable(kind, p, clear)
  {
    forall name ensures name in stated <==> Stated(p, name).Some? {
      assert Lookup(stated, name) == Stated(p, name);
    }
    if stated != map[] {
      var name :| name in stated;
      assert Stated(p, name).Some?;
    }
  }

  /** The patch as a whole: sent exactly when it fits the type, and then under each wire name what its own Go field
      states, null for a cleared one, and nothing else. */
  method Update(profileID: string, p: Patch, clear: seq<Name>) returns (r: Encoded)
    ensures r.Encodes? <==> KindOf(profileID).Some? && Sendable(KindOf(profileID).value, p, clear)
    ensures r.Encodes? ==> forall name :: Lookup(r.body, name) == if name in clear then Some(Null) else Stated(p, name)
  {
    var stated := Fields(p);
    r := Body(profileID, stated, clear);
    if KindOf(profileID).Some? {
      SendableFits(KindOf(profileID).value, p, stated, clear);
    }
    if r.Encodes? {
      forall name ensures Lookup(r.body, name) == if name in clear then Some(Null) else Lookup(stated, name) {
        assert name in clear <==> name in Patches.Elements(clear);
      }
    }
  }

  lemma EmptyBody(stated: map<Name, Json>, clear: seq<Name>)
    ensures stated + Patches.Nulls(Patches.Elements(clear)) == map[] <==> stated == map[] && clear == []
  {
    if clear != [] {
      assert clear[0] in stated + Patches.Nulls(Patches.Elements(clear));
    } else if stated != map[] {
      var name :| name in stated;
      assert name in stated + Patches.Nulls(Patches.Elements(clear));
    }
  }

  /** What an encoded patch does to a stored profile: the stated fields set, the cleared ones unset, the others kept,
      and the name and the HTTPS flag never unset by clearing. A field stated as null, which no Go field encodes to,
      would be unset. */
  lemma AppliedExactly(kind: Kind, stated: map<Name, Json>, clear: seq<Name>, stored: map<Name, Json>)
    requires Fits(kind, stated, clear)
    ensures var after := Patches.Apply(stated + Patches.Nulls(Patches.Elements(clear)), stored);
            && (forall name | name in stated && stated[name] != Null :: Lookup(after, name) == Some(stated[name]))
            && (forall name | name in clear || Lookup(stated, name) == Some(Null) :: name !in after)
            && (forall name | name !in stated && name !in clear :: Lookup(after, name) == Lookup(stored, name))
            && (forall name | NeverClear(name) && name !in stated :: Lookup(after, name) == Lookup(stored, name))
            && (forall name | !Allowed(kind, name) :: Lookup(after, name) == Lookup(stored, name))
  {
    assert forall name | name in clear :: name in Patches.Elements(clear);
    assert forall name | name in Patches.Elements(clear) :: name in clear;
  }

  /** The order of the names to clear does not matter. */
  lemma ClearOrderIsIrrelevant(kind: Kind, stated: map<Name, Json>, a: seq<Name>, b: seq<Name>)
    requires multiset(a) == multiset(b)
    ensures Fits(kind, stated, a) <==> Fits(kind, stated, b)
    ensures Patches.Elements(a) == Patches.Elements(b)
  {
    forall name ensures name in a <==> name in b {
      assert name in a <==> name in multiset(a);
      assert name in b <==> name in multiset(b);
    }
    if Distinct(a) {
      MultisetDistinct(a, b);
    }
    if Distinct(b) {
      MultisetDistinct(b, a);
    }
  }
}
