/** How a request path is parsed, checked and resolved against the appliance URL (client.go), and the routes built
    from caller-supplied IDs. The base URL's own path is always "/" (`normalizeBaseURL`). */
module RequestPaths {
  import opened GoBytes
  import opened DotSegments
  import Percent
  import opened Wrappers

  datatype Scope = Api | Backup | Browser

  datatype Error = Required | Unparsable | Absolute | DotSegment | OutsideScope | MissingID

  datatype Result<+T> = Ok(value: T) | Err(error: Error)

  /** What goes on the wire: the escaped path and the query, as given. */
  datatype Target = Target(path: Bytes, query: Bytes)

  // ----- Parsing, as `url.Parse` does for a reference without a scheme -----

  function IndexOf(s: Bytes, c: char): (i: nat)
    ensures i <= |s| && c !in s[..i]
    ensures i < |s| ==> s[i] == c
  {
    if s == [] || s[0] == c then 0 else 1 + IndexOf(s[1..], c)
  }

  function Before(s: Bytes, c: char): Bytes {
    s[..IndexOf(s, c)]
  }

  function From(s: Bytes, c: char): Bytes {
    s[IndexOf(s, c)..]
  }

  function After(s: Bytes, c: char): Bytes {
    if IndexOf(s, c) == |s| then [] else s[IndexOf(s, c) + 1..]
  }

  predicate HasControl(s: Bytes) {
    exists c | c in s :: c < ' ' || c as int == 0x7f
  }

  /** A scheme or an authority, or a first segment with a colon, which Go takes for a mistyped scheme. */
  predicate NamesOrigin(path: Bytes) {
    if HasPrefix(path, "/") then HasPrefix(path, "//") && !HasPrefix(path, "///")
    else ':' in Before(path, '/')
  }

  /** The escaped path and the query of a reference. */
  function ParseReference(value: Bytes): Result<Target>
    requires IsBytes(value)
  {
    var main := Before(value, '#');
    var path := Before(main, '?');
    if HasControl(main) || Percent.Unescape(After(value, '#')).None? then Err(Unparsable)
    else if NamesOrigin(path) then Err(Absolute)
    else if Percent.Unescape(path).None? then Err(Unparsable)
    else Ok(Target(Percent.EscapedPath(path), From(main, '?')))
  }

  // ----- The checks -----

  predicate DecodesToDot(segment: Bytes) {
    var decoded := Percent.Unescape(segment);
    decoded.None? || IsDot(decoded.value)
  }

  predicate Allowed(escaped: Bytes, scope: Scope) {
    match scope
    case Api => HasPrefix(escaped, "/api/") || escaped == "/api"
    case Backup =>
      || escaped == "/api/backup-settings" || escaped == "/api/backup-settings/storage" || escaped == "/api/backups"
    case Browser =>
      || HasPrefix(escaped, "/api/") || escaped == "/api" || escaped == "/login" || escaped == "/public/csrf"
      || HasPrefix(escaped, "/saml2/authenticate/") || HasPrefix(escaped, "/login/saml2/sso/")
  }

  /** The reference a path names once trimmed. */
  function Reference(path: Bytes): Result<Target>
    requires IsBytes(path)
  {
    TrimmedBytes(path);
    if TrimSpace(path) == [] then Err(Required) else ParseReference(TrimSpace(path))
  }

  predicate NoDotWhenDecoded(segments: seq<Bytes>) {
    forall i | 0 <= i < |segments| :: !DecodesToDot(segments[i])
  }

  function Check(ref: Target, scope: Scope): Result<Target> {
    if !NoDotWhenDecoded(Split(ref.path)) then Err(DotSegment)
    else if !Allowed(ref.path, scope) then Err(OutsideScope)
    else Ok(Target(RemoveDotSegments(ref.path), ref.query))
  }

  function Resolve(path: Bytes, scope: Scope): Result<Target>
    requires IsBytes(path)
  {
    match Reference(path)
    case Err(e) => Err(e)
    case Ok(ref) => Check(ref, scope)
  }

  lemma TrimmedBytes(s: Bytes)
    requires IsBytes(s)
    ensures IsBytes(TrimSpace(s))
  {
    TrimLeftBytes(s);
  }

  lemma {:induction false} TrimLeftBytes(s: Bytes)
    requires IsBytes(s)
    ensures IsBytes(TrimLeft(s))
    decreases |s|
  {
    if SpaceAtStart(s) == 0 {
    } else {
      TrimLeftBytes(s[SpaceAtStart(s)..]);
    }
  }

  /** `resolveScoped` with its loop over the segments. */
  method ResolveScoped(path: Bytes, scope: Scope) returns (r: Result<Target>)
    requires IsBytes(path)
    ensures r == Resolve(path, scope)
  {
    var value := TrimSpace(path);
    if value == [] {
      return Err(Required);
    }
    TrimmedBytes(path);
    var parsed := ParseReference(value);
    if parsed.Err? {
      return Err(parsed.error);
    }
    var escaped := parsed.value.path;
    var segments := Split(escaped);
    for k := 0 to |segments|
      invariant NoDotWhenDecoded(segments[..k])
    {
      if DecodesToDot(segments[k]) {
        return Err(DotSegment);
      }
      assert segments[..k + 1] == segments[..k] + [segments[k]];
    }
    assert segments[..|segments|] == segments;
    var allowed := Allowed(escaped, Api);
    if scope == Backup {
      allowed := Allowed(escaped, Backup);
    } else if scope == Browser {
      allowed := allowed || Allowed(escaped, Browser);
    }
    if !allowed {
      return Err(OutsideScope);
    }
    return Ok(Target(RemoveDotSegments(escaped), parsed.value.query));
  }

  // ----- Accepted paths keep their segments -----

  lemma {:induction false} UnescapeSplits(a: Bytes, b: Bytes)
    requires b == [] || b[0] == '/'
    ensures Percent.Unescape(a + b).Some? <==> Percent.Unescape(a).Some? && Percent.Unescape(b).Some?
    decreases |a|
  {
    if a == [] {
      assert a + b == b;
    } else {
      assert Percent.UnitLength(a + b) == Percent.UnitLength(a);
      var n := Percent.UnitLength(a);
      if n > 0 {
        assert (a + b)[n..] == a[n..] + b;
        UnescapeSplits(a[n..], b);
      }
    }
  }

  predicate Decodable(segs: seq<Bytes>) {
    forall i | 0 <= i < |segs| :: Percent.Unescape(segs[i]).Some?
  }

  lemma {:induction false} DecodableSegments(segs: seq<Bytes>)
    ensures Percent.Unescape(Flat(segs)).Some? <==> Decodable(segs)
  {
    if segs == [] {
    } else {
      var rest := Flat(segs[1..]);
      assert Flat(segs) == ['/'] + (segs[0] + rest);
      assert Flat(segs)[1..] == segs[0] + rest;
      UnescapeSplits(segs[0], rest);
      DecodableSegments(segs[1..]);
    }
  }

  function Normalised(segs: seq<Bytes>): seq<Bytes> {
    seq(|segs|, i requires 0 <= i < |segs| => Percent.DecodeUnreserved(segs[i]))
  }

  lemma {:induction false} NormalisedFlat(segs: seq<Bytes>)
    requires Decodable(segs)
    ensures Percent.DecodeUnreserved(Flat(segs)) == Flat(Normalised(segs))
  {
    if segs == [] {
    } else {
      var head, rest := segs[0], Flat(segs[1..]);
      assert Flat(segs) == ['/'] + (head + rest);
      NormalisedSlash(head + rest);
      Percent.DecodeUnreservedConcat(head, rest);
      NormalisedFlat(segs[1..]);
      FlatOfNormalised(segs);
    }
  }

  lemma NormalisedSlash(s: Bytes)
    ensures Percent.DecodeUnreserved(['/'] + s) == ['/'] + Percent.DecodeUnreserved(s)
  {
    assert (['/'] + s)[1..] == s;
    assert Percent.DecodedUnit(['/'] + s) == ['/'];
  }

  lemma FlatOfNormalised(segs: seq<Bytes>)
    requires segs != []
    ensures Flat(Normalised(segs)) == ['/'] + (Percent.DecodeUnreserved(segs[0]) + Flat(Normalised(segs[1..])))
  {
    var all := Normalised(segs);
    assert all[1..] == Normalised(segs[1..]);
    assert Flat(all) == ['/'] + all[0] + Flat(all[1..]);
  }

  lemma NormalisedSegments(segs: seq<Bytes>)
    requires Segments(segs)
    ensures Segments(Normalised(segs))
  {
    forall i | 0 <= i < |segs| ensures '/' !in Normalised(segs)[i] {
      Percent.DecodeUnreservedNoSlash(segs[i]);
    }
  }

  /** A segment decodes to a dot segment exactly when a server that normalises triplets for unreserved characters
      would see one. */
  lemma DotWhenNormalised(segment: Bytes)
    requires Percent.Unescape(segment).Some?
    ensures DecodesToDot(segment) <==> IsDot(Percent.DecodeUnreserved(segment))
  {
    var decoded := Percent.Unescape(segment).value;
    Percent.DecodeUnreservedDecodes(segment);
    if IsDot(decoded) {
      Percent.UnreservedTextDecodes(segment);
    } else {
      DotsDecodeToThemselves();
    }
  }

  lemma DotsDecodeToThemselves()
    ensures Percent.Unescape(".") == Some(".")
    ensures Percent.Unescape("..") == Some("..")
  {
    assert "."[1..] == [] && ".."[1..] == ".";
    assert ['.'] + [] == "." && ['.'] + "." == "..";
  }

  /** The path, after the slash it starts with, is the flat form of its segments. */
  lemma RootedSplit(path: Bytes)
    requires path != [] && path[0] == '/'
    ensures Split(path) == [""] + Split(path[1..])
    ensures path == Flat(Split(path[1..]))
  {
    FlatSplit(path[1..]);
    assert path == ['/'] + path[1..];
  }

  lemma AllowedIsRooted(escaped: Bytes, scope: Scope)
    requires Allowed(escaped, scope)
    ensures escaped != [] && escaped[0] == '/'
  {
  }

  lemma ReferenceDecodes(text: Bytes)
    requires IsBytes(text) && Reference(text).Ok?
    ensures Percent.Unescape(Reference(text).value.path).Some?
  {
    TrimmedBytes(text);
    var path := Before(Before(TrimSpace(text), '#'), '?');
    Percent.UnescapedBytes(path);
    Percent.UnescapeEscape(Percent.Unescape(path).value, Percent.PathSafe);
  }

  /** For a rooted path: no segment decodes to a dot segment exactly when the path, normalised as a server may do it,
      is a fixed point of dot-segment removal; and then so is the path itself. */
  lemma NoDotsExactly(path: Bytes)
    requires path != [] && path[0] == '/' && Percent.Unescape(path).Some?
    ensures NoDotWhenDecoded(Split(path))
       <==> RemoveDotSegments(Percent.DecodeUnreserved(path)) == Percent.DecodeUnreserved(path)
    ensures NoDotWhenDecoded(Split(path)) ==> RemoveDotSegments(path) == path
  {
    var segs := Split(path[1..]);
    RootedSplit(path);
    DecodableSegments(segs);
    NormalisedFlat(segs);
    NormalisedSegments(segs);
    FixedExactly(Normalised(segs));
    FixedExactly(segs);
    DotsDecodeToThemselves();
    forall i | 0 <= i < |segs| ensures DecodesToDot(segs[i]) <==> IsDot(Normalised(segs)[i]) {
      DotWhenNormalised(segs[i]);
    }
    SplitNoDots(path, segs);
  }

  lemma SplitNoDots(path: Bytes, segs: seq<Bytes>)
    requires Split(path) == [""] + segs
    ensures NoDotWhenDecoded(Split(path))
       <==> NoDotWhenDecoded(segs)
  {
    assert !DecodesToDot("");
    assert forall i | 0 <= i < |segs| :: Split(path)[i + 1] == segs[i];
  }

  /** Which texts are accepted: those that parse as a reference in the scope whose normalised form dot-segment removal
      leaves alone. What is sent is then the parsed path itself, every segment kept and still in the scope, with the
      query untouched. */
  lemma AcceptedExactly(path: Bytes, scope: Scope)
    requires IsBytes(path)
    ensures Resolve(path, scope).Ok? <==>
              && Reference(path).Ok?
              && var ref := Reference(path).value;
                 Allowed(ref.path, scope)
                 && RemoveDotSegments(Percent.DecodeUnreserved(ref.path)) == Percent.DecodeUnreserved(ref.path)
    ensures Resolve(path, scope).Ok? ==> Resolve(path, scope) == Reference(path)
  {
    if Reference(path).Ok? {
      var ref := Reference(path).value;
      ReferenceDecodes(path);
      if Allowed(ref.path, scope) {
        AllowedIsRooted(ref.path, scope);
        NoDotsExactly(ref.path);
      }
    }
  }
}
