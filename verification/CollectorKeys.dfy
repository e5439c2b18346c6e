/** Collector authorization keys: the textual V2 form and the base64 protobuf V3 form (collector_auth_key.go). */
module CollectorKeys {
  import opened GoBytes
  import Varint
  import Base64
  import opened Wrappers

  datatype Key = Key(username: Bytes, password: Bytes, appURL: Bytes)

  datatype Error = Empty | MalformedV2 | NotBase64 | MalformedV3 | FieldType | Truncated | Incomplete

  datatype Result<+T> = Ok(value: T) | Err(error: Error)

  const USERNAME_PREFIX: Bytes := "collector-"
  const COLON: char := ':'
  const NO_KEY: Key := Key([], [], [])

  /** "username:password", the form the Docker collector's TOKEN takes. */
  function Token(k: Key): Bytes {
    k.username + [COLON] + k.password
  }

  // ----- V2: text -----

  /** Where the first colon is, |s| when there is none. */
  function ColonAt(s: Bytes): (i: nat)
    ensures i <= |s| && COLON !in s[..i]
    ensures i < |s| ==> s[i] == COLON
  {
    if s == [] || s[0] == COLON then 0 else 1 + ColonAt(s[1..])
  }

  function ParseV2(key: Bytes): Result<Key> {
    var i := ColonAt(key);
    if i == |key| then Err(MalformedV2)
    else
      var username, password := key[..i], key[i + 1..];
      if username == [] || password == [] || COLON in password then Err(MalformedV2)
      else Ok(Key(username, password, []))
  }

  // ----- V3: records -----

  /** One length-delimited protobuf field. */
  datatype Field = Field(number: nat, value: Bytes)

  /** What a protobuf record can carry: the tag and the length are 64-bit. */
  predicate Encodable(f: Field) {
    f.number * 8 + 2 < Varint.TWO_64 && |f.value| < Varint.TWO_64 && IsBytes(f.value)
  }

  function EncodeField(f: Field): Bytes {
    Varint.Encode(f.number * 8 + 2) + Varint.Encode(|f.value|) + f.value
  }

  function EncodeFields(fs: seq<Field>): Bytes {
    if fs == [] then [] else EncodeField(fs[0]) + EncodeFields(fs[1..])
  }

  predicate AllEncodable(fs: seq<Field>) {
    forall i | 0 <= i < |fs| :: Encodable(fs[i])
  }

  lemma {:induction false} EncodedAreBytes(fs: seq<Field>)
    requires AllEncodable(fs)
    ensures IsBytes(EncodeFields(fs))
  {
    if fs == [] {
    } else {
      EncodedAreBytes(fs[1..]);
      assert IsBytes(EncodeField(fs[0]));
    }
  }

  /** The first field of `raw` and how many bytes it takes. */
  function FirstField(raw: Bytes): (r: Result<(Field, nat)>)
    requires raw != []
    ensures r.Ok? ==> 0 < r.value.1 <= |raw|
  {
    match Varint.Uvarint64(raw)
    case None => Err(MalformedV3)
    case Some((tag, n)) =>
      if tag % 8 != 2 then Err(FieldType)
      else
        match Varint.Uvarint64(raw[n..])
        case None => Err(Truncated)
        case Some((size, m)) =>
          if size > |raw| - n - m then Err(Truncated)
          else Ok((Field(tag / 8, raw[n + m..n + m + size]), n + m + size))
  }

  function ParseFields(raw: Bytes): Result<seq<Field>>
    decreases |raw|
  {
    if raw == [] then Ok([])
    else
      match FirstField(raw)
      case Err(e) => Err(e)
      case Ok((f, n)) =>
        match ParseFields(raw[n..])
        case Err(e) => Err(e)
        case Ok(fs) => Ok([f] + fs)
  }

  /** The key after one more field: 1 is the username, 2 the password, 3 the application server URL. */
  function Assign(k: Key, f: Field): Key {
    match f.number
    case 1 => k.(username := f.value)
    case 2 => k.(password := f.value)
    case 3 => k.(appURL := f.value)
    case _ => k
  }

  function Apply(k: Key, fs: seq<Field>): Key
    decreases |fs|
  {
    if fs == [] then k else Apply(Assign(k, fs[0]), fs[1..])
  }

  function Complete(k: Key): Result<Key> {
    if k.username == [] || k.password == [] then Err(Incomplete) else Ok(k)
  }

  function ParseV3(raw: Bytes): Result<Key> {
    match ParseFields(raw)
    case Err(e) => Err(e)
    case Ok(fs) => Complete(Apply(NO_KEY, fs))
  }

  function ParseKey(text: Bytes): Result<Key> {
    var key := TrimSpace(text);
    if key == [] then Err(Empty)
    else if HasPrefix(key, USERNAME_PREFIX) then ParseV2(key)
    else
      match Base64.Decode(key)
      case Corrupt => Err(NotBase64)
      case Ok(raw) => ParseV3(raw)
  }

  // ----- The parser as written: one loop over the remaining bytes -----

  /** What the rest of the loop makes of the key assigned so far. */
  function Remaining(k: Key, raw: Bytes): Result<Key> {
    match ParseFields(raw)
    case Err(e) => Err(e)
    case Ok(fs) => Complete(Apply(k, fs))
  }

  lemma RemainingStep(k: Key, raw: Bytes)
    requires raw != []
    ensures match FirstField(raw)
            case Err(e) => Remaining(k, raw) == Err(e)
            case Ok((f, n)) => Remaining(k, raw) == Remaining(Assign(k, f), raw[n..])
  {
    if FirstField(raw).Ok? {
      var (f, n) := FirstField(raw).value;
      var tail := ParseFields(raw[n..]);
      if tail.Ok? {
        assert ParseFields(raw) == Ok([f] + tail.value);
        assert ([f] + tail.value)[1..] == tail.value;
      }
    }
  }

  /** The slices the loop takes are the field and the rest, and within bounds. */
  lemma FieldRead(raw: Bytes, tag: nat, n: nat, size: nat, m: nat)
    requires Varint.Uvarint64(raw) == Some((tag, n)) && tag % 8 == 2
    requires Varint.Uvarint64(raw[n..]) == Some((size, m)) && size <= |raw| - n - m
    ensures FirstField(raw) == Ok((Field(tag / 8, raw[n..][m..m + size]), n + m + size))
    ensures raw[n..][m + size..] == raw[n + m + size..]
  {
    SliceOfRest(raw, n, m, m + size);
    SliceOfRest(raw, n, m + size, |raw| - n);
  }

  lemma SliceOfRest(raw: Bytes, n: nat, i: nat, j: nat)
    requires i <= j <= |raw| - n && n <= |raw|
    ensures raw[n..][i..j] == raw[n + i..n + j]
  {
    forall k | 0 <= k < j - i ensures raw[n..][i..j][k] == raw[n + i..n + j][k] {
      assert raw[n..][i + k] == raw[n + i + k];
    }
  }

  method ParseCollectorAuthKey(text: Bytes) returns (r: Result<Key>)
    ensures r == ParseKey(text)
  {
    var key := TrimSpace(text);
    if key == [] {
      return Err(Empty);
    }
    if HasPrefix(key, USERNAME_PREFIX) {
      return ParseV2(key);
    }
    var decoded := Base64.Decode(key);
    if decoded.Corrupt? {
      return Err(NotBase64);
    }
    r := ParseRecords(decoded.data);
  }

  /** One round of the loop: the tag, the size and the value, and how many bytes they take. */
  method ReadField(raw: Bytes) returns (r: Result<(Field, nat)>)
    requires raw != []
    ensures r == FirstField(raw)
  {
    var tag, n := Varint.Uvarint(raw);
    if n <= 0 {
      return Err(MalformedV3);
    }
    if tag % 8 != 2 {
      return Err(FieldType);
    }
    r := ReadValue(raw, tag, n);
  }

  method ReadValue(raw: Bytes, tag: nat, n: nat) returns (r: Result<(Field, nat)>)
    requires Varint.Uvarint64(raw) == Some((tag, n)) && tag % 8 == 2
    ensures r == FirstField(raw)
  {
    var rest := raw[n..];
    var size, m := Varint.Uvarint(rest);
    if m <= 0 || size > |rest| - m {
      return Err(Truncated);
    }
    FieldRead(raw, tag, n, size, m);
    return Ok((Field(tag / 8, rest[m..m + size]), n + m + size));
  }

  /** The loop over the decoded bytes. */
  method ParseRecords(data: Bytes) returns (r: Result<Key>)
    ensures r == ParseV3(data)
  {
    var raw, out := data, NO_KEY;
    ghost var result := ParseV3(data);
    while |raw| > 0
      invariant result == Remaining(out, raw)
      decreases |raw|
    {
      RemainingStep(out, raw);
      var read := ReadField(raw);
      if read.Err? {
        return Err(read.error);
      }
      var (field, n) := read.value;
      out := Assign(out, field);
      raw := raw[n..];
    }
    return Complete(out);
  }

  // ----- Records: round trip, concatenation, last occurrence wins -----

  lemma FirstOfEncoded(f: Field, rest: Bytes)
    requires Encodable(f)
    ensures EncodeField(f) + rest != []
    ensures FirstField(EncodeField(f) + rest) == Ok((f, |EncodeField(f)|))
  {
    var tag, size := Varint.Encode(f.number * 8 + 2), Varint.Encode(|f.value|);
    var raw := EncodeField(f) + rest;
    assert raw == tag + (size + (f.value + rest));
    Varint.RoundTrip(f.number * 8 + 2, size + (f.value + rest));
    assert raw[|tag|..] == size + (f.value + rest);
    Varint.RoundTrip(|f.value|, f.value + rest);
    assert raw[|tag| + |size|..|tag| + |size| + |f.value|] == f.value;
  }

  function Prepend(fs: seq<Field>, r: Result<seq<Field>>): Result<seq<Field>> {
    match r
    case Err(e) => Err(e)
    case Ok(tail) => Ok(fs + tail)
  }

  lemma PrependTwice(f: seq<Field>, g: seq<Field>, r: Result<seq<Field>>)
    ensures Prepend(f, Prepend(g, r)) == Prepend(f + g, r)
  {
    assert r.Ok? ==> f + (g + r.value) == (f + g) + r.value;
  }

  lemma ParseStep(raw: Bytes, f: Field, n: nat)
    requires raw != [] && FirstField(raw) == Ok((f, n))
    ensures ParseFields(raw) == Prepend([f], ParseFields(raw[n..]))
  {
  }

  lemma EncodedStep(f: Field, rest: Bytes)
    requires Encodable(f)
    ensures ParseFields(EncodeField(f) + rest) == Prepend([f], ParseFields(rest))
  {
    var raw, n := EncodeField(f) + rest, |EncodeField(f)|;
    FirstOfEncoded(f, rest);
    assert raw[n..] == rest;
    ParseStep(raw, f, n);
  }

  /** Every list of fields, known or not and in any order, is read back exactly from its encoding. */
  lemma {:induction false} FieldsRoundTrip(fs: seq<Field>)
    requires AllEncodable(fs)
    ensures ParseFields(EncodeFields(fs)) == Ok(fs)
  {
    if fs == [] {
    } else {
      FieldsRoundTrip(fs[1..]);
      EncodedStep(fs[0], EncodeFields(fs[1..]));
      assert fs == [fs[0]] + fs[1..];
    }
  }

  lemma FirstFieldIgnoresRest(a: Bytes, b: Bytes)
    requires a != [] && FirstField(a).Ok?
    ensures FirstField(a + b) == FirstField(a)
  {
    var (tag, n) := Varint.Uvarint64(a).value;
    Varint.DecodeIgnoresRest(a, b, Varint.MAX_VARINT_LEN_64);
    assert (a + b)[n..] == a[n..] + b;
    Varint.DecodeIgnoresRest(a[n..], b, Varint.MAX_VARINT_LEN_64);
    var (size, m) := Varint.Uvarint64(a[n..]).value;
    assert (a + b)[n + m..n + m + size] == a[n + m..n + m + size];
  }

  lemma {:induction false} ApplyConcat(k: Key, a: seq<Field>, b: seq<Field>)
    ensures Apply(k, a + b) == Apply(Apply(k, a), b)
    decreases |a|
  {
    if a == [] {
      assert a + b == b;
    } else {
      assert (a + b)[1..] == a[1..] + b;
      ApplyConcat(Assign(k, a[0]), a[1..], b);
    }
  }

  lemma ParseConcatStep(a: Bytes, b: Bytes, f: Field, n: nat)
    requires a != [] && FirstField(a) == Ok((f, n))
    ensures ParseFields(a + b) == Prepend([f], ParseFields(a[n..] + b))
  {
    FirstFieldIgnoresRest(a, b);
    assert (a + b)[n..] == a[n..] + b;
    ParseStep(a + b, f, n);
  }

  /** Decoding is compositional: after valid records `a`, the records of `b` are read, or fail, as if they stood
      alone. */
  lemma {:induction false} ParseConcat(a: Bytes, b: Bytes)
    requires ParseFields(a).Ok?
    ensures ParseFields(a + b) == Prepend(ParseFields(a).value, ParseFields(b))
    decreases |a|
  {
    if a == [] {
      assert a + b == b;
      assert ParseFields(b).Ok? ==> [] + ParseFields(b).value == ParseFields(b).value;
    } else {
      var (f, n) := FirstField(a).value;
      ParseStep(a, f, n);
      ParseConcat(a[n..], b);
      ParseConcatStep(a, b, f, n);
      PrependTwice([f], ParseFields(a[n..]).value, ParseFields(b));
    }
  }

  /** The key of two concatenated records is the key of the first overridden by the second. */
  lemma SecondRecordOverrides(a: Bytes, b: Bytes)
    requires ParseFields(a).Ok? && ParseFields(b).Ok?
    ensures ParseV3(a + b) == Complete(Apply(Apply(NO_KEY, ParseFields(a).value), ParseFields(b).value))
  {
    ParseConcat(a, b);
    ApplyConcat(NO_KEY, ParseFields(a).value, ParseFields(b).value);
  }

  /** The value of the last field with this number, `otherwise` when there is none. */
  function LastValue(fs: seq<Field>, number: nat, otherwise: Bytes): Bytes {
    if fs == [] then otherwise
    else if fs[|fs| - 1].number == number then fs[|fs| - 1].value
    else LastValue(fs[..|fs| - 1], number, otherwise)
  }

  lemma {:induction false} LastWins(k: Key, fs: seq<Field>)
    ensures Apply(k, fs)
         == Key(LastValue(fs, 1, k.username), LastValue(fs, 2, k.password), LastValue(fs, 3, k.appURL))
  {
    if fs == [] {
    } else {
      var front, last := fs[..|fs| - 1], fs[|fs| - 1];
      LastWins(k, front);
      assert fs == front + [last];
      ApplyConcat(k, front, [last]);
      assert Apply(Apply(k, front), [last]) == Assign(Apply(k, front), last);
    }
  }

  // ----- Whole keys -----

  /** The two formats never collide: no text with the V2 prefix is base64. */
  lemma PrefixIsNotBase64(key: Bytes)
    requires HasPrefix(key, USERNAME_PREFIX)
    ensures Base64.Decode(key) == Base64.Corrupt
  {
    var dash := '-';
    assert key[9] == USERNAME_PREFIX[9] == dash;
    assert dash in key;
    if Base64.Decode(key).Ok? {
      Base64.DecodableSymbols(key);
    }
  }

  lemma SymbolIsNotSpace(c: char)
    requires Base64.IsSymbol(c) || c == Base64.PAD
    ensures c as int < 128 && !Space1(c)
  {
  }

  lemma EncodedIsTrimmed(raw: Bytes)
    requires IsBytes(raw)
    ensures TrimSpace(Base64.Encode(raw)) == Base64.Encode(raw)
  {
    var s := Base64.Encode(raw);
    Base64.EncodedSymbols(raw);
    forall c | c in s ensures c as int < 128 && !Space1(c) {
      SymbolIsNotSpace(c);
    }
    NoSpaceToTrim(s);
  }

  /** V3 round trip. A text that is, up to surrounding white space and line breaks, the base64 of any encoded fields
      yields the last username, password and URL among them, and is refused exactly when a username or password is
      missing or empty. */
  lemma V3RoundTrip(fs: seq<Field>, text: Bytes)
    requires AllEncodable(fs)
    requires IsBytes(EncodeFields(fs))
    requires Base64.SkipNewlines(TrimSpace(text)) == Base64.Encode(EncodeFields(fs))
    ensures var username, password := LastValue(fs, 1, []), LastValue(fs, 2, []);
            if username != [] && password != []
            then ParseKey(text) == Ok(Key(username, password, LastValue(fs, 3, [])))
            else ParseKey(text).Err?
  {
    var key := TrimSpace(text);
    Base64.RoundTrip(EncodeFields(fs), key);
    FieldsRoundTrip(fs);
    LastWins(NO_KEY, fs);
    if HasPrefix(key, USERNAME_PREFIX) {
      PrefixIsNotBase64(key);
      assert false;
    }
  }

  /** Nothing else is accepted: a key without the V2 prefix that parses is the base64 of records whose last username,
      password and URL are the result. */
  lemma V3Accepted(text: Bytes)
    ensures ParseKey(text).Ok? && !HasPrefix(TrimSpace(text), USERNAME_PREFIX) ==>
              IsV3Of(TrimSpace(text), ParseKey(text).value)
  {
    if ParseKey(text).Ok? && !HasPrefix(TrimSpace(text), USERNAME_PREFIX) {
      LastWins(NO_KEY, ParseFields(Base64.Decode(TrimSpace(text)).data).value);
    }
  }

  /** `key` is the base64 of records with these last values, of which the first two are not empty. */
  predicate IsV3Of(key: Bytes, k: Key) {
    && Base64.Decode(key).Ok?
    && var parsed := ParseFields(Base64.Decode(key).data);
       parsed.Ok?
       && k == Key(LastValue(parsed.value, 1, []), LastValue(parsed.value, 2, []), LastValue(parsed.value, 3, []))
       && k.username != [] && k.password != []
  }

  /** The text of a V3 key for these fields. */
  function PrintV3(fs: seq<Field>): Bytes
    requires AllEncodable(fs)
  {
    EncodedAreBytes(fs);
    Base64.Encode(EncodeFields(fs))
  }

  /** As printed, without any folding: every list of fields comes back. */
  lemma V3PrintedRoundTrip(fs: seq<Field>)
    requires AllEncodable(fs)
    requires LastValue(fs, 1, []) != [] && LastValue(fs, 2, []) != []
    ensures ParseKey(PrintV3(fs)) == Ok(Key(LastValue(fs, 1, []), LastValue(fs, 2, []), LastValue(fs, 3, [])))
  {
    EncodedAreBytes(fs);
    EncodedIsTrimmed(EncodeFields(fs));
    Base64.EncodedSymbols(EncodeFields(fs));
    Base64.NothingToSkip(PrintV3(fs));
    V3RoundTrip(fs, PrintV3(fs));
  }

  /** The appserver's own three fields: every non-empty username and password, of any bytes, come back with the URL. */
  lemma V3StandardRoundTrip(k: Key)
    requires k.username != [] && k.password != []
    requires Encodable(Field(1, k.username)) && Encodable(Field(2, k.password)) && Encodable(Field(3, k.appURL))
    ensures ParseKey(PrintV3([Field(1, k.username), Field(2, k.password), Field(3, k.appURL)])) == Ok(k)
  {
    var fs := [Field(1, k.username), Field(2, k.password), Field(3, k.appURL)];
    assert fs[..2] == [fs[0], fs[1]] && fs[..2][..1] == [fs[0]];
    assert LastValue(fs, 3, []) == k.appURL;
    assert LastValue(fs, 2, []) == LastValue(fs[..2], 2, []) == k.password;
    assert LastValue(fs, 1, []) == LastValue(fs[..2], 1, []) == LastValue([fs[0]], 1, []) == k.username;
    V3PrintedRoundTrip(fs);
  }

  lemma {:induction false} ColonAtFirst(u: Bytes, rest: Bytes)
    requires COLON !in u
    ensures ColonAt(u + [COLON] + rest) == |u|
  {
    var s := u + [COLON] + rest;
    if u == [] {
    } else {
      assert s[0] == u[0];
      assert s[1..] == u[1..] + [COLON] + rest;
      ColonAtFirst(u[1..], rest);
    }
  }

  /** A V2 key that parses prints back as the text it was read from, without its surrounding white space. */
  lemma V2PrintsBack(text: Bytes)
    requires HasPrefix(TrimSpace(text), USERNAME_PREFIX) && ParseKey(text).Ok?
    ensures Token(ParseKey(text).value) == TrimSpace(text)
    ensures ParseKey(text).value.appURL == []
  {
    var key := TrimSpace(text);
    var i := ColonAt(key);
    assert key == key[..i] + [key[i]] + key[i + 1..];
  }

  lemma TokenEnds(u: Bytes, p: Bytes)
    requires HasPrefix(u, USERNAME_PREFIX)
    ensures var t := u + [COLON] + p;
            && SpaceAtStart(t) == 0
            && SpaceAtEnd(t) == SpaceAtEnd(p)
  {
    var t := u + [COLON] + p;
    assert t[0] == u[0] == USERNAME_PREFIX[0] == 'c';
    assert t[|u|] == COLON;
    assert forall i | 0 <= i < |p| :: t[|u| + 1 + i] == p[i];
  }

  lemma V2PrintedRoundTrip(u: Bytes, p: Bytes)
    requires HasPrefix(u, USERNAME_PREFIX) && COLON !in u && COLON !in p && p != [] && SpaceAtEnd(p) == 0
    ensures ParseKey(Token(Key(u, p, []))) == Ok(Key(u, p, []))
  {
    var t := Token(Key(u, p, []));
    TokenEnds(u, p);
    TrimSpaceFixed(t);
    assert t[..|USERNAME_PREFIX|] == u[..|USERNAME_PREFIX|];
    assert HasPrefix(t, USERNAME_PREFIX);
    ColonAtFirst(u, p);
    assert t[..|u|] == u && t[|u| + 1..] == p;
  }

  lemma {:induction false} TrimRightKeepsColon(t: Bytes)
    requires COLON in t
    ensures COLON in TrimRight(t)
    decreases |t|
  {
    var n := SpaceAtEnd(t);
    if n == 0 {
    } else {
      assert forall i | |t| - n <= i < |t| :: t[i] != COLON;
      assert t == t[..|t| - n] + t[|t| - n..];
      TrimRightKeepsColon(t[..|t| - n]);
    }
  }

  lemma {:induction false} TrimLeftKeepsColon(t: Bytes)
    requires COLON in t
    ensures COLON in TrimLeft(t)
    decreases |t|
  {
    var n := SpaceAtStart(t);
    if n == 0 {
    } else {
      assert forall i | 0 <= i < n :: t[i] != COLON;
      assert t == t[..n] + t[n..];
      TrimLeftKeepsColon(t[n..]);
    }
  }

  /** A text with a colon is no base64, so it parses as a V2 key or not at all. */
  lemma ColonIsV2(t: Bytes)
    requires COLON in t && ParseKey(t).Ok?
    ensures HasPrefix(TrimSpace(t), USERNAME_PREFIX)
  {
    TrimLeftKeepsColon(t);
    TrimRightKeepsColon(TrimLeft(t));
    if !HasPrefix(TrimSpace(t), USERNAME_PREFIX) {
      Base64.DecodableSymbols(TrimSpace(t));
    }
  }

  lemma PrefixBeforeColon(t: Bytes, i: nat)
    requires HasPrefix(t, USERNAME_PREFIX) && i < |t| && t[i] == COLON
    ensures HasPrefix(t[..i], USERNAME_PREFIX)
  {
    assert forall k | 0 <= k < |USERNAME_PREFIX| :: t[k] == USERNAME_PREFIX[k] != COLON;
    assert t[..i][..|USERNAME_PREFIX|] == t[..|USERNAME_PREFIX|];
  }

  /** A pair that comes back has the prefix, no other colon, and a password with an end that trimming keeps. */
  lemma V2ComesBack(u: Bytes, p: Bytes)
    ensures ParseKey(Token(Key(u, p, []))) == Ok(Key(u, p, [])) ==> V2Pair(u, p)
  {
    var t := Token(Key(u, p, []));
    if ParseKey(t) == Ok(Key(u, p, [])) {
      assert t[|u|] == COLON;
      ColonIsV2(t);
      V2PrintsBack(t);
      TrimSpaceFixed(t);
      PrefixBeforeColon(t, |u|);
      assert t[..|u|] == u;
      TokenEnds(u, p);
    }
  }

  predicate V2Pair(u: Bytes, p: Bytes) {
    HasPrefix(u, USERNAME_PREFIX) && COLON !in u && COLON !in p && p != [] && SpaceAtEnd(p) == 0
  }

  /** For which usernames and passwords printing a V2 key and parsing it returns the same pair: exactly those where the
      username has the prefix, neither holds a colon, the password is not empty, and it does not end in white space. */
  lemma V2RoundTripExactly(u: Bytes, p: Bytes)
    ensures ParseKey(Token(Key(u, p, []))) == Ok(Key(u, p, []))
       <==> HasPrefix(u, USERNAME_PREFIX) && COLON !in u && COLON !in p && p != [] && SpaceAtEnd(p) == 0
  {
    V2ComesBack(u, p);
    if V2Pair(u, p) {
      V2PrintedRoundTrip(u, p);
    }
  }

  /** A password whose last blank is lost. */
  lemma V2LosesBlank()
    ensures var k := Key("collector-a", "p ", []); ParseKey(Token(k)) != Ok(k)
  {
    var u, p := "collector-a", "p ";
    assert u[..10] == USERNAME_PREFIX;
    assert p[1] == ' ' && SpaceAtEnd(p) == 1;
    V2RoundTripExactly(u, p);
  }
}
