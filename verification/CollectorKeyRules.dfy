/** Collector keys byte by byte: what each form is made of, and what each error means (collector_auth_key.go). */
module CollectorKeyRules {
  import opened GoBytes
  import opened CollectorKeys
  import Base64
  import Varint
  import VarintValue
  import opened Wrappers

  /** A text that begins "collector-" holds a key exactly when one colon stands in it, with something on both sides. */
  lemma V2Exactly(text: Bytes, k: Key)
    requires "collector-" <= TrimSpace(text)
    ensures ParseKey(text) == Ok(k) <==>
              && TrimSpace(text) == k.username + ":" + k.password && k.appURL == ""
              && ':' !in k.username && ':' !in k.password && |k.username| > 0 && |k.password| > 0
    ensures ParseKey(text).Err? ==> ParseKey(text).error == MalformedV2
  {
    var key := TrimSpace(text);
    assert HasPrefix(key, USERNAME_PREFIX);
    assert key != [] by { assert "collector-"[0] == key[0]; }
    SplitsAtColon(key, k);
  }

  lemma SplitsAtColon(key: Bytes, k: Key)
    ensures ParseV2(key) == Ok(k) <==>
              && key == k.username + ":" + k.password && k.appURL == ""
              && ':' !in k.username && ':' !in k.password && |k.username| > 0 && |k.password| > 0
  {
    var i := ColonAt(key);
    if ParseV2(key) == Ok(k) {
      assert key == key[..i] + [key[i]] + key[i + 1..];
    }
    if key == k.username + ":" + k.password && ':' !in k.username {
      ColonAtFirst(k.username, k.password);
      assert key[..|k.username|] == k.username && key[|k.username| + 1..] == k.password;
    }
  }

  /** The bytes of a short field: its number above the three bits of the wire type 2, its length, its value. The three
      fields of a key begin with 0x0A, 0x12 and 0x1A. */
  lemma FieldBytes(number: nat, value: Bytes, rest: Bytes)
    requires number < 16 && |value| < 128
    ensures FirstField([(8 * number + 2) as char, |value| as char] + value + rest) ==
              Ok((Field(number, value), 2 + |value|))
    ensures FirstField([0x0A as char, |value| as char] + value + rest) == Ok((Field(1, value), 2 + |value|))
    ensures FirstField([0x12 as char, |value| as char] + value + rest) == Ok((Field(2, value), 2 + |value|))
    ensures FirstField([0x1A as char, |value| as char] + value + rest) == Ok((Field(3, value), 2 + |value|))
  {
    ShortField(number, value, rest);
    ShortField(1, value, rest);
    ShortField(2, value, rest);
    ShortField(3, value, rest);
  }

  lemma ShortField(number: nat, value: Bytes, rest: Bytes)
    requires number < 16 && |value| < 128
    ensures FirstField([(8 * number + 2) as char, |value| as char] + value + rest) ==
              Ok((Field(number, value), 2 + |value|))
  {
    var raw := [(8 * number + 2) as char, |value| as char] + value + rest;
    VarintValue.OneByte(raw);
    VarintValue.OneByte(raw[1..]);
    assert raw[2..2 + |value|] == value;
  }

  /** Why a field cannot be read: no tag, a tag of another wire type, or no length or fewer bytes than it says. */
  lemma FieldErrors(raw: Bytes)
    requires raw != []
    ensures var (tag, r) := (Varint.Uvarint64(raw), FirstField(raw));
            && (r == Err(MalformedV3) <==> tag.None?)
            && (r == Err(FieldType) <==> tag.Some? && tag.value.0 % 8 != 2)
            && (r == Err(Truncated) <==>
                  && tag.Some? && tag.value.0 % 8 == 2
                  && (Varint.Uvarint64(raw[tag.value.1..]).None? ||
                      var size := Varint.Uvarint64(raw[tag.value.1..]).value;
                      tag.value.1 + size.1 + size.0 > |raw|))
            && (r.Err? ==> r.error in {MalformedV3, FieldType, Truncated})
  {
  }

  /** Which error any other text gets: blank, not base64, the error of its first bad field, or a missing part. */
  lemma KeyErrors(text: Bytes)
    ensures var (key, r) := (TrimSpace(text), ParseKey(text));
            && (r == Err(Empty) <==> key == "")
            && (r == Err(MalformedV2) ==> "collector-" <= key)
            && (r == Err(NotBase64) <==> key != "" && !("collector-" <= key) && Base64.Decode(key).Corrupt?)
            && (key != "" && !("collector-" <= key) && Base64.Decode(key).Ok? ==>
                  match ParseFields(Base64.Decode(key).data)
                  case Err(e) => r == Err(e)
                  case Ok(fs) =>
                    (r == Err(Incomplete) <==> LastValue(fs, 1, []) == [] || LastValue(fs, 2, []) == []))
  {
    var key := TrimSpace(text);
    assert HasPrefix(key, USERNAME_PREFIX) <==> "collector-" <= key;
    if key != "" && !("collector-" <= key) && Base64.Decode(key).Ok? {
      var fields := ParseFields(Base64.Decode(key).data);
      if fields.Ok? {
        LastWins(NO_KEY, fields.value);
      } else {
        FieldListErrors(Base64.Decode(key).data);
      }
    }
  }

  lemma {:induction false} FieldListErrors(raw: Bytes)
    requires ParseFields(raw).Err?
    ensures ParseFields(raw).error in {MalformedV3, FieldType, Truncated}
    decreases |raw|
  {
    FieldErrors(raw);
    if FirstField(raw).Ok? {
      FieldListErrors(raw[FirstField(raw).value.1..]);
    }
  }

  // ----- An ordinary key -----

  lemma Quantum(q: Bytes, s: Bytes, d: Bytes, rest: Bytes)
    requires |q| == 4 && Base64.Read(q, s == "") != [] && Base64.Unsextets(Base64.Read(q, s == "")) == d
    requires Base64.Quanta(s) == Base64.Ok(rest)
    ensures Base64.Quanta(q + s) == Base64.Ok(d + rest)
  {
    assert (q + s)[..4] == q && (q + s)[4..] == s;
  }

  const START: Bytes := [0x0A as char, 12 as char, 'c']
  const MIDDLE: Bytes := ['a', 'b', 0x12 as char]
  const END: Bytes := [2 as char, 'p', 'w']

  predicate Quantum4(q: Bytes, last: bool, d: Bytes) {
    |q| == 4 && Base64.Read(q, last) != [] && Base64.Unsextets(Base64.Read(q, last)) == d
  }

  lemma FirstQuanta()
    ensures Quantum4("Cgxj", false, START) && Quantum4("b2xs", false, "oll") && Quantum4("ZWN0", false, "ect")
  {
  }

  lemma LastQuanta()
    ensures Quantum4("b3It", false, "or-") && Quantum4("YWIS", false, MIDDLE) && Quantum4("AnB3", true, END)
  {
  }

  lemma SixQuanta(a: Bytes, b: Bytes, c: Bytes, d: Bytes, e: Bytes, f: Bytes, u: Bytes, v: Bytes, w: Bytes, x: Bytes,
          y: Bytes, z: Bytes)
    requires Quantum4(a, false, u) && Quantum4(b, false, v) && Quantum4(c, false, w)
    requires Quantum4(d, false, x) && Quantum4(e, false, y) && Quantum4(f, true, z)
    ensures Base64.Quanta(a + (b + (c + (d + (e + f))))) == Base64.Ok(u + (v + (w + (x + (y + z)))))
  {
    Quantum(f, "", z, []);
    assert f + "" == f && z + [] == z;
    Quantum(e, f, y, z);
    Quantum(d, e + f, x, y + z);
    Quantum(c, d + (e + f), w, x + (y + z));
    Quantum(b, c + (d + (e + f)), v, w + (x + (y + z)));
    Quantum(a, b + (c + (d + (e + f))), u, v + (w + (x + (y + z))));
  }

  lemma KeyText()
    ensures "Cgxj" + ("b2xs" + ("ZWN0" + ("b3It" + ("YWIS" + "AnB3")))) == "Cgxjb2xsZWN0b3ItYWISAnB3"
  {
  }

  lemma KeyData()
    ensures START + ("oll" + ("ect" + ("or-" + (MIDDLE + END)))) ==
              [0x0A as char, 12 as char] + "collector-ab" + ([0x12 as char, 2 as char] + "pw")
  {
  }

  /** Two short fields, as the appserver writes them. */
  lemma TwoRecords(u: Bytes, p: Bytes)
    requires 0 < |u| < 128 && 0 < |p| < 128
    ensures ParseV3([0x0A as char, |u| as char] + u + ([0x12 as char, |p| as char] + p)) == Ok(Key(u, p, ""))
  {
    LastRecord(p);
    FirstRecord(u, [0x12 as char, |p| as char] + p, [Field(2, p)]);
    TwoFields(u, p);
  }

  lemma FirstRecord(u: Bytes, tail: Bytes, fs: seq<Field>)
    requires |u| < 128 && ParseFields(tail) == Ok(fs)
    ensures ParseFields([0x0A as char, |u| as char] + u + tail) == Ok([Field(1, u)] + fs)
  {
    FieldBytes(1, u, tail);
    var data := [0x0A as char, |u| as char] + u + tail;
    assert data[2 + |u|..] == tail;
    ParseStep(data, Field(1, u), 2 + |u|);
  }

  lemma TwoFields(u: Bytes, p: Bytes)
    ensures Apply(NO_KEY, [Field(1, u)] + [Field(2, p)]) == Key(u, p, [])
  {
    var (fs, half) := ([Field(1, u)] + [Field(2, p)], Key(u, [], []));
    assert fs[1..] == [Field(2, p)] && fs[1..][1..] == [];
    assert Apply(half, fs[1..]) == Apply(Assign(half, Field(2, p)), []) == Key(u, p, []);
  }

  lemma LastRecord(p: Bytes)
    requires |p| < 128
    ensures ParseFields([0x12 as char, |p| as char] + p) == Ok([Field(2, p)])
  {
    var tail := [0x12 as char, |p| as char] + p;
    FieldBytes(2, p, "");
    assert tail + "" == tail;
    ParseStep(tail, Field(2, p), 2 + |p|);
    assert tail[2 + |p|..] == [] && ParseFields([]) == Ok([]);
    assert [Field(2, p)] + [] == [Field(2, p)];
  }

  lemma PlainKey(text: Bytes, data: Bytes)
    requires text != "" && text[0] != 'c' && forall c | c in text :: Base64.IsSymbol(c)
    requires Base64.Quanta(text) == Base64.Ok(data)
    ensures ParseKey(text) == ParseV3(data)
  {
    forall c | c in text ensures c as int < 128 && !Space1(c) && !Base64.IsNewline(c) {
      SymbolIsNotSpace(c);
    }
    NoSpaceToTrim(text);
    Base64.NothingToSkip(text);
    assert USERNAME_PREFIX[0] == 'c';
  }

  lemma KeySymbols()
    ensures forall c | c in "Cgxjb2xsZWN0b3ItYWISAnB3" :: Base64.IsSymbol(c)
  {
  }

  /** A key as the appserver prints it. */
  lemma OrdinaryKey()
    ensures ParseKey("Cgxjb2xsZWN0b3ItYWISAnB3") == Ok(Key("collector-ab", "pw", ""))
  {
    QuantaOfKey();
    KeySymbols();
    TwoRecords("collector-ab", "pw");
    PlainKey("Cgxjb2xsZWN0b3ItYWISAnB3", DATA);
  }

  const DATA: Bytes := [0x0A as char, 12 as char] + "collector-ab" + ([0x12 as char, 2 as char] + "pw")

  lemma QuantaOfKey()
    ensures Base64.Quanta("Cgxjb2xsZWN0b3ItYWISAnB3") == Base64.Ok(DATA)
  {
    FirstQuanta();
    LastQuanta();
    SixQuanta("Cgxj", "b2xs", "ZWN0", "b3It", "YWIS", "AnB3", START, "oll", "ect", "or-", MIDDLE, END);
    KeyText();
    KeyData();
  }
}
