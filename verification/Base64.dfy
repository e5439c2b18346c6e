/** Standard padded base64 (section 4 of RFC 4648) as Go's `base64.StdEncoding` reads and writes it: line breaks are
    skipped anywhere, and the bits a padded final quantum leaves over are not checked. */
module Base64 {
  import opened GoBytes

  datatype Decoded = Ok(data: Bytes) | Corrupt

  const PAD: char := '='

  function Symbol(v: nat): (c: char)
    requires v < 64
    ensures Value(c) == v && c != PAD && !IsNewline(c)
  {
    if v < 26 then 'A' + v as char
    else if v < 52 then 'a' + (v - 26) as char
    else if v < 62 then '0' + (v - 52) as char
    else if v == 62 then '+'
    else '/'
  }

  /** The six bits a symbol stands for, or -1. */
  function Value(c: char): (v: int)
    ensures -1 <= v < 64
  {
    if 'A' <= c <= 'Z' then c as int - 65
    else if 'a' <= c <= 'z' then c as int - 97 + 26
    else if '0' <= c <= '9' then c as int - 48 + 52
    else if c == '+' then 62
    else if c == '/' then 63
    else -1
  }

  predicate IsSymbol(c: char) {
    Value(c) >= 0
  }

  predicate IsNewline(c: char) {
    c == '\n' || c == '\r'
  }

  /** The groups of six bits of one to three bytes, one more than the bytes. */
  function Sextets(d: Bytes): (x: seq<nat>)
    requires IsBytes(d) && 1 <= |d| <= 3
    ensures |x| == |d| + 1 && forall i | 0 <= i < |x| :: x[i] < 64
  {
    var a := d[0] as int;
    if |d| == 1 then [a / 4, a % 4 * 16]
    else
      var b := d[1] as int;
      if |d| == 2 then [a / 4, a % 4 * 16 + b / 16, b % 16 * 4]
      else
        var c := d[2] as int;
        [a / 4, a % 4 * 16 + b / 16, b % 16 * 4 + c / 64, c % 64]
  }

  function Unsextets(x: seq<nat>): Bytes
    requires 2 <= |x| <= 4 && forall i | 0 <= i < |x| :: x[i] < 64
  {
    var first := (x[0] * 4 + x[1] / 16) as char;
    if |x| == 2 then [first]
    else
      var second := (x[1] % 16 * 16 + x[2] / 4) as char;
      if |x| == 3 then [first, second]
      else [first, second, (x[2] % 4 * 64 + x[3]) as char]
  }

  /** Two to four groups as four symbols, padded. */
  function Print(x: seq<nat>): (q: Bytes)
    requires 2 <= |x| <= 4 && forall i | 0 <= i < |x| :: x[i] < 64
    ensures |q| == 4
    ensures forall i | 0 <= i < 4 :: (IsSymbol(q[i]) || q[i] == PAD) && !IsNewline(q[i])
  {
    [Symbol(x[0]), Symbol(x[1]), if |x| > 2 then Symbol(x[2]) else PAD, if |x| > 3 then Symbol(x[3]) else PAD]
  }

  /** The groups four symbols stand for; only the last four of a text may be padded. None when malformed. */
  function Read(q: Bytes, last: bool): (x: seq<nat>)
    requires |q| == 4
    ensures x == [] || (2 <= |x| <= 4 && forall i | 0 <= i < |x| :: x[i] < 64)
    ensures x != [] ==> forall c | c in q :: IsSymbol(c) || c == PAD
  {
    if !IsSymbol(q[0]) || !IsSymbol(q[1]) then []
    else if last && q[2] == PAD && q[3] == PAD then [Value(q[0]), Value(q[1])]
    else if !IsSymbol(q[2]) then []
    else if last && q[3] == PAD then [Value(q[0]), Value(q[1]), Value(q[2])]
    else if !IsSymbol(q[3]) then []
    else [Value(q[0]), Value(q[1]), Value(q[2]), Value(q[3])]
  }

  function Head(data: Bytes): Bytes {
    if |data| < 3 then data else data[..3]
  }

  function Encode(data: Bytes): Bytes
    requires IsBytes(data)
    decreases |data|
  {
    if data == [] then [] else Print(Sextets(Head(data))) + Encode(data[|Head(data)|..])
  }

  function SkipNewlines(s: Bytes): (r: Bytes)
    ensures forall c | c in r :: c in s && !IsNewline(c)
    ensures forall c | c in s && !IsNewline(c) :: c in r
  {
    if s == [] then []
    else if IsNewline(s[0]) then SkipNewlines(s[1..])
    else [s[0]] + SkipNewlines(s[1..])
  }

  /** A text without line breaks. */
  function Quanta(s: Bytes): Decoded
    decreases |s|
  {
    if s == [] then Ok([])
    else if |s| < 4 then Corrupt
    else
      var x := Read(s[..4], |s| == 4);
      if x == [] then Corrupt
      else
        match Quanta(s[4..])
        case Corrupt => Corrupt
        case Ok(rest) => Ok(Unsextets(x) + rest)
  }

  function Decode(s: Bytes): Decoded {
    Quanta(SkipNewlines(s))
  }

  lemma SextetsRoundTrip(d: Bytes)
    requires IsBytes(d) && 1 <= |d| <= 3
    ensures Unsextets(Sextets(d)) == d
  {
    var (a, x) := (d[0] as int, Sextets(d));
    assert x[0] * 4 + x[1] / 16 == a;
    if |d| == 2 {
      assert x[1] % 16 * 16 + x[2] / 4 == d[1] as int;
    } else if |d| == 3 {
      Bits(a, d[1] as int, d[2] as int);
    }
  }

  lemma Bits(a: nat, b: nat, c: nat)
    requires a < 256 && b < 256 && c < 256
    ensures (a % 4 * 16 + b / 16) % 16 * 16 + (b % 16 * 4 + c / 64) / 4 == b
    ensures (b % 16 * 4 + c / 64) % 4 * 64 + c % 64 == c
  {
  }

  lemma PrintRoundTrip(x: seq<nat>, last: bool)
    requires 2 <= |x| <= 4 && forall i | 0 <= i < |x| :: x[i] < 64
    requires last || |x| == 4
    ensures Read(Print(x), last) == x
  {
    var q := Print(x);
    assert Value(q[0]) == x[0] && Value(q[1]) == x[1];
  }

  lemma QuantaStep(q: Bytes, tail: Bytes)
    requires |q| == 4 && Read(q, tail == []) != [] && Quanta(tail).Ok?
    ensures Quanta(q + tail) == Ok(Unsextets(Read(q, tail == [])) + Quanta(tail).data)
  {
    assert (q + tail)[..4] == q && (q + tail)[4..] == tail;
  }

  lemma {:induction false} QuantaOfEncode(data: Bytes)
    requires IsBytes(data)
    ensures Quanta(Encode(data)) == Ok(data)
    decreases |data|
  {
    if data == [] {
    } else {
      var head := Head(data);
      var rest := data[|head|..];
      var q, tail := Print(Sextets(head)), Encode(rest);
      QuantaOfEncode(rest);
      SextetsRoundTrip(head);
      PrintRoundTrip(Sextets(head), tail == []);
      QuantaStep(q, tail);
      assert data == head + rest;
    }
  }

  /** Encoded text, folded at line breaks in any way at all, decodes to the data. */
  lemma RoundTrip(data: Bytes, folded: Bytes)
    requires IsBytes(data) && SkipNewlines(folded) == Encode(data)
    ensures Decode(folded) == Ok(data)
  {
    QuantaOfEncode(data);
  }

  lemma {:induction false} EncodedSymbols(data: Bytes)
    requires IsBytes(data)
    ensures forall c | c in Encode(data) :: (IsSymbol(c) || c == PAD) && !IsNewline(c)
    decreases |data|
  {
    if data == [] {
    } else {
      EncodedSymbols(data[|Head(data)|..]);
    }
  }

  lemma {:induction false} NothingToSkip(s: Bytes)
    requires forall c | c in s :: !IsNewline(c)
    ensures SkipNewlines(s) == s
  {
    if s == [] {
    } else {
      NothingToSkip(s[1..]);
      assert s == [s[0]] + s[1..];
    }
  }

  lemma DecodeEncode(data: Bytes)
    requires IsBytes(data)
    ensures Decode(Encode(data)) == Ok(data)
  {
    EncodedSymbols(data);
    NothingToSkip(Encode(data));
    RoundTrip(data, Encode(data));
  }

  lemma {:induction false} QuantaSymbols(s: Bytes)
    requires Quanta(s).Ok?
    ensures forall c | c in s :: IsSymbol(c) || c == PAD
    decreases |s|
  {
    if s == [] {
    } else {
      QuantaSymbols(s[4..]);
      assert s == s[..4] + s[4..];
    }
  }

  /** Whatever text decodes is made of the alphabet, padding and line breaks alone. */
  lemma DecodableSymbols(s: Bytes)
    requires Decode(s).Ok?
    ensures forall c | c in s :: IsSymbol(c) || c == PAD || IsNewline(c)
  {
    QuantaSymbols(SkipNewlines(s));
  }
}
