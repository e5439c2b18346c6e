/** Base64 by the places of its symbols in the alphabet of section 4 of RFC 4648: what every text decodes to, said with
    that alphabet alone. */
module Base64Alphabet {
  import opened GoBytes
  import opened Base64
  import opened Letters

  const ALPHABET: string := UPPER + LOWER + DIGITS + "+/"

  function InAlphabet(c: char): int {
    Place(c, ALPHABET)
  }

  /** The upper 8 of 12 bits. */
  predicate Bits12(a: int, b: int, d: Bytes) {
    |d| == 1 && d[0] as int == (a * 64 + b) / 16
  }

  /** The upper 16 of 18 bits. */
  predicate Bits18(a: int, b: int, c: int, d: Bytes) {
    |d| == 2 && IsBytes(d) && d[0] as int * 256 + d[1] as int == (a * 4096 + b * 64 + c) / 4
  }

  predicate Bits24(a: int, b: int, c: int, e: int, d: Bytes) {
    && |d| == 3 && IsBytes(d)
    && d[0] as int * 65536 + d[1] as int * 256 + d[2] as int == a * 262144 + b * 4096 + c * 64 + e
  }

  /** Two symbols and two pads. */
  predicate OneByte(q: Bytes, d: Bytes, place: char -> int)
    requires |q| == 4
  {
    place(q[0]) >= 0 && place(q[1]) >= 0 && q[2] == '=' && q[3] == '=' && Bits12(place(q[0]), place(q[1]), d)
  }

  /** Three symbols and a pad. */
  predicate TwoBytes(q: Bytes, d: Bytes, place: char -> int)
    requires |q| == 4
  {
    && place(q[0]) >= 0 && place(q[1]) >= 0 && place(q[2]) >= 0 && q[3] == '='
    && Bits18(place(q[0]), place(q[1]), place(q[2]), d)
  }

  /** Four symbols. */
  predicate ThreeBytes(q: Bytes, d: Bytes, place: char -> int)
    requires |q| == 4
  {
    && place(q[0]) >= 0 && place(q[1]) >= 0 && place(q[2]) >= 0 && place(q[3]) >= 0
    && Bits24(place(q[0]), place(q[1]), place(q[2]), place(q[3]), d)
  }

  /** `t` is the base64 of `d`, four symbols at a time; only the last four may be padded. */
  predicate Spells(t: Bytes, d: Bytes, place: char -> int)
    decreases |t|
  {
    if |t| < 4 then t == [] && d == []
    else
      || (|t| == 4 && (OneByte(t, d, place) || TwoBytes(t, d, place)))
      || (|d| >= 3 && ThreeBytes(t[..4], d[..3], place) && Spells(t[4..], d[3..], place))
  }

  // ----- The places are the values -----

  lemma AlphabetAt(i: nat)
    requires i < 64
    ensures |ALPHABET| == 64 && Value(ALPHABET[i]) == i
  {
    if i < 26 {
      UpperAt(i);
    } else if i < 52 {
      LowerAt(i - 26);
    } else if i < 62 {
      DigitAt(i - 52);
    }
  }

  lemma ValueIsPlace(c: char)
    ensures Value(c) == Place(c, ALPHABET)
    ensures Value(c) >= 0 <==> c in ALPHABET
  {
    var p := Place(c, ALPHABET);
    if p >= 0 {
      AlphabetAt(p);
    } else if Value(c) >= 0 {
      AlphabetAt(Value(c));
      SymbolOfValue(c, ALPHABET[Value(c)]);
    }
  }

  lemma SymbolOfValue(c: char, d: char)
    requires Value(c) == Value(d) >= 0
    ensures c == d
  {
  }

  // ----- Quanta -----

  /** The places the laws of this section are about. */
  ghost predicate Values(place: char -> int) {
    !IsSymbol('=') && forall c :: place(c) == Value(c)
  }

  lemma OneByteExactly(q: Bytes, d: Bytes, place: char -> int)
    requires |q| == 4 && Values(place)
    ensures OneByte(q, d, place) <==> |Read(q, true)| == 2 && d == Unsextets(Read(q, true))
  {
    if |Read(q, true)| == 2 {
      TwelveBits(Value(q[0]), Value(q[1]));
    }
  }

  lemma TwelveBits(a: nat, b: nat)
    requires a < 64 && b < 64
    ensures a * 4 + b / 16 == (a * 64 + b) / 16 < 256
  {
  }

  lemma TwoBytesExactly(q: Bytes, d: Bytes, place: char -> int)
    requires |q| == 4 && Values(place)
    ensures TwoBytes(q, d, place) <==> |Read(q, true)| == 3 && d == Unsextets(Read(q, true))
  {
    if |Read(q, true)| == 3 {
      assert Read(q, true) == [Value(q[0]), Value(q[1]), Value(q[2])];
      Bits18Exactly(Value(q[0]), Value(q[1]), Value(q[2]), d);
    }
  }

  lemma Bits18Exactly(a: nat, b: nat, c: nat, d: Bytes)
    requires a < 64 && b < 64 && c < 64
    ensures Bits18(a, b, c, d) <==> d == Unsextets([a, b, c])
  {
    EighteenBits(a, b, c);
    if Bits18(a, b, c, d) {
      SameDigits(d[0] as int, d[1] as int, a * 4 + b / 16, b % 16 * 16 + c / 4);
    }
  }

  lemma EighteenBits(a: nat, b: nat, c: nat)
    requires a < 64 && b < 64 && c < 64
    ensures a * 4 + b / 16 < 256 && b % 16 * 16 + c / 4 < 256
    ensures (a * 4 + b / 16) * 256 + (b % 16 * 16 + c / 4) == (a * 4096 + b * 64 + c) / 4
  {
  }

  lemma SameDigits(a: nat, b: nat, c: nat, d: nat)
    requires a * 256 + b == c * 256 + d && b < 256 && d < 256
    ensures a == c && b == d
  {
  }

  lemma ThreeBytesExactly(q: Bytes, d: Bytes, last: bool, place: char -> int)
    requires |q| == 4 && Values(place)
    ensures ThreeBytes(q, d, place) <==> |Read(q, last)| == 4 && d == Unsextets(Read(q, last))
  {
    if |Read(q, last)| == 4 {
      assert Read(q, last) == [Value(q[0]), Value(q[1]), Value(q[2]), Value(q[3])];
      Bits24Exactly(Value(q[0]), Value(q[1]), Value(q[2]), Value(q[3]), d);
    }
  }

  lemma Bits24Exactly(a: nat, b: nat, c: nat, e: nat, d: Bytes)
    requires a < 64 && b < 64 && c < 64 && e < 64
    ensures Bits24(a, b, c, e, d) <==> d == Unsextets([a, b, c, e])
  {
    TwentyFourBits(a, b, c, e);
    if Bits24(a, b, c, e, d) {
      var (x, y, z) := (d[0] as int, d[1] as int, d[2] as int);
      SameThree(x, y, z, a * 4 + b / 16, b % 16 * 16 + c / 4, c % 4 * 64 + e);
    }
  }

  lemma TwentyFourBits(i: nat, j: nat, k: nat, l: nat)
    requires i < 64 && j < 64 && k < 64 && l < 64
    ensures i * 4 + j / 16 < 256 && j % 16 * 16 + k / 4 < 256 && k % 4 * 64 + l < 256
    ensures (i * 4 + j / 16) * 65536 + (j % 16 * 16 + k / 4) * 256 + (k % 4 * 64 + l)
         == i * 262144 + j * 4096 + k * 64 + l
  {
  }

  lemma SameThree(a: nat, b: nat, c: nat, d: nat, e: nat, f: nat)
    requires a * 65536 + b * 256 + c == d * 65536 + e * 256 + f
    requires b < 256 && c < 256 && e < 256 && f < 256
    ensures a == d && b == e && c == f
  {
    SameDigits(a * 256 + b, c, d * 256 + e, f);
    SameDigits(a, b, d, e);
  }

  // ----- Whole texts -----

  lemma LastQuantum(t: Bytes, d: Bytes, place: char -> int)
    requires |t| == 4 && Values(place)
    ensures Quanta(t) == Ok(d) <==> Spells(t, d, place)
  {
    OneByteExactly(t, d, place);
    TwoBytesExactly(t, d, place);
    assert t[..4] == t && t[4..] == [];
    assert Quanta([]) == Ok([]);
    var x := Read(t, true);
    assert x != [] ==> Quanta(t) == Ok(Unsextets(x) + []);
    if |d| >= 3 {
      ThreeBytesExactly(t, d[..3], true, place);
      assert d == d[..3] + d[3..];
      assert Spells([], d[3..], place) <==> d[3..] == [];
    }
  }

  lemma FirstQuantum(t: Bytes, d: Bytes, place: char -> int)
    requires |t| > 4 && Values(place) && Quanta(t) == Ok(d)
    ensures |d| >= 3 && ThreeBytes(t[..4], d[..3], place) && Quanta(t[4..]) == Ok(d[3..])
  {
    var x, rest := Read(t[..4], false), Quanta(t[4..]);
    ThreeBytesExactly(t[..4], Unsextets(x), false, place);
    assert d == Unsextets(x) + rest.data;
    assert d[..3] == Unsextets(x) && d[3..] == rest.data;
  }

  lemma {:induction false} QuantaExactly(t: Bytes, d: Bytes, place: char -> int)
    requires Values(place)
    ensures Quanta(t) == Ok(d) <==> Spells(t, d, place)
    decreases |t|
  {
    if |t| < 4 {
    } else if |t| == 4 {
      LastQuantum(t, d, place);
    } else {
      if Quanta(t) == Ok(d) {
        FirstQuantum(t, d, place);
        QuantaExactly(t[4..], d[3..], place);
      }
      if Spells(t, d, place) {
        ThreeBytesExactly(t[..4], d[..3], false, place);
        QuantaExactly(t[4..], d[3..], place);
        assert d == d[..3] + d[3..];
      }
    }
  }

  /** What every text decodes to: exactly what it spells, by the places of its symbols in the alphabet, once its line
      breaks are skipped. */
  lemma DecodesExactly(s: Bytes, d: Bytes)
    ensures Decode(s) == Ok(d) <==> Spells(SkipNewlines(s), d, InAlphabet)
  {
    forall c ensures InAlphabet(c) == Value(c) {
      ValueIsPlace(c);
    }
    QuantaExactly(SkipNewlines(s), d, InAlphabet);
  }

  /** Skipping line breaks goes character by character: a line feed and a carriage return leave nothing, any other
      character itself. */
  lemma {:induction false} SkipsExactly(a: Bytes, b: Bytes, c: char)
    ensures SkipNewlines([c]) == if c as int == 10 || c as int == 13 then [] else [c]
    ensures SkipNewlines(a + b) == SkipNewlines(a) + SkipNewlines(b)
  {
    assert [c][1..] == [] && SkipNewlines([]) == [];
    if a == [] {
      assert a + b == b;
    } else {
      assert (a + b)[0] == a[0] && (a + b)[1..] == a[1..] + b;
      SkipsExactly(a[1..], b, c);
    }
  }

  // ----- Printing -----

  lemma SymbolAt(i: nat)
    requires i < 64
    ensures |ALPHABET| == 64 && Symbol(i) == ALPHABET[i]
  {
    AlphabetAt(i);
    SymbolOfValue(Symbol(i), ALPHABET[i]);
  }

  /** One byte is printed as the two symbols of its bits with four zeros, two bytes as the three of theirs with two. */
  lemma EncodesOne(a: char)
    requires a as int < 256
    ensures var v := a as int * 16; Encode([a]) == [Symbol(v / 64), Symbol(v % 64), '=', '=']
  {
    Twelve(a as int);
    EncodesAlone([a]);
  }

  lemma EncodesTwo(a: char, b: char)
    requires a as int < 256 && b as int < 256
    ensures var v := (a as int * 256 + b as int) * 4;
            Encode([a, b]) == [Symbol(v / 4096), Symbol(v / 64 % 64), Symbol(v % 64), '=']
  {
    Eighteen(a as int, b as int);
    EncodesAlone([a, b]);
  }

  /** Longer texts are printed three bytes at a time. */
  lemma EncodesByThree(d: Bytes, rest: Bytes)
    requires |d| == 3 && IsBytes(d) && IsBytes(rest)
    ensures Encode(d + rest) == Encode(d) + Encode(rest)
  {
    EncodesAlone(d);
    assert (d + rest)[..3] == d && (d + rest)[3..] == rest;
  }

  lemma EncodesAlone(d: Bytes)
    requires 1 <= |d| <= 3 && IsBytes(d)
    ensures Encode(d) == Print(Sextets(d))
  {
    assert Head(d) == d && d[|d|..] == [] && Encode([]) == [];
  }

  lemma Twelve(a: nat)
    requires a < 256
    ensures a * 16 / 64 == a / 4 < 64 && a * 16 % 64 == a % 4 * 16
  {
  }

  lemma Eighteen(a: nat, b: nat)
    requires a < 256 && b < 256
    ensures var v := (a * 256 + b) * 4;
            v / 4096 == a / 4 < 64 && v / 64 % 64 == a % 4 * 16 + b / 16 && v % 64 == b % 16 * 4
  {
    ThreeDigits(a / 4, a % 4 * 16 + b / 16, b % 16 * 4);
    assert (a * 256 + b) * 4 == a / 4 * 4096 + (a % 4 * 16 + b / 16) * 64 + b % 16 * 4;
  }

  lemma ThreeDigits(x: nat, y: nat, z: nat)
    requires y < 64 && z < 64
    ensures var v := x * 4096 + y * 64 + z; v / 4096 == x && v / 64 == x * 64 + y && v / 64 % 64 == y && v % 64 == z
  {
    assert x * 4096 + y * 64 + z == (x * 64 + y) * 64 + z;
  }
}
