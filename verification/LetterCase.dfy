/** Upper and lower case as the three places that fold text use them (`strings.ToUpper`, `strings.ToLower` and
    `unicode.ToLower`), by the places of letters in their alphabets and by code points. */
module LetterCase {
  import opened Letters
  import AccessTable
  import Canonical
  import ErrorDetail

  const DOTTED_I: string := Utf8(0x130)
  const DOTLESS_I: string := Utf8(0x131)
  const LONG_S: string := Utf8(0x17F)
  const KELVIN: string := Utf8(0x212A)

  lemma Encodings()
    ensures DOTTED_I == [0xC4 as char, 0xB0 as char] && DOTLESS_I == [0xC4 as char, 0xB1 as char]
    ensures LONG_S == [0xC5 as char, 0xBF as char] && KELVIN == [0xE2 as char, 0x84 as char, 0xAA as char]
  {
  }

  /** A text goes to upper case letter by letter: the two letters beyond ASCII whose upper case is ASCII become it, a
      lower-case letter the upper-case one in its place, and anything else stays. */
  lemma ToUpperExactly(c: char, rest: string)
    ensures AccessTable.ToUpper("") == ""
    ensures AccessTable.ToUpper(DOTLESS_I + rest) == "I" + AccessTable.ToUpper(rest)
    ensures AccessTable.ToUpper(LONG_S + rest) == "S" + AccessTable.ToUpper(rest)
    ensures c in LOWER ==> AccessTable.ToUpper([c] + rest) == [UPPER[Place(c, LOWER)]] + AccessTable.ToUpper(rest)
    ensures c !in LOWER && !(DOTLESS_I <= [c] + rest) && !(LONG_S <= [c] + rest) ==>
              AccessTable.ToUpper([c] + rest) == [c] + AccessTable.ToUpper(rest)
  {
    Encodings();
    Ranges(c);
    assert (DOTLESS_I + rest)[2..] == rest && (LONG_S + rest)[2..] == rest && ([c] + rest)[1..] == rest;
    if c in LOWER {
      LowerAt(Place(c, LOWER));
      UpperAt(Place(c, LOWER));
    }
  }

  lemma ToLowerExactly(c: char, rest: string)
    ensures Canonical.ToLower("") == ""
    ensures Canonical.ToLower(DOTTED_I + rest) == "i" + Canonical.ToLower(rest)
    ensures Canonical.ToLower(KELVIN + rest) == "k" + Canonical.ToLower(rest)
    ensures c in UPPER ==> Canonical.ToLower([c] + rest) == [LOWER[Place(c, UPPER)]] + Canonical.ToLower(rest)
    ensures c !in UPPER && !(DOTTED_I <= [c] + rest) && !(KELVIN <= [c] + rest) ==>
              Canonical.ToLower([c] + rest) == [c] + Canonical.ToLower(rest)
  {
    Encodings();
    Ranges(c);
    assert (DOTTED_I + rest)[2..] == rest && (KELVIN + rest)[3..] == rest && ([c] + rest)[1..] == rest;
    if c in UPPER {
      LowerAt(Place(c, UPPER));
      UpperAt(Place(c, UPPER));
    }
  }

  /** What an error text becomes, code point by code point: a plain letter or digit itself, a capital its small letter,
      the two letters whose lower case is ASCII that one, and anything else a blank. */
  lemma CleanRuneExactly(r: char)
    ensures r in LOWER || r in DIGITS ==> ErrorDetail.CleanRune(r) == r
    ensures r in UPPER ==> ErrorDetail.CleanRune(r) == LOWER[Place(r, UPPER)]
    ensures r as int == 0x130 ==> ErrorDetail.CleanRune(r) == 'i'
    ensures r as int == 0x212A ==> ErrorDetail.CleanRune(r) == 'k'
    ensures r !in LOWER && r !in DIGITS && r !in UPPER && r as int != 0x130 && r as int != 0x212A ==>
              ErrorDetail.CleanRune(r) == ' '
  {
    Ranges(r);
    if r in UPPER {
      LowerAt(Place(r, UPPER));
      UpperAt(Place(r, UPPER));
    }
  }
}
