/** Percent-encoding by the places of the hexadecimal digits and by the characters written out (sections 2.1 and 2.3 of
    RFC 3986): what every text decodes to, and what is left unencoded. */
module PercentTable {
  import opened GoBytes
  import opened Letters
  import opened Percent
  import opened Wrappers

  const HEX_LOWER: string := "0123456789abcdef"
  const HEX_UPPER: string := "0123456789ABCDEF"

  /** The place of a hexadecimal digit of either case, -1 for any other character. */
  function HexPlace(c: char): int {
    if Place(c, HEX_LOWER) >= 0 then Place(c, HEX_LOWER) else Place(c, HEX_UPPER)
  }

  /** `s` decodes to `d`: a percent sign stands before two digits, 16 times the first plus the second; any other
      character for itself. */
  predicate Decodes(s: Bytes, d: Bytes, digit: char -> int)
    decreases |s|
  {
    if s == [] then d == []
    else if s[0] == '%' then
      && |s| >= 3 && digit(s[1]) >= 0 && digit(s[2]) >= 0 && d != []
      && d[0] as int == 16 * digit(s[1]) + digit(s[2]) && Decodes(s[3..], d[1..], digit)
    else d != [] && d[0] == s[0] && Decodes(s[1..], d[1..], digit)
  }

  lemma LowerDigitAt(i: nat)
    requires i < 16
    ensures HexValue(HEX_LOWER[i]) == i && !('A' <= HEX_LOWER[i] <= 'F')
  {
  }

  lemma UpperDigitAt(i: nat)
    requires i < 16
    ensures HexValue(HEX_UPPER[i]) == i && HexDigit(i) == HEX_UPPER[i] && !('a' <= HEX_UPPER[i] <= 'f')
  {
  }

  /** Two digits of one value that are both not capitals, or both not small letters, are the same. */
  lemma SameDigit(c: char, d: char)
    requires HexValue(c) == HexValue(d) >= 0
    requires (!('A' <= c <= 'F') && !('A' <= d <= 'F')) || (!('a' <= c <= 'f') && !('a' <= d <= 'f'))
    ensures c == d
  {
  }

  lemma HexValueIsPlace(c: char)
    ensures HexValue(c) == HexPlace(c)
  {
    if c in HEX_LOWER {
      LowerDigitAt(Place(c, HEX_LOWER));
    } else if c in HEX_UPPER {
      UpperDigitAt(Place(c, HEX_UPPER));
    } else {
      NoDigit(c);
    }
  }

  lemma NoDigit(c: char)
    requires c !in HEX_LOWER && c !in HEX_UPPER
    ensures HexValue(c) == -1
  {
    var v := HexValue(c);
    if v >= 0 {
      LowerDigitAt(v);
      UpperDigitAt(v);
      if 'A' <= c <= 'F' {
        SameDigit(c, HEX_UPPER[v]);
      } else {
        SameDigit(c, HEX_LOWER[v]);
      }
    }
  }

  lemma {:induction false} UnescapesBy(s: Bytes, d: Bytes, digit: char -> int)
    requires forall c :: digit(c) == HexValue(c)
    ensures Unescape(s) == Some(d) <==> Decodes(s, d, digit)
    decreases |s|
  {
    if s == [] {
    } else {
      var n := UnitLength(s);
      if n > 0 {
        if Unescape(s) == Some(d) {
          assert Unescape(s[n..]) == Some(d[1..]);
        }
        if d != [] {
          UnescapesBy(s[n..], d[1..], digit);
          assert d == [d[0]] + d[1..];
        }
      }
    }
  }

  /** What every text decodes to; a text no bytes are the decoding of does not decode. */
  lemma UnescapesExactly(s: Bytes, d: Bytes)
    ensures Unescape(s) == Some(d) <==> Decodes(s, d, HexPlace)
  {
    forall c ensures HexPlace(c) == HexValue(c) {
      HexValueIsPlace(c);
    }
    UnescapesBy(s, d, HexPlace);
  }

  // ----- What is left unencoded -----

  const UNRESERVED: string := UPPER + LOWER + DIGITS + "-._~"
  const PATH_CHARACTERS: string := UNRESERVED + "$&+:=@" + "/,;" + "!'()*[]%"

  lemma UnreservedExactly(c: char)
    ensures Unreserved(c) <==> c in UNRESERVED
  {
    Ranges(c);
    assert c in "-._~" <==> c == '-' || c == '.' || c == '_' || c == '~';
  }

  /** A path segment leaves six more characters alone, a path three more than that; five more, the percent sign and the
      slash may stand in a path as given. */
  lemma SafeExactly(c: char)
    ensures SegmentSafe(c) <==> c in UNRESERVED + "$&+:=@"
    ensures PathSafe(c) <==> c in UNRESERVED + "$&+:=@" + "/,;"
    ensures ValidPathChar(c) <==> c in PATH_CHARACTERS
  {
    UnreservedExactly(c);
    assert c in "$&+:=@" <==> c == '$' || c == '&' || c == '+' || c == ':' || c == '=' || c == '@';
    assert c in "/,;" <==> c == '/' || c == ',' || c == ';';
    assert c in "!'()*[]%" <==>
             c == '!' || c == '\'' || c == '(' || c == ')' || c == '*' || c == '[' || c == ']' || c == '%';
  }

  /** Encoding goes byte by byte: a safe one is itself, any other a percent sign and two upper-case digits. */
  lemma {:induction false} EscapesExactly(a: Bytes, b: Bytes, c: char, safe: char -> bool)
    requires IsBytes(a) && IsBytes(b) && c as int < 256
    ensures Escape(a + b, safe) == Escape(a, safe) + Escape(b, safe)
    ensures Escape([c], safe) == if safe(c) then [c] else ['%', HEX_UPPER[c as int / 16], HEX_UPPER[c as int % 16]]
  {
    UpperDigitAt(c as int / 16);
    UpperDigitAt(c as int % 16);
    assert [c][1..] == [] && Escape([c], safe) == EscapeByte(c, safe) + Escape([], safe);
    if a == [] {
      assert a + b == b;
    } else {
      assert (a + b)[0] == a[0] && (a + b)[1..] == a[1..] + b;
      EscapesExactly(a[1..], b, c, safe);
    }
  }
}
