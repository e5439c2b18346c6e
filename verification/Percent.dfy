/** Percent-encoding (section 2.1 of RFC 3986) as Go's `net/url` applies it to paths and path segments. */
module Percent {
  import opened GoBytes
  import opened Wrappers

  predicate Unreserved(c: char) {
    'A' <= c <= 'Z' || 'a' <= c <= 'z' || '0' <= c <= '9' || c == '-' || c == '_' || c == '.' || c == '~'
  }

  /** What `url.PathEscape` leaves alone. */
  predicate SegmentSafe(c: char) {
    Unreserved(c) || c == '$' || c == '&' || c == '+' || c == ':' || c == '=' || c == '@'
  }

  /** What a whole path keeps when Go has to encode it. */
  predicate PathSafe(c: char) {
    SegmentSafe(c) || c == '/' || c == ',' || c == ';'
  }

  function HexDigit(v: nat): (c: char)
    requires v < 16
    ensures HexValue(c) == v && Unreserved(c)
  {
    if v < 10 then '0' + v as char else 'A' + (v - 10) as char
  }

  /** The value of a hexadecimal digit of either case, or -1. */
  function HexValue(c: char): (v: int)
    ensures -1 <= v < 16
  {
    if '0' <= c <= '9' then c as int - 48
    else if 'a' <= c <= 'f' then c as int - 97 + 10
    else if 'A' <= c <= 'F' then c as int - 65 + 10
    else -1
  }

  function EscapeByte(c: char, safe: char -> bool): (r: Bytes)
    requires c as int < 256
    ensures 1 <= |r| <= 3
  {
    if safe(c) then [c] else ['%', HexDigit(c as int / 16), HexDigit(c as int % 16)]
  }

  function Escape(s: Bytes, safe: char -> bool): Bytes
    requires IsBytes(s)
  {
    if s == [] then [] else EscapeByte(s[0], safe) + Escape(s[1..], safe)
  }

  function PathEscape(s: Bytes): Bytes
    requires IsBytes(s)
  {
    Escape(s, SegmentSafe)
  }

  /** How many characters the first unit of `s` takes, one or a whole triplet, 0 for a triplet that is malformed. */
  function UnitLength(s: Bytes): (n: nat)
    requires s != []
    ensures n <= |s| && n <= 3
  {
    if s[0] != '%' then 1
    else if |s| < 3 || HexValue(s[1]) < 0 || HexValue(s[2]) < 0 then 0
    else 3
  }

  function UnitValue(s: Bytes): char
    requires s != [] && UnitLength(s) > 0
  {
    if s[0] != '%' then s[0] else (HexValue(s[1]) * 16 + HexValue(s[2])) as char
  }

  /** `url.PathUnescape`: None when a percent sign does not start a triplet. */
  function Unescape(s: Bytes): Option<Bytes>
    decreases |s|
  {
    if s == [] then Some([])
    else
      var n := UnitLength(s);
      if n == 0 then None
      else
        match Unescape(s[n..])
        case None => None
        case Some(rest) => Some([UnitValue(s)] + rest)
  }

  lemma UnescapeByte(c: char, safe: char -> bool, rest: Bytes)
    requires c as int < 256 && !safe('%')
    requires Unescape(rest).Some?
    ensures Unescape(EscapeByte(c, safe) + rest) == Some([c] + Unescape(rest).value)
  {
    var unit := EscapeByte(c, safe);
    var s := unit + rest;
    assert UnitLength(s) == |unit| && UnitValue(s) == c;
    assert s[|unit|..] == rest;
  }

  /** Escaping loses nothing, whatever is considered safe, as long as the percent sign is not. */
  lemma {:induction false} UnescapeEscape(s: Bytes, safe: char -> bool)
    requires IsBytes(s) && !safe('%')
    ensures Unescape(Escape(s, safe)) == Some(s)
  {
    if s == [] {
    } else {
      UnescapeEscape(s[1..], safe);
      UnescapeByte(s[0], safe, Escape(s[1..], safe));
      assert s == [s[0]] + s[1..];
    }
  }

  lemma {:induction false} EscapedChars(s: Bytes)
    requires IsBytes(s)
    ensures forall c | c in PathEscape(s) :: SegmentSafe(c) || c == '%'
    ensures s != [] ==> PathEscape(s) != []
  {
    if s == [] {
    } else {
      EscapedChars(s[1..]);
    }
  }

  /** Distinct texts have distinct escapes. */
  lemma PathEscapeInjective(a: Bytes, b: Bytes)
    requires IsBytes(a) && IsBytes(b)
    ensures PathEscape(a) == PathEscape(b) <==> a == b
  {
    UnescapeEscape(a, SegmentSafe);
    UnescapeEscape(b, SegmentSafe);
  }

  /** Normalisation of section 6.2.2.2 of RFC 3986: triplets for unreserved characters are decoded, all else is kept. */
  function DecodeUnreserved(s: Bytes): Bytes
    decreases |s|
  {
    if s == [] then []
    else
      DecodedUnit(s) + DecodeUnreserved(s[if UnitLength(s) == 3 then 3 else 1..])
  }

  function DecodedUnit(s: Bytes): Bytes
    requires s != []
  {
    if UnitLength(s) != 3 then s[..1]
    else if Unreserved(UnitValue(s)) then [UnitValue(s)]
    else s[..3]
  }

  lemma DecodeUnreservedStep(a: Bytes, b: Bytes)
    requires a != [] && UnitLength(a) > 0
    ensures DecodeUnreserved(a + b) == DecodedUnit(a) + DecodeUnreserved(a[UnitLength(a)..] + b)
  {
    FirstUnitOfConcat(a, b);
    assert (a + b)[UnitLength(a)..] == a[UnitLength(a)..] + b;
  }

  lemma {:induction false} DecodeUnreservedConcat(a: Bytes, b: Bytes)
    requires Unescape(a).Some?
    ensures DecodeUnreserved(a + b) == DecodeUnreserved(a) + DecodeUnreserved(b)
    decreases |a|
  {
    if a == [] {
      assert a + b == b;
    } else {
      var unit, rest := DecodedUnit(a), a[UnitLength(a)..];
      DecodeUnreservedStep(a, b);
      DecodeUnreservedStep(a, []);
      assert a + [] == a && rest + [] == rest;
      DecodeUnreservedConcat(rest, b);
      assert unit + (DecodeUnreserved(rest) + DecodeUnreserved(b)) ==
          unit + DecodeUnreserved(rest) + DecodeUnreserved(b);
    }
  }

  lemma FirstUnitOfConcat(a: Bytes, b: Bytes)
    requires a != [] && UnitLength(a) > 0
    ensures UnitLength(a + b) == UnitLength(a)
    ensures UnitValue(a + b) == UnitValue(a)
    ensures DecodedUnit(a + b) == DecodedUnit(a)
  {
    var n := UnitLength(a);
    assert (a + b)[..n] == a[..n];
  }

  /** Normalising does not change what a text decodes to. */
  lemma {:induction false} DecodeUnreservedDecodes(s: Bytes)
    requires Unescape(s).Some?
    ensures Unescape(DecodeUnreserved(s)) == Unescape(s)
    decreases |s|
  {
    if s == [] {
    } else {
      var n := UnitLength(s);
      DecodeUnreservedDecodes(s[n..]);
      var tail := DecodeUnreserved(s[n..]);
      if n == 3 && Unreserved(UnitValue(s)) {
        assert ([UnitValue(s)] + tail)[1..] == tail;
      } else {
        var whole := s[..n] + tail;
        assert whole[n..] == tail;
        assert UnitLength(whole) == n && UnitValue(whole) == UnitValue(s);
      }
    }
  }

  /** When everything a text decodes to is unreserved, normalising it is decoding it. */
  lemma {:induction false} UnreservedTextDecodes(s: Bytes)
    requires Unescape(s).Some?
    requires forall i | 0 <= i < |Unescape(s).value| :: Unreserved(Unescape(s).value[i])
    ensures DecodeUnreserved(s) == Unescape(s).value
    decreases |s|
  {
    if s == [] {
    } else {
      var n := UnitLength(s);
      UnescapedFirst(s);
      assert Unescape(s).value[0] == UnitValue(s);
      UnreservedTextDecodes(s[n..]);
    }
  }

  lemma UnescapedFirst(s: Bytes)
    requires s != [] && Unescape(s).Some?
    ensures UnitLength(s) > 0 && Unescape(s[UnitLength(s)..]).Some?
    ensures var tail := Unescape(s[UnitLength(s)..]).value;
            && Unescape(s).value == [UnitValue(s)] + tail
            && forall i | 0 <= i < |tail| :: tail[i] == Unescape(s).value[i + 1]
  {
  }

  /** Normalising never makes a separator appear. */
  lemma {:induction false} DecodeUnreservedNoSlash(s: Bytes)
    requires '/' !in s
    ensures '/' !in DecodeUnreserved(s)
    decreases |s|
  {
    if s == [] {
    } else {
      var n := if UnitLength(s) == 3 then 3 else 1;
      assert s == s[..n] + s[n..];
      DecodeUnreservedNoSlash(s[n..]);
    }
  }

  predicate ValidPathChar(c: char) {
    SegmentSafe(c) || c == '!' || c == '\'' || c == '(' || c == ')' || c == '*' || c == ',' || c == ';'
    || c == '[' || c == ']' || c == '%' || c == '/'
  }

  /** What `url.URL.EscapedPath` gives for a path parsed from `raw`: `raw` itself when all its characters may stand in
      a path, and otherwise its decoded form encoded again. */
  function EscapedPath(raw: Bytes): Bytes
    requires IsBytes(raw) && Unescape(raw).Some?
  {
    if forall c | c in raw :: ValidPathChar(c) then raw
    else
      UnescapedBytes(raw);
      Escape(Unescape(raw).value, PathSafe)
  }

  lemma {:induction false} UnescapedBytes(s: Bytes)
    requires IsBytes(s) && Unescape(s).Some?
    ensures IsBytes(Unescape(s).value)
    decreases |s|
  {
    if s == [] {
    } else {
      UnescapedBytes(s[UnitLength(s)..]);
    }
  }
}
