/** What `strings.TrimSpace` takes away, by Unicode code points. */
module WhiteSpace {
  import opened GoBytes
  import opened Letters

  /** The code points with the White_Space property. */
  predicate White(cp: int) {
    || 0x9 <= cp <= 0xD || cp == 0x20 || cp == 0x85 || cp == 0xA0 || cp == 0x1680 || 0x2000 <= cp <= 0x200A
    || cp == 0x2028 || cp == 0x2029 || cp == 0x202F || cp == 0x205F || cp == 0x3000
  }

  /** The encoding of one white-space code point. */
  ghost predicate Encoded(e: Bytes) {
    exists cp | 0 <= cp < 0x1_0000 :: White(cp) && Utf8(cp) == e
  }

  predicate EndsWith(s: Bytes, e: Bytes) {
    |e| <= |s| && s[|s| - |e|..] == e
  }

  predicate IsUnit(e: Bytes) {
    || (|e| == 1 && Space1(e[0])) || (|e| == 2 && Space2(e[0], e[1])) || (|e| == 3 && Space3(e[0], e[1], e[2]))
  }

  lemma UnitIsEncoded(e: Bytes)
    requires IsUnit(e)
    ensures Encoded(e)
  {
    if |e| == 1 {
      assert White(e[0] as int) && Utf8(e[0] as int) == e;
    } else if |e| == 2 {
      assert White(e[1] as int) && Utf8(e[1] as int) == e;
    } else {
      ThreeBytes(e[0] as int, e[1] as int, e[2] as int);
      var cp := (e[0] as int - 0xE0) * 4096 + (e[1] as int - 0x80) * 64 + (e[2] as int - 0x80);
      assert Utf8(cp) == e;
    }
  }

  lemma ThreeBytes(x: int, y: int, z: int)
    requires 0xE0 <= x < 0xF0 && 0x80 <= y < 0xC0 && 0x80 <= z < 0xC0
    ensures var cp := (x - 0xE0) * 4096 + (y - 0x80) * 64 + (z - 0x80);
            cp / 4096 == x - 0xE0 && cp / 64 % 64 == y - 0x80 && cp % 64 == z - 0x80 && 0 <= cp < 0x1_0000
  {
  }

  lemma EncodedIsUnit(cp: int)
    requires 0 <= cp < 0x1_0000 && White(cp)
    ensures IsUnit(Utf8(cp))
  {
  }

  lemma EncodedExactly(e: Bytes)
    ensures Encoded(e) <==> IsUnit(e)
  {
    if IsUnit(e) {
      UnitIsEncoded(e);
    }
    if Encoded(e) {
      var cp :| 0 <= cp < 0x1_0000 && White(cp) && Utf8(cp) == e;
      EncodedIsUnit(cp);
    }
  }

  /** White space is found at the start of a text exactly when it begins with such an encoding. */
  lemma StartExactly(s: Bytes)
    ensures SpaceAtStart(s) > 0 <==> exists e :: Encoded(e) && e <= s
    ensures SpaceAtStart(s) > 0 ==> Encoded(s[..SpaceAtStart(s)])
  {
    if SpaceAtStart(s) > 0 {
      EncodedExactly(s[..SpaceAtStart(s)]);
    }
    forall e | Encoded(e) && e <= s ensures SpaceAtStart(s) > 0 {
      EncodedExactly(e);
      assert s[..|e|] == e;
    }
  }

  /** And at its end exactly when it ends with one. */
  lemma EndExactly(s: Bytes)
    ensures SpaceAtEnd(s) > 0 <==> exists e :: Encoded(e) && EndsWith(s, e)
    ensures SpaceAtEnd(s) > 0 ==> Encoded(s[|s| - SpaceAtEnd(s)..])
  {
    if SpaceAtEnd(s) > 0 {
      var e := s[|s| - SpaceAtEnd(s)..];
      EncodedExactly(e);
      assert EndsWith(s, e);
    }
    forall e | Encoded(e) && EndsWith(s, e) ensures SpaceAtEnd(s) > 0 {
      EncodedExactly(e);
      assert forall k | 0 <= k < |e| :: s[|s| - |e| + k] == e[k];
    }
  }

  // ----- Trimming -----

  function Concat(units: seq<Bytes>): Bytes {
    if units == [] then [] else units[0] + Concat(units[1..])
  }

  lemma {:induction false} ConcatAppend(a: seq<Bytes>, e: Bytes)
    ensures Concat(a + [e]) == Concat(a) + e
  {
    if a == [] {
      assert a + [e] == [e] && [e][1..] == [];
    } else {
      assert (a + [e])[0] == a[0] && (a + [e])[1..] == a[1..] + [e];
      ConcatAppend(a[1..], e);
    }
  }

  ghost predicate AllEncoded(units: seq<Bytes>) {
    forall e | e in units :: Encoded(e)
  }

  lemma Assoc(a: Bytes, b: Bytes, c: Bytes)
    ensures (a + b) + c == a + (b + c)
  {
  }

  lemma FirstUnit(s: Bytes) returns (e: Bytes, rest: Bytes)
    requires SpaceAtStart(s) > 0
    ensures Encoded(e) && s == e + rest && TrimLeft(rest) == TrimLeft(s) && |rest| < |s|
  {
    StartExactly(s);
    e, rest := s[..SpaceAtStart(s)], s[SpaceAtStart(s)..];
  }

  lemma {:induction false} LeftCut(s: Bytes) returns (a: seq<Bytes>)
    ensures s == Concat(a) + TrimLeft(s) && AllEncoded(a)
    decreases |s|
  {
    if SpaceAtStart(s) == 0 {
      a := [];
      assert s == [] + s;
    } else {
      var e, rest := FirstUnit(s);
      var units := LeftCut(rest);
      a := OneBefore(e, rest, units, TrimLeft(rest));
    }
  }

  lemma OneBefore(e: Bytes, cut: Bytes, rest: seq<Bytes>, trimmed: Bytes) returns (a: seq<Bytes>)
    requires cut == Concat(rest) + trimmed && AllEncoded(rest) && Encoded(e)
    ensures e + cut == Concat(a) + trimmed && AllEncoded(a)
  {
    a := [e] + rest;
    assert a[0] == e && a[1..] == rest;
    Assoc(e, Concat(rest), trimmed);
  }

  lemma {:induction false} RightCut(s: Bytes) returns (b: seq<Bytes>)
    ensures s == TrimRight(s) + Concat(b) && AllEncoded(b)
    decreases |s|
  {
    var n := SpaceAtEnd(s);
    if n == 0 {
      b := [];
      assert s == s + [];
    } else {
      EndExactly(s);
      var rest := RightCut(s[..|s| - n]);
      b := OneMore(s[..|s| - n], s[|s| - n..], rest, TrimRight(s));
      assert s == s[..|s| - n] + s[|s| - n..];
    }
  }

  lemma OneMore(cut: Bytes, e: Bytes, rest: seq<Bytes>, trimmed: Bytes) returns (b: seq<Bytes>)
    requires cut == trimmed + Concat(rest) && AllEncoded(rest) && Encoded(e)
    ensures cut + e == trimmed + Concat(b) && AllEncoded(b)
  {
    b := rest + [e];
    ConcatAppend(rest, e);
    Assoc(trimmed, Concat(rest), e);
  }

  /** `s` is `middle` between encoded white space. */
  ghost predicate Surrounded(s: Bytes, a: seq<Bytes>, middle: Bytes, b: seq<Bytes>) {
    AllEncoded(a) && AllEncoded(b) && s == Concat(a) + middle + Concat(b)
  }

  /** Trimming takes away white space at both ends and nothing else, and leaves none there. */
  lemma TrimsExactly(s: Bytes)
    ensures exists a, b :: Surrounded(s, a, TrimSpace(s), b)
    ensures !exists e :: Encoded(e) && (e <= TrimSpace(s) || EndsWith(TrimSpace(s), e))
  {
    CutsBothEnds(s);
    TrimSpaceTrimmed(s);
    StartExactly(TrimSpace(s));
    EndExactly(TrimSpace(s));
  }

  lemma CutsBothEnds(s: Bytes)
    ensures exists a, b :: Surrounded(s, a, TrimSpace(s), b)
  {
    var a := LeftCut(s);
    var b := RightCut(TrimLeft(s));
    Assoc(Concat(a), TrimSpace(s), Concat(b));
    assert Surrounded(s, a, TrimSpace(s), b);
  }
}
