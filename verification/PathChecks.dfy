/** How a dot segment may be spelled and still be refused (client.go; section 5.2.4 of RFC 3986). */
module PathChecks {
  import opened GoBytes
  import opened DotSegments
  import opened PathScopes
  import opened RequestPaths
  import opened Routes
  import opened Wrappers
  import Percent
  import PercentTable

  // ----- Dot segments, however they are spelled -----

  /** A dot, as itself or percent-encoded in either case. */
  predicate DotSpelling(u: Bytes) {
    u == "." || u == "%2e" || u == "%2E"
  }

  lemma DotSpellingDecodes(u: Bytes, rest: Bytes)
    requires DotSpelling(u)
    ensures Percent.Unescape(u + rest) ==
              if Percent.Unescape(rest).None? then None else Some("." + Percent.Unescape(rest).value)
  {
    var s := u + rest;
    if u == "." {
      assert s[1..] == rest;
    } else {
      assert s[3..] == rest && s[0] == '%' && s[1] == '2';
      PercentTable.LowerDigitAt(2);
      PercentTable.LowerDigitAt(14);
      PercentTable.UpperDigitAt(14);
    }
  }

  /** One or two of them are refused as a segment. */
  lemma DotSpellingsDecode(u: Bytes, v: Bytes)
    requires DotSpelling(u) && (DotSpelling(v) || v == "")
    ensures DecodesToDot(u + v) && Percent.Unescape(u + v).Some?
  {
    assert v + "" == v;
    DotSpellingDecodes(u, v);
    if v != "" {
      DotSpellingDecodes(v, "");
      assert "." + "" == ".";
      assert "." + "." == "..";
    } else {
      assert Percent.Unescape("") == Some("");
      assert "." + "" == ".";
    }
  }

  lemma SegmentRefused(path: Bytes, front: Bytes, segment: Bytes, back: Bytes, scope: Scope)
    requires IsBytes(path) && Reference(path).Ok? && Reference(path).value.path == front + "/" + segment + back
    requires '/' !in segment && DecodesToDot(segment) && (back == "" || back[0] == '/')
    ensures Resolve(path, scope) == Err(DotSegment)
  {
    var p := Reference(path).value.path;
    if back == "" {
      assert p == front + "/" + segment;
      SplitAtSlash(front, segment);
      SplitOne(segment);
      assert Split(p)[|Split(front)|] == segment;
    } else {
      assert p == front + "/" + (segment + "/" + back[1..]);
      SplitAtSlash(front, segment + "/" + back[1..]);
      SplitAtSlash(segment, back[1..]);
      SplitOne(segment);
      assert Split(p)[|Split(front)|] == segment;
    }
  }

  /** What a plain part of a path is made of. */
  predicate PlainText(s: Bytes) {
    forall c | c in s :: c == '/' || c in PercentTable.UNRESERVED
  }

  lemma {:induction false} PlainTextDecodes(s: Bytes, rest: Bytes)
    requires PlainText(s)
    ensures Percent.Unescape(s + rest).Some? <==> Percent.Unescape(rest).Some?
  {
    if s == "" {
      assert s + rest == rest;
    } else {
      PercentTable.UnreservedExactly(s[0]);
      assert s[0] in s && (s + rest)[0] == s[0] && (s + rest)[1..] == s[1..] + rest;
      PlainTextDecodes(s[1..], rest);
    }
  }

  lemma PlainChars(s: Bytes)
    requires PlainText(s)
    ensures forall c | c in s :: RouteChar(c)
  {
    forall c | c in s ensures RouteChar(c) {
      PercentTable.UnreservedExactly(c);
    }
  }

  /** Every text with such a segment anywhere in it is refused, in every scope. */
  lemma DotTextRefused(front: Bytes, u: Bytes, v: Bytes, back: Bytes, scope: Scope)
    requires PlainText(front) && PlainText(back) && (back == "" || back[0] == '/')
    requires front == "" || (|front| >= 2 && front[0] == '/' != front[1])
    requires DotSpelling(u) && (DotSpelling(v) || v == "")
    ensures var text := front + "/" + (u + v) + back;
            IsBytes(text) && Resolve(text, scope) == Err(DotSegment)
  {
    var text := front + "/" + (u + v) + back;
    DotSpellingsDecode(u, v);
    TextDecodes(front, u, v, back);
    TextChars(front, u, v, back);
    StartsOnce(front, u + v, back);
    OrdinaryReference(text);
    SegmentRefused(text, front, u + v, back, scope);
  }

  lemma DotChars(u: Bytes)
    requires DotSpelling(u) || u == ""
    ensures forall c | c in u :: RouteChar(c) && c != '/'
  {
  }

  lemma TextChars(front: Bytes, u: Bytes, v: Bytes, back: Bytes)
    requires PlainText(front) && PlainText(back) && DotSpelling(u) && (DotSpelling(v) || v == "")
    ensures forall c | c in front + "/" + (u + v) + back :: RouteChar(c)
    ensures u + v != "" && '/' !in u + v
  {
    PlainChars(front);
    PlainChars(back);
    DotChars(u);
    DotChars(v);
  }

  /** The spelling that Go does not collapse but a server may. */
  lemma EncodedDotsRefused(scope: Scope)
    ensures IsBytes("/api/networks/%2e%2e/users")
    ensures Resolve("/api/networks/%2e%2e/users", scope) == Err(DotSegment)
  {
    var (front, u, back) := ("/api/networks", "%2e", "/users");
    SpelledInUnreserved();
    assert front + "/" + (u + u) + back == "/api/networks/%2e%2e/users";
    assert front[0] == '/' && front[1] == 'a';
    DotTextRefused(front, u, u, back, scope);
  }

  lemma SpelledInUnreserved()
    ensures PlainText("/api/networks") && PlainText("/users")
  {
    forall c | c in "/api/networks" || c in "/users" ensures c == '/' || c in PercentTable.UNRESERVED {
      PercentTable.UnreservedExactly(c);
    }
  }

  lemma StartsOnce(front: Bytes, segment: Bytes, back: Bytes)
    requires front == "" || (|front| >= 2 && front[0] == '/' != front[1])
    requires segment != "" && '/' !in segment
    ensures "/" <= front + "/" + segment + back && !("//" <= front + "/" + segment + back)
  {
    var text := front + "/" + segment + back;
    assert text[1] == if front == "" then segment[0] else front[1];
  }

  lemma TextDecodes(front: Bytes, u: Bytes, v: Bytes, back: Bytes)
    requires PlainText(front) && PlainText(back) && DotSpelling(u) && (DotSpelling(v) || v == "")
    ensures Percent.Unescape(front + "/" + (u + v) + back).Some?
  {
    assert front + "/" + (u + v) + back == (front + "/") + (u + (v + back));
    assert back + "" == back && Percent.Unescape("") == Some("");
    PlainTextDecodes(back, "");
    if v == "" {
      assert v + back == back;
    } else {
      DotSpellingDecodes(v, back);
    }
    DotSpellingDecodes(u, v + back);
    PlainTextDecodes(front + "/", u + (v + back));
  }
}
