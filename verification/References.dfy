/** What a reference is parsed to, by its path, its query and its fragment (client.go; section 4.1 of RFC 3986). */
module References {
  import opened GoBytes
  import opened RequestPaths
  import opened Routes
  import opened Wrappers
  import Percent
  import PercentTable

  /** `text` is a path, then a query with its question mark, then a fragment with its number sign; either of these may
      be missing. */
  predicate Parts(text: Bytes, path: Bytes, query: Bytes, fragment: Bytes) {
    && text == path + query + fragment && '#' !in path && '?' !in path && '#' !in query
    && (query == "" || query[0] == '?') && (fragment == "" || fragment[0] == '#')
  }

  lemma PartsAreFound(text: Bytes, path: Bytes, query: Bytes, fragment: Bytes)
    requires Parts(text, path, query, fragment)
    ensures Before(text, '#') == path + query
    ensures After(text, '#') == if fragment == "" then "" else fragment[1..]
    ensures Before(path + query, '?') == path && From(path + query, '?') == query
  {
    CutAt(path + query, '#', fragment);
    CutAt(path, '?', query);
  }

  lemma {:induction false} IndexOfFirst(a: Bytes, c: char, b: Bytes)
    requires c !in a
    ensures IndexOf(a + [c] + b, c) == |a|
  {
    if a == [] {
    } else {
      assert (a + [c] + b)[0] == a[0] && (a + [c] + b)[1..] == a[1..] + [c] + b;
      IndexOfFirst(a[1..], c, b);
    }
  }

  lemma CutAt(a: Bytes, c: char, b: Bytes)
    requires c !in a && (b == "" || b[0] == c)
    ensures Before(a + b, c) == a && From(a + b, c) == b && After(a + b, c) == if b == "" then "" else b[1..]
  {
    if b == "" {
      assert a + b == a;
      NotFound(a, c);
    } else {
      assert a + b == a + [c] + b[1..];
      IndexOfFirst(a, c, b[1..]);
    }
  }

  predicate Control(s: Bytes) {
    exists i :: 0 <= i < |s| && (s[i] as int < 32 || s[i] as int == 127)
  }

  lemma ControlExactly(s: Bytes)
    ensures HasControl(s) <==> Control(s)
  {
    if HasControl(s) {
      var c :| c in s && (c < ' ' || c as int == 0x7f);
      var i :| 0 <= i < |s| && s[i] == c;
    }
    if i :| 0 <= i < |s| && (s[i] as int < 32 || s[i] as int == 127) {
      assert s[i] in s;
    }
  }

  /** Two slashes at the start, but not three, or a colon before any slash. */
  predicate Elsewhere(path: Bytes) {
    ("//" <= path && !("///" <= path)) || exists i :: 0 <= i < |path| && path[i] == ':' && '/' !in path[..i]
  }

  lemma {:induction false} NotBefore(s: Bytes, c: char, i: nat)
    requires i <= |s| && c !in s[..i]
    ensures IndexOf(s, c) >= i
  {
    if i == 0 {
    } else {
      assert s[..i][0] == s[0] && s[..i][1..] == s[1..][..i - 1];
      NotBefore(s[1..], c, i - 1);
    }
  }

  lemma ColonFirst(path: Bytes, i: nat)
    requires i < |path| && path[i] == ':' && '/' !in path[..i]
    ensures !("/" <= path) && ':' in Before(path, '/')
  {
    assert path[..i + 1] == path[..i] + [':'];
    NotBefore(path, '/', i + 1);
    assert Before(path, '/')[i] == ':';
    assert path[..i + 1][0] == path[0];
  }

  lemma ElsewhereExactly(path: Bytes)
    ensures NamesOrigin(path) <==> Elsewhere(path)
  {
    if i :| 0 <= i < |path| && path[i] == ':' && '/' !in path[..i] {
      ColonFirst(path, i);
    }
    if !("/" <= path) && ':' in Before(path, '/') {
      var k := IndexOf(path, '/');
      var i :| 0 <= i < k && path[..k][i] == ':';
      assert path[..i] == path[..k][..i];
      assert '/' !in path[..i];
    }
  }

  lemma PathIsBytes(path: Bytes, query: Bytes, fragment: Bytes)
    requires IsBytes(path + query + fragment)
    ensures IsBytes(path)
  {
    assert forall i | 0 <= i < |path| :: path[i] == (path + query + fragment)[i];
  }

  /** A trimmed text is refused for a control character before its fragment, for a fragment or a path that does not
      decode, or for naming another origin, the first of these deciding the error; else its path, as it goes on the
      wire, and its query are the reference. */
  lemma ReferenceExactly(text: Bytes, path: Bytes, query: Bytes, fragment: Bytes)
    requires IsBytes(text) && TrimSpace(text) == text && text != "" && Parts(text, path, query, fragment)
    ensures IsBytes(path)
    ensures Reference(text) ==
              if Control(path + query) || (fragment != "" && Percent.Unescape(fragment[1..]).None?) then Err(Unparsable)
              else if Elsewhere(path) then Err(Absolute)
              else if Percent.Unescape(path).None? then Err(Unparsable)
              else Ok(Target(Percent.EscapedPath(path), query))
  {
    PartsAreFound(text, path, query, fragment);
    PathIsBytes(path, query, fragment);
    ControlExactly(path + query);
    ElsewhereExactly(path);
    assert Percent.Unescape("") == Some("");
  }

  /** A blank text is refused, and otherwise only the trimmed text counts. */
  lemma OnlyTheTrimmedCounts(text: Bytes)
    requires IsBytes(text)
    ensures IsBytes(TrimSpace(text))
    ensures TrimSpace(text) == "" ==> Reference(text) == Err(Required)
    ensures TrimSpace(text) != "" ==> Reference(text) == Reference(TrimSpace(text))
  {
    TrimmedBytes(text);
    TrimSpaceTrimmed(text);
  }

  /** How a path goes on the wire: as it is when every character may stand in one, and otherwise encoded afresh; it
      decodes to the same either way. */
  lemma WireFormExactly(path: Bytes)
    requires IsBytes(path) && Percent.Unescape(path).Some?
    ensures (forall c | c in path :: c in PercentTable.PATH_CHARACTERS) ==> Percent.EscapedPath(path) == path
    ensures Percent.Unescape(Percent.EscapedPath(path)) == Percent.Unescape(path)
  {
    forall c ensures Percent.ValidPathChar(c) <==> c in PercentTable.PATH_CHARACTERS {
      PercentTable.SafeExactly(c);
    }
    SameDecoding(path);
  }

  lemma SameDecoding(path: Bytes)
    requires IsBytes(path) && Percent.Unescape(path).Some?
    ensures Percent.Unescape(Percent.EscapedPath(path)) == Percent.Unescape(path)
  {
    if exists c | c in path :: !Percent.ValidPathChar(c) {
      Percent.UnescapedBytes(path);
      Percent.UnescapeEscape(Percent.Unescape(path).value, Percent.PathSafe);
    }
  }
}
