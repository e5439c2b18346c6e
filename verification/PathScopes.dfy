/** Paths by their segments (section 3.3 of RFC 3986): splitting at slashes, and what each scope holds (client.go). */
module PathScopes {
  import opened GoBytes
  import opened DotSegments
  import opened RequestPaths

  // ----- Splitting -----

  lemma SplitOne(s: Bytes)
    requires '/' !in s
    ensures Split(s) == [s]
  {
    SlashAtFirst(s, []);
    assert s + [] == s;
  }

  lemma SplitHead(segment: Bytes, rest: Bytes)
    requires '/' !in segment
    ensures Split(segment + "/" + rest) == [segment] + Split(rest)
  {
    var (s, n) := (segment + "/" + rest, |segment|);
    assert s == segment + ("/" + rest);
    SlashAtFirst(segment, "/" + rest);
    assert s[..n] == segment && s[n + 1..] == rest;
  }

  lemma CutAtSlash(a: Bytes) returns (segment: Bytes, rest: Bytes)
    requires '/' in a
    ensures a == segment + "/" + rest && '/' !in segment
  {
    var i := SlashAt(a);
    segment, rest := a[..i], a[i + 1..];
  }

  lemma Regroup<T>(a: seq<T>, b: seq<T>, c: seq<T>)
    ensures a + b + c == a + (b + c)
  {
  }

  lemma OneMore(segment: Bytes, rest: Bytes, tail: Bytes, b: Bytes)
    requires '/' !in segment && Split(tail) == Split(rest) + Split(b)
    ensures Split(segment + "/" + tail) == Split(segment + "/" + rest) + Split(b)
  {
    SplitHead(segment, tail);
    SplitHead(segment, rest);
    Regroup([segment], Split(rest), Split(b));
  }

  lemma SlashesRegroup(segment: Bytes, rest: Bytes, b: Bytes)
    ensures segment + "/" + rest + "/" + b == segment + "/" + (rest + "/" + b)
  {
  }

  /** A slash splits a text into the segments before it and those after. */
  lemma {:induction false} SplitAtSlash(a: Bytes, b: Bytes)
    ensures Split(a + "/" + b) == Split(a) + Split(b)
    decreases |a|
  {
    if '/' !in a {
      SplitHead(a, b);
      SplitOne(a);
    } else {
      var segment, rest := CutAtSlash(a);
      SplitAtSlash(rest, b);
      OneMore(segment, rest, rest + "/" + b, b);
      SlashesRegroup(segment, rest, b);
    }
  }

  // ----- Scopes -----

  /** The text of segments, with no slash before the first. */
  function Joined(segs: seq<Bytes>): Bytes
    requires segs != []
  {
    Flat(segs)[1..]
  }

  lemma SplitIs(e: Bytes, segs: seq<Bytes>)
    requires segs != [] && Segments(segs)
    ensures Split(e) == segs <==> e == Joined(segs)
  {
    SplitFlat(segs);
    FlatSplit(e);
    assert (['/'] + e)[1..] == e;
  }

  lemma BeginsWithText(e: Bytes, segs: seq<Bytes>)
    requires segs != [] && Segments(segs) && Joined(segs) + "/" <= e
    ensures segs < Split(e)
  {
    var j := Joined(segs);
    var rest := e[|j| + 1..];
    assert e == j + "/" + rest;
    SplitAtSlash(j, rest);
    SplitIs(j, segs);
  }

  lemma BeginsWithSegments(e: Bytes, segs: seq<Bytes>, rest: seq<Bytes>)
    requires segs != [] && rest != [] && Split(e) == segs + rest
    ensures Joined(segs) + "/" <= e
  {
    FlatSplit(e);
    FlatConcat(segs, rest);
    AfterSlash(e, Flat(segs), Flat(rest));
  }

  lemma AfterSlash(e: Bytes, x: Bytes, f: Bytes)
    requires ['/'] + e == x + f && x != [] && f != [] && f[0] == '/'
    ensures x[1..] + "/" <= e
  {
    assert e == (['/'] + e)[1..] == x[1..] + f;
    assert (x[1..] + f)[..|x|] == x[1..] + f[..1];
  }

  /** A text begins with these segments, and goes on, exactly when it begins with their text and a slash. */
  lemma SplitBegins(e: Bytes, segs: seq<Bytes>)
    requires segs != [] && Segments(segs)
    ensures segs < Split(e) <==> Joined(segs) + "/" <= e
  {
    if Joined(segs) + "/" <= e {
      BeginsWithText(e, segs);
    }
    if segs < Split(e) {
      assert Split(e) == segs + Split(e)[|segs|..];
      BeginsWithSegments(e, segs, Split(e)[|segs|..]);
    }
  }

  // The text of two to four segments.

  lemma Two(e: Bytes, a: Bytes, b: Bytes, text: Bytes)
    requires '/' !in a && '/' !in b && text == a + "/" + b
    ensures Split(e) == [a, b] <==> e == text
    ensures [a, b] < Split(e) <==> text + "/" <= e
  {
    TwoJoined(a, b);
    SplitIs(e, [a, b]);
    SplitBegins(e, [a, b]);
  }

  lemma TwoJoined(a: Bytes, b: Bytes)
    ensures Joined([a, b]) == a + "/" + b
  {
    assert Flat([b]) == "/" + b + Flat([]);
    assert [a, b][1..] == [b];
  }

  lemma Three(e: Bytes, a: Bytes, b: Bytes, c: Bytes, text: Bytes)
    requires '/' !in a && '/' !in b && '/' !in c && text == a + "/" + b + "/" + c
    ensures Split(e) == [a, b, c] <==> e == text
    ensures [a, b, c] < Split(e) <==> text + "/" <= e
  {
    ThreeJoined(a, b, c);
    SplitIs(e, [a, b, c]);
    SplitBegins(e, [a, b, c]);
  }

  lemma ThreeJoined(a: Bytes, b: Bytes, c: Bytes)
    ensures Joined([a, b, c]) == a + "/" + b + "/" + c
  {
    TwoJoined(b, c);
    assert [a, b, c][1..] == [b, c];
    assert Flat([b, c]) == "/" + (b + "/" + c);
  }

  lemma Four(e: Bytes, a: Bytes, b: Bytes, c: Bytes, d: Bytes, text: Bytes)
    requires '/' !in a && '/' !in b && '/' !in c && '/' !in d && text == a + "/" + b + "/" + c + "/" + d
    ensures Split(e) == [a, b, c, d] <==> e == text
    ensures [a, b, c, d] < Split(e) <==> text + "/" <= e
  {
    FourJoined(a, b, c, d);
    SplitIs(e, [a, b, c, d]);
    SplitBegins(e, [a, b, c, d]);
  }

  lemma FourJoined(a: Bytes, b: Bytes, c: Bytes, d: Bytes)
    ensures Joined([a, b, c, d]) == a + "/" + b + "/" + c + "/" + d
  {
    ThreeJoined(b, c, d);
    assert [a, b, c, d][1..] == [b, c, d];
    assert Flat([b, c, d]) == "/" + (b + "/" + c + "/" + d);
  }

  // The routes named, as texts.

  lemma ApiText()
    ensures "" + "/" + "api" == "/api"
    ensures '/' !in "api"
  {
  }

  lemma LoginText()
    ensures "" + "/" + "login" == "/login"
    ensures '/' !in "login"
  {
  }

  lemma BackupSettingsText()
    ensures "" + "/" + "api" + "/" + "backup-settings" == "/api/backup-settings"
    ensures '/' !in "api" && '/' !in "backup-settings"
  {
    assert "" + "/" + "api" == "/api";
  }

  lemma BackupsText()
    ensures "" + "/" + "api" + "/" + "backups" == "/api/backups"
    ensures '/' !in "api" && '/' !in "backups"
  {
    assert "" + "/" + "api" == "/api";
  }

  lemma BackupStorageText()
    ensures "" + "/" + "api" + "/" + "backup-settings" + "/" + "storage" == "/api/backup-settings/storage"
    ensures '/' !in "api" && '/' !in "backup-settings" && '/' !in "storage"
  {
    assert "" + "/" + "api" == "/api";
    assert "" + "/" + "api" + "/" + "backup-settings" == "/api/backup-settings";
  }

  lemma PublicCsrfText()
    ensures "" + "/" + "public" + "/" + "csrf" == "/public/csrf"
    ensures '/' !in "public" && '/' !in "csrf"
  {
    assert "" + "/" + "public" == "/public";
  }

  lemma AuthenticateText()
    ensures "" + "/" + "saml2" + "/" + "authenticate" == "/saml2/authenticate"
    ensures '/' !in "saml2" && '/' !in "authenticate"
  {
    assert "" + "/" + "saml2" == "/saml2";
  }

  lemma SingleSignOnText()
    ensures "" + "/" + "login" + "/" + "saml2" + "/" + "sso" == "/login/saml2/sso"
    ensures '/' !in "login" && '/' !in "saml2" && '/' !in "sso"
  {
    assert "" + "/" + "login" == "/login";
    assert "" + "/" + "login" + "/" + "saml2" == "/login/saml2";
  }

  /** What each scope holds, by segments: everything under "api"; three backup routes alone; and "api" with the four
      routes of a sign-in. */
  lemma ScopesExactly(e: Bytes)
    ensures Allowed(e, Api) <==> ["", "api"] <= Split(e)
    ensures Allowed(e, Backup) <==>
              || Split(e) == ["", "api", "backup-settings"] || Split(e) == ["", "api", "backup-settings", "storage"]
              || Split(e) == ["", "api", "backups"]
    ensures Allowed(e, Browser) <==>
              || ["", "api"] <= Split(e) || Split(e) == ["", "login"] || Split(e) == ["", "public", "csrf"]
              || ["", "saml2", "authenticate"] < Split(e) || ["", "login", "saml2", "sso"] < Split(e)
  {
    ApiScope(e);
    BackupScope(e);
    SignInScope(e);
  }

  lemma ApiScope(e: Bytes)
    ensures Allowed(e, Api) <==> ["", "api"] <= Split(e)
  {
    ApiText();
    Two(e, "", "api", "/api");
    assert "/api" + "/" == "/api/";
  }

  lemma BackupSettings(e: Bytes)
    ensures ["", "api", "backup-settings"] == Split(e) <==> e == "/api/backup-settings"
  {
    BackupSettingsText();
    Three(e, "", "api", "backup-settings", "/api/backup-settings");
  }

  lemma BackupStorage(e: Bytes)
    ensures ["", "api", "backup-settings", "storage"] == Split(e) <==> e == "/api/backup-settings/storage"
  {
    BackupStorageText();
    Four(e, "", "api", "backup-settings", "storage", "/api/backup-settings/storage");
  }

  lemma Backups(e: Bytes)
    ensures ["", "api", "backups"] == Split(e) <==> e == "/api/backups"
  {
    BackupsText();
    Three(e, "", "api", "backups", "/api/backups");
  }

  lemma Login(e: Bytes)
    ensures ["", "login"] == Split(e) <==> e == "/login"
  {
    LoginText();
    Two(e, "", "login", "/login");
  }

  lemma PublicCsrf(e: Bytes)
    ensures ["", "public", "csrf"] == Split(e) <==> e == "/public/csrf"
  {
    PublicCsrfText();
    Three(e, "", "public", "csrf", "/public/csrf");
  }

  lemma Authenticate(e: Bytes)
    ensures ["", "saml2", "authenticate"] < Split(e) <==> "/saml2/authenticate/" <= e
  {
    AuthenticateText();
    Three(e, "", "saml2", "authenticate", "/saml2/authenticate");
    assert "/saml2/authenticate" + "/" == "/saml2/authenticate/";
  }

  lemma SingleSignOn(e: Bytes)
    ensures ["", "login", "saml2", "sso"] < Split(e) <==> "/login/saml2/sso/" <= e
  {
    SingleSignOnText();
    Four(e, "", "login", "saml2", "sso", "/login/saml2/sso");
    assert "/login/saml2/sso" + "/" == "/login/saml2/sso/";
  }

  lemma BackupScope(e: Bytes)
    ensures Allowed(e, Backup) <==>
              || Split(e) == ["", "api", "backup-settings"] || Split(e) == ["", "api", "backup-settings", "storage"]
              || Split(e) == ["", "api", "backups"]
  {
    BackupSettings(e);
    BackupStorage(e);
    Backups(e);
  }

  lemma SignInScope(e: Bytes)
    ensures Allowed(e, Browser) <==>
              || Allowed(e, Api) || Split(e) == ["", "login"] || Split(e) == ["", "public", "csrf"]
              || ["", "saml2", "authenticate"] < Split(e) || ["", "login", "saml2", "sso"] < Split(e)
  {
    Login(e);
    PublicCsrf(e);
    Authenticate(e);
    SingleSignOn(e);
  }
}
