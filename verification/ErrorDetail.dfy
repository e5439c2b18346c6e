/** Error texts made comparable, and the not-found rule that reads them (errors.go). Texts are sequences of code points.
    */
module ErrorDetail {

  // ----- Words -----

  function Lower(r: char): char {
    if 'A' <= r <= 'Z' then r - 'A' + 'a'
    else if r == '\U{0130}' then 'i'
    else if r == '\U{212A}' then 'k'
    else r
  }

  predicate IsPlain(r: char) {
    'a' <= r <= 'z' || '0' <= r <= '9'
  }

  /** Lower-cased, and everything but plain letters and digits blank. */
  function CleanRune(r: char): char {
    if IsPlain(Lower(r)) then Lower(r) else ' '
  }

  function Clean(s: string): string {
    if s == "" then "" else [CleanRune(s[0])] + Clean(s[1..])
  }

  /** The text up to the first blank. */
  function FirstWord(s: string): (w: string)
    ensures |w| <= |s| && (s != "" && s[0] != ' ' ==> w != "")
  {
    if s == "" || s[0] == ' ' then "" else [s[0]] + FirstWord(s[1..])
  }

  /** `strings.Fields`, where the only white space is the blank. */
  function Words(s: string): seq<string>
    decreases |s|
  {
    if s == "" then []
    else if s[0] == ' ' then Words(s[1..])
    else [FirstWord(s)] + Words(s[|FirstWord(s)|..])
  }

  /** `strings.Join` with a blank. */
  function Join(parts: seq<string>): string {
    if |parts| == 0 then ""
    else if |parts| == 1 then parts[0]
    else parts[0] + " " + Join(parts[1..])
  }

  /** `normalizedErrorDetail`. */
  function Detail(parts: seq<string>): string {
    Join(Words(Clean(Join(parts))))
  }

  function CleanWords(parts: seq<string>): seq<string> {
    if parts == [] then [] else Words(Clean(parts[0])) + CleanWords(parts[1..])
  }

  lemma {:induction false} CleanLength(s: string)
    ensures |Clean(s)| == |s|
    ensures forall i | 0 <= i < |s| :: Clean(s)[i] == CleanRune(s[i])
  {
    if s == "" {
    } else {
      CleanLength(s[1..]);
    }
  }

  lemma CleanJoined(a: string, b: string)
    ensures Clean(a + " " + b) == Clean(a) + " " + Clean(b)
  {
    CleanLength(a);
    CleanLength(b);
    CleanLength(a + " " + b);
  }

  lemma {:induction false} FirstWordOf(w: string, rest: string)
    requires ' ' !in w && (rest == "" || rest[0] == ' ')
    ensures FirstWord(w + rest) == w
  {
    if w == "" {
      assert w + rest == rest;
    } else {
      assert (w + rest)[1..] == w[1..] + rest;
      FirstWordOf(w[1..], rest);
    }
  }

  lemma {:induction false} FirstWordShape(s: string)
    ensures ' ' !in FirstWord(s) && FirstWord(s) <= s
    ensures var rest := s[|FirstWord(s)|..]; rest == "" || rest[0] == ' '
  {
    if s == "" || s[0] == ' ' {
    } else {
      var w := FirstWord(s[1..]);
      FirstWordShape(s[1..]);
      assert FirstWord(s) == [s[0]] + w && s[|FirstWord(s)|..] == s[1..][|w|..];
      assert s == [s[0]] + s[1..];
    }
  }

  /** The words of two texts put together are the words of the one, then the words of the other. */
  lemma {:induction false} WordsJoined(a: string, b: string)
    ensures Words(a + " " + b) == Words(a) + Words(b)
    decreases |a|
  {
    var s := a + " " + b;
    if a == "" {
      assert s[1..] == b;
    } else if a[0] == ' ' {
      assert s[1..] == a[1..] + " " + b;
      WordsJoined(a[1..], b);
    } else {
      var w := FirstWord(a);
      FirstWordShape(a);
      var rest := a[|w|..];
      assert s == w + (rest + " " + b) && s[|w|..] == rest + " " + b;
      FirstWordOf(w, rest + " " + b);
      WordsJoined(rest, b);
      assert [w] + Words(rest) + Words(b) == [w] + (Words(rest) + Words(b));
    }
  }

  /** The words of a joined text are the words of its parts, in order. */
  lemma {:induction false} WordsOfParts(parts: seq<string>)
    ensures Words(Clean(Join(parts))) == CleanWords(parts)
  {
    if |parts| == 0 {
    } else if |parts| == 1 {
      assert CleanWords(parts[1..]) == [];
      assert Words(Clean(parts[0])) + [] == Words(Clean(parts[0]));
    } else {
      WordsOfParts(parts[1..]);
      CleanJoined(parts[0], Join(parts[1..]));
      WordsJoined(Clean(parts[0]), Clean(Join(parts[1..])));
    }
  }

  predicate AreWords(ws: seq<string>) {
    forall w | w in ws :: w != "" && forall r | r in w :: IsPlain(r)
  }

  predicate PlainOrBlank(s: string) {
    forall r | r in s :: IsPlain(r) || r == ' '
  }

  lemma {:induction false} WordsAreWords(s: string)
    requires PlainOrBlank(s)
    ensures AreWords(Words(s))
    decreases |s|
  {
    if s == "" {
    } else if s[0] == ' ' {
      WordsAreWords(s[1..]);
    } else {
      var w := FirstWord(s);
      FirstWordShape(s);
      WordsAreWords(s[|w|..]);
      forall r | r in w ensures IsPlain(r) {
        assert r in s;
      }
    }
  }

  lemma CleanIsPlain(s: string)
    ensures PlainOrBlank(Clean(s))
  {
    CleanLength(s);
  }

  lemma {:induction false} OneWord(w: string)
    requires AreWords([w])
    ensures Words(w) == [w]
  {
    assert w in [w];
    FirstWordOf(w, "");
    assert w + "" == w && w[|w|..] == "";
  }

  /** Joined words are recovered. */
  lemma {:induction false} WordsOfJoin(ws: seq<string>)
    requires AreWords(ws)
    ensures Words(Join(ws)) == ws && PlainOrBlank(Join(ws))
  {
    if |ws| == 0 {
    } else {
      assert ws[0] in ws;
      assert forall w | w in ws[1..] :: w in ws;
      OneWord(ws[0]);
      if |ws| > 1 {
        WordsOfJoin(ws[1..]);
        WordsJoined(ws[0], Join(ws[1..]));
      }
      assert ws == [ws[0]] + ws[1..];
    }
  }

  lemma CleanFixed(s: string)
    requires PlainOrBlank(s)
    ensures Clean(s) == s
  {
    CleanLength(s);
    forall i | 0 <= i < |s| ensures Clean(s)[i] == s[i] {
      assert s[i] in s;
    }
  }

  /** The words of a detail are the words of its parts. */
  lemma DetailWords(parts: seq<string>)
    ensures AreWords(CleanWords(parts)) && Detail(parts) == Join(CleanWords(parts))
    ensures Words(Detail(parts)) == CleanWords(parts) && PlainOrBlank(Detail(parts))
  {
    WordsOfParts(parts);
    CleanIsPlain(Join(parts));
    WordsAreWords(Clean(Join(parts)));
    WordsOfJoin(CleanWords(parts));
  }

  /** Normalising is idempotent. */
  lemma DetailIdempotent(parts: seq<string>)
    ensures Detail([Detail(parts)]) == Detail(parts)
  {
    DetailWords(parts);
    CleanFixed(Detail(parts));
  }

  lemma {:induction false} JoinPrefix(a: seq<string>, b: seq<string>)
    ensures Join(a) <= Join(a + b)
  {
    if |a| == 0 {
    } else if |a| == 1 {
      assert (a + b)[1..] == b;
    } else {
      assert (a + b)[0] == a[0] && (a + b)[1..] == a[1..] + b;
      JoinPrefix(a[1..], b);
    }
  }

  lemma {:induction false} CleanWordsConcat(a: seq<string>, b: seq<string>)
    ensures CleanWords(a + b) == CleanWords(a) + CleanWords(b)
  {
    if a == [] {
      assert a + b == b;
    } else {
      assert (a + b)[0] == a[0] && (a + b)[1..] == a[1..] + b;
      CleanWordsConcat(a[1..], b);
    }
  }

  /** The detail of fewer parts is a prefix of the detail of more, and the words it lacks are those of the parts it
      lacks. */
  lemma DetailIsPrefix(parts: seq<string>, more: seq<string>)
    ensures Detail(parts) <= Detail(parts + more)
    ensures Words(Detail(parts + more)) == Words(Detail(parts)) + Words(Detail(more))
  {
    DetailWords(parts);
    DetailWords(more);
    DetailWords(parts + more);
    CleanWordsConcat(parts, more);
    JoinPrefix(CleanWords(parts), CleanWords(more));
  }

  // ----- Looking for words -----

  predicate IsAt(s: string, w: string, i: int) {
    0 <= i <= |s| - |w| && s[i..i + |w|] == w
  }

  /** `strings.Contains`. */
  ghost predicate Contains(s: string, w: string) {
    exists i :: IsAt(s, w, i)
  }

  ghost predicate ContainsAll(s: string, words: seq<string>) {
    forall w | w in words :: Contains(s, w)
  }

  lemma ContainsInPrefix(s: string, t: string, w: string)
    requires s <= t && Contains(s, w)
    ensures Contains(t, w)
  {
    var i :| IsAt(s, w, i);
    assert IsAt(t, w, i) by {
      assert t[i..i + |w|] == s[i..i + |w|];
    }
  }

  // ----- The not-found rule -----

  const SCHEDULED := "with scheduled discovery"
  const COMMAND_GROUP := "custom command group"
  const NOT_FOUND: seq<string> := ["network", "not", "found"]
  const NOT_EXIST: seq<string> := ["network", "does", "not", "exist"]

  ghost predicate MissingChild(detail: string) {
    Contains(detail, SCHEDULED) || COMMAND_GROUP <= detail
  }

  ghost predicate SaysNetworkMissing(detail: string) {
    ContainsAll(detail, NOT_FOUND) || ContainsAll(detail, NOT_EXIST)
  }

  /** The 404 that means a missing network; `resourcePath` says whether the path alone already tells. */
  ghost predicate IsNetworkMissing(detail: string, resourcePath: bool) {
    !MissingChild(detail) && (SaysNetworkMissing(detail) || resourcePath)
  }

  predicate HasAt(s: string, w: string, i: int) {
    0 <= i && i + |w| <= |s| && forall k | 0 <= k < |w| :: s[i + k] == w[k]
  }

  ghost predicate Has(s: string, w: string) {
    exists i :: HasAt(s, w, i)
  }

  lemma ContainsExactly(s: string, w: string)
    ensures Contains(s, w) <==> Has(s, w)
  {
    forall i ensures IsAt(s, w, i) <==> HasAt(s, w, i) {
      if IsAt(s, w, i) {
        assert forall k | 0 <= k < |w| :: s[i..i + |w|][k] == w[k];
      }
    }
  }

  /** The rule in words: nothing about a scheduled discovery, no custom command group in front, and either the path
      tells, or the text has "network", "not" and "found", or "network", "does", "not" and "exist". */
  lemma RuleExactly(detail: string, resourcePath: bool)
    ensures IsNetworkMissing(detail, resourcePath) <==>
              && !Has(detail, "with scheduled discovery") && !HasAt(detail, "custom command group", 0)
              && (|| resourcePath
                  || (Has(detail, "network") && Has(detail, "not") && Has(detail, "found"))
                  || (Has(detail, "network") && Has(detail, "does") && Has(detail, "not") && Has(detail, "exist")))
  {
    ContainsExactly(detail, SCHEDULED);
    ContainsThese(detail);
    assert COMMAND_GROUP <= detail <==> HasAt(detail, COMMAND_GROUP, 0);
  }

  lemma ContainsThese(s: string)
    ensures ContainsAll(s, NOT_FOUND) <==> Has(s, "network") && Has(s, "not") && Has(s, "found")
    ensures ContainsAll(s, NOT_EXIST) <==> Has(s, "network") && Has(s, "does") && Has(s, "not") && Has(s, "exist")
  {
    forall w | w in NOT_FOUND || w in NOT_EXIST ensures Contains(s, w) <==> Has(s, w) {
      ContainsExactly(s, w);
    }
    assert NOT_FOUND[0] in NOT_FOUND && NOT_FOUND[1] in NOT_FOUND && NOT_FOUND[2] in NOT_FOUND;
    assert NOT_EXIST[0] in NOT_EXIST && NOT_EXIST[1] in NOT_EXIST && NOT_EXIST[2] in NOT_EXIST;
    assert NOT_EXIST[3] in NOT_EXIST;
  }

  datatype ErrorText = ErrorText(code: string, reason: string, message: string, body: string)

  function FullDetail(e: ErrorText): string {
    Detail([e.code, e.reason, e.message, e.body])
  }

  /** What the rule reads: the body only when there is no message. */
  function NarrowDetail(e: ErrorText): string {
    if e.message != "" then Detail([e.code, e.reason, e.message]) else FullDetail(e)
  }

  lemma NarrowIsPrefix(e: ErrorText)
    ensures NarrowDetail(e) <= FullDetail(e)
  {
    var parts := [e.code, e.reason, e.message];
    DetailIsPrefix(parts, [e.body]);
    assert parts + [e.body] == [e.code, e.reason, e.message, e.body];
  }

  /** The words read, in order: of the code, the reason and the message, and of the body when there is no message; the
      full text has those of all four. */
  lemma WordsRead(e: ErrorText)
    ensures Words(FullDetail(e)) ==
              Words(Clean(e.code)) + Words(Clean(e.reason)) + Words(Clean(e.message)) + Words(Clean(e.body))
    ensures Words(NarrowDetail(e)) ==
              Words(Clean(e.code)) + Words(Clean(e.reason)) + Words(Clean(e.message)) +
                (if e.message == "" then Words(Clean(e.body)) else [])
  {
    ThreeAndOne(e.code, e.reason, e.message, e.body);
    DetailWords([e.code, e.reason, e.message, e.body]);
    DetailWords([e.code, e.reason, e.message]);
  }

  lemma ThreeAndOne(a: string, b: string, c: string, d: string)
    ensures CleanWords([a, b, c]) == Words(Clean(a)) + Words(Clean(b)) + Words(Clean(c))
    ensures CleanWords([a, b, c, d]) == Words(Clean(a)) + Words(Clean(b)) + Words(Clean(c)) + Words(Clean(d))
  {
    assert [a, b, c] == [a] + [b] + [c] && [a, b, c, d] == [a] + [b] + [c] + [d];
    CleanWordsConcat([a], [b]);
    CleanWordsConcat([a] + [b], [c]);
    CleanWordsConcat([a] + [b] + [c], [d]);
    OnePart(a);
    OnePart(b);
    OnePart(c);
    OnePart(d);
  }

  /** The narrowed text never says more than the full one. */
  lemma NarrowSaysLess(e: ErrorText)
    ensures SaysNetworkMissing(NarrowDetail(e)) ==> SaysNetworkMissing(FullDetail(e))
    ensures MissingChild(NarrowDetail(e)) ==> MissingChild(FullDetail(e))
  {
    var narrow, full := NarrowDetail(e), FullDetail(e);
    NarrowIsPrefix(e);
    forall w | Contains(narrow, w) ensures Contains(full, w) {
      ContainsInPrefix(narrow, full, w);
    }
  }

  /** Where the narrowed rule decides for a missing network, the rule on the full text agrees exactly when the full text
      names no missing child. */
  lemma NarrowedRuleExactly(e: ErrorText, resourcePath: bool)
    requires IsNetworkMissing(NarrowDetail(e), resourcePath)
    ensures IsNetworkMissing(FullDetail(e), resourcePath) <==> !MissingChild(FullDetail(e))
  {
    NarrowSaysLess(e);
  }

  const SCHEDULED_WORDS := ["with", "scheduled", "discovery"]

  /** A body that reads as JSON with this message, and a hint about a scheduled discovery. */
  const HINT_OPEN: string := "{\"message\":\"network not found\",\"hint\":\"one"
  const HINT_CLOSE: string := "exists\"}"
  const HINTED: ErrorText := WithSchedule(Join(NOT_FOUND), HINT_OPEN, HINT_CLOSE)

  /** The message alone says a network is missing; the body it was read from, which goes on about a scheduled discovery,
      takes that back. */
  lemma NarrowedCanDiffer()
    ensures HINTED.message == "network not found"
    ensures HINTED.body == HINT_OPEN + " " + "with scheduled discovery" + " " + HINT_CLOSE
    ensures IsNetworkMissing(NarrowDetail(HINTED), false) && !IsNetworkMissing(FullDetail(HINTED), false)
  {
    MessageSpelledOut();
    MessageIsItsDetail();
    MessageDecides();
    PhraseSpelledOut();
    BodyTakesBack(Join(NOT_FOUND), HINT_OPEN, HINT_CLOSE);
  }

  lemma MessageIsItsDetail()
    ensures Detail(["", "", Join(NOT_FOUND)]) == Join(NOT_FOUND)
  {
    PlainTexts();
    WordsAgain(NOT_FOUND);
    FourParts(Join(NOT_FOUND), "");
  }

  function WithSchedule(message: string, open: string, close: string): ErrorText {
    ErrorText("", "", message, open + " " + Join(SCHEDULED_WORDS) + " " + close)
  }

  lemma BodyTakesBack(message: string, open: string, close: string)
    requires message != "" && IsNetworkMissing(Detail(["", "", message]), false)
    ensures var e := WithSchedule(message, open, close);
            IsNetworkMissing(NarrowDetail(e), false) && !IsNetworkMissing(FullDetail(e), false)
  {
    PlainTexts();
    PhraseSpelledOut();
    BodyKeepsPhrase(message, open, SCHEDULED_WORDS, close);
  }

  /** Words that stand together in the body, set off by blanks, stand together in the full detail. */
  lemma BodyKeepsPhrase(message: string, open: string, phrase: seq<string>, close: string)
    requires AreWords(phrase) && phrase != []
    ensures Contains(Detail(["", "", message, open + " " + Join(phrase) + " " + close]), Join(phrase))
  {
    var body := open + " " + Join(phrase) + " " + close;
    FourParts(message, body);
    BodyWords(open, phrase, close);
    Regroup(Words(Clean(message)), Words(Clean(open)), phrase, Words(Clean(close)));
    JoinKeepsPhrase(Words(Clean(message)) + Words(Clean(open)), phrase, Words(Clean(close)));
  }

  lemma Regroup(a: seq<string>, b: seq<string>, c: seq<string>, d: seq<string>)
    ensures a + (b + c + d) == (a + b) + c + d
  {
  }

  lemma BodyWords(open: string, phrase: seq<string>, close: string)
    requires AreWords(phrase)
    ensures Words(Clean(open + " " + Join(phrase) + " " + close)) == Words(Clean(open)) + phrase + Words(Clean(close))
  {
    var front := open + " " + Join(phrase);
    CleanJoined(front, close);
    WordsJoined(Clean(front), Clean(close));
    CleanJoined(open, Join(phrase));
    WordsJoined(Clean(open), Clean(Join(phrase)));
    WordsAgain(phrase);
  }

  lemma JoinKeepsPhrase(a: seq<string>, phrase: seq<string>, b: seq<string>)
    requires phrase != []
    ensures Contains(Join(a + phrase + b), Join(phrase))
  {
    var rest := Join(phrase + b);
    JoinPrefix(phrase, b);
    assert a + phrase + b == a + (phrase + b);
    if a == [] {
      assert a + (phrase + b) == phrase + b;
      PrefixAfter("", rest, Join(phrase));
      assert "" + rest == rest;
    } else {
      JoinAppend(a, phrase + b);
      PrefixAfter(Join(a) + " ", rest, Join(phrase));
    }
  }

  lemma PrefixAfter(front: string, rest: string, w: string)
    requires w <= rest
    ensures Contains(front + rest, w)
  {
    assert (front + rest)[|front|..|front| + |w|] == w;
    assert IsAt(front + rest, w, |front|);
  }

  lemma PhraseSpelledOut()
    ensures Join(SCHEDULED_WORDS) == SCHEDULED
  {
  }

  lemma PlainTexts()
    ensures AreWords(NOT_FOUND) && AreWords(SCHEDULED_WORDS)
  {
  }

  lemma WordsAgain(ws: seq<string>)
    requires AreWords(ws)
    ensures Words(Clean(Join(ws))) == ws
  {
    WordsOfJoin(ws);
    CleanFixed(Join(ws));
  }

  lemma OnePart(text: string)
    ensures CleanWords([text]) == Words(Clean(text))
  {
    assert CleanWords([text]) == Words(Clean(text)) + CleanWords([text][1..]);
  }

  lemma BlankParts(parts: seq<string>)
    ensures CleanWords(["", ""] + parts) == CleanWords(parts)
  {
    OnePart("");
    CleanWordsConcat([""], [""]);
    CleanWordsConcat(["", ""], parts);
    assert [""] + [""] == ["", ""];
  }

  lemma FourParts(message: string, body: string)
    ensures Detail(["", "", message]) == Join(Words(Clean(message)))
    ensures Detail(["", "", message, body]) == Join(Words(Clean(message)) + Words(Clean(body)))
  {
    assert ["", ""] + [message] == ["", "", message];
    assert ["", ""] + [message, body] == ["", "", message, body] && [message] + [body] == [message, body];
    DetailWords(["", ""] + [message]);
    DetailWords(["", ""] + [message, body]);
    BlankParts([message]);
    BlankParts([message, body]);
    CleanWordsConcat([message], [body]);
    OnePart(message);
    OnePart(body);
  }

  lemma {:induction false} JoinAppend(a: seq<string>, b: seq<string>)
    requires a != [] && b != []
    ensures Join(a + b) == Join(a) + " " + Join(b)
  {
    if |a| == 1 {
      assert (a + b)[1..] == b;
    } else {
      assert (a + b)[0] == a[0] && (a + b)[1..] == a[1..] + b;
      JoinAppend(a[1..], b);
    }
  }

  lemma MessageSpelledOut()
    ensures Join(NOT_FOUND) == "network not found"
  {
  }

  lemma MessageDecides()
    ensures IsNetworkMissing("network not found", false)
  {
    var detail := "network not found";
    assert IsAt(detail, "network", 0);
    assert IsAt(detail, "not", 8);
    assert IsAt(detail, "found", 12);
    assert forall i :: !IsAt(detail, SCHEDULED, i);
  }

  // ----- As written -----

  method NormalizedErrorDetail(parts: seq<string>) returns (detail: string)
    ensures detail == Detail(parts)
  {
    var joined := Join(parts);
    var out := "";
    CleanLength(joined);
    for i := 0 to |joined|
      invariant out == Clean(joined)[..i]
    {
      var r := Lower(joined[i]);
      out := out + if ('a' <= r <= 'z' || '0' <= r <= '9') then [r] else " ";
    }
    assert out == Clean(joined);
    return Join(Words(out));
  }

  method ContainsWords(detail: string, words: seq<string>) returns (ok: bool)
    ensures ok <==> ContainsAll(detail, words)
  {
    for i := 0 to |words|
      invariant forall k | 0 <= k < i :: Contains(detail, words[k])
    {
      var found := Find(detail, words[i]);
      if !found {
        assert words[i] in words;
        return false;
      }
    }
    return true;
  }

  method Find(s: string, w: string) returns (ok: bool)
    ensures ok <==> Contains(s, w)
  {
    if |w| > |s| {
      return false;
    }
    for i := 0 to |s| - |w| + 1
      invariant forall k | 0 <= k < i :: !IsAt(s, w, k)
    {
      if s[i..i + |w|] == w {
        assert IsAt(s, w, i);
        return true;
      }
    }
    return false;
  }
}
