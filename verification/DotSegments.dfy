/** Removal of dot segments: the string algorithm of section 5.2.4 of RFC 3986, the stack machine over segments it
    amounts to for absolute paths, and which paths it leaves alone. */
module DotSegments {
  import opened GoBytes

  // ----- Paths as lists of segments -----

  predicate IsDot(segment: Bytes) {
    segment == "." || segment == ".."
  }

  predicate Segments(segs: seq<Bytes>) {
    forall i | 0 <= i < |segs| :: '/' !in segs[i]
  }

  predicate NoDots(segs: seq<Bytes>) {
    forall i | 0 <= i < |segs| :: !IsDot(segs[i])
  }

  /** "/a/b" for ["a", "b"]. */
  function Flat(segs: seq<Bytes>): (p: Bytes)
    ensures segs != [] ==> p != [] && p[0] == '/'
    ensures segs == [] ==> p == []
  {
    if segs == [] then [] else ['/'] + segs[0] + Flat(segs[1..])
  }

  /** How far the first slash is, |s| when there is none. */
  function SlashAt(s: Bytes): (i: nat)
    ensures i <= |s| && '/' !in s[..i]
    ensures i < |s| ==> s[i] == '/'
  {
    if s == [] || s[0] == '/' then 0 else 1 + SlashAt(s[1..])
  }

  /** `strings.Split(s, "/")`. */
  function Split(s: Bytes): (segs: seq<Bytes>)
    ensures |segs| >= 1 && Segments(segs)
    decreases |s|
  {
    var i := SlashAt(s);
    if i == |s| then [s] else [s[..i]] + Split(s[i + 1..])
  }

  lemma FlatCons(segment: Bytes, tail: seq<Bytes>, rest: Bytes)
    requires Flat(tail) == rest
    ensures Flat([segment] + tail) == ['/'] + (segment + rest)
  {
    assert ([segment] + tail)[1..] == tail;
  }

  lemma FlatOne(segment: Bytes)
    ensures Flat([segment]) == ['/'] + segment
  {
    assert Flat([segment]) == ['/'] + segment + Flat([]);
  }

  lemma {:induction false} FlatSplit(s: Bytes)
    ensures Flat(Split(s)) == ['/'] + s
    decreases |s|
  {
    var i := SlashAt(s);
    if i == |s| {
      FlatOne(s);
    } else {
      var head, rest := s[..i], s[i + 1..];
      var tail := Split(rest);
      FlatSplit(rest);
      assert s == head + (['/'] + rest);
      FlatCons(head, tail, ['/'] + rest);
    }
  }

  lemma {:induction false} SlashAtFirst(head: Bytes, rest: Bytes)
    requires '/' !in head
    requires rest == [] || rest[0] == '/'
    ensures SlashAt(head + rest) == |head|
  {
    if head != [] {
      assert (head + rest)[1..] == head[1..] + rest;
      SlashAtFirst(head[1..], rest);
    } else {
      assert head + rest == rest;
    }
  }

  lemma {:induction false} SplitFlat(segs: seq<Bytes>)
    requires segs != [] && Segments(segs)
    ensures Split(Flat(segs)[1..]) == segs
  {
    var s, rest := Flat(segs)[1..], Flat(segs[1..]);
    assert s == segs[0] + rest;
    SlashAtFirst(segs[0], rest);
    if |segs| > 1 {
      SplitFlat(segs[1..]);
      assert s[|segs[0]|] == rest[0] == '/';
      assert s[..|segs[0]|] == segs[0] && s[|segs[0]| + 1..] == rest[1..];
    } else {
      assert s == segs[0];
    }
  }

  lemma {:induction false} FlatConcat(a: seq<Bytes>, b: seq<Bytes>)
    ensures Flat(a + b) == Flat(a) + Flat(b)
  {
    if a == [] {
      assert a + b == b;
    } else {
      assert (a + b)[1..] == a[1..] + b;
      FlatConcat(a[1..], b);
    }
  }

  // ----- Section 5.2.4 of RFC 3986 -----

  /** Where the last slash is, -1 when there is none. */
  function LastSlash(s: Bytes): (i: int)
    ensures -1 <= i < |s|
  {
    if s == [] then -1
    else if s[|s| - 1] == '/' then |s| - 1
    else LastSlash(s[..|s| - 1])
  }

  /** The output buffer without its last segment and the slash before that. */
  function DropLast(output: Bytes): Bytes {
    var i := LastSlash(output);
    if i < 0 then [] else output[..i]
  }

  /** Steps 2A to 2E, moving the input buffer to the output buffer. */
  function Remove(input: Bytes, output: Bytes): Bytes
    decreases |input|
  {
    if input == [] then output
    else if "../" <= input then Remove(input[3..], output)                // 2A
    else if "./" <= input then Remove(input[2..], output)                 // 2A
    else if "/./" <= input then Remove(input[2..], output)                // 2B
    else if input == "/." then Remove("/", output)                        // 2B
    else if "/../" <= input then Remove(input[3..], DropLast(output))     // 2C
    else if input == "/.." then Remove("/", DropLast(output))             // 2C
    else if input == "." || input == ".." then Remove([], output)         // 2D
    else                                                                  // 2E
      var n := if input[0] == '/' then 1 + SlashAt(input[1..]) else SlashAt(input);
      Remove(input[n..], output + input[..n])
  }

  function RemoveDotSegments(path: Bytes): Bytes {
    Remove(path, [])
  }

  /** The first step on an input without a leading slash: a dot segment in front, or alone, goes. */
  lemma RelativeStart(rest: Bytes, output: Bytes)
    ensures Remove("../" + rest, output) == Remove(rest, output) && Remove("./" + rest, output) == Remove(rest, output)
    ensures Remove(".", output) == Remove("..", output) == output
  {
    assert ("../" + rest)[3..] == rest && ("./" + rest)[2..] == rest;
    assert ("./" + rest)[1] == '/' && "../"[1] == '.';
    assert "."[0] == '.' && ".."[1] == '.' && "../"[2] == '/' && "./"[1] == '/';
    assert Remove([], output) == output;
  }

  // ----- The same on segments -----

  function Front(segs: seq<Bytes>): seq<Bytes> {
    if segs == [] then [] else segs[..|segs| - 1]
  }

  function Process(input: seq<Bytes>, stack: seq<Bytes>): seq<Bytes>
    decreases |input|
  {
    if input == [] then stack
    else if input[0] == "." then
      if |input| == 1 then stack + [""] else Process(input[1..], stack)
    else if input[0] == ".." then
      if |input| == 1 then Front(stack) + [""] else Process(input[1..], Front(stack))
    else Process(input[1..], stack + [input[0]])
  }

  lemma {:induction false} LastSlashOf(head: Bytes, segment: Bytes)
    requires '/' !in segment
    ensures LastSlash(head + ['/'] + segment) == |head|
    decreases |segment|
  {
    var s := head + ['/'] + segment;
    if segment == [] {
    } else {
      assert s[..|s| - 1] == head + ['/'] + segment[..|segment| - 1];
      LastSlashOf(head, segment[..|segment| - 1]);
    }
  }

  lemma DropLastSegment(stack: seq<Bytes>)
    requires Segments(stack)
    ensures DropLast(Flat(stack)) == Flat(Front(stack))
  {
    if stack != [] {
      var last := stack[|stack| - 1];
      assert stack == Front(stack) + [last];
      FlatConcat(Front(stack), [last]);
      assert Flat([last]) == ['/'] + last + Flat([]);
      assert Flat(stack) == Flat(Front(stack)) + ['/'] + last;
      LastSlashOf(Flat(Front(stack)), last);
    }
  }

  /** The input buffer "/s..." where s is the first segment. */
  function Rooted(segment: Bytes, rest: Bytes): Bytes {
    ['/'] + segment + rest
  }

  function OrSlash(rest: Bytes): Bytes {
    if rest == [] then "/" else rest
  }

  /** Steps 2A and 2D never apply to a rooted buffer. */
  lemma RootedIsNotRelative(segment: Bytes, rest: Bytes)
    ensures var input := Rooted(segment, rest);
            !("../" <= input) && !("./" <= input) && input != "." && input != ".."
  {
    assert Rooted(segment, rest)[0] == '/';
    assert "../"[0] == '.' && "./"[0] == '.';
  }

  lemma RemoveStepDot(rest: Bytes, output: Bytes)
    requires rest == [] || rest[0] == '/'
    ensures Remove(Rooted(".", rest), output) == Remove(OrSlash(rest), output)
  {
    var input := Rooted(".", rest);
    RootedIsNotRelative(".", rest);
    assert input[2..] == rest;
    if rest != [] {
      assert input[..3] == "/./";
    } else {
      assert input == "/.";
    }
  }

  lemma RemoveStepDotDot(rest: Bytes, output: Bytes)
    requires rest == [] || rest[0] == '/'
    ensures Remove(Rooted("..", rest), output) == Remove(OrSlash(rest), DropLast(output))
  {
    var input := Rooted("..", rest);
    RootedIsNotRelative("..", rest);
    assert input[3..] == rest;
    assert input[2] == '.' && "/./"[2] == '/';
    if rest != [] {
      assert input[..4] == "/../";
    } else {
      assert input == "/..";
    }
  }

  lemma RemoveStepOther(segment: Bytes, rest: Bytes, output: Bytes)
    requires '/' !in segment && !IsDot(segment)
    requires rest == [] || rest[0] == '/'
    ensures Remove(Rooted(segment, rest), output) == Remove(rest, output + (['/'] + segment))
  {
    var input, n := Rooted(segment, rest), 1 + |segment|;
    NotDotPrefix(segment, rest);
    RootedIsNotRelative(segment, rest);
    SlashAtFirst(segment, rest);
    assert input[1..] == segment + rest;
    assert input[..n] == ['/'] + segment && input[n..] == rest;
    assert Remove(input, output) == Remove(input[n..], output + input[..n]);
  }

  lemma NotDotPrefix(segment: Bytes, rest: Bytes)
    requires '/' !in segment && !IsDot(segment)
    requires rest == [] || rest[0] == '/'
    ensures !("/./" <= Rooted(segment, rest)) && Rooted(segment, rest) != "/."
    ensures !("/../" <= Rooted(segment, rest)) && Rooted(segment, rest) != "/.."
  {
    var input := Rooted(segment, rest);
    assert segment + rest == input[1..];
    if "/./" <= input || input == "/." {
      FirstSegmentIs(".", segment, rest);
    } else if "/../" <= input || input == "/.." {
      FirstSegmentIs("..", segment, rest);
    }
  }

  lemma FirstSegmentIs(dots: Bytes, segment: Bytes, rest: Bytes)
    requires '/' !in dots && '/' !in segment
    requires rest == [] || rest[0] == '/'
    requires ['/'] + dots + "/" <= Rooted(segment, rest) || Rooted(segment, rest) == ['/'] + dots
    ensures segment == dots
  {
    var input := Rooted(segment, rest);
    SlashAtFirst(segment, rest);
    var tail := input[1 + |dots|..];
    assert input[1..] == segment + rest;
    assert input[1..] == dots + tail;
    SlashAtFirst(dots, tail);
    assert segment == (segment + rest)[..|segment|];
  }

  /** On absolute paths the string algorithm is the stack machine. */
  lemma {:induction false} RemoveIsProcess(input: seq<Bytes>, stack: seq<Bytes>)
    requires Segments(input) && Segments(stack)
    ensures Remove(Flat(input), Flat(stack)) == Flat(Process(input, stack))
    decreases |input|
  {
    if input == [] {
    } else {
      var segment, rest := input[0], Flat(input[1..]);
      if IsDot(segment) {
        var next := if segment == "." then stack else Front(stack);
        RemoveStepDot(rest, Flat(stack));
        RemoveStepDotDot(rest, Flat(stack));
        DropLastSegment(stack);
        assert Remove(Flat(input), Flat(stack)) == Remove(OrSlash(rest), Flat(next));
        if |input| == 1 {
          RemoveSlash(next);
        } else {
          RemoveIsProcess(input[1..], next);
        }
      } else {
        RemoveStepOther(segment, rest, Flat(stack));
        FlatConcat(stack, [segment]);
        assert Flat([segment]) == ['/'] + segment;
        RemoveIsProcess(input[1..], stack + [segment]);
      }
    }
  }

  /** A path that ends in a dot segment ends in a slash. */
  lemma RemoveSlash(stack: seq<Bytes>)
    ensures Remove("/", Flat(stack)) == Flat(stack + [""])
  {
    RemoveStepOther("", "", Flat(stack));
    assert Rooted("", "") == "/" && ['/'] + "" == "/";
    FlatConcat(stack, [""]);
    assert Flat([""]) == ['/'] + "" + Flat([]);
  }

  lemma {:induction false} ProcessLeavesNoDots(input: seq<Bytes>, stack: seq<Bytes>)
    requires NoDots(stack)
    ensures NoDots(Process(input, stack))
    decreases |input|
  {
    if input == [] {
    } else {
      if IsDot(input[0]) {
        if |input| > 1 {
          ProcessLeavesNoDots(input[1..], if input[0] == "." then stack else Front(stack));
        }
      } else {
        ProcessLeavesNoDots(input[1..], stack + [input[0]]);
      }
    }
  }

  lemma {:induction false} ProcessKeeps(input: seq<Bytes>, stack: seq<Bytes>)
    requires NoDots(input)
    ensures Process(input, stack) == stack + input
    decreases |input|
  {
    if input == [] {
    } else {
      ProcessKeeps(input[1..], stack + [input[0]]);
      assert stack + [input[0]] + input[1..] == stack + input;
    }
  }

  lemma FlatInjective(a: seq<Bytes>, b: seq<Bytes>)
    requires Segments(a) && Segments(b) && Flat(a) == Flat(b)
    ensures a == b
  {
    if a != [] && b != [] {
      SplitFlat(a);
      SplitFlat(b);
    }
  }

  /** The absolute paths that dot-segment removal leaves as they are: exactly those without a dot segment. */
  lemma FixedExactly(segs: seq<Bytes>)
    requires Segments(segs)
    ensures RemoveDotSegments(Flat(segs)) == Flat(segs) <==> NoDots(segs)
  {
    RemoveIsProcess(segs, []);
    if NoDots(segs) {
      ProcessKeeps(segs, []);
      assert [] + segs == segs;
    } else {
      ProcessLeavesNoDots(segs, []);
      ProcessSegments(segs, []);
      if Flat(Process(segs, [])) == Flat(segs) {
        FlatInjective(Process(segs, []), segs);
      }
    }
  }

  lemma {:induction false} ProcessSegments(input: seq<Bytes>, stack: seq<Bytes>)
    requires Segments(input) && Segments(stack)
    ensures Segments(Process(input, stack))
    decreases |input|
  {
    if input == [] {
    } else {
      if IsDot(input[0]) {
        if |input| > 1 {
          ProcessSegments(input[1..], if input[0] == "." then stack else Front(stack));
        }
      } else {
        ProcessSegments(input[1..], stack + [input[0]]);
      }
    }
  }

  /** Removal is idempotent and its result never holds a dot segment. */
  lemma RemoveIdempotent(segs: seq<Bytes>)
    requires Segments(segs)
    ensures RemoveDotSegments(RemoveDotSegments(Flat(segs))) == RemoveDotSegments(Flat(segs))
    ensures RemoveDotSegments(Flat(segs)) == Flat(Process(segs, [])) && NoDots(Process(segs, []))
  {
    RemoveIsProcess(segs, []);
    ProcessLeavesNoDots(segs, []);
    ProcessSegments(segs, []);
    FixedExactly(Process(segs, []));
  }
}
