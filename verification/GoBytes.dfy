/** Go strings as the byte sequences they are, one char of code below 256 per byte, and the white-space trimming of
    `strings.TrimSpace`, which knows the UTF-8 encodings of Unicode's white space. */
module GoBytes {

  type Bytes = string

  predicate IsBytes(s: Bytes) {
    forall i | 0 <= i < |s| :: s[i] as int < 256
  }

  predicate HasPrefix(s: Bytes, prefix: Bytes) {
    prefix <= s
  }

  // The encodings, one to three bytes long, of the code points with Unicode's White_Space property.
  predicate Space1(a: char) {
    9 <= a as int <= 13 || a == ' '
  }

  predicate Space2(a: char, b: char) {
    a as int == 0xC2 && (b as int == 0x85 || b as int == 0xA0)
  }

  predicate Space3(a: char, b: char, c: char) {
    var (x, y, z) := (a as int, b as int, c as int);
    || (x == 0xE1 && y == 0x9A && z == 0x80)
    || (x == 0xE2 && y == 0x80 && (0x80 <= z <= 0x8A || z == 0xA8 || z == 0xA9 || z == 0xAF))
    || (x == 0xE2 && y == 0x81 && z == 0x9F)
    || (x == 0xE3 && y == 0x80 && z == 0x80)
  }

  /** How many bytes of white space `s` starts with (one code point), 0 when it starts with none. */
  function SpaceAtStart(s: Bytes): (n: nat)
    ensures n <= |s|
  {
    if |s| >= 1 && Space1(s[0]) then 1
    else if |s| >= 2 && Space2(s[0], s[1]) then 2
    else if |s| >= 3 && Space3(s[0], s[1], s[2]) then 3
    else 0
  }

  /** How many bytes of white space `s` ends with (one code point), 0 when it ends with none. */
  function SpaceAtEnd(s: Bytes): (n: nat)
    ensures n <= |s|
  {
    var m := |s|;
    if m >= 1 && Space1(s[m - 1]) then 1
    else if m >= 2 && Space2(s[m - 2], s[m - 1]) then 2
    else if m >= 3 && Space3(s[m - 3], s[m - 2], s[m - 1]) then 3
    else 0
  }

  function TrimLeft(s: Bytes): (r: Bytes)
    ensures |r| <= |s|
    ensures SpaceAtStart(r) == 0
    decreases |s|
  {
    var n := SpaceAtStart(s);
    if n == 0 then s else TrimLeft(s[n..])
  }

  function TrimRight(s: Bytes): (r: Bytes)
    ensures r <= s
    ensures SpaceAtEnd(r) == 0
    decreases |s|
  {
    var n := SpaceAtEnd(s);
    if n == 0 then s else TrimRight(s[..|s| - n])
  }

  function TrimSpace(s: Bytes): Bytes {
    TrimRight(TrimLeft(s))
  }

  /** Trimming changes nothing exactly when neither end carries white space. */
  lemma TrimSpaceFixed(s: Bytes)
    ensures TrimSpace(s) == s <==> SpaceAtStart(s) == 0 && SpaceAtEnd(s) == 0
  {
    if SpaceAtStart(s) != 0 {
      assert |TrimLeft(s)| < |s|;
    }
  }

  /** Trimming twice is trimming once: the trimmed text carries no white space at either end. */
  lemma TrimSpaceTrimmed(s: Bytes)
    ensures SpaceAtStart(TrimSpace(s)) == 0 && SpaceAtEnd(TrimSpace(s)) == 0
    ensures TrimSpace(TrimSpace(s)) == TrimSpace(s)
  {
    TrimSpaceFixed(TrimSpace(s));
  }

  lemma NoSpaceToTrim(s: Bytes)
    requires forall c | c in s :: c as int < 128 && !Space1(c)
    ensures SpaceAtStart(s) == 0 && SpaceAtEnd(s) == 0 && TrimSpace(s) == s
  {
    TrimSpaceFixed(s);
  }
}
