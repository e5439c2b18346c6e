/** Base-128 variable-length integers: the public Protocol Buffers encoding, read as Go's `binary.Uvarint` reads it. */
module Varint {
  import opened GoBytes
  import opened Wrappers

  const MAX_VARINT_LEN_64: nat := 10
  const TWO_64: nat := 0x1_0000_0000_0000_0000

  /** `v << 7*i`, by repeated multiplication. */
  function Shl7(v: nat, i: nat): (r: nat)
    ensures r >= v
  {
    if i == 0 then v else 128 * Shl7(v, i - 1)
  }

  /** The low seven bits of a byte. */
  function Group(c: char): (g: nat)
    ensures g < 128
    ensures 128 <= c as int < 256 ==> g == c as int - 128
  {
    c as int % 128
  }

  /** The value and length of the varint `buf` starts with, when `left` bytes may still be used and the last of those
      may only hold the one bit a 64-bit value has left; None when it is cut short or too large. */
  function Decode(buf: Bytes, left: nat): (r: Option<(nat, nat)>)
    ensures r.Some? ==> 1 <= r.value.1 <= |buf| && r.value.1 <= left
    decreases |buf|
  {
    if buf == [] || left == 0 then None
    else if buf[0] as int < 128 then
      if left == 1 && buf[0] as int > 1 then None else Some((buf[0] as int, 1))
    else
      match Decode(buf[1..], left - 1)
      case None => None
      case Some((v, n)) => Some((Group(buf[0]) + 128 * v, n + 1))
  }

  lemma Shl7SixtyThree()
    ensures 2 * Shl7(1, 9) == TWO_64
  {
    assert Shl7(1, 3) == 2_097_152;
    assert Shl7(1, 6) == 2_097_152 * 2_097_152;
  }

  function Uvarint64(buf: Bytes): (r: Option<(nat, nat)>)
    ensures r.Some? ==> 1 <= r.value.1 <= |buf|
  {
    Decode(buf, MAX_VARINT_LEN_64)
  }

  lemma {:induction false} DecodeBound(buf: Bytes, left: nat)
    requires Decode(buf, left).Some?
    ensures Decode(buf, left).value.0 < 2 * Shl7(1, left - 1)
  {
    if buf[0] as int < 128 {
    } else {
      DecodeBound(buf[1..], left - 1);
    }
  }

  /** Nothing above 64 bits is ever returned. */
  lemma Uvarint64Bound(buf: Bytes)
    requires Uvarint64(buf).Some?
    ensures Uvarint64(buf).value.0 < TWO_64
  {
    DecodeBound(buf, MAX_VARINT_LEN_64);
    Shl7SixtyThree();
  }

  /** The shortest encoding, low groups first. */
  function Encode(v: nat): (e: Bytes)
    ensures |e| >= 1 && IsBytes(e)
  {
    if v < 128 then [v as char] else [(v % 128 + 128) as char] + Encode(v / 128)
  }

  lemma {:induction false} DecodeEncode(v: nat, rest: Bytes, left: nat)
    requires left >= 1 && v < 2 * Shl7(1, left - 1)
    ensures Decode(Encode(v) + rest, left) == Some((v, |Encode(v)|))
  {
    if v >= 128 {
      assert left >= 2;
      assert Shl7(1, left - 1) == 128 * Shl7(1, left - 2);
      var tail := Encode(v / 128);
      DecodeEncode(v / 128, rest, left - 1);
      assert Encode(v) + rest == [(v % 128 + 128) as char] + (tail + rest);
    } else {
      assert (Encode(v) + rest)[0] == v as char;
    }
  }

  /** Every 64-bit value comes back from its encoding, whatever follows it. */
  lemma RoundTrip(v: nat, rest: Bytes)
    requires v < TWO_64
    ensures Uvarint64(Encode(v) + rest) == Some((v, |Encode(v)|))
  {
    Shl7SixtyThree();
    DecodeEncode(v, rest, MAX_VARINT_LEN_64);
  }

  /** Only the bytes of the varint itself matter: what follows it can be replaced. */
  lemma {:induction false} DecodeIgnoresRest(a: Bytes, b: Bytes, left: nat)
    requires Decode(a, left).Some?
    ensures Decode(a + b, left) == Decode(a, left)
  {
    if a[0] as int < 128 {
    } else {
      DecodeIgnoresRest(a[1..], b, left - 1);
      assert (a + b)[1..] == a[1..] + b;
    }
  }

  lemma {:induction false} Shl7Adds(low: nat, high: nat, i: nat)
    ensures Shl7(low + 128 * high, i) == Shl7(low, i) + Shl7(high, i + 1)
  {
    if i == 0 {
      assert Shl7(high, 1) == 128 * Shl7(high, 0);
    } else {
      Shl7Adds(low, high, i - 1);
    }
  }

  /** A group of seven bits above a value of `i` groups leaves a value of `i + 1` groups. */
  lemma {:induction false} Shl7Fits(group: nat, i: nat)
    requires group < 128
    ensures Shl7(group, i) + Shl7(1, i) <= Shl7(1, i + 1)
  {
    if i == 0 {
      assert Shl7(1, 1) == 128 * Shl7(1, 0);
    } else {
      Shl7Fits(group, i - 1);
    }
  }

  lemma {:induction false} Shl7Monotone(i: nat, j: nat)
    requires i <= j
    ensures Shl7(1, i) <= Shl7(1, j)
  {
    if i == j {
    } else {
      Shl7Monotone(i, j - 1);
    }
  }

  /** What `r`, read after `i` groups worth `low`, says about the whole varint. */
  function After(r: Option<(nat, nat)>, low: nat, i: nat): Option<(nat, nat)> {
    match r
    case None => None
    case Some((v, n)) => Some((low + Shl7(v, i), i + n))
  }

  lemma AfterGroup(s: Bytes, left: nat, low: nat, i: nat)
    requires s != [] && s[0] as int >= 128 && left >= 1
    ensures After(Decode(s, left), low, i) == After(Decode(s[1..], left - 1), low + Shl7(Group(s[0]), i), i + 1)
  {
    var tail := Decode(s[1..], left - 1);
    if tail.Some? {
      Shl7Adds(Group(s[0]), tail.value.0, i);
    }
  }

  /** A shift past bit 63 drops what does not fit; the loop never returns a value cut this way. */
  function Low64(x: nat): nat {
    x % TWO_64
  }

  lemma NothingCut(x: nat, group: nat, i: nat)
    requires i < 9 && group < 128 && x < Shl7(1, i)
    ensures Low64(x + Shl7(group, i)) == x + Shl7(group, i) < Shl7(1, i + 1)
  {
    Shl7Fits(group, i);
    Shl7Monotone(i + 1, 9);
    Shl7SixtyThree();
  }

  /** The state of the loop when `i` continuation bytes are worth `x` and `left` more may follow: what `rest` holds
      decides the whole. */
  ghost predicate Reading(whole: Option<(nat, nat)>, rest: Bytes, left: nat, x: nat, i: nat) {
    && i + left == MAX_VARINT_LEN_64
    && (left > 0 ==> x < Shl7(1, i))
    && whole == After(Decode(rest, left), x, i)
  }

  lemma ReadingStep(whole: Option<(nat, nat)>, rest: Bytes, left: nat, x: nat, i: nat)
    requires Reading(whole, rest, left, x, i) && rest != [] && left > 0 && 128 <= rest[0] as int
    ensures Reading(whole, rest[1..], left - 1, Low64(x + Shl7(Group(rest[0]), i)), i + 1)
  {
    var group := Group(rest[0]);
    AfterGroup(rest, left, x, i);
    assert whole == After(Decode(rest[1..], left - 1), x + Shl7(group, i), i + 1);
    if left > 1 {
      NothingCut(x, group, i);
    } else {
      assert Decode(rest[1..], 0) == None;
    }
  }

  /** Every byte says that another follows, and there is still room for one. */
  predicate CutShort(buf: Bytes) {
    |buf| <= MAX_VARINT_LEN_64 && forall k | 0 <= k < |buf| :: buf[k] as int >= 128
  }

  /** Ten bytes begin a value of more than 64 bits: nine continue, and the tenth holds more than the last bit or
      continues still, with another byte after it. */
  predicate TooLarge(buf: Bytes) {
    && |buf| >= 10 && (forall k | 0 <= k < 9 :: buf[k] as int >= 128)
    && buf[9] as int > 1 && (buf[9] as int >= 128 ==> |buf| > 10)
  }

  /** The loop of `binary.Uvarint`: a positive `n` is the length read, 0 means the buffer is too short and a negative
      `n` that the value exceeds 64 bits. */
  method Uvarint(buf: Bytes) returns (x: nat, n: int)
    ensures n > 0 <==> Uvarint64(buf).Some?
    ensures n > 0 ==> Uvarint64(buf) == Some((x, n))
    ensures n == 0 <==> CutShort(buf)
    ensures n < 0 <==> TooLarge(buf)
  {
    x := 0;
    var i := 0;
    ghost var left := MAX_VARINT_LEN_64;
    assert buf[0..] == buf;
    while i < |buf|
      invariant 0 <= i <= |buf|
      invariant Reading(Uvarint64(buf), buf[i..], left, x, i)
      invariant i <= 10 && forall k | 0 <= k < i :: buf[k] as int >= 128
    {
      var b := buf[i] as int;
      if i == MAX_VARINT_LEN_64 {
        return 0, -(i + 1);
      }
      if b < 128 {
        if i == MAX_VARINT_LEN_64 - 1 && b > 1 {
          return 0, -(i + 1);
        }
        return x + Shl7(b, i), i + 1;
      }
      ReadingStep(Uvarint64(buf), buf[i..], left, x, i);
      assert buf[i..][1..] == buf[i + 1..];
      x := Low64(x + Shl7(Group(buf[i]), i));
      i, left := i + 1, left - 1;
    }
    return 0, 0;
  }
}
