/** The value of a varint as a sum over its bytes, and the bytes of a field of a V3 key (Protocol Buffers encoding). */
module VarintValue {
  import opened GoBytes
  import opened Varint
  import opened Wrappers

  function Power(n: nat): nat {
    if n == 0 then 1 else 128 * Power(n - 1)
  }

  /** Seven bits of each of the first `n` bytes, the first the lowest. */
  function Sum(buf: Bytes, n: nat): nat
    requires n <= |buf|
  {
    if n == 0 then 0 else Sum(buf, n - 1) + buf[n - 1] as int % 128 * Power(n - 1)
  }

  /** `n` bytes of which only the last does not say that another follows. */
  predicate Ends(buf: Bytes, n: nat) {
    1 <= n <= |buf| && (forall k | 0 <= k < n - 1 :: buf[k] as int >= 128) && buf[n - 1] as int < 128
  }

  lemma {:induction false} SumFromFirst(buf: Bytes, n: nat)
    requires 1 <= n <= |buf|
    ensures Sum(buf, n) == buf[0] as int % 128 + 128 * Sum(buf[1..], n - 1)
  {
    if n == 1 {
      assert Sum(buf, 0) == 0 && Power(0) == 1 && Sum(buf[1..], 0) == 0;
    } else {
      SumFromFirst(buf, n - 1);
      var (d, p) := (buf[n - 1] as int % 128, Power(n - 2));
      assert buf[1..][n - 2] == buf[n - 1];
      assert d * Power(n - 1) == 128 * (d * p);
    }
  }

  lemma EndsStep(buf: Bytes, n: nat)
    requires buf != [] && buf[0] as int >= 128
    ensures Ends(buf, n) <==> n >= 1 && Ends(buf[1..], n - 1)
  {
    if n >= 1 && Ends(buf[1..], n - 1) {
      forall k | 0 <= k < n - 1 ensures buf[k] as int >= 128 {
        assert k > 0 ==> buf[k] == buf[1..][k - 1];
      }
    }
    if Ends(buf, n) {
      assert n >= 2;
      forall k | 0 <= k < n - 2 ensures buf[1..][k] as int >= 128 {
        assert buf[1..][k] == buf[k + 1];
      }
    }
  }

  lemma {:induction false} DecodesSum(buf: Bytes, left: nat, v: nat, n: nat)
    ensures Decode(buf, left) == Some((v, n)) <==>
              Ends(buf, n) && n <= left && (n == left ==> buf[n - 1] as int <= 1) && v == Sum(buf, n)
    decreases |buf|
  {
    if buf == [] || left == 0 {
    } else if buf[0] as int < 128 {
      assert Power(0) == 1;
      assert Sum(buf, 1) == Sum(buf, 0) + buf[0] as int % 128 * Power(0);
    } else {
      EndsStep(buf, n);
      if Decode(buf, left) == Some((v, n)) {
        var (w, m) := Decode(buf[1..], left - 1).value;
        DecodesSum(buf[1..], left - 1, w, m);
        SumFromFirst(buf, n);
      }
      if Ends(buf, n) && n <= left && (n == left ==> buf[n - 1] as int <= 1) && v == Sum(buf, n) {
        DecodesSum(buf[1..], left - 1, Sum(buf[1..], n - 1), n - 1);
        SumFromFirst(buf, n);
      }
    }
  }

  /** What every buffer starts with: up to ten bytes, of which the tenth may only be 0 or 1, worth seven bits each. */
  lemma DecodesExactly(buf: Bytes, v: nat, n: nat)
    ensures Uvarint64(buf) == Some((v, n)) <==>
              Ends(buf, n) && n <= 10 && (n == 10 ==> buf[9] as int <= 1) && v == Sum(buf, n)
  {
    DecodesSum(buf, 10, v, n);
  }

  /** Small values are their own byte. */
  lemma OneByte(buf: Bytes)
    requires |buf| >= 1 && buf[0] as int < 128
    ensures Uvarint64(buf) == Some((buf[0] as int, 1))
  {
  }

  /** Where the first byte stands that does not say another follows, |buf| when there is none. */
  function Stop(buf: Bytes): (k: nat)
    ensures k <= |buf| && forall i | 0 <= i < k :: buf[i] as int >= 128
    ensures k < |buf| ==> buf[k] as int < 128
  {
    if buf == [] || buf[0] as int < 128 then 0 else 1 + Stop(buf[1..])
  }

  /** Which buffers hold no varint: those cut short and those too large, and none is both. */
  lemma NoVarintExactly(buf: Bytes)
    ensures Uvarint64(buf).None? <==> CutShort(buf) || TooLarge(buf)
    ensures !(CutShort(buf) && TooLarge(buf))
  {
    var k := Stop(buf);
    if k < |buf| && k < 10 && (k == 9 ==> buf[9] as int <= 1) {
      assert Ends(buf, k + 1);
      DecodesExactly(buf, Sum(buf, k + 1), k + 1);
    } else if Uvarint64(buf).Some? {
      var (v, n) := Uvarint64(buf).value;
      DecodesExactly(buf, v, n);
    }
  }

  /** One more byte completes a buffer of fewer than ten that is cut short, and ten continuing bytes are as many as it
      can have; nothing completes one that is too large. */
  lemma CompletedExactly(buf: Bytes, more: Bytes)
    ensures CutShort(buf) && |buf| < 10 ==> Uvarint64(buf + [0 as char]).Some?
    ensures CutShort(buf) ==> |buf| <= 10
    ensures |buf| == 10 && Stop(buf) == 10 ==> CutShort(buf)
    ensures TooLarge(buf) ==> Uvarint64(buf + more).None?
  {
    if CutShort(buf) && |buf| < 10 {
      var (s, n) := (buf + [0 as char], |buf| + 1);
      assert forall i | 0 <= i < |buf| :: s[i] == buf[i];
      assert Ends(s, n);
      DecodesExactly(s, Sum(s, n), n);
    }
    if TooLarge(buf) {
      NoVarintExactly(buf + more);
      assert forall i | 0 <= i < |buf| :: (buf + more)[i] == buf[i];
      assert TooLarge(buf + more);
    }
  }
}
