/** Letters and digits written out, places in a text, and the encoding of code points. */
module Letters {
  const UPPER: string := "ABCDEFGHIJKLMNOPQRSTUVWXYZ"
  const LOWER: string := "abcdefghijklmnopqrstuvwxyz"
  const DIGITS: string := "0123456789"

  /** Where a character stands in a text, -1 when it does not. */
  function Place(c: char, text: string): (i: int)
    ensures -1 <= i < |text|
    ensures i >= 0 ==> text[i] == c
    ensures i < 0 ==> c !in text
  {
    if text == "" then -1
    else if text[0] == c then 0
    else if Place(c, text[1..]) < 0 then -1
    else 1 + Place(c, text[1..])
  }

  /** UTF-8 (section 3 of RFC 3629) of a code point below 0x10000: one to three bytes, a character each. */
  function Utf8(cp: int): (e: string)
    requires 0 <= cp < 0x1_0000
    ensures 1 <= |e| <= 3
  {
    if cp < 0x80 then [cp as char]
    else if cp < 0x800 then [(0xC0 + cp / 64) as char, (0x80 + cp % 64) as char]
    else [(0xE0 + cp / 4096) as char, (0x80 + cp / 64 % 64) as char, (0x80 + cp % 64) as char]
  }

  lemma UpperAt(i: nat)
    requires i < 26
    ensures UPPER[i] as int == 65 + i
  {
  }

  lemma LowerAt(i: nat)
    requires i < 26
    ensures LOWER[i] as int == 97 + i
  {
  }

  lemma DigitAt(i: nat)
    requires i < 10
    ensures DIGITS[i] as int == 48 + i
  {
  }

  /** Membership by code. */
  lemma Ranges(c: char)
    ensures c in UPPER <==> 'A' <= c <= 'Z'
    ensures c in LOWER <==> 'a' <= c <= 'z'
    ensures c in DIGITS <==> '0' <= c <= '9'
  {
    InUpper(c);
    InLower(c);
    InDigits(c);
  }

  lemma InUpper(c: char)
    ensures c in UPPER <==> 'A' <= c <= 'Z'
  {
    if c in UPPER {
      var i :| 0 <= i < |UPPER| && UPPER[i] == c;
      UpperAt(i);
    } else if 'A' <= c <= 'Z' {
      UpperAt(c as int - 65);
    }
  }

  lemma InLower(c: char)
    ensures c in LOWER <==> 'a' <= c <= 'z'
  {
    if c in LOWER {
      var i :| 0 <= i < |LOWER| && LOWER[i] == c;
      LowerAt(i);
    } else if 'a' <= c <= 'z' {
      LowerAt(c as int - 97);
    }
  }

  lemma InDigits(c: char)
    ensures c in DIGITS <==> '0' <= c <= '9'
  {
    if c in DIGITS {
      var i :| 0 <= i < |DIGITS| && DIGITS[i] == c;
      DigitAt(i);
    } else if '0' <= c <= '9' {
      DigitAt(c as int - 48);
    }
  }
}
