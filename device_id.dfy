/**
 * The device id string: the 32-bit id of a discovery response rendered with
 * Python's `"%4X"` conversion, i.e. upper-case hexadecimal without leading zeros,
 * right-aligned in a field of at least four characters and padded with SPACES.
 */
module DeviceId {

  /** One upper-case hexadecimal digit. */
  function HexDigit(n: nat): (c: char)
    requires n < 16
  {
    if n < 10 then ('0' as int + n) as char else ('A' as int + n - 10) as char
  }

  predicate IsHexDigit(c: char)
  {
    '0' <= c <= '9' || 'A' <= c <= 'F'
  }

  function DigitValue(c: char): (n: nat)
    requires IsHexDigit(c)
    ensures n < 16
  {
    if c <= '9' then c as int - '0' as int else c as int - 'A' as int + 10
  }

  /** `"%X" % n`: the shortest upper-case hexadecimal numeral of n. */
  function Hex(n: nat): (s: string)
    decreases n
  {
    if n < 16 then [HexDigit(n)] else Hex(n / 16) + [HexDigit(n % 16)]
  }

  /** The value of a hexadecimal numeral (the parser partner of Hex). */
  function HexValue(s: string): nat
    requires forall i :: 0 <= i < |s| ==> IsHexDigit(s[i])
  {
    if s == [] then 0 else 16 * HexValue(s[..|s| - 1]) + DigitValue(s[|s| - 1])
  }

  /**
   * Hex is the canonical numeral: its digits are hexadecimal, it has no leading
   * zero (except for 0 itself) and it denotes n.
   */
  lemma {:induction false} HexCanonical(n: nat)
    ensures |Hex(n)| > 0
    ensures forall i :: 0 <= i < |Hex(n)| ==> IsHexDigit(Hex(n)[i])
    ensures Hex(n)[0] != '0' || n == 0
    ensures HexValue(Hex(n)) == n
    decreases n
  {
    if n >= 16 {
      HexCanonical(n / 16);
      var s := Hex(n);
      assert s[..|s| - 1] == Hex(n / 16);
    }
  }

  function Pow16(k: nat): nat
  {
    if k == 0 then 1 else 16 * Pow16(k - 1)
  }

  /** A value below 16^k needs at most k digits; in particular a 32-bit id needs at most 8. */
  lemma {:induction false} HexLength(n: nat, k: nat)
    requires 1 <= k && n < Pow16(k)
    ensures |Hex(n)| <= k
    decreases n
  {
    if n >= 16 {
      assert k >= 2;
      assert n / 16 < Pow16(k - 1);
      HexLength(n / 16, k - 1);
    }
  }

  function Spaces(k: nat): (s: string)
    ensures |s| == k && forall i :: 0 <= i < k ==> s[i] == ' '
  {
    seq(k, _ => ' ')
  }

  /** `"%4X" % n` */
  function FormatId(n: nat): string
  {
    var h := Hex(n);
    if |h| < 4 then Spaces(4 - |h|) + h else h
  }

  function StripLeadingSpaces(s: string): string
  {
    if s != [] && s[0] == ' ' then StripLeadingSpaces(s[1..]) else s
  }

  lemma {:induction false} StripSpacesPrefix(k: nat, h: string)
    requires h == [] || h[0] != ' '
    ensures StripLeadingSpaces(Spaces(k) + h) == h
  {
    if k > 0 {
      assert (Spaces(k) + h)[1..] == Spaces(k - 1) + h;
      StripSpacesPrefix(k - 1, h);
    }
  }

  /**
   * The id string is at least four characters long (at most eight for a 32-bit id),
   * consists of leading spaces followed by the canonical hexadecimal numeral, and
   * reading past the spaces recovers the numeric id.
   */
  lemma FormatIdProperties(n: nat)
    ensures |FormatId(n)| == if |Hex(n)| < 4 then 4 else |Hex(n)|
    ensures n < 0x1_0000_0000 ==> |FormatId(n)| <= 8
    ensures var h := StripLeadingSpaces(FormatId(n));
      && h == Hex(n)
      && (forall i :: 0 <= i < |h| ==> IsHexDigit(h[i]))
      && HexValue(h) == n
  {
    HexCanonical(n);
    var h := Hex(n);
    assert h[0] != ' ';
    if |h| < 4 {
      StripSpacesPrefix(4 - |h|, h);
    } else {
      assert StripLeadingSpaces(h) == h;
    }
    if n < 0x1_0000_0000 {
      assert Pow16(8) == 0x1_0000_0000;
      HexLength(n, 8);
    }
  }

  /** Three-digit ids are padded with a space, not a zero; longer ids are not cut. */
  lemma FormatIdExamples()
    ensures FormatId(0x01A2) == " 1A2"
    ensures FormatId(0xBEEF) == "BEEF"
    ensures FormatId(0x12345) == "12345"
  {
    assert Hex(0x1) == "1";
    assert Hex(0x1A) == "1A";
    assert Hex(0x1A2) == "1A2";
    assert Hex(0xB) == "B";
    assert Hex(0xBE) == "BE";
    assert Hex(0xBEE) == "BEE";
    assert Hex(0xBEEF) == "BEEF";
    assert Hex(0x12) == "12";
    assert Hex(0x123) == "123";
    assert Hex(0x1234) == "1234";
    assert Hex(0x12345) == "12345";
  }
}
