/**
 * Base-16 rendering of a non-negative integer as JavaScript's
 * `Number.prototype.toString(16)` writes it, and the parse back.
 */
module Hex {

  /** The digits, in lower case as JavaScript emits them. */
  const Digits: string := "0123456789abcdef"

  predicate IsHexDigit(c: char) {
    '0' <= c <= '9' || 'a' <= c <= 'f'
  }

  predicate IsHexString(s: string) {
    forall i :: 0 <= i < |s| ==> IsHexDigit(s[i])
  }

  /** The form `toString(16)` produces: non-empty, hex digits, no leading zero unless it is "0". */
  predicate IsCanonical(s: string) {
    |s| > 0 && IsHexString(s) && (s[0] == '0' ==> s == "0")
  }

  /** The value of one hex digit. */
  function DigitValue(c: char): (d: nat)
    requires IsHexDigit(c)
    ensures d < 16 && Digits[d] == c
  {
    if c <= '9' then c as int - '0' as int else c as int - 'a' as int + 10
  }

  /** `n.toString(16)` */
  function ToHex(n: nat): (s: string)
    ensures IsCanonical(s)
    ensures n > 0 ==> s[0] != '0'
    ensures |s| == 1 <==> n < 16
  {
    if n < 16 then [Digits[n]] else ToHex(n / 16) + [Digits[n % 16]]
  }

  /** `parseInt(s, 16)` on a string of hex digits (most significant digit first). */
  function ParseHex(s: string): nat
    requires IsHexString(s)
  {
    if s == [] then 0 else ParseHex(s[..|s| - 1]) * 16 + DigitValue(s[|s| - 1])
  }

  lemma DigitValueOfDigit(k: nat)
    requires k < 16
    ensures IsHexDigit(Digits[k]) && DigitValue(Digits[k]) == k
  {
  }

  /** Parsing what `toString(16)` wrote gives back the number. */
  lemma {:induction false} ParseToHex(n: nat)
    ensures ParseHex(ToHex(n)) == n
  {
    if n < 16 {
      DigitValueOfDigit(n);
    } else {
      var s := ToHex(n);
      assert s[..|s| - 1] == ToHex(n / 16);
      ParseToHex(n / 16);
      DigitValueOfDigit(n % 16);
    }
  }

  /** A hex string whose first digit is not zero has a positive value. */
  lemma {:induction false} ParseHexPositive(s: string)
    requires |s| > 0 && IsHexString(s) && s[0] != '0'
    ensures ParseHex(s) > 0
  {
    if |s| > 1 {
      var t := s[..|s| - 1];
      assert t[0] == s[0];
      ParseHexPositive(t);
    } else {
      assert s[..0] == [];
    }
  }

  /** Every canonical hex string is what `toString(16)` writes for its value. */
  lemma {:induction false} ToHexParse(s: string)
    requires IsCanonical(s)
    ensures ToHex(ParseHex(s)) == s
  {
    var t := s[..|s| - 1];
    var d := DigitValue(s[|s| - 1]);
    if |s| == 1 {
      assert t == [];
    } else {
      assert t[0] == s[0];
      assert s[0] != '0';
      ParseHexPositive(t);
      ToHexParse(t);
      var n := ParseHex(s);
      assert n == ParseHex(t) * 16 + d;
      assert n / 16 == ParseHex(t) && n % 16 == d;
      assert s == t + [s[|s| - 1]];
    }
  }
}
