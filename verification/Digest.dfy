/** Digests. BLAKE3 itself is an arbitrary function from what was fed to the hasher to a
    number; only the hexadecimal form of the number is fixed. */
module Digest {

  predicate IsHexDigit(c: char) { '0' <= c <= '9' || 'a' <= c <= 'f' }

  predicate IsHex(s: string) {
    s != [] && forall i | 0 <= i < |s| :: IsHexDigit(s[i])
  }

  function HexDigit(n: nat): (c: char)
    requires n < 16
    ensures IsHexDigit(c)
  {
    if n < 10 then '0' + n as char else 'a' + (n - 10) as char
  }

  /** The lowest `width` hexadecimal digits of a number. */
  function HexDigits(n: nat, width: nat): (s: string)
    ensures |s| == width && forall i | 0 <= i < width :: IsHexDigit(s[i])
  {
    if width == 0 then [] else HexDigits(n / 16, width - 1) + [HexDigit(n % 16)]
  }

  /** `to_hex` of a 32-byte digest. */
  function Hex(n: nat): (s: string)
    ensures |s| == 64 && IsHex(s)
  {
    HexDigits(n, 64)
  }

  /** A digest that singles out one stream. */
  function SinglingOut(stream: string): string -> nat {
    s => if s == stream then 1 else 0
  }

  lemma LastHexDigit(n: nat, width: nat)
    requires n < 16 && width > 0
    ensures HexDigits(n, width)[width - 1] == HexDigit(n)
  {
  }

  /** So for any two streams some digest tells them apart. */
  lemma SomeDigestDiffers(a: string, b: string)
    requires a != b
    ensures Hex(SinglingOut(a)(a)) != Hex(SinglingOut(a)(b))
  {
    LastHexDigit(1, 64);
    LastHexDigit(0, 64);
  }

  // ----- What the digits say -----

  function Power16(width: nat): nat { if width == 0 then 1 else 16 * Power16(width - 1) }

  function DigitValue(c: char): int { if c <= '9' then c as int - '0' as int else c as int - 'a' as int + 10 }

  function HexValue(s: string): int {
    if s == [] then 0 else 16 * HexValue(s[..|s| - 1]) + DigitValue(s[|s| - 1])
  }

  lemma {:induction false} HexDigitsValue(n: nat, width: nat)
    requires n < Power16(width)
    ensures HexValue(HexDigits(n, width)) == n
  {
    if width > 0 {
      HexDigitsValue(n / 16, width - 1);
      var front := HexDigits(n / 16, width - 1);
      assert (front + [HexDigit(n % 16)])[..width - 1] == front;
    }
  }

  /** The text of a digest is its number in hexadecimal. */
  lemma HexIs(n: nat)
    requires n < Power16(64)
    ensures |Hex(n)| == 64 && HexValue(Hex(n)) == n
  {
    HexDigitsValue(n, 64);
  }
}
