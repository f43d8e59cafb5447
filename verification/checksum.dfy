/** The frame checksum: every character code of the payload XOR-ed into an
    accumulator, the accumulator subtracted from 0xFF, and the high and low
    nibbles of the result each rendered by `value_to_hex`. */
module Checksum {

  /** `a ^ b` on Python's non-negative integers, bit by bit from the lowest. */
  function Xor(a: nat, b: nat): nat
    decreases a + b
  {
    if a == 0 then b
    else if b == 0 then a
    else 2 * Xor(a / 2, b / 2) + (if a % 2 == b % 2 then 0 else 1)
  }

  /** `ord(c)`. */
  function Ord(c: char): nat { c as int }

  /** The accumulator after XOR-ing in every character code of `s`, left to right. */
  function XorAll(s: string): nat
  {
    if s == [] then 0 else Xor(XorAll(s[..|s| - 1]), Ord(s[|s| - 1]))
  }

  function Pow2(k: nat): nat { if k == 0 then 1 else 2 * Pow2(k - 1) }

  /** XOR of two `k`-bit numbers is a `k`-bit number. */
  lemma {:induction false} XorBound(a: nat, b: nat, k: nat)
    requires a < Pow2(k) && b < Pow2(k)
    ensures Xor(a, b) < Pow2(k)
    decreases a + b
  {
    if a != 0 && b != 0 {
      XorBound(a / 2, b / 2, k - 1);
    }
  }

  /** Subtracting a `k`-bit number from the all-ones `k`-bit mask is
      complementing its bits: `mask - x == x ^ mask`. */
  lemma {:induction false} XorAllOnes(x: nat, k: nat)
    requires x < Pow2(k)
    ensures Xor(x, Pow2(k) - 1) == Pow2(k) - 1 - x
    decreases k
  {
    if x != 0 && Pow2(k) - 1 != 0 {
      XorAllOnes(x / 2, k - 1);
    }
  }

  predicate IsLatin1(s: string)
  {
    forall i :: 0 <= i < |s| ==> s[i] as int < 256
  }

  predicate IsHexDigit(c: char) { '0' <= c <= '9' || 'A' <= c <= 'F' }

  /** One upper-case hexadecimal digit. */
  function HexChar(d: nat): (c: char)
    requires d < 16
    ensures IsHexDigit(c)
  {
    if d < 10 then ('0' as int + d) as char else ('A' as int + d - 10) as char
  }

  /** Upper-case hexadecimal digits of `n`, without leading zeros: a single
      digit exactly for the values below 16. */
  function HexDigits(n: nat): (r: string)
    ensures |r| >= 1
    ensures |r| == 1 <==> n < 16
    ensures forall i :: 0 <= i < |r| ==> IsHexDigit(r[i])
  {
    if n < 16 then [HexChar(n)] else HexDigits(n / 16) + [HexChar(n % 16)]
  }

  /** `hex(v)[2:].upper()`: for a negative `v`, Python renders `-0x...`, so
      dropping the `-0` leaves the `x` of the `0x` prefix, upper-cased to `X`,
      before the digits of `-v`. The result
      is made of hex digits and `X`, starts with `X` exactly for a negative
      value, and is one character exactly for a nibble. */
  function ValueToHex(v: int): (r: string)
    ensures |r| >= 1
    ensures forall i :: 0 <= i < |r| ==> IsHexDigit(r[i]) || r[i] == 'X'
    ensures r[0] == 'X' <==> v < 0
    ensures |r| == 1 <==> 0 <= v < 16
  {
    if v >= 0 then HexDigits(v) else "X" + HexDigits(-v)
  }

  /** `build_crc(s)`; the subtraction, shift and mask are those of Python's
      unbounded integers (`>> 4` floors, `& 0xF` is never negative). The field
      is made of hex digits and `X`; it is two characters exactly when the
      accumulator fits in 8 bits, and otherwise `0xFF - acc` is negative and
      the field starts with `X`. */
  function Crc(s: string): (r: string)
    ensures |r| >= 2
    ensures forall i :: 0 <= i < |r| ==> IsHexDigit(r[i]) || r[i] == 'X'
    ensures |r| == 2 <==> XorAll(s) <= 0xFF
    ensures XorAll(s) > 0xFF ==> r[0] == 'X'
  {
    var v := 0xFF - XorAll(s);
    ValueToHex(v / 16) + ValueToHex(v % 16)
  }

  /** The value of one upper-case hex digit. */
  function HexValue(c: char): int
  {
    if '0' <= c <= '9' then c as int - '0' as int
    else if 'A' <= c <= 'F' then c as int - 'A' as int + 10
    else -1
  }

  /** The number an upper-case hex string denotes. */
  function HexNumber(s: string): int
  {
    if s == [] then 0 else HexNumber(s[..|s| - 1]) * 16 + HexValue(s[|s| - 1])
  }

  /** `HexDigits` renders `n` exactly: reading the digits back gives `n`, and
      only zero itself starts with the digit `0`. */
  lemma {:induction false} HexDigitsValue(n: nat)
    ensures HexNumber(HexDigits(n)) == n
    ensures HexDigits(n)[0] == '0' ==> n == 0
  {
    var r := HexDigits(n);
    if n >= 16 {
      HexDigitsValue(n / 16);
      assert r[..|r| - 1] == HexDigits(n / 16);
    } else {
      assert r[..0] == [];
    }
  }

  /** XOR-ing 8-bit codes never leaves 8 bits. */
  lemma {:induction false} XorAllLatin1(s: string)
    requires IsLatin1(s)
    ensures XorAll(s) < 256
  {
    if s != [] {
      XorAllLatin1(s[..|s| - 1]);
      assert Pow2(8) == 256;
      XorBound(XorAll(s[..|s| - 1]), Ord(s[|s| - 1]), 8);
    }
  }

  /** XOR-ing one more character into the accumulator. */
  lemma XorAllSnoc(s: string, c: char)
    ensures XorAll(s + [c]) == Xor(XorAll(s), Ord(c))
  {
    assert (s + [c])[..|s|] == s;
  }

  /** When the accumulator fits in 8 bits (always so for an 8-bit payload,
      see `XorAllLatin1`) the checksum is exactly two upper-case hex digits,
      high nibble first, and together they spell `0xFF - acc`, which is the
      8-bit complement `acc ^ 0xFF` of the accumulator. */
  lemma ChecksumIsTwoHexDigits(s: string)
    requires XorAll(s) <= 0xFF
    ensures |Crc(s)| == 2
    ensures IsHexDigit(Crc(s)[0]) && IsHexDigit(Crc(s)[1])
    ensures HexValue(Crc(s)[0]) * 16 + HexValue(Crc(s)[1]) == 0xFF - XorAll(s)
    ensures 0xFF - XorAll(s) == Xor(XorAll(s), 0xFF)
  {
    var v := 0xFF - XorAll(s);
    assert 0 <= v / 16 < 16 && 0 <= v % 16 < 16;
    assert Pow2(8) == 256;
    XorAllOnes(XorAll(s), 8);
  }

  /** Boundary values: accumulator 0 gives `FF`, 0xFF gives `00`, 0x0A gives `F5`
      (a zero nibble renders as one `0`, never as an empty string). */
  lemma ChecksumBoundaries(s: string)
    ensures XorAll(s) == 0 ==> Crc(s) == "FF"
    ensures XorAll(s) == 0xFF ==> Crc(s) == "00"
    ensures XorAll(s) == 0x0A ==> Crc(s) == "F5"
  {
  }

  /** Two examples of wide payload characters: U+0100 alone pushes the
      accumulator past 0xFF and gives the three-character field `X1F`, while
      two of them cancel out and give `FF`. */
  lemma ChecksumOfWideCharacter()
    ensures Crc([0x100 as char]) == "X1F"
    ensures Crc([0x100 as char, 0x100 as char]) == "FF"
  {
    var s := [0x100 as char];
    assert s[..0] == [];
    assert XorAll(s) == 0x100;
    assert ValueToHex(-1) == "X1";
    var t := [0x100 as char, 0x100 as char];
    assert t[..1] == s;
    assert Xor(0x100, 0x100) == 0;
    assert XorAll(t) == 0;
  }

  /** `build_crc`: the loop over the payload, then the two nibbles. */
  method BuildCrc(s: string) returns (crc: string)
    ensures crc == Crc(s)
  {
    var acc: nat := 0;
    var i := 0;
    while i < |s|
      invariant 0 <= i <= |s|
      invariant acc == XorAll(s[..i])
    {
      assert s[..i + 1] == s[..i] + [s[i]];
      XorAllSnoc(s[..i], s[i]);
      acc := Xor(acc, Ord(s[i]));
      i := i + 1;
    }
    assert s[..i] == s;
    assert acc == XorAll(s);
    var v := 0xFF - acc;
    var msb := ValueToHex(v / 16);
    var lsb := ValueToHex(v % 16);
    crc := msb + lsb;
  }
}
