/** Bytes, and Node's `Buffer.toString('hex')`: two lower-case hexadecimal digits per byte. */
module Hex {

  newtype uint8 = b: int | 0 <= b < 0x100

  /** The content of one file, as `fs.readFileSync` returns it. */
  type Bytes = seq<uint8>

  /** The lower-case digit for a value 0..15 (`0`-`9`, then `a`-`f`). */
  function Digit(n: int): (c: char)
    requires 0 <= n < 16
    ensures '0' <= c <= '9' || 'a' <= c <= 'f'
    ensures n < 10 <==> c <= '9'
  {
    if n < 10 then (48 + n) as char else (97 + n - 10) as char
  }

  /** Distinct values get distinct digits. */
  lemma DigitInjective(m: int, n: int)
    requires 0 <= m < 16 && 0 <= n < 16
    requires Digit(m) == Digit(n)
    ensures m == n
  {
  }

  /** `Buffer.from(bs).toString('hex')`: high nibble first, no separators. */
  function ToHex(bs: Bytes): (h: string)
    ensures |h| == 2 * |bs|
    ensures forall i :: 0 <= i < |bs| ==>
              h[2 * i] == Digit(bs[i] as int / 16) && h[2 * i + 1] == Digit(bs[i] as int % 16)
  {
    if |bs| == 0 then ""
    else [Digit(bs[0] as int / 16), Digit(bs[0] as int % 16)] + ToHex(bs[1..])
  }

  /** The hex encoding loses nothing: equal encodings come from equal bytes. */
  lemma ToHexInjective(a: Bytes, b: Bytes)
    requires ToHex(a) == ToHex(b)
    ensures a == b
  {
    assert |a| == |b|;
    forall i | 0 <= i < |a|
      ensures a[i] == b[i]
    {
      var x, y := a[i] as int, b[i] as int;
      assert ToHex(a)[2 * i] == ToHex(b)[2 * i];
      assert ToHex(a)[2 * i + 1] == ToHex(b)[2 * i + 1];
      DigitInjective(x / 16, y / 16);
      DigitInjective(x % 16, y % 16);
      assert x == 16 * (x / 16) + x % 16;
      assert y == 16 * (y / 16) + y % 16;
    }
  }

}
