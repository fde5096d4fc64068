/** Bounds, bytes and field widths shared by the models. */
module Numbers {

  function Min(a: nat, b: nat): (m: nat)
    ensures m <= a && m <= b
  {
    if a < b then a else b
  }

  function Max(a: nat, b: nat): (m: nat)
    ensures a <= m && b <= m
  {
    if a < b then b else a
  }

  /** A `char` stands for one byte. */
  function Byte(n: nat): char
    requires n < 256
  {
    n as char
  }

  /** One more than the largest value of a 16-bit field. */
  const UINT16_RANGE: nat := 0x1_0000
}
