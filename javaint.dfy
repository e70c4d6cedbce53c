/** Java's 32-bit `int`: its range and two's-complement wrap-around. */
module JavaInt {

  const MinInt: int := -0x8000_0000
  const MaxInt: int := 0x7fff_ffff

  newtype int32 = x: int | -0x8000_0000 <= x < 0x8000_0000

  /** The Java int that an exact integer result wraps to: the one congruent to it modulo 2^32. */
  function Wrap32(x: int): (r: int32)
    ensures (x - r as int) % 0x1_0000_0000 == 0
    ensures MinInt <= x <= MaxInt ==> r as int == x
  {
    ((x - MinInt) % 0x1_0000_0000 + MinInt) as int32
  }

  /** The `++` of a Java int: MaxInt steps to MinInt. */
  function Inc32(x: int32): (r: int32)
    ensures r == Wrap32(x as int + 1)
    ensures x as int < MaxInt ==> r as int == x as int + 1
    ensures x as int == MaxInt ==> r as int == MinInt
  {
    if x == 0x7fff_ffff then -0x8000_0000 else x + 1
  }

  /** Two integers congruent modulo 2^32 wrap to the same Java int. */
  lemma Wrap32Unique(x: int, r: int32)
    requires (x - r as int) % 0x1_0000_0000 == 0
    ensures Wrap32(x) == r
  {
    var w := Wrap32(x);
    var a, b := (x - w as int) / 0x1_0000_0000, (x - r as int) / 0x1_0000_0000;
    assert x - w as int == 0x1_0000_0000 * a;
    assert x - r as int == 0x1_0000_0000 * b;
    assert w as int - r as int == 0x1_0000_0000 * (b - a);
  }

  /** Counting up one at a time in a Java int wraps like the exact count does. */
  lemma Inc32Wrap32(c: int)
    ensures Inc32(Wrap32(c)) == Wrap32(c + 1)
  {
    var w := Wrap32(c);
    Wrap32Unique(c + 1, Inc32(w));
  }
}
