/**
 32-bit two's complement words as integers.
 */
module Word {
  import opened Arithmetic

  const TWO31 := 0x8000_0000
  const TWO32 := 0x1_0000_0000

  predicate Is32(x: int) {
    -TWO31 <= x < TWO31
  }

  type Int32 = x: int | Is32(x)

  /** Two's complement: the signed value of the low 32 bits. */
  function Wrap32(x: int): (r: int)
    ensures Is32(r)
    ensures Is32(x) ==> r == x
  {
    (x + TWO31) % TWO32 - TWO31
  }

  function Unsigned32(x: int): (r: int)
    ensures 0 <= r < TWO32
  {
    x % TWO32
  }

  /** Two numbers a multiple of 2^32 apart are the same word. */
  lemma SameWord(x: int, y: int, k: int)
    requires x == y + TWO32 * k
    ensures Wrap32(x) == Wrap32(y)
  {
    AddMultiple(y + TWO31, k, TWO32);
  }

  /** A word is a multiple of 2^32 from the number it came from. */
  lemma WordOf(x: int) returns (k: int)
    ensures Wrap32(x) == x + TWO32 * k
  {
    k := -((x + TWO31) / TWO32);
  }

  lemma WrapAdd(x: int, y: int)
    ensures Wrap32(Wrap32(x) + y) == Wrap32(x + y)
  {
    var k := WordOf(x);
    SameWord(Wrap32(x) + y, x + y, k);
  }

  lemma WrapSub(x: int, y: int)
    ensures Wrap32(x - Wrap32(y)) == Wrap32(x - y)
  {
    var k := WordOf(y);
    SameWord(x - Wrap32(y), x - y, -k);
  }

  lemma WrapMul(x: int, y: int)
    ensures Wrap32(Wrap32(x) * y) == Wrap32(x * y)
  {
    var k := WordOf(x);
    assert Wrap32(x) * y == x * y + TWO32 * (k * y);
    SameWord(Wrap32(x) * y, x * y, k * y);
  }
}
