/** Machine words: bytes and the modulo-2^64 arithmetic of uint64_t. */
module Words {
  const TWO64: nat := 0x1_0000_0000_0000_0000
  const TWO63: nat := 0x8000_0000_0000_0000

  type byte = x: int | 0 <= x < 256

  /** The value a uint64_t holds after it was assigned x: x modulo 2^64. */
  function U64(x: int): (r: nat)
    ensures r < TWO64
    ensures 0 <= x < TWO64 ==> r == x
    decreases if x < 0 then TWO64 - x else x
  {
    if x < 0 then U64(x + TWO64) else if x < TWO64 then x else U64(x - TWO64)
  }

  lemma {:induction false} U64IsModulo(x: int)
    ensures U64(x) == x % TWO64
    decreases if x < 0 then TWO64 - x else x
  {
    if x < 0 {
      U64IsModulo(x + TWO64);
    } else if x >= TWO64 {
      U64IsModulo(x - TWO64);
    }
  }

  /** Wrapping early or late makes no difference to a sum. */
  lemma {:induction false} U64Sum(x: int, y: int)
    ensures U64(U64(x) + y) == U64(x + y)
    decreases if x < 0 then TWO64 - x else x
  {
    if x < 0 {
      U64Sum(x + TWO64, y);
      U64Turn(x + y);
    } else if x >= TWO64 {
      U64Sum(x - TWO64, y);
      U64Turn(x + y - TWO64);
    }
  }

  /** One full turn. */
  lemma U64Turn(x: int)
    ensures U64(x + TWO64) == U64(x)
  {
  }

  lemma U64Difference(c: int, x: int)
    ensures U64(c - U64(x)) == U64(c - x)
  {
    U64IsModulo(x);
    U64IsModulo(c - x);
    U64IsModulo(c - U64(x));
  }

  /** The check "a + b > limit" in 64-bit arithmetic is exact unless the sum wraps round to a value within limit. */
  lemma WrappedCheckIff(a: nat, b: nat, limit: nat)
    requires a < TWO64 && b < TWO64 && limit < TWO64
    ensures (U64(a + b) > limit <==> a + b > limit) <==> !(TWO64 <= a + b <= TWO64 + limit)
  {
    assert a + b >= TWO64 ==> U64(a + b) == a + b - TWO64;
  }

  /** U64 within one turn of zero. */
  function Lap(x: int): int {
    if x < 0 then x + TWO64 else x
  }

  lemma LapIsU64(x: int)
    requires -(TWO64 as int) <= x < TWO64
    ensures Lap(x) == U64(x)
  {
  }

  function Min(a: int, b: int): (r: int)
    ensures r <= a && r <= b && (r == a || r == b)
  {
    if a <= b then a else b
  }
}
