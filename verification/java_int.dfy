/**
 * Java's 32-bit two's-complement `int`, as held by an `AtomicInteger`.
 * Dafny integers are unbounded, so the wrap-around of `incrementAndGet`
 * is written out here.
 */
module JavaInt {

  const MIN: int := -0x8000_0000
  const MAX: int := 0x7fff_ffff
  const MODULUS: int := 0x1_0000_0000

  type Int32 = x: int | MIN <= x <= MAX

  /** Truncation of an arbitrary integer to its 32-bit two's-complement value. */
  function Wrap(n: int): Int32
  {
    (n - MIN) % MODULUS + MIN
  }

  /** `AtomicInteger.incrementAndGet`: one more, wrapping from MAX round to MIN. */
  function Inc(x: Int32): (r: Int32)
    ensures r == Wrap(x + 1)
    ensures x < MAX ==> r == x + 1
  {
    if x == MAX then MIN else x + 1
  }

  /** `n` successive increments. */
  function IncN(x: Int32, n: nat): Int32
    decreases n
  {
    if n == 0 then x else IncN(Inc(x), n - 1)
  }

  /** `n` increments land on the 32-bit truncation of `x + n`; without overflow that is `x + n` itself. */
  lemma {:induction false} IncNIsWrappedSum(x: Int32, n: nat)
    ensures IncN(x, n) == Wrap(x + n)
    ensures x + n <= MAX ==> IncN(x, n) == x + n
    decreases n
  {
    if n > 0 {
      IncNIsWrappedSum(Inc(x), n - 1);
      WrapOfWrap(x + 1, n - 1);
    }
  }

  /** A value already in range is its own truncation. */
  lemma WrapInRange(n: int)
    requires MIN <= n <= MAX
    ensures Wrap(n) == n
  {
  }

  /** Truncating before adding changes nothing. */
  lemma WrapOfWrap(a: int, b: int)
    ensures Wrap(Wrap(a) + b) == Wrap(a + b)
  {
    var q := (a - MIN) / MODULUS;
    assert Wrap(a) == a - q * MODULUS;
    assert Wrap(a) + b - MIN == (a + b - MIN) - q * MODULUS;
  }
}
