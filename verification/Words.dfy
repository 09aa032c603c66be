/** Arithmetic on 64 bit words: unsigned (size_t, hsize_t) and signed (long). */
module Words {

  const U64: nat := 0x1_0000_0000_0000_0000
  const MaxLong: int := 0x7FFF_FFFF_FFFF_FFFF

  type Long = n: int | -MaxLong - 1 <= n <= MaxLong

  /** Unsigned addition. */
  function AddU64(a: nat, b: nat): (r: nat)
    ensures a + b < U64 ==> r == a + b
  {
    (a + b) % U64
  }

  /** Unsigned multiplication. */
  function MulU64(a: nat, b: nat): (r: nat)
    ensures r < U64 && (a * b < U64 ==> r == a * b)
  {
    (a * b) % U64
  }

  /** The signed word with the same bits. */
  function AsLong(n: int): (r: Long)
    ensures -MaxLong - 1 <= n <= MaxLong ==> r == n
  {
    (n + U64 / 2) % U64 - U64 / 2
  }

  lemma NoMultiple(d: int, m: nat)
    requires 0 < d * m + m && d * m < m
    ensures d == 0
  {
    if d > 0 { AtLeastOnce(d, m); }
    if d < 0 { AtLeastOnce(-d, m); }
  }

  lemma AtLeastOnce(k: int, m: nat)
    requires k >= 1
    ensures k * m >= m
  {}

  lemma Difference(a: int, b: int, m: nat)
    ensures (a - b) * m == a * m - b * m
  {}

  lemma ModUnique(a: int, m: nat, q: int, r: int)
    requires m > 0 && a == q * m + r && 0 <= r < m
    ensures a % m == r && a / m == q
  {
    var p, s := a / m, a % m;
    assert a == p * m + s;
    Difference(p, q, m);
    NoMultiple(p - q, m);
  }

  /** Adding a multiple of m does not change the remainder. */
  lemma ModShift(a: int, k: int, m: nat)
    requires m > 0
    ensures (a + k * m) % m == a % m
  {
    assert a == (a / m) * m + a % m;
    assert a + k * m == (a / m + k) * m + a % m;
    ModUnique(a + k * m, m, a / m + k, a % m);
  }

  /** It does not matter whether a factor is reduced before or after multiplying. */
  lemma MulMod(a: nat, b: nat)
    ensures MulU64(a % U64, b) == (a * b) % U64
  {
    assert a == (a / U64) * U64 + a % U64;
    Distribute(a / U64, U64, a % U64, b);
    ModShift(a % U64 * b, (a / U64) * b, U64);
  }

  lemma Distribute(q: nat, m: nat, r: nat, b: nat)
    ensures (q * m + r) * b == r * b + (q * b) * m
  {}

  lemma AddMod(a: nat, b: nat)
    ensures AddU64(a % U64, b) == (a + b) % U64
  {
    assert a + b == a % U64 + b + (a / U64) * U64;
    ModShift(a % U64 + b, a / U64, U64);
  }

  /** Sums can be reduced at every step. */
  lemma AsLongSum(a: int, b: int)
    ensures AsLong(AsLong(a) + b) == AsLong(a + b)
  {
    var h := U64 / 2;
    assert a + h == ((a + h) / U64) * U64 + (a + h) % U64;
    var k := (a + h) / U64;
    assert AsLong(a) == a - k * U64;
    ModShift(a + b + h, -k, U64);
    assert AsLong(a) + b + h == a + b + h + (-k) * U64;
  }
}
