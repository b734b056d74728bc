/** Java's fixed-width integer types and the two's-complement arithmetic of `long`.
    Java evaluates `+`, `-` and `*` on `long` modulo 2^64 (results wrap around) and
    `/` on `long` truncates toward zero; Dafny's integers are unbounded and its `/`
    is Euclidean, so both are written out here. */
module JavaLong {

  const TWO_64: int := 0x1_0000_0000_0000_0000
  const LONG_MIN: int := -0x8000_0000_0000_0000
  const LONG_MAX: int := 0x7FFF_FFFF_FFFF_FFFF

  /** Java `int`. */
  newtype int32 = x: int | -0x8000_0000 <= x < 0x8000_0000

  /** Java `long`. */
  newtype int64 = x: int | -0x8000_0000_0000_0000 <= x < 0x8000_0000_0000_0000

  /** x and y denote the same `long`: they differ by a multiple of 2^64. */
  predicate Congruent(x: int, y: int) {
    (x - y) % TWO_64 == 0
  }

  /** The remainder modulo 2^64 is determined by any decomposition x = 2^64 * q + r. */
  lemma ModUnique(x: int, q: int, r: int)
    requires 0 <= r < TWO_64 && x == TWO_64 * q + r
    ensures x % TWO_64 == r
  {
  }

  /** A value already in [0, 2^64) is its own remainder. */
  lemma ModOfSmall(x: int)
    ensures 0 <= x < TWO_64 ==> x % TWO_64 == x
  {
    if 0 <= x < TWO_64 {
      ModUnique(x, 0, x);
    }
  }

  /** The `long` that the mathematical integer x denotes: x reduced into
      [LONG_MIN, LONG_MAX] modulo 2^64. */
  function Wrap64(x: int): (r: int64)
    ensures Congruent(r as int, x)
    ensures LONG_MIN <= x <= LONG_MAX ==> r as int == x
  {
    var r := (x - LONG_MIN) % TWO_64 + LONG_MIN;
    ModUnique(r - x, -((x - LONG_MIN) / TWO_64), 0);
    ModOfSmall(x - LONG_MIN);
    r as int64
  }

  /** Congruent integers wrap to the same `long`. */
  lemma WrapOfCongruent(x: int, y: int)
    requires Congruent(x, y)
    ensures Wrap64(x) == Wrap64(y)
  {
    var k := (x - y) / TWO_64;
    assert x - y == TWO_64 * k;
    var ry := (y - LONG_MIN) % TWO_64;
    var qy := (y - LONG_MIN) / TWO_64;
    assert x - LONG_MIN == TWO_64 * (qy + k) + ry;
    ModUnique(x - LONG_MIN, qy + k, ry);
  }

  /** Congruence is transitive. */
  lemma CongruentTrans(x: int, y: int, z: int)
    requires Congruent(x, y) && Congruent(y, z)
    ensures Congruent(x, z)
  {
    var k1, k2 := (x - y) / TWO_64, (y - z) / TWO_64;
    assert x - y == TWO_64 * k1 && y - z == TWO_64 * k2;
    ModUnique(x - z, k1 + k2, 0);
  }

  /** Congruence survives adding the same amount on both sides. */
  lemma CongruentPlus(x: int, y: int, c: int)
    requires Congruent(x, y)
    ensures Congruent(c + x, c + y)
  {
    assert (c + x) - (c + y) == x - y;
  }

  /** Congruence survives multiplying both sides by the same factor. */
  lemma CongruentTimes(x: int, y: int, c: int)
    requires Congruent(x, y)
    ensures Congruent(x * c, y * c)
  {
    var k := (x - y) / TWO_64;
    assert x - y == TWO_64 * k;
    calc {
      x * c - y * c;
      (x - y) * c;
      (TWO_64 * k) * c;
      TWO_64 * (k * c);
    }
    ModUnique(x * c - y * c, k * c, 0);
  }

  /** Java `a + b` on `long`. */
  function LongAdd(a: int64, b: int64): (r: int64)
    ensures Congruent(r as int, a as int + b as int)
    ensures LONG_MIN <= a as int + b as int <= LONG_MAX ==> r as int == a as int + b as int
  {
    Wrap64(a as int + b as int)
  }

  /** Java `a - b` on `long`. */
  function LongSub(a: int64, b: int64): (r: int64)
    ensures Congruent(r as int, a as int - b as int)
    ensures LONG_MIN <= a as int - b as int <= LONG_MAX ==> r as int == a as int - b as int
  {
    Wrap64(a as int - b as int)
  }

  /** Java `a * b` on `long`. */
  function LongMul(a: int64, b: int64): (r: int64)
    ensures Congruent(r as int, a as int * b as int)
    ensures LONG_MIN <= a as int * b as int <= LONG_MAX ==> r as int == a as int * b as int
  {
    Wrap64(a as int * b as int)
  }

  /** Java `ms / 1000` on `long`: the quotient truncated toward zero, so the
      remainder left over has the sign of ms and is smaller than 1000 in size. */
  function MillisToSeconds(ms: int64): (s: int64)
    ensures ms >= 0 ==> 0 <= ms as int - 1000 * s as int < 1000
    ensures ms < 0 ==> -1000 < ms as int - 1000 * s as int <= 0
  {
    if ms >= 0 then ms / 1000 else (-((-(ms as int)) / 1000)) as int64
  }
}
