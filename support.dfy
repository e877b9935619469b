/**
 * Small pieces shared by the models: Java's `null`-or-value as an Option,
 * and the parts of Java's 32-bit `int` arithmetic the models rely on.
 */
module Support {

  /** A Java reference that may be `null`. */
  datatype Option<T> = None | Some(value: T)

  const IntMin: int := -0x8000_0000
  const IntMax: int := 0x7fff_ffff

  /** The values of a Java `int`. */
  predicate IsInt32(v: int) {
    IntMin <= v <= IntMax
  }

  /** Java's `int` addition and subtraction: the mathematical result, wrapped into 32 bits. */
  function Wrap32(v: int): (r: int)
    ensures IsInt32(r)
    ensures (r - v) % 0x1_0000_0000 == 0
    ensures IsInt32(v) ==> r == v
  {
    (v - IntMin) % 0x1_0000_0000 + IntMin
  }

  /**
   * Java's `%`: the remainder of a division that truncates toward zero,
   * so it takes the sign of the dividend (unlike Dafny's Euclidean `%`).
   */
  function JavaRem(a: int, n: int): (r: int)
    requires n > 0
    ensures a >= 0 ==> 0 <= r < n && r == a % n
    ensures a < 0 ==> -n < r <= 0
    ensures (a - r) % n == 0
  {
    RemainderCongruent(a, n);
    if a >= 0 then a % n else -((-a) % n)
  }

  /** Both remainders `JavaRem` may return differ from `a` by a multiple of `n`. */
  lemma RemainderCongruent(a: int, n: int)
    requires n > 0
    ensures a >= 0 ==> (a - a % n) % n == 0
    ensures a < 0 ==> (a + (-a) % n) % n == 0
  {
    if a >= 0 {
      var q := a / n;
      assert a - a % n == q * n;
      MultipleMod(q, n);
    } else {
      var q := (-a) / n;
      assert -a == q * n + (-a) % n;
      assert a + (-a) % n == (-q) * n;
      MultipleMod(-q, n);
    }
  }

  /** A multiple of `n` leaves no remainder. */
  lemma MultipleMod(q: int, n: int)
    requires n > 0
    ensures (q * n) % n == 0
  {
    var d, m := (q * n) / n, (q * n) % n;
    assert (q - d) * n == m;
    ProductBound(q - d, n);
  }

  /** A non-zero multiple of `n` is at least `n` away from zero. */
  lemma ProductBound(k: int, n: int)
    requires n > 0
    ensures k >= 1 ==> k * n >= n
    ensures k <= -1 ==> k * n <= -n
  {
  }
}
