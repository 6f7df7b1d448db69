/** Shared vocabulary: optional values, the order side, and the fixed-width
    integer conversions the C++ code performs implicitly. */
module Common {

  datatype Option<T> = None | Some(value: T)

  /** `impl::Side`: BUY = 0, SELL = 1. */
  datatype Side = Buy | Sell

  const TWO_32: int := 0x1_0000_0000
  const TWO_64: int := 0x1_0000_0000_0000_0000
  const INT32_MIN: int := -0x8000_0000
  const INT32_MAX: int := 0x7FFF_FFFF

  predicate IsInt32(x: int) { INT32_MIN <= x <= INT32_MAX }

  /** `ptrdiff_t`: a signed 64-bit pointer difference. */
  predicate IsInt64(x: int) { -0x8000_0000_0000_0000 <= x < 0x8000_0000_0000_0000 }

  /** Unsigned 32-bit wrap-around (uint32_t arithmetic and conversions). */
  function U32(x: int): (r: nat)
    ensures r < TWO_32
    ensures 0 <= x < TWO_32 ==> r == x
  {
    x % TWO_32
  }

  /** Unsigned 64-bit wrap-around (uint64_t / size_t arithmetic and conversions). */
  function U64(x: int): (r: nat)
    ensures r < TWO_64
    ensures 0 <= x < TWO_64 ==> r == x
  {
    x % TWO_64
  }

  /** `static_cast<int32_t>` of an integer: keeps the low 32 bits, two's complement. */
  function ToInt32(x: int): (r: int)
    ensures IsInt32(r)
    ensures IsInt32(x) ==> r == x
    ensures (r - x) % TWO_32 == 0
  {
    var y := x % TWO_32;
    if y <= INT32_MAX then y else y - TWO_32
  }

  /** C and C++ integer division, which truncates toward zero
      (Dafny's own `/` is Euclidean): the remainder `a - q * b` has the
      dividend's sign and is smaller than the divisor in magnitude. */
  function CDiv(a: int, b: int): (q: int)
    requires b > 0
    ensures a >= 0 ==> 0 <= a - q * b < b
    ensures a < 0 ==> -b < a - q * b <= 0
  {
    if a >= 0 then a / b else -((-a) / b)
  }

  lemma {:induction false} CDivHalfBetween(a: int, b: int)
    ensures var q := CDiv(a + b, 2); (a <= b ==> a <= q <= b) && (b <= a ==> b <= q <= a)
  {
    var s := a + b;
    if s >= 0 {
      assert CDiv(s, 2) == s / 2;
    } else {
      assert CDiv(s, 2) == -((-s) / 2);
    }
  }

  /** Addition modulo 2^k composes: folding the reduction into a running sum
      does not change the result. */
  lemma ModAddFold(a: int, b: int, m: int)
    requires m > 0
    ensures (a % m + b) % m == (a + b) % m
  {
    var q := a / m;
    assert a == q * m + a % m;
    assert a + b == (a % m + b) + q * m;
    ModMultiple(a % m + b, q, m);
  }

  lemma ModMultiple(x: int, q: int, m: int)
    requires m > 0
    ensures (x + q * m) % m == x % m
  {
    var y := x + q * m;
    var r := x % m;
    assert x == (x / m) * m + r;
    assert y == (x / m + q) * m + r by {
      assert (x / m + q) * m == (x / m) * m + q * m;
    }
    ModUnique(y, x / m + q, r, m);
  }

  /** Euclidean division is unique: a representation y = k*m + r with
      0 <= r < m fixes the remainder. */
  lemma ModUnique(y: int, k: int, r: int, m: int)
    requires m > 0 && 0 <= r < m && y == k * m + r
    ensures y % m == r
  {
    var k', r' := y / m, y % m;
    assert y == k' * m + r';
    assert (k - k') * m == r' - r by {
      assert k * m - k' * m == (k - k') * m;
    }
    if k > k' {
      assert (k - k') * m >= m by { MulMonotone(k - k', m); }
    } else if k < k' {
      assert (k' - k) * m >= m by { MulMonotone(k' - k, m); }
    }
  }

  lemma MulMonotone(a: int, m: int)
    requires a >= 1 && m > 0
    ensures a * m >= m
  {
    assert a * m == (a - 1) * m + m;
    assert (a - 1) * m >= 0;
  }

  /** Sums and differences of multiples of `m` are multiples of `m`. */
  lemma MultOf(p: int, q: int, m: int)
    requires m > 0 && p % m == 0 && q % m == 0
    ensures (p + q) % m == 0 && (p - q) % m == 0
  {
    assert p == (p / m) * m;
    assert q == (q / m) * m;
    assert p + q == (p / m + q / m) * m;
    assert p - q == (p / m - q / m) * m;
    ModUnique(p + q, p / m + q / m, 0, m);
    ModUnique(p - q, p / m - q / m, 0, m);
  }

  /** A 32-bit running total moved by `delta` is the wrapped exact sum
      moved by any `d` congruent to `delta`. */
  lemma U32Shift(t: int, delta: int, d: int)
    requires (delta - d) % TWO_32 == 0
    ensures U32(U32(t) + delta) == U32(t + d)
  {
    ModAddFold(t, delta, TWO_32);
    var j := (delta - d) / TWO_32;
    assert delta - d == j * TWO_32;
    assert t + delta == (t + d) + j * TWO_32;
    ModMultiple(t + d, j, TWO_32);
  }

  /** The int32_t difference of two int32_t casts is congruent to the
      exact difference. */
  lemma ToInt32Diff(a: int, b: int)
    ensures (ToInt32(ToInt32(a) - ToInt32(b)) - (a - b)) % TWO_32 == 0
  {
    var x := ToInt32(a) - ToInt32(b);
    MultOf(ToInt32(a) - a, ToInt32(b) - b, TWO_32);
    assert x - (a - b) == (ToInt32(a) - a) - (ToInt32(b) - b);
    MultOf(ToInt32(x) - x, x - (a - b), TWO_32);
    assert ToInt32(x) - (a - b) == (ToInt32(x) - x) + (x - (a - b));
  }
}
