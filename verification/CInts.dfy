/** C integer arithmetic as the repository's code relies on it: 32-bit `int`, division that
  * truncates toward zero, and the overflow-checked additions of the time-zone code. */
module CInts {
  const INT_MAX: int := 0x7fff_ffff
  const INT_MIN: int := -0x8000_0000

  predicate IsInt(x: int) {
    INT_MIN <= x <= INT_MAX
  }

  /** C's `/` for a positive divisor. */
  function TruncDiv(a: int, b: int): int
    requires b > 0
  {
    if a >= 0 then a / b else -((-a) / b)
  }

  /** C's `%` for a positive divisor: the sign follows the dividend. */
  function TruncMod(a: int, b: int): int
    requires b > 0
  {
    a - TruncDiv(a, b) * b
  }

  /** Conversion of a wide integer to `int`, keeping the low 32 bits. */
  function ToInt(x: int): int {
    (x + 0x8000_0000) % 0x1_0000_0000 - 0x8000_0000
  }

  /** The in-out parameter `*ip` is the pair of `i` and `r`. */
  method IncrementOverflow(i: int, j: int) returns (overflow: bool, r: int)
    requires IsInt(i) && IsInt(j)
    ensures overflow <==> !IsInt(i + j)
    ensures r == if overflow then i else i + j
  {
    if if i >= 0 then j > INT_MAX - i else j < INT_MIN - i {
      return true, i;
    }
    return false, i + j;
  }

  /** The conversion to `int` is lossless exactly on the range of `int`. */
  lemma ToIntLossless(x: int)
    ensures ToInt(x) == x <==> IsInt(x)
  {
  }

  lemma AtLeastOnce(d: int, b: int)
    requires d >= 1 && b > 0
    ensures d * b >= b
  {
  }

  /** A quotient is known from any multiple of the divisor just below the dividend. */
  lemma DivideByRounds(a: int, b: int, q: int)
    requires b > 0 && q * b <= a < q * b + b
    ensures a / b == q && a % b == a - q * b
  {
    var p := a / b;
    assert (p - q) * b == p * b - q * b;
    if p > q {
      AtLeastOnce(p - q, b);
    } else if p < q {
      AtLeastOnce(q - p, b);
    }
  }

  /** Adding a multiple of the divisor adds to the quotient alone. */
  lemma QuotientShift(n: int, k: int, m: int)
    requires k > 0
    ensures (n + m * k) / k == n / k + m && (n + m * k) % k == n % k
  {
    var q := n / k;
    assert (q + m) * k == q * k + m * k;
    DivideByRounds(n + m * k, k, q + m);
  }

  /** An integer `time_t` holding the values from `lo` through `hi`. */
  datatype TimeT = TimeT(lo: int, hi: int)
  {
    /** Signed or unsigned, and at least 32 bits wide. */
    predicate Valid() {
      lo <= 0 < hi && 0xffff_ffff <= hi - lo
    }

    predicate Has(t: int) {
      lo <= t <= hi
    }

    /** Arithmetic that leaves the range wraps around. */
    function Wrap(x: int): int
      requires Valid()
    {
      (x - lo) % (hi - lo + 1) + lo
    }
  }

  /** DJGPP's own, and that of a 64-bit system. */
  const DJGPP_TIME := TimeT(0, 0xffff_ffff)
  const WIDE_TIME := TimeT(-0x8000_0000_0000_0000, 0x7fff_ffff_ffff_ffff)

  /** The sign test after an addition finds every wrap-around. */
  lemma WrapDetected(tt: TimeT, t: int, d: int)
    requires tt.Valid() && tt.Has(t) && IsInt(d)
    ensures (tt.Wrap(t + d) < t) == (d < 0) <==> tt.Has(t + d)
    ensures tt.Has(t + d) ==> tt.Wrap(t + d) == t + d
  {
    var size := tt.hi - tt.lo + 1;
    var x := t + d - tt.lo;
    if x < 0 {
      DivideByRounds(x, size, -1);
    } else if x >= size {
      DivideByRounds(x, size, 1);
    } else {
      DivideByRounds(x, size, 0);
    }
  }

  /** What the type can hold does not wrap around. */
  lemma WrapSame(tt: TimeT, x: int)
    requires tt.Valid() && tt.Has(x)
    ensures tt.Wrap(x) == x
  {
    DivideByRounds(x - tt.lo, tt.hi - tt.lo + 1, 0);
  }

  /** What is too large by less than a whole range wraps around once. */
  lemma WrapOnce(tt: TimeT, x: int)
    requires tt.Valid() && tt.hi < x <= tt.hi + (tt.hi - tt.lo + 1)
    ensures tt.Wrap(x) == x - (tt.hi - tt.lo + 1)
  {
    DivideByRounds(x - tt.lo, tt.hi - tt.lo + 1, 1);
  }
}
