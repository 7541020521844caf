/** Machine words, and the checked, wrapping and saturating operations on them. */
module Words {
  const TWO64: int := 0x1_0000_0000_0000_0000
  const MAX_U64: U64 := 0xFFFF_FFFF_FFFF_FFFF

  type U8 = x: int | 0 <= x < 0x100
  type U32 = x: int | 0 <= x < 0x1_0000_0000
  type I32 = x: int | -0x8000_0000 <= x < 0x8000_0000
  type U64 = x: int | 0 <= x < 0x1_0000_0000_0000_0000

  datatype Option<+T> = None | Some(value: T)

  datatype Result<+T, +E> = Ok(value: T) | Err(error: E) {
    predicate IsFailure() {
      Err?
    }

    function PropagateFailure<U>(): Result<U, E>
      requires Err?
    {
      Err(error)
    }

    function Extract(): T
      requires Ok?
    {
      value
    }
  }

  datatype Check<+E> = Pass | Fail(error: E) {
    predicate IsFailure() {
      Fail?
    }

    function PropagateFailure<U>(): Result<U, E>
      requires Fail?
    {
      Err(error)
    }
  }

  function Max(a: int, b: int): int {
    if a < b then b else a
  }

  function Min(a: int, b: int): int {
    if a < b then a else b
  }

  function WrappingAdd(a: U64, b: U64): U64 {
    if a + b < TWO64 then a + b else a + b - TWO64
  }

  function CheckedAdd(a: U64, b: U64): Option<U64> {
    if a + b < TWO64 then Some(a + b) else None
  }

  function CheckedSub(a: U64, b: U64): Option<U64> {
    if b <= a then Some(a - b) else None
  }

  function CheckedMul(a: U64, b: U64): Option<U64> {
    if 0 <= a * b < TWO64 then Some(a * b) else None
  }

  function SaturatingAdd(a: U64, b: U64): U64 {
    Min(a + b, MAX_U64)
  }

  function SaturatingSub(a: U64, b: U64): U64 {
    Max(a - b, 0)
  }

  function SaturatingMul(a: U64, b: U64): U64 {
    assert a * b >= 0;
    Min(a * b, MAX_U64)
  }
}

/** The bitwise operations the source uses, bit by bit, and what its masks compute. */
module Bits {
  import opened Words

  function BitAnd(a: nat, b: nat): nat
    decreases a
  {
    if a == 0 then 0
    else 2 * BitAnd(a / 2, b / 2) + if a % 2 == 1 && b % 2 == 1 then 1 else 0
  }

  function BitXor(a: nat, b: nat): nat
    decreases a + b
  {
    if a == 0 && b == 0 then 0
    else 2 * BitXor(a / 2, b / 2) + (a + b) % 2
  }

  function Pow2(n: nat): nat
    ensures Pow2(n) > 0
  {
    if n == 0 then 1 else 2 * Pow2(n - 1)
  }

  lemma Pow2Values()
    ensures Pow2(3) == 8
    ensures Pow2(64) == TWO64
  {
    assert Pow2(4) == 2 * Pow2(3) == 16;
    Pow2Sum(4, 4);
    Pow2Sum(8, 8);
    Pow2Sum(16, 16);
    Pow2Sum(32, 32);
  }

  lemma DoubledFactor(a: nat, b: nat)
    ensures 2 * a * b == 2 * (a * b)
  {
  }

  lemma {:induction false} Pow2Sum(m: nat, n: nat)
    ensures Pow2(m + n) == Pow2(m) * Pow2(n)
  {
    if m > 0 {
      Pow2Sum(m - 1, n);
      DoubledFactor(Pow2(m - 1), Pow2(n));
    }
  }

  lemma {:induction false} Pow2Grows(m: nat, n: nat)
    requires m < n
    ensures Pow2(m) < Pow2(n)
    decreases n
  {
    if m + 1 < n {
      Pow2Grows(m, n - 1);
    }
  }

  lemma {:induction false} XorBounded(a: nat, b: nat, width: nat)
    requires a < Pow2(width) && b < Pow2(width)
    ensures BitXor(a, b) < Pow2(width)
    decreases width
  {
    if width > 0 {
      XorBounded(a / 2, b / 2, width - 1);
    }
  }

  lemma XorUnfold(a: nat, b: nat)
    ensures BitXor(a, b) / 2 == BitXor(a / 2, b / 2)
    ensures BitXor(a, b) % 2 == (a + b) % 2
  {
  }

  lemma AndUnfold(a: nat, b: nat)
    ensures BitAnd(a, b) / 2 == BitAnd(a / 2, b / 2)
    ensures BitAnd(a, b) % 2 == if a % 2 == 1 && b % 2 == 1 then 1 else 0
  {
  }

  // Applying the same key twice gives the value back.
  lemma {:induction false} XorInvolution(key: nat, value: nat)
    ensures BitXor(key, BitXor(key, value)) == value
    decreases key + value
  {
    if key != 0 || value != 0 {
      hide BitXor;
      var x := BitXor(key, value);
      XorUnfold(key, value);
      XorUnfold(key, x);
      XorInvolution(key / 2, value / 2);
      XorParity(key, value, x);
      assert BitXor(key, x) / 2 == value / 2;
    }
  }

  lemma XorParity(key: nat, value: nat, x: nat)
    requires x % 2 == (key + value) % 2
    ensures (key + x) % 2 == value % 2
  {
    var k, v := key % 2, value % 2;
    assert key == 2 * (key / 2) + k && value == 2 * (value / 2) + v && x == 2 * (x / 2) + x % 2;
    assert x % 2 == (k + v) % 2;
    assert key + x == 2 * (key / 2 + x / 2) + k + x % 2;
  }

  lemma {:induction false} AndZero(a: nat)
    ensures BitAnd(a, 0) == 0
  {
    if a != 0 {
      AndZero(a / 2);
    }
  }

  // Masking off the low `low` bits of a `width`-bit word rounds it down to a multiple of 2^low.
  lemma {:induction false} AndHighMask(a: nat, width: nat, low: nat)
    requires a < Pow2(width) && low <= width
    ensures Pow2(low) <= Pow2(width)
    ensures BitAnd(a, Pow2(width) - Pow2(low)) == a - a % Pow2(low)
    decreases width
  {
    if width > 0 {
      var mask, shorter := Pow2(width) - Pow2(low), if low == 0 then 0 else low - 1;
      AndHighMask(a / 2, width - 1, shorter);
      AndUnfold(a, mask);
      hide BitAnd;
      if low == 0 {
        assert mask / 2 == Pow2(width - 1) - 1 && mask % 2 == 1;
      } else {
        assert mask / 2 == Pow2(width - 1) - Pow2(low - 1) && mask % 2 == 0;
        HalvedRemainder(a, Pow2(low - 1));
      }
    }
  }

  lemma HalvedRemainder(a: nat, half: nat)
    requires half > 0
    ensures a - a % (2 * half) == 2 * (a / 2 - (a / 2) % half)
  {
    var q, r := a / 2 / half, (a / 2) % half;
    assert a / 2 == half * q + r;
    var rest := 2 * r + a % 2;
    assert a == (2 * half) * q + rest && 0 <= rest < 2 * half;
    QuotientUnique(a, 2 * half, q, rest);
  }

  lemma QuotientUnique(a: int, d: int, q: int, r: int)
    requires d > 0 && 0 <= r < d && a == d * q + r
    ensures a % d == r && a / d == q
  {
    var k := q - a / d;
    assert a == d * (a / d) + a % d;
    assert d * k == d * q - d * (a / d);
    if k >= 1 {
      MulAtLeast(d, k);
    } else if k <= -1 {
      MulAtLeast(d, -k);
    }
  }

  lemma MulAtLeast(d: int, k: int)
    requires d > 0 && k >= 1
    ensures d * k >= d
  {
    assert d * k == d * (k - 1) + d && d * (k - 1) >= 0;
  }
}
