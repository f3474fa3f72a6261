/**
  64-bit two's-complement integers: wrap-around, shifts and bitwise operators, written out on
  unbounded integers. The remaining lemmas say what the operators mean arithmetically.
 */
module Words {

  const TWO_63 := 0x8000_0000_0000_0000
  const TWO_64 := 0x1_0000_0000_0000_0000

  predicate IsInt64(x: int) {
    -TWO_63 <= x < TWO_63
  }

  /** The int64 that agrees with x modulo 2^64. */
  function Wrap64(x: int): (r: int)
    ensures IsInt64(r) && (r - x) % TWO_64 == 0
    ensures IsInt64(x) ==> r == x
  {
    (x + TWO_63) % TWO_64 - TWO_63
  }

  function Pow2(k: nat): (p: int)
    ensures p >= 1
  {
    if k == 0 then 1 else 2 * Pow2(k - 1)
  }

  datatype BitOp = And | Or | Xor

  function BitOf(op: BitOp, p: bool, q: bool): bool {
    match op
    case And => p && q
    case Or => p || q
    case Xor => p != q
  }

  /** The operator on w bits and a sign, least significant bit first. */
  function Bitwise(op: BitOp, a: int, b: int, w: nat): int
    decreases w
  {
    if w == 0 then (if BitOf(op, a < 0, b < 0) then -1 else 0)
    else 2 * Bitwise(op, a / 2, b / 2, w - 1) + if BitOf(op, a % 2 == 1, b % 2 == 1) then 1 else 0
  }

  function Or64(a: int, b: int): int {
    Bitwise(Or, a, b, 63)
  }

  function And64(a: int, b: int): int {
    Bitwise(And, a, b, 63)
  }

  function Xor64(a: int, b: int): int {
    Bitwise(Xor, a, b, 63)
  }

  function Shl64(x: int, k: nat): int {
    Wrap64(x * Pow2(k))
  }

  /** Arithmetic shift: rounds towards minus infinity. */
  function Shr64(x: int, k: nat): int {
    x / Pow2(k)
  }

  // ------------------------------------------------------------------ meaning

  lemma {:induction false} BitwiseRange(op: BitOp, a: int, b: int, w: nat)
    ensures -Pow2(w) <= Bitwise(op, a, b, w) < Pow2(w)
    decreases w
  {
    if w == 0 {
    } else {
      BitwiseRange(op, a / 2, b / 2, w - 1);
    }
  }

  lemma {:induction false} OrZero(a: int, w: nat)
    requires -Pow2(w) <= a < Pow2(w)
    ensures Bitwise(Or, a, 0, w) == a
    decreases w
  {
    if w == 0 {
    } else {
      OrZero(a / 2, w - 1);
    }
  }

  /** Or-ing a value below 2^k into a multiple of 2^k adds it. */
  lemma {:induction false} OrIsSum(k: nat, high: int, low: int, w: nat)
    requires 0 <= low < Pow2(k) && k <= w
    requires -Pow2(w) <= high * Pow2(k) < Pow2(w)
    ensures Bitwise(Or, high * Pow2(k), low, w) == high * Pow2(k) + low
  {
    if k == 0 {
      OrZero(high, w);
    } else {
      var half := high * Pow2(k - 1);
      assert high * Pow2(k) == 2 * half;
      OrIsSum(k - 1, high, low / 2, w - 1);
    }
  }

  /** Bit k of the two's-complement representation of x. */
  predicate Bit(x: int, k: nat)
    decreases k
  {
    if k == 0 then x % 2 == 1 else Bit(x / 2, k - 1)
  }

  /** A bit that the other operand of an or has set is hidden. */
  lemma {:induction false} OrHidesBit(a: int, b: int, k: nat, w: nat)
    requires k < w && !Bit(a, k) && Bit(b, k)
    ensures Bitwise(Or, a + Pow2(k), b, w) == Bitwise(Or, a, b, w)
    decreases k
  {
    if k == 0 {
      assert (a + 1) / 2 == a / 2;
    } else {
      assert (a + Pow2(k)) / 2 == a / 2 + Pow2(k - 1) && (a + Pow2(k)) % 2 == a % 2;
      OrHidesBit(a / 2, b / 2, k - 1, w - 1);
    }
  }

  /** So is the sign. */
  lemma {:induction false} OrHidesSign(a: int, b: int, w: nat)
    requires -Pow2(w) <= a < 0 && -Pow2(w) <= b < 0
    ensures Bitwise(Or, a + Pow2(w), b, w) == Bitwise(Or, a, b, w)
    decreases w
  {
    if w == 0 {
      assert a == -1 && b == -1;
    } else {
      assert (a + Pow2(w)) / 2 == a / 2 + Pow2(w - 1) && (a + Pow2(w)) % 2 == a % 2;
      OrHidesSign(a / 2, b / 2, w - 1);
    }
  }

  /** Setting the sign of one operand sets the sign of the or, and nothing else. */
  lemma {:induction false} OrSetsSign(a: int, b: int, w: nat)
    requires 0 <= a < Pow2(w) && 0 <= b < Pow2(w)
    ensures Bitwise(Or, a, b - Pow2(w), w) == Bitwise(Or, a, b, w) - Pow2(w)
    ensures Bitwise(Or, a - Pow2(w), b, w) == Bitwise(Or, a, b, w) - Pow2(w)
    decreases w
  {
    if w == 0 {
    } else {
      assert (b - Pow2(w)) / 2 == b / 2 - Pow2(w - 1) && (b - Pow2(w)) % 2 == b % 2;
      assert (a - Pow2(w)) / 2 == a / 2 - Pow2(w - 1) && (a - Pow2(w)) % 2 == a % 2;
      OrSetsSign(a / 2, b / 2, w - 1);
    }
  }

  /** The sign does not change the bits below it. */
  lemma {:induction false} BitBelowSign(x: int, k: nat, w: nat)
    requires k < w
    ensures Bit(x - Pow2(w), k) == Bit(x, k)
    decreases k
  {
    assert (x - Pow2(w)) / 2 == x / 2 - Pow2(w - 1) && (x - Pow2(w)) % 2 == x % 2;
    if k == 0 {
    } else {
      BitBelowSign(x / 2, k - 1, w - 1);
    }
  }

  lemma {:induction false} HighestBit(x: int, w: nat) returns (k: nat)
    requires 0 < x < Pow2(w)
    ensures k < w && Pow2(k) <= x < 2 * Pow2(k) && Bit(x, k)
    decreases w
  {
    if x == 1 {
      k := 0;
    } else {
      k := HighestBit(x / 2, w - 1);
      k := k + 1;
    }
  }

  lemma {:induction false} NoBits(k: nat)
    ensures !Bit(0, k)
  {
    if k == 0 {
    } else {
      NoBits(k - 1);
    }
  }

  lemma {:induction false} AndZero(a: int, w: nat)
    ensures Bitwise(And, a, 0, w) == 0
    decreases w
  {
    if w == 0 {
    } else {
      AndZero(a / 2, w - 1);
    }
  }

  lemma ModTwice(a: int, m: int)
    requires m > 0
    ensures a % (2 * m) == 2 * ((a / 2) % m) + a % 2
  {
    var q, r := a / 2 / m, (a / 2) % m;
    assert a / 2 == m * q + r;
    assert a == (2 * m) * q + (2 * r + a % 2);
    DivModUnique(a, 2 * m, q, 2 * r + a % 2);
  }

  lemma MulAtLeast(m: int, d: int)
    requires m > 0
    ensures d >= 1 ==> m * d >= m
    ensures d <= -1 ==> m * d <= -m
  {
  }

  lemma DivModUnique(a: int, m: int, q: int, r: int)
    requires m > 0 && a == m * q + r && 0 <= r < m
    ensures a / m == q && a % m == r
  {
    var d := a / m - q;
    assert m * d == r - a % m;
    MulAtLeast(m, d);
  }

  /** Masking with k ones is the remainder modulo 2^k. */
  lemma {:induction false} AndMask(k: nat, a: int, w: nat)
    requires k <= w
    ensures Bitwise(And, a, Pow2(k) - 1, w) == a % Pow2(k)
  {
    if k == 0 {
      AndZero(a, w);
    } else {
      assert (Pow2(k) - 1) / 2 == Pow2(k - 1) - 1 && (Pow2(k) - 1) % 2 == 1;
      AndMask(k - 1, a / 2, w - 1);
      ModTwice(a, Pow2(k - 1));
    }
  }

  lemma {:induction false} XorMinusOne(a: int, w: nat)
    requires -Pow2(w) <= a < Pow2(w)
    ensures Bitwise(Xor, -1, a, w) == -1 - a
    decreases w
  {
    if w == 0 {
    } else {
      XorMinusOne(a / 2, w - 1);
    }
  }

  lemma Powers()
    ensures Pow2(10) == 0x400 && Pow2(12) == 0x1000 && Pow2(22) == 0x40_0000 && Pow2(41) == 0x200_0000_0000
    ensures Pow2(63) == TWO_63
  {
    hide Pow2;
    SmallPowers();
    PowAdd(10, 12);
    PowAdd(10, 9);
    PowAdd(22, 19);
    PowAdd(22, 41);
  }

  lemma SmallPowers()
    ensures Pow2(9) == 0x200 && Pow2(10) == 0x400 && Pow2(12) == 0x1000
  {
    assert Pow2(4) == 0x10 && Pow2(8) == 0x100;
  }

  lemma {:induction false} PowAdd(j: nat, k: nat)
    ensures Pow2(j + k) == Pow2(j) * Pow2(k)
  {
    if j == 0 {
    } else {
      PowAdd(j - 1, k);
    }
  }
}
