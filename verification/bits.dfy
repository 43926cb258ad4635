/** Go's bitwise operators on non-negative integers, defined one bit at a
    time, so that the frame codec can be written with the same shifts, ORs
    and masks as the source and its arithmetic meaning proved rather than
    assumed. */
module Bits {

  /** 2 to the power `n`. */
  function Pow2(n: nat): (p: nat)
    ensures p >= 1
  {
    if n == 0 then 1 else 2 * Pow2(n - 1)
  }

  /** The shift amounts the codec uses. */
  lemma Pow2Values()
    ensures Pow2(2) == 4 && Pow2(4) == 16 && Pow2(8) == 256 && Pow2(10) == 1024
  {
  }

  /** Bit `i` of a non-negative integer, counting from the least significant
      bit: the independent reference the operators below are checked
      against. */
  predicate Bit(a: nat, i: nat)
  {
    if i == 0 then a % 2 == 1 else Bit(a / 2, i - 1)
  }

  /** `a << n` on Go's `int`, before any narrowing conversion: for negative
      operands too, a left shift multiplies by 2^n. */
  function ShiftLeft(a: int, n: nat): (r: int)
    ensures a >= 0 ==> r >= 0
  {
    a * Pow2(n)
  }

  /** A shift by a fixed amount is multiplication by a known constant. */
  lemma ShiftLeftBy(a: int, n: nat, p: nat)
    requires p == Pow2(n)
    ensures ShiftLeft(a, n) == a * p
  {
  }

  /** On non-negative operands, `a << n` moves bit i of `a` to bit i + n and
      clears the n bits below. */
  lemma {:induction false} ShiftLeftBits(a: nat, n: nat, i: nat)
    ensures Bit(ShiftLeft(a, n), i + n) == Bit(a, i)
    ensures i < n ==> !Bit(ShiftLeft(a, n), i)
    decreases n
  {
    if n > 0 {
      var x := ShiftLeft(a, n - 1);
      assert ShiftLeft(a, n) == 2 * x by {
        assert a * (2 * Pow2(n - 1)) == 2 * (a * Pow2(n - 1));
      }
      assert (2 * x) / 2 == x && (2 * x) % 2 == 0;
      ShiftLeftBits(a, n - 1, i);
      if 0 < i < n {
        ShiftLeftBits(a, n - 1, i - 1);
      }
    }
  }

  /** Bitwise OR of two non-negative integers: bit 0 is set when either
      operand's bit 0 is, and the higher bits are the OR of the halves. */
  function Or(a: nat, b: nat): (r: nat)
    ensures r >= a && r >= b
    ensures r <= a + b
    decreases a + b
  {
    if a == 0 && b == 0 then 0
    else 2 * Or(a / 2, b / 2) + (if a % 2 == 1 || b % 2 == 1 then 1 else 0)
  }

  /** Bitwise AND of two non-negative integers: never larger than either
      operand, which is why masking bounds a value. */
  function And(a: nat, b: nat): (r: nat)
    ensures r <= a && r <= b
    decreases a
  {
    if a == 0 || b == 0 then 0
    else 2 * And(a / 2, b / 2) + (if a % 2 == 1 && b % 2 == 1 then 1 else 0)
  }

  /** Every bit of `Or(a, b)` is set exactly when it is set in `a` or in
      `b`: the recursive definition is Go's `|`. */
  lemma {:induction false} OrBits(a: nat, b: nat, i: nat)
    ensures Bit(Or(a, b), i) <==> Bit(a, i) || Bit(b, i)
    decreases i
  {
    var r := Or(a, b);
    if a == 0 && b == 0 {
      ZeroHasNoBits(i);
    } else {
      var low := if a % 2 == 1 || b % 2 == 1 then 1 else 0;
      assert r == 2 * Or(a / 2, b / 2) + low;
      assert r / 2 == Or(a / 2, b / 2) && r % 2 == low;
      if i > 0 {
        OrBits(a / 2, b / 2, i - 1);
      }
    }
  }

  /** Every bit of `And(a, b)` is set exactly when it is set in both `a` and
      `b`: the recursive definition is Go's `&`. */
  lemma {:induction false} AndBits(a: nat, b: nat, i: nat)
    ensures Bit(And(a, b), i) <==> Bit(a, i) && Bit(b, i)
    decreases i
  {
    var r := And(a, b);
    if a == 0 || b == 0 {
      ZeroHasNoBits(i);
    } else {
      var low := if a % 2 == 1 && b % 2 == 1 then 1 else 0;
      assert r == 2 * And(a / 2, b / 2) + low;
      assert r / 2 == And(a / 2, b / 2) && r % 2 == low;
      if i > 0 {
        AndBits(a / 2, b / 2, i - 1);
      }
    }
  }

  /** Zero has no bit set. */
  lemma {:induction false} ZeroHasNoBits(i: nat)
    ensures !Bit(0, i)
    decreases i
  {
    if i > 0 {
      ZeroHasNoBits(i - 1);
    }
  }

  /** ORing in zero changes nothing. */
  lemma {:induction false} OrZero(a: nat)
    ensures Or(a, 0) == a
    decreases a
  {
    if a != 0 {
      OrZero(a / 2);
    }
  }

  /** Halving `hi * p + lo`, where `p` is twice `half`, halves `lo` and
      replaces `p` by `half`; the low bit comes from `lo` alone. */
  lemma Halve(hi: nat, lo: nat, p: nat, half: nat)
    requires p == 2 * half
    ensures (hi * p + lo) / 2 == hi * half + lo / 2
    ensures (hi * p + lo) % 2 == lo % 2
  {
    assert hi * p == 2 * (hi * half);
  }

  /** ORing a value below `p` = 2^n into a value shifted left by n is
      addition: the two occupy disjoint bits. The power is passed alongside
      its exponent so that callers with a fixed shift see only linear
      arithmetic. */
  lemma {:induction false} OrDisjoint(hi: nat, lo: nat, n: nat, p: nat)
    requires p == Pow2(n)
    requires lo < p
    ensures Or(hi * p, lo) == hi * p + lo
    decreases n
  {
    if n == 0 {
      assert lo == 0;
      OrZero(hi);
    } else {
      var half := Pow2(n - 1);
      Halve(hi, 0, p, half);
      var a := hi * p;
      if a != 0 || lo != 0 {
        OrDisjoint(hi, lo / 2, n - 1, half);
      }
    }
  }

  /** Masking with `p` - 1, where `p` = 2^n, keeps exactly the low n bits:
      it drops `hi` and returns `lo`. */
  lemma {:induction false} AndLowMask(hi: nat, lo: nat, n: nat, p: nat)
    requires p == Pow2(n)
    requires lo < p
    ensures And(hi * p + lo, p - 1) == lo
    decreases n
  {
    if n > 0 {
      var half := Pow2(n - 1);
      var z := hi * p + lo;
      Halve(hi, lo, p, half);
      assert (p - 1) / 2 == half - 1 && (p - 1) % 2 == 1;
      if z != 0 {
        AndLowMask(hi, lo / 2, n - 1, half);
      }
    }
  }
}
