/** Fixed-width words and the small facts about powers of two that several components share. */
module Words {

  type byte = x: int | 0 <= x < 256
  const TWO_TO_THE_32: int := 0x1_0000_0000
  type uint32 = x: int | 0 <= x < TWO_TO_THE_32
  type uint64 = x: int | 0 <= x < 0x1_0000_0000_0000_0000

  /** Unsigned 32-bit addition and subtraction. */
  function WrapAdd(a: uint32, b: uint32): uint32 {
    if a + b < TWO_TO_THE_32 then a + b else a + b - TWO_TO_THE_32
  }

  function WrapSub(a: uint32, b: uint32): uint32 {
    if a >= b then a - b else a - b + TWO_TO_THE_32
  }

  function Pow2(k: nat): nat {
    if k == 0 then 1 else 2 * Pow2(k - 1)
  }

  ghost predicate PowerOfTwo(n: nat) {
    exists k: nat :: n == Pow2(k)
  }

  /** Bitwise and, bit by bit. */
  function And(x: nat, y: nat): nat {
    if x == 0 || y == 0 then 0
    else 2 * And(x / 2, y / 2) + if x % 2 == 1 && y % 2 == 1 then 1 else 0
  }

  /** Bitwise or, bit by bit. */
  function Or(x: nat, y: nat): nat {
    if x == 0 then y else if y == 0 then x
    else 2 * Or(x / 2, y / 2) + if x % 2 == 1 || y % 2 == 1 then 1 else 0
  }

  /** Or-ing a multiple of a power of two into something smaller is adding it. */
  lemma {:induction false} OrDisjoint(x: nat, m: nat, k: nat)
    requires x < Pow2(k)
    ensures m * Pow2(k) >= 0 && Or(x, m * Pow2(k)) == x + m * Pow2(k)
    decreases k
  {
    if k > 0 {
      var p := Pow2(k - 1);
      TwiceProduct(m, p);
      OrDisjoint(x / 2, m, k - 1);
      OrStep(x, m * p);
    }
  }

  lemma OrStep(x: nat, y: nat)
    ensures Or(x, 2 * y) == 2 * Or(x / 2, y) + x % 2
  {
    assert 2 * y / 2 == y && 2 * y % 2 == 0;
  }

  lemma TwiceProduct(m: nat, p: nat)
    ensures m * p >= 0 && m * (2 * p) == 2 * (m * p)
  {
  }

  /** The remainder, by repeated subtraction. */
  function Lap(x: nat, n: nat): (r: nat)
    requires n > 0
    ensures r < n
  {
    if x < n then x else Lap(x - n, n)
  }

  lemma {:induction false} LapIsRemainder(x: nat, n: nat)
    requires n > 0
    ensures Lap(x, n) == x % n
  {
    if x < n {
      RemainderIs(x, n, 0, x);
    } else {
      LapIsRemainder(x - n, n);
      var q := (x - n) / n;
      assert (q + 1) * n == q * n + n;
      RemainderIs(x, n, q + 1, (x - n) % n);
    }
  }

  /** Quotient and remainder are unique. */
  lemma RemainderIs(x: int, n: nat, q: int, r: int)
    requires 0 <= r < n && x == q * n + r
    ensures x % n == r
  {
    var dq := x / n - q;
    assert dq * n == r - x % n;
    assert dq >= 1 ==> dq * n >= n;
    assert dq <= -1 ==> dq * n <= -1 * n;
  }

  /** The quotient, by repeated subtraction. */
  function Quotient(x: nat, n: nat): nat
    requires n > 0
  {
    if x < n then 0 else 1 + Quotient(x - n, n)
  }

  lemma {:induction false} QuotientSmaller(x: nat, n: nat)
    requires n > 0
    ensures Quotient(x, n) <= x
  {
    if x >= n {
      QuotientSmaller(x - n, n);
    }
  }

  lemma {:induction false} QuotientIs(n: nat, q: nat, r: nat)
    requires r < n
    ensures q * n + r >= 0 && Quotient(q * n + r, n) == q
    decreases q
  {
    if q > 0 {
      QuotientIs(n, q - 1, r);
      assert q * n + r - n == (q - 1) * n + r;
    }
  }

  lemma {:induction false} QuotientMonotone(x: nat, y: nat, n: nat)
    requires n > 0 && x <= y
    ensures Quotient(x, n) <= Quotient(y, n)
  {
    if x >= n {
      QuotientMonotone(x - n, y - n, n);
    }
  }

  lemma {:induction false} QuotientRest(x: nat, n: nat)
    requires n > 0
    ensures Quotient(x, n) * n + Lap(x, n) == x
  {
    if x >= n {
      QuotientRest(x - n, n);
      assert (Quotient(x - n, n) + 1) * n == Quotient(x - n, n) * n + n;
    }
  }

  /** The quotient of a sum is that of its parts, give or take a carry. */
  lemma {:induction false} QuotientAdd(x: nat, y: nat, n: nat)
    requires n > 0
    ensures Quotient(x, n) + Quotient(y, n) <= Quotient(x + y, n) <= Quotient(x, n) + Quotient(y, n) + 1
    decreases x + y
  {
    if x >= n {
      QuotientAdd(x - n, y, n);
      assert x + y - n == x - n + y;
    } else if y >= n {
      QuotientAdd(x, y - n, n);
      assert x + y - n == x + (y - n);
    }
  }

  lemma QuotientIsDivision(x: nat, n: nat)
    requires n > 0
    ensures Quotient(x, n) == x / n
  {
    var q, r := x / n, x % n;
    assert x == q * n + r;
    QuotientIs(n, q, r);
  }

  /** Moving an offset forward by at most one lap. */
  function Shift(offset: nat, i: nat, n: nat): nat {
    if offset + i < n then offset + i else offset + i - n
  }

  lemma {:induction false} LapAdvance(x: nat, i: nat, n: nat)
    requires 0 < n && i <= n
    ensures Lap(x + i, n) == Shift(Lap(x, n), i, n)
  {
    if x >= n {
      LapAdvance(x - n, i, n);
    }
  }

  lemma {:induction false} PowPositive(k: nat)
    ensures Pow2(k) >= 1
  {
    if k > 0 {
      PowPositive(k - 1);
    }
  }

  lemma {:induction false} LapHalf(x: nat, h: nat)
    requires h > 0
    ensures Lap(x, 2 * h) == 2 * Lap(x / 2, h) + x % 2
  {
    if x >= 2 * h {
      LapHalf(x - 2 * h, h);
      assert (x - 2 * h) / 2 == x / 2 - h;
    }
  }

  lemma AndStep(x: nat, m: nat)
    ensures And(x, 2 * m + 1) == 2 * And(x / 2, m) + x % 2
  {
    assert (2 * m + 1) / 2 == m && (2 * m + 1) % 2 == 1;
  }

  lemma MaskStep(x: nat, h: nat)
    requires h > 0 && And(x / 2, h - 1) == Lap(x / 2, h)
    ensures And(x, 2 * h - 1) == Lap(x, 2 * h)
  {
    AndStep(x, h - 1);
    LapHalf(x, h);
  }

  lemma {:induction false} MaskIsLap(x: nat, k: nat)
    ensures Pow2(k) >= 1
    ensures And(x, Pow2(k) - 1) == Lap(x, Pow2(k))
    decreases k
  {
    PowPositive(k);
    if k > 0 {
      MaskIsLap(x / 2, k - 1);
      MaskStep(x, Pow2(k - 1));
    } else {
      LapOne(x);
    }
  }

  /** Masking with size - 1 is reduction modulo a power-of-two size. */
  lemma MaskIsRemainder(x: nat, k: nat)
    ensures Pow2(k) >= 1
    ensures And(x, Pow2(k) - 1) == x % Pow2(k)
  {
    MaskIsLap(x, k);
    LapIsRemainder(x, Pow2(k));
  }

  lemma {:induction false} LapOne(x: nat)
    ensures Lap(x, 1) == 0
  {
    if x > 0 {
      LapOne(x - 1);
    }
  }

  /** The test (n & (n - 1)) == 0 accepts exactly the powers of two among positive numbers. */
  lemma {:induction false} PowerOfTwoTest(n: nat)
    requires n > 0
    ensures And(n, n - 1) == 0 <==> PowerOfTwo(n)
    decreases n
  {
    if n == 1 {
      assert n == Pow2(0);
    } else if n % 2 == 0 {
      var h := n / 2;
      assert (n - 1) / 2 == h - 1;
      PowerOfTwoTest(h);
      if PowerOfTwo(h) {
        var k: nat :| h == Pow2(k);
        assert n == Pow2(k + 1);
      }
      if PowerOfTwo(n) {
        var k: nat :| n == Pow2(k);
        assert h == Pow2(k - 1);
      }
    } else {
      OddTest(n, n / 2);
    }
  }

  /** An odd number above one fails the test and is no power of two. */
  lemma OddTest(n: nat, h: nat)
    requires n == 2 * h + 1 && h > 0
    ensures And(n, n - 1) != 0 && !PowerOfTwo(n)
  {
    assert n / 2 == h && (n - 1) / 2 == h;
    AndSelf(h);
    forall k: nat
      ensures n != Pow2(k)
    {
      if k > 0 {
        assert Pow2(k) == 2 * Pow2(k - 1);
      }
    }
  }

  lemma {:induction false} AndSelf(x: nat)
    ensures And(x, x) == x
  {
    if x > 0 {
      AndSelf(x / 2);
    }
  }
}
