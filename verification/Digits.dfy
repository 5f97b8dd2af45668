/** Powers of two, bit lengths and signed digit recodings of the scalar multiplications. */
module Digits {
  import Residues

  function Pow2(n: nat): (p: nat)
    ensures p >= 1
  {
    if n == 0 then 1 else 2 * Pow2(n - 1)
  }

  lemma {:induction false} Pow2Add(a: nat, b: nat)
    ensures Pow2(a + b) == Pow2(a) * Pow2(b)
  {
    if a > 0 {
      Pow2Add(a - 1, b);
      assert 2 * (Pow2(a - 1) * Pow2(b)) == (2 * Pow2(a - 1)) * Pow2(b);
    }
  }

  lemma {:induction false} Pow2Monotone(a: nat, b: nat)
    requires a <= b
    ensures Pow2(a) <= Pow2(b)
  {
    if a < b {
      Pow2Monotone(a, b - 1);
    }
  }

  /** `nbits`. */
  function BitLength(t: nat): nat {
    if t == 0 then 0 else 1 + BitLength(t / 2)
  }

  lemma {:induction false} BitLengthBound(t: nat)
    ensures t < Pow2(BitLength(t))
  {
    if t > 0 {
      BitLengthBound(t / 2);
    }
  }

  /** The bit length is the least exponent that covers the number. */
  lemma {:induction false} BitLengthLeast(t: nat, n: nat)
    requires t < Pow2(n)
    ensures BitLength(t) <= n
    decreases n
  {
    if t > 0 {
      assert n > 0;
      BitLengthLeast(t / 2, n - 1);
    }
  }

  /** The value of digits, lowest first, in a base. */
  function Value(base: int, d: seq<int>): int {
    if d == [] then 0 else d[0] + base * Value(base, d[1..])
  }

  function IntPow(b: int, n: nat): int {
    if n == 0 then 1 else b * IntPow(b, n - 1)
  }

  lemma ValueCons(base: int, x: int, d: seq<int>)
    ensures Value(base, [x] + d) == x + base * Value(base, d)
  {
    assert ([x] + d)[1..] == d;
  }

  predicate Odd(t: int) {
    t % 2 == 1
  }

  /** The signed fixed-window recoding of an odd t to n digits and a rest.  Each digit is what the
      low bits exceed the base by, and the division is exact. */
  function Recode(base: int, t: int, n: nat): (d: seq<int>)
    requires base >= 1
    ensures |d| == n + 1
    decreases n
  {
    if n == 0 then [t] else
      var digit := t % (2 * base) - base;
      [digit] + Recode(base, (t - digit) / base, n - 1)
  }

  /** One digit on, when the recoding of t makes up the digits from i. */
  lemma RecodeAdvance(base: int, t: int, n: nat, digits: seq<int>, i: nat)
    requires base >= 1 && n >= 1 && i < |digits| && Recode(base, t, n) == digits[i..]
    ensures digits[i] == t % (2 * base) - base
    ensures Recode(base, (t - digits[i]) / base, n - 1) == digits[i + 1..]
  {
    assert digits[i..][0] == digits[i] && digits[i..][1..] == digits[i + 1..];
  }

  /** Digits of a window table: odd and of magnitude below the base. */
  predicate WindowDigits(base: int, d: seq<int>) {
    forall j :: 0 <= j < |d| ==> Odd(d[j]) && -base < d[j] < base
  }

  /** One step leaves an odd positive rest, and loses nothing. */
  lemma RecodeStep(t: int, base: int, d: int, next: int)
    requires (base == 16 || base == 4) && t >= 1 && Odd(t)
    requires d == t % (2 * base) - base && next == (t - d) / base
    ensures Odd(d) && -base < d < base
    ensures next >= 1 && Odd(next) && t == d + base * next
    ensures next == 2 * (t / (2 * base)) + 1
  {
  }

  /** A rest that n digits cover is covered by n - 1 digits after one step. */
  lemma RecodeShrinks(t: int, base: int, n: nat, next: int)
    requires (base == 16 || base == 4) && t >= 1 && next == 2 * (t / (2 * base)) + 1
    requires t < IntPow(base, n) || t == 1
    ensures next == 1 || (n >= 1 && next < IntPow(base, n - 1))
  {
    if t >= 2 * base {
      assert n >= 1 && IntPow(base, n) == base * IntPow(base, n - 1);
      if n >= 2 {
        assert IntPow(base, n - 1) == base * IntPow(base, n - 2);
      }
    }
  }

  /** What n steps make of t: digits for the table, the value t, and one left over. */
  ghost predicate Recoded(base: int, t: int, n: nat, d: seq<int>) {
    |d| == n + 1 && Value(base, d) == t && WindowDigits(base, d) && d[n] == 1
  }

  lemma RecodedOne(base: int)
    requires base == 16 || base == 4
    ensures Recoded(base, 1, 0, [1])
  {
    assert [1] == [1] + [];
    ValueCons(base, 1, []);
  }

  lemma RecodedCons(base: int, t: int, n: nat, d: seq<int>, x: int, next: int)
    requires Recoded(base, next, n, d) && t == x + base * next && Odd(x) && -base < x < base
    ensures Recoded(base, t, n + 1, [x] + d)
  {
    ValueCons(base, x, d);
  }

  /** For an odd number below base^(n-1) the digits of n steps are odd, fit the table and have the
      number as their value, and the rest is exactly one. */
  lemma {:induction false} RecodeMeaning(base: int, t: int, n: nat)
    requires (base == 16 || base == 4) && t >= 1 && Odd(t)
    requires n >= 1 && (t < IntPow(base, n - 1) || t == 1)
    ensures Recoded(base, t, n, Recode(base, t, n))
    decreases n
  {
    var d, next := NextDigit(base, t);
    RecodeShrinks(t, base, n - 1, next);
    if n == 1 {
      RecodedOne(base);
    } else {
      RecodeMeaning(base, next, n - 1);
    }
    RecodedCons(base, t, n - 1, Recode(base, next, n - 1), d, next);
  }

  lemma NextDigit(base: int, t: int) returns (d: int, next: int)
    requires (base == 16 || base == 4) && t >= 1 && Odd(t)
    ensures Odd(d) && -base < d < base && next >= 1 && Odd(next) && t == d + base * next
    ensures next == 2 * (t / (2 * base)) + 1
    ensures forall n: nat {:trigger Recode(base, t, n)} :: n >= 1 ==>
              Recode(base, t, n) == [d] + Recode(base, next, n - 1)
  {
    d := t % (2 * base) - base;
    next := (t - d) / base;
    RecodeStep(t, base, d, next);
  }

  lemma {:induction false} IntPowIsPow2(c: nat, k: nat)
    ensures IntPow(Pow2(c), k) == Pow2(c * k)
  {
    if k > 0 {
      IntPowIsPow2(c, k - 1);
      Pow2Add(c, c * (k - 1));
      assert c + c * (k - 1) == c * k;
    }
  }

  // ----- bits of a number

  /** Bit i, by an arithmetic shift. */
  function Bit(e: int, i: nat): (b: int)
    ensures b == 0 || b == 1
    decreases i
  {
    if i == 0 then e % 2 else Bit(e / 2, i - 1)
  }

  /** The number made of the bits i .. n - 1, highest first. */
  function BitsFrom(e: int, i: nat, n: nat): nat
    requires i <= n
    decreases n - i
  {
    if i == n then 0 else 2 * BitsFrom(e, i + 1, n) + Bit(e, i)
  }

  lemma {:induction false} BitsFromShift(e: int, i: nat, n: nat)
    requires i <= n
    ensures BitsFrom(e, i + 1, n + 1) == BitsFrom(e / 2, i, n)
    decreases n - i
  {
    if i < n {
      BitsFromShift(e, i + 1, n);
    }
  }

  lemma LowHalf(e: int, p: int)
    requires p >= 1
    ensures e % (2 * p) == 2 * ((e / 2) % p) + e % 2
  {
    var k, r := (e / 2) / p, (e / 2) % p;
    assert e / 2 == p * k + r;
    assert (2 * p) * k == 2 * (p * k);
    Residues.DivModUnique(e, 2 * p, k, 2 * r + e % 2);
  }

  /** The low n bits make the remainder modulo 2^n, for negative numbers too. */
  lemma {:induction false} LowBits(e: int, n: nat)
    ensures BitsFrom(e, 0, n) == e % Pow2(n)
    decreases n
  {
    if n > 0 {
      LowBits(e / 2, n - 1);
      BitsFromShift(e, 0, n - 1);
      LowHalf(e, Pow2(n - 1));
    }
  }

  // ----- bitwise or and its length

  /** `or` on non-negative numbers. */
  function BitOr(a: nat, b: nat): nat
    decreases a + b
  {
    if a == 0 && b == 0 then 0 else 2 * BitOr(a / 2, b / 2) + (if a % 2 == 1 || b % 2 == 1 then 1 else 0)
  }

  /** The combined length covers both operands, and is no longer than needed. */
  lemma {:induction false} BitOrLength(a: nat, b: nat)
    ensures BitLength(BitOr(a, b)) == if BitLength(a) >= BitLength(b) then BitLength(a) else BitLength(b)
    ensures a <= BitOr(a, b) && b <= BitOr(a, b)
    decreases a + b
  {
    if a > 0 || b > 0 {
      BitOrLength(a / 2, b / 2);
      assert BitOr(a, b) / 2 == BitOr(a / 2, b / 2);
    }
  }

  // ----- exclusive or

  /** Bitwise exclusive or of non-negative numbers. */
  function Xor(a: nat, b: nat): nat
    decreases a + b
  {
    if a == 0 && b == 0 then 0 else 2 * Xor(a / 2, b / 2) + (a + b) % 2
  }

  lemma {:induction false} XorZero(a: nat, b: nat)
    ensures Xor(a, b) == 0 <==> a == b
    decreases a + b
  {
    if a != 0 || b != 0 {
      XorZero(a / 2, b / 2);
    }
  }

  lemma {:induction false} XorBound(a: nat, b: nat, n: nat)
    requires a < Pow2(n) && b < Pow2(n)
    ensures Xor(a, b) < Pow2(n)
    decreases n
  {
    if n > 0 {
      XorBound(a / 2, b / 2, n - 1);
    }
  }

  lemma {:induction false} XorCommutes(a: nat, b: nat)
    ensures Xor(a, b) == Xor(b, a)
    decreases a + b
  {
    if a != 0 || b != 0 {
      XorCommutes(a / 2, b / 2);
    }
  }

  lemma XorHalves(a: nat, b: nat)
    ensures Xor(a, b) / 2 == Xor(a / 2, b / 2) && Xor(a, b) % 2 == (a + b) % 2
  {
  }

  /** Two numbers with the same halves and the same lowest bit are equal. */
  lemma SameHalves(x: int, y: int)
    requires x / 2 == y / 2 && x % 2 == y % 2
    ensures x == y
  {
  }

  lemma ParitySum(a: int, b: int, x: int, c: int)
    requires x % 2 == (a + b) % 2
    ensures (x + c) % 2 == (a + b + c) % 2
  {
  }

  lemma XorOnLeft(a: nat, b: nat, c: nat)
    ensures Xor(Xor(a, b), c) / 2 == Xor(Xor(a / 2, b / 2), c / 2) && Xor(Xor(a, b), c) % 2 == (a + b + c) % 2
  {
    XorHalves(a, b);
    XorHalves(Xor(a, b), c);
    ParitySum(a, b, Xor(a, b), c);
  }

  lemma {:induction false} XorAssociates(a: nat, b: nat, c: nat)
    ensures Xor(Xor(a, b), c) == Xor(a, Xor(b, c))
    decreases a + b + c
  {
    XorCommutes(a, Xor(b, c));
    if a != 0 || b != 0 || c != 0 {
      XorAssociates(a / 2, b / 2, c / 2);
      XorCommutes(a / 2, Xor(b / 2, c / 2));
      XorOnLeft(a, b, c);
      XorOnLeft(b, c, a);
      SameHalves(Xor(Xor(a, b), c), Xor(Xor(b, c), a));
    }
  }

  lemma {:induction false} XorWithZero(a: nat)
    ensures Xor(a, 0) == a
  {
    if a != 0 {
      XorWithZero(a / 2);
    }
  }

  lemma {:induction false} XorSelf(a: nat)
    ensures Xor(a, a) == 0
  {
    if a != 0 {
      XorSelf(a / 2);
    }
  }

  lemma HalvesOf(x: int, c: int, e: int)
    requires x == 2 * c + e && 0 <= e < 2
    ensures x / 2 == c && x % 2 == e
  {
  }

  lemma XorLowHalf(x: nat, b: nat, p: int)
    requires p >= 1
    ensures Xor(x, b) % (2 * p) == 2 * (Xor(x / 2, b / 2) % p) + (x + b) % 2
  {
    XorHalves(x, b);
    LowHalf(Xor(x, b), p);
  }

  lemma SameParity(x: int, y: int, b: int)
    requires x % 2 == y % 2
    ensures (x + b) % 2 == (y + b) % 2
  {
  }

  lemma LowRange(a: nat, p: int)
    requires p >= 1
    ensures 0 <= a % p < p
  {
  }

  /** The low bits of an exclusive or need only the low bits of its operands. */
  lemma {:induction false} XorLow(a: nat, b: nat, n: nat)
    ensures 0 <= a % Pow2(n) && Xor(a % Pow2(n), b) % Pow2(n) == Xor(a, b) % Pow2(n)
    decreases n
  {
    LowRange(a, Pow2(n));
    if n > 0 {
      XorLow(a / 2, b / 2, n - 1);
      LowHalf(a, Pow2(n - 1));
      XorLowStep(a, b, Pow2(n - 1), a % Pow2(n), (a / 2) % Pow2(n - 1));
    }
  }

  lemma XorLowStep(a: nat, b: nat, p: int, x: nat, c: nat)
    requires p >= 1 && x == 2 * c + a % 2 && Xor(c, b / 2) % p == Xor(a / 2, b / 2) % p
    ensures Xor(x, b) % (2 * p) == Xor(a, b) % (2 * p)
  {
    HalvesOf(x, c, a % 2);
    XorLowHalf(a, b, p);
    XorLowHalf(x, b, p);
    SameParity(x, a, b);
  }

  // ----- hexadecimal digits

  /** `shr` by 4i bits. */
  function ShiftNibbles(e: nat, i: nat): nat {
    if i == 0 then e else ShiftNibbles(e, i - 1) / 16
  }

  lemma {:induction false} ShiftedOut(e: nat, i: nat, k: nat)
    requires e < Pow2(4 * (i + k))
    ensures ShiftNibbles(e, i) < Pow2(4 * k)
    decreases i
  {
    if i > 0 {
      ShiftedOut(e, i - 1, k + 1);
      Pow2Add(4, 4 * k);
      assert Pow2(4) == 16;
    }
  }
}
