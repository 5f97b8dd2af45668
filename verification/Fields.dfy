/** Fields as values, with the laws named one by one as in `Groups`. */
module Fields {

  /** The field of those values of `T` that satisfy `elem`. */
  datatype Field<!T(!new)> = Field(elem: T -> bool, zero: T, one: T,
                                   add: (T, T) -> T, neg: T -> T, mul: (T, T) -> T, inv: T -> T)
  {
    ghost predicate Closed(a: T, b: T) {
      elem(a) && elem(b) ==> elem(add(a, b)) && elem(mul(a, b)) && elem(neg(a))
    }

    ghost predicate AddAssoc(a: T, b: T, c: T) {
      elem(a) && elem(b) && elem(c) ==> add(add(a, b), c) == add(a, add(b, c))
    }

    ghost predicate AddComm(a: T, b: T) {
      elem(a) && elem(b) ==> add(a, b) == add(b, a)
    }

    ghost predicate AddZero(a: T) {
      elem(a) ==> add(a, zero) == a && add(a, neg(a)) == zero
    }

    ghost predicate MulAssoc(a: T, b: T, c: T) {
      elem(a) && elem(b) && elem(c) ==> mul(mul(a, b), c) == mul(a, mul(b, c))
    }

    ghost predicate MulComm(a: T, b: T) {
      elem(a) && elem(b) ==> mul(a, b) == mul(b, a)
    }

    ghost predicate MulOne(a: T) {
      elem(a) ==> mul(a, one) == a
    }

    ghost predicate MulInverse(a: T) {
      elem(a) && a != zero ==> elem(inv(a)) && mul(a, inv(a)) == one
    }

    ghost predicate Distrib(a: T, b: T, c: T) {
      elem(a) && elem(b) && elem(c) ==> mul(a, add(b, c)) == add(mul(a, b), mul(a, c))
    }

    ghost predicate Lawful() {
      && elem(zero) && elem(one) && zero != one
      && (forall a, b :: Closed(a, b))
      && (forall a, b, c :: AddAssoc(a, b, c))
      && (forall a, b :: AddComm(a, b))
      && (forall a :: AddZero(a))
      && (forall a, b, c :: MulAssoc(a, b, c))
      && (forall a, b :: MulComm(a, b))
      && (forall a :: MulOne(a))
      && (forall a :: MulInverse(a))
      && (forall a, b, c :: Distrib(a, b, c))
    }

    function Sub(a: T, b: T): T {
      add(a, neg(b))
    }

    lemma Closure(a: T, b: T)
      requires Lawful() && elem(a) && elem(b)
      ensures elem(add(a, b)) && elem(mul(a, b)) && elem(neg(a)) && elem(neg(b)) && elem(Sub(a, b))
      ensures a != zero ==> elem(inv(a))
    {
      assert Closed(a, b) && Closed(b, a) && Closed(a, neg(b)) && MulInverse(a);
    }

    lemma AddCancel(a: T, b: T, c: T)
      requires Lawful() && elem(a) && elem(b) && elem(c)
      requires add(a, c) == add(b, c)
      ensures a == b
    {
      Closure(c, a);
      assert AddAssoc(a, c, neg(c)) && AddAssoc(b, c, neg(c)) && AddZero(c) && AddZero(a) && AddZero(b);
    }

    lemma MulZero(a: T)
      requires Lawful() && elem(a)
      ensures mul(a, zero) == zero && mul(zero, a) == zero
    {
      Closure(a, zero);
      var z := mul(a, zero);
      assert AddZero(zero) && Distrib(a, zero, zero) && MulComm(a, zero);
      assert AddComm(zero, z) && AddZero(z);
      AddCancel(z, zero, z);
    }

    lemma SubAdd(a: T, b: T)
      requires Lawful() && elem(a) && elem(b)
      ensures add(Sub(a, b), b) == a && Sub(add(a, b), b) == a && Sub(b, b) == zero
      ensures Sub(a, b) == zero ==> a == b
    {
      Closure(a, b);
      assert AddAssoc(a, neg(b), b) && AddComm(neg(b), b) && AddZero(b) && AddZero(a);
      assert AddAssoc(a, b, neg(b));
      assert AddComm(zero, b);
    }

    /** (a + b) + (c + d) = (a + c) + (b + d). */
    lemma AddShuffle(a: T, b: T, c: T, d: T)
      requires Lawful() && elem(a) && elem(b) && elem(c) && elem(d)
      ensures add(add(a, b), add(c, d)) == add(add(a, c), add(b, d))
    {
      Closure(c, d);
      Closure(b, d);
      Closure(b, c);
      calc {
        add(add(a, b), add(c, d));
        { assert AddAssoc(a, b, add(c, d)); }
        add(a, add(b, add(c, d)));
        { assert AddAssoc(b, c, d) && AddComm(b, c) && AddAssoc(c, b, d); }
        add(a, add(c, add(b, d)));
        { assert AddAssoc(a, c, add(b, d)); }
        add(add(a, c), add(b, d));
      }
    }

    /** (a b)(c d) = (a c)(b d). */
    lemma MulShuffle(a: T, b: T, c: T, d: T)
      requires Lawful() && elem(a) && elem(b) && elem(c) && elem(d)
      ensures mul(mul(a, b), mul(c, d)) == mul(mul(a, c), mul(b, d))
    {
      Closure(c, d);
      Closure(b, d);
      Closure(b, c);
      calc {
        mul(mul(a, b), mul(c, d));
        { assert MulAssoc(a, b, mul(c, d)); }
        mul(a, mul(b, mul(c, d)));
        { assert MulAssoc(b, c, d) && MulComm(b, c) && MulAssoc(c, b, d); }
        mul(a, mul(c, mul(b, d)));
        { assert MulAssoc(a, c, mul(b, d)); }
        mul(mul(a, c), mul(b, d));
      }
    }

    lemma MulCancel(a: T, b: T, c: T)
      requires Lawful() && elem(a) && elem(b) && elem(c) && c != zero
      requires mul(c, a) == mul(c, b)
      ensures a == b
    {
      Closure(c, a);
      assert MulInverse(c) && MulComm(c, inv(c));
      assert MulAssoc(inv(c), c, a) && MulAssoc(inv(c), c, b);
      assert MulComm(one, a) && MulComm(one, b) && MulOne(a) && MulOne(b);
    }

    /** a h - b h = (a - b) h, in the additive form a h = (a - b) h + b h. */
    lemma SplitMul(a: T, b: T, h: T)
      requires Lawful() && elem(a) && elem(b) && elem(h)
      ensures mul(a, h) == add(mul(Sub(a, b), h), mul(b, h))
    {
      Closure(a, b);
      SubAdd(a, b);
      assert MulComm(a, h) && MulComm(Sub(a, b), h) && MulComm(b, h) && Distrib(h, Sub(a, b), b);
    }
  }
}
