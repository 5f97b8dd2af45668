/** Fields of characteristic two whose multiplication goes through tables of powers and logarithms
    of a generator, as in `src/core/schemes/mcore/src/share.rs`, for any type of elements. */
module LogTables {
  import opened Fields

  /** A table of 256 powers, the logarithms, zero, addition, and multiplication by the generator. */
  datatype Tables<!T(!new,==)> = Tables(power: seq<T>, log: T -> int, zero: T, add: (T, T) -> T, step: T -> T) {

    ghost predicate PowerAt(i: int)
      requires |power| == 256
    {
      0 <= i < 255 ==> power[i + 1] == step(power[i])
    }

    ghost predicate LogOf(x: T)
      requires |power| == 256
    {
      x != zero ==> 1 <= log(x) <= 255 && power[log(x)] == x
    }

    ghost predicate StepSum(a: T, b: T) {
      step(add(a, b)) == add(step(a), step(b))
    }

    ghost predicate Sums(a: T, b: T, c: T) {
      && add(add(a, b), c) == add(a, add(b, c)) && add(a, b) == add(b, a)
      && add(a, zero) == a && add(a, a) == zero
    }

    /** Successive powers with period 255, their logarithms in 1 .. 255, a linear step, and an
        addition in which everything is its own negative. */
    ghost predicate Valid() {
      && |power| == 256 && power[255] == power[0] && power[0] != zero
      && (forall i :: PowerAt(i))
      && (forall x :: LogOf(x))
      && (forall a, b :: StepSum(a, b))
      && (forall a, b, c :: Sums(a, b, c))
    }

    /** `mul`: the antilogarithm of the sum of logarithms. */
    function Mul(x: T, y: T): T {
      if |power| == 256 && x != zero && y != zero then power[(log(x) + log(y)) % 255] else zero
    }

    /** `inv`. */
    function Inv(x: T): T {
      if |power| == 256 && 0 <= log(x) <= 255 then power[255 - log(x)] else zero
    }

    /** Multiplication by the generator, k times. */
    function Iterate(k: nat, y: T): T {
      if k == 0 then y else step(Iterate(k - 1, y))
    }

    function One(): T {
      if |power| == 256 then power[0] else zero
    }

    lemma {:induction false} IterateAdd(j: nat, k: nat, y: T)
      ensures Iterate(j, Iterate(k, y)) == Iterate(j + k, y)
    {
      if j > 0 {
        IterateAdd(j - 1, k, y);
      }
    }

    lemma {:induction false} IterateLinear(k: nat, a: T, b: T)
      requires Valid()
      ensures Iterate(k, add(a, b)) == add(Iterate(k, a), Iterate(k, b))
    {
      if k > 0 {
        IterateLinear(k - 1, a, b);
        assert StepSum(Iterate(k - 1, a), Iterate(k - 1, b));
      }
    }

    lemma {:induction false} IterateZero(k: nat)
      requires Valid()
      ensures Iterate(k, zero) == zero
    {
      assert StepSum(zero, zero) && Sums(zero, zero, zero) && Sums(step(zero), step(zero), zero);
      if k > 0 {
        IterateZero(k - 1);
      }
    }

    lemma {:induction false} PowerInTable(i: nat)
      requires Valid() && i <= 255
      ensures power[i] == Iterate(i, One())
    {
      if i > 0 {
        PowerInTable(i - 1);
        assert PowerAt(i - 1);
      }
    }

    /** The powers have period 255. */
    lemma {:induction false} PowerPeriod(k: nat)
      requires Valid()
      ensures Iterate(k, One()) == power[k % 255]
      decreases k
    {
      if k < 255 {
        PowerInTable(k);
      } else {
        PowerPeriod(k - 255);
        IterateAdd(k - 255, 255, One());
        PowerInTable(255);
        assert (k - 255) % 255 == k % 255;
      }
    }

    function Log(x: T): (l: nat)
      requires Valid() && x != zero
      ensures 1 <= l <= 255
    {
      assert LogOf(x);
      log(x)
    }

    /** Every element but zero is the power that its logarithm says. */
    lemma LogPower(x: T)
      requires Valid() && x != zero
      ensures Iterate(Log(x), One()) == x
    {
      assert LogOf(x);
      PowerInTable(Log(x));
    }

    /** The table multiplication is repeated multiplication by the generator. */
    lemma MulIterates(x: T, y: T)
      requires Valid() && x != zero
      ensures Mul(x, y) == Iterate(Log(x), y)
    {
      if y == zero {
        IterateZero(Log(x));
      } else {
        LogPower(y);
        IterateAdd(Log(x), Log(y), One());
        PowerPeriod(Log(x) + Log(y));
      }
    }

    lemma MulCommutes(x: T, y: T)
      ensures Mul(x, y) == Mul(y, x)
    {
    }

    lemma MulDistributes(x: T, y: T, z: T)
      requires Valid()
      ensures Mul(x, add(y, z)) == add(Mul(x, y), Mul(x, z))
    {
      if x == zero {
        assert Sums(zero, zero, zero);
      } else {
        MulIterates(x, add(y, z));
        MulIterates(x, y);
        MulIterates(x, z);
        IterateLinear(Log(x), y, z);
      }
    }

    lemma MulAssociates(x: T, y: T, z: T)
      requires Valid()
      ensures Mul(Mul(x, y), z) == Mul(x, Mul(y, z))
    {
      MulCommutes(Mul(x, y), z);
      MulCommutes(y, z);
      if x != zero && z != zero {
        MulIterates(x, y);
        MulIterates(z, Mul(x, y));
        MulIterates(z, y);
        MulIterates(x, Mul(z, y));
        IterateAdd(Log(z), Log(x), y);
        IterateAdd(Log(x), Log(z), y);
      }
    }

    lemma OneNeutral(x: T)
      requires Valid()
      ensures Mul(x, One()) == x
    {
      if x != zero {
        LogPower(x);
        MulIterates(x, One());
      }
    }

    lemma InverseCancels(x: T)
      requires Valid() && x != zero
      ensures Mul(x, Inv(x)) == One()
    {
      var l := Log(x);
      PowerInTable(255 - l);
      MulIterates(x, Inv(x));
      IterateAdd(l, 255 - l, One());
      PowerInTable(255);
    }
  }

  function TableField<T(!new,==)>(t: Tables<T>): Field<T> {
    Field((x: T) => true, t.zero, t.One(), t.add, (x: T) => x, (x: T, y: T) => t.Mul(x, y), (x: T) => t.Inv(x))
  }

  /** Valid tables implement a field. */
  lemma TableFieldLawful<T(!new)>(t: Tables<T>)
    requires t.Valid()
    ensures TableField(t).Lawful()
  {
    var F := TableField(t);
    forall a, b ensures F.Closed(a, b) {
    }
    forall a, b, c ensures F.AddAssoc(a, b, c) {
      assert t.Sums(a, b, c);
    }
    forall a, b ensures F.AddComm(a, b) {
      assert t.Sums(a, b, a);
    }
    forall a ensures F.AddZero(a) {
      assert t.Sums(a, a, a);
    }
    forall a, b, c ensures F.MulAssoc(a, b, c) {
      t.MulAssociates(a, b, c);
    }
    forall a, b ensures F.MulComm(a, b) {
      t.MulCommutes(a, b);
    }
    forall a ensures F.MulOne(a) {
      t.OneNeutral(a);
    }
    forall a ensures F.MulInverse(a) {
      if a != t.zero {
        t.InverseCancels(a);
      }
    }
    forall a, b, c ensures F.Distrib(a, b, c) {
      t.MulDistributes(a, b, c);
    }
  }
}
