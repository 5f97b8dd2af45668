/** Abelian groups as values, and integer powers in them.

    The curve and residue groups of the schemes are used only through their group
    operation, so every scheme theorem is stated over an arbitrary abelian group.  A law is
    a predicate over its arguments, and a group is lawful when each law holds of all
    arguments; a proof step then names the instance of the law that it uses. */
module Groups {

  /** The group of those values of `G` that satisfy `elem`. */
  datatype AbelianGroup<!G(!new)> = AbelianGroup(elem: G -> bool, unit: G, op: (G, G) -> G, inv: G -> G)
  {
    ghost predicate Closed(a: G, b: G) {
      elem(a) && elem(b) ==> elem(op(a, b))
    }

    ghost predicate Assoc(a: G, b: G, c: G) {
      elem(a) && elem(b) && elem(c) ==> op(op(a, b), c) == op(a, op(b, c))
    }

    ghost predicate Comm(a: G, b: G) {
      elem(a) && elem(b) ==> op(a, b) == op(b, a)
    }

    ghost predicate Unit(a: G) {
      elem(a) ==> op(a, unit) == a
    }

    ghost predicate Inverse(a: G) {
      elem(a) ==> elem(inv(a)) && op(a, inv(a)) == unit
    }

    ghost predicate Lawful() {
      && elem(unit)
      && (forall a, b :: Closed(a, b))
      && (forall a, b, c :: Assoc(a, b, c))
      && (forall a, b :: Comm(a, b))
      && (forall a :: Unit(a))
      && (forall a :: Inverse(a))
    }

    /** `g` combined with itself `n` times; written n.g on curves and g^n in residue groups. */
    function Pow(g: G, n: int): G
      decreases if n < 0 then -n else n
    {
      if n == 0 then unit
      else if n > 0 then op(Pow(g, n - 1), g)
      else op(Pow(g, n + 1), inv(g))
    }

    function Div(a: G, b: G): G {
      op(a, inv(b))
    }

    lemma DivOp(a: G, b: G)
      requires Lawful() && elem(a) && elem(b)
      ensures elem(Div(a, b)) && op(Div(a, b), b) == a && Div(op(a, b), b) == a
    {
      assert Inverse(b) && Closed(a, inv(b)) && Closed(a, b);
      assert Assoc(a, inv(b), b) && Comm(inv(b), b) && Unit(a);
      assert Assoc(a, b, inv(b));
    }

    lemma Cancel(a: G, b: G, c: G)
      requires Lawful() && elem(a) && elem(b) && elem(c)
      requires op(a, c) == op(b, c)
      ensures a == b
    {
      DivOp(a, c);
      DivOp(b, c);
    }

    /** (a b)(c d) = (a c)(b d). */
    lemma Shuffle(a: G, b: G, c: G, d: G)
      requires Lawful() && elem(a) && elem(b) && elem(c) && elem(d)
      ensures op(op(a, b), op(c, d)) == op(op(a, c), op(b, d))
    {
      assert Closed(c, d) && Closed(b, d) && Closed(b, c);
      calc {
        op(op(a, b), op(c, d));
        { assert Assoc(a, b, op(c, d)); }
        op(a, op(b, op(c, d)));
        { assert Assoc(b, c, d) && Comm(b, c) && Assoc(c, b, d); }
        op(a, op(c, op(b, d)));
        { assert Assoc(a, c, op(b, d)); }
        op(op(a, c), op(b, d));
      }
    }

    lemma {:induction false} PowElem(g: G, n: int)
      requires Lawful() && elem(g)
      ensures elem(Pow(g, n))
      decreases if n < 0 then -n else n
    {
      if n > 0 {
        PowElem(g, n - 1);
        assert Closed(Pow(g, n - 1), g);
      } else if n < 0 {
        PowElem(g, n + 1);
        assert Inverse(g) && Closed(Pow(g, n + 1), inv(g));
      }
    }

    lemma PowStep(g: G, n: int)
      requires Lawful() && elem(g)
      ensures Pow(g, n + 1) == op(Pow(g, n), g)
      ensures Pow(g, n - 1) == op(Pow(g, n), inv(g))
    {
      PowElem(g, n + 1);
      PowElem(g, n - 1);
      assert Inverse(g);
      if n < 0 {
        var p := Pow(g, n + 1);
        assert Assoc(p, inv(g), g) && Comm(inv(g), g) && Unit(p);
      }
      if n > 0 {
        var p := Pow(g, n - 1);
        assert Assoc(p, g, inv(g)) && Unit(p);
      }
    }

    lemma {:induction false} PowAdd(g: G, m: int, n: int)
      requires Lawful() && elem(g)
      ensures Pow(g, m + n) == op(Pow(g, m), Pow(g, n))
      decreases if n < 0 then -n else n
    {
      var p := Pow(g, m);
      PowElem(g, m);
      if n == 0 {
        assert Unit(p);
      } else if n > 0 {
        PowAdd(g, m, n - 1);
        PowStep(g, m + n - 1);
        PowElem(g, n - 1);
        assert Assoc(p, Pow(g, n - 1), g);
      } else {
        PowAdd(g, m, n + 1);
        PowStep(g, m + n + 1);
        PowElem(g, n + 1);
        assert Inverse(g) && Assoc(p, Pow(g, n + 1), inv(g));
      }
    }

    lemma PowOne(g: G)
      requires Lawful() && elem(g)
      ensures Pow(g, 1) == g
    {
      assert Comm(unit, g) && Unit(g);
    }

    lemma {:induction false} PowMul(g: G, m: int, n: int)
      requires Lawful() && elem(g)
      ensures Pow(Pow(g, m), n) == Pow(g, m * n)
      decreases if n < 0 then -n else n
    {
      var p := Pow(g, m);
      PowElem(g, m);
      if n > 0 {
        PowMul(g, m, n - 1);
        PowAdd(g, m * (n - 1), m);
        assert m * (n - 1) + m == m * n;
      } else if n < 0 {
        PowMul(g, m, n + 1);
        PowStep(p, n + 1);
        PowAdd(g, m * n, m);
        assert m * (n + 1) == m * n + m;
        PowElem(g, m * n);
        DivOp(Pow(g, m * n), p);
      }
    }

    lemma {:induction false} PowOp(g: G, h: G, n: int)
      requires Lawful() && elem(g) && elem(h)
      ensures Pow(op(g, h), n) == op(Pow(g, n), Pow(h, n))
      decreases if n < 0 then -n else n
    {
      assert Closed(g, h);
      if n == 0 {
        assert Unit(unit);
      } else if n > 0 {
        PowOp(g, h, n - 1);
        PowElem(g, n - 1);
        PowElem(h, n - 1);
        Shuffle(Pow(g, n - 1), Pow(h, n - 1), g, h);
      } else {
        PowOp(g, h, n + 1);
        PowElem(g, n + 1);
        PowElem(h, n + 1);
        InvOp(g, h);
        assert Inverse(g) && Inverse(h);
        Shuffle(Pow(g, n + 1), Pow(h, n + 1), inv(g), inv(h));
      }
    }

    lemma InvOp(g: G, h: G)
      requires Lawful() && elem(g) && elem(h)
      ensures inv(op(g, h)) == op(inv(g), inv(h))
    {
      assert Inverse(g) && Inverse(h) && Closed(g, h) && Inverse(op(g, h)) && Closed(inv(g), inv(h));
      Shuffle(g, h, inv(g), inv(h));
      assert Unit(unit);
      assert Comm(op(g, h), inv(op(g, h))) && Comm(op(g, h), op(inv(g), inv(h)));
      Cancel(inv(op(g, h)), op(inv(g), inv(h)), op(g, h));
    }

    lemma PowNeg(g: G, n: int)
      requires Lawful() && elem(g)
      ensures Pow(g, -n) == inv(Pow(g, n))
    {
      PowAdd(g, n, -n);
      var p := Pow(g, n);
      PowElem(g, n);
      PowElem(g, -n);
      assert Inverse(p) && Comm(p, Pow(g, -n)) && Comm(p, inv(p));
      Cancel(Pow(g, -n), inv(p), p);
    }

    lemma {:induction false} PowUnit(n: int)
      requires Lawful()
      ensures Pow(unit, n) == unit
      decreases if n < 0 then -n else n
    {
      assert Unit(unit) && Inverse(unit) && Comm(unit, inv(unit)) && Unit(inv(unit));
      if n > 0 {
        PowUnit(n - 1);
      } else if n < 0 {
        PowUnit(n + 1);
      }
    }

    /** If the order of `g` divides `q`, exponents that differ by a multiple of `q` give the same power. */
    lemma PowPeriod(g: G, q: int, a: int, b: int, k: int)
      requires Lawful() && elem(g) && Pow(g, q) == unit
      requires a == b + q * k
      ensures Pow(g, a) == Pow(g, b)
    {
      PowAdd(g, b, q * k);
      PowMul(g, q, k);
      PowUnit(k);
      PowElem(g, b);
      assert Unit(Pow(g, b));
    }

    /** Two responses to one commitment a, divided by each other: a h^c = g^z and a h^d = g^y. */
    lemma TwoResponses(a: G, g: G, h: G, c: int, d: int, z: int, y: int)
      requires Lawful() && elem(a) && elem(g) && elem(h)
      requires op(a, Pow(h, c)) == Pow(g, z) && op(a, Pow(h, d)) == Pow(g, y)
      ensures Pow(h, c - d) == Pow(g, z - y)
    {
      var p, q, hd, gy := Pow(h, c - d), Pow(g, z - y), Pow(h, d), Pow(g, y);
      PowElem(h, c - d);
      PowElem(g, z - y);
      PowElem(h, d);
      PowElem(g, y);
      PowAdd(h, c - d, d);
      PowAdd(g, z - y, y);
      assert Comm(p, hd) && Assoc(a, hd, p) && Comm(gy, p);
      Cancel(p, q, gy);
    }
  }
}
