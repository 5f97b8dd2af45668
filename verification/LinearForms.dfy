/** Integer combinations of points: the group value of a vector of coefficients. */
module LinearForms {
  import opened Groups
  import opened Vectors

  ghost predicate Points<G(!new)>(group: AbelianGroup<G>, X: seq<G>) {
    forall j :: 0 <= j < |X| ==> group.elem(X[j])
  }

  /** c[0].X[0] + c[1].X[1] + ... */
  ghost function Linear<G(!new)>(group: AbelianGroup<G>, X: seq<G>, c: seq<int>): G
    requires |c| == |X|
  {
    if X == [] then group.unit else group.op(group.Pow(X[0], c[0]), Linear(group, X[1..], c[1..]))
  }

  lemma {:induction false} LinearElem<G(!new)>(group: AbelianGroup<G>, X: seq<G>, c: seq<int>)
    requires group.Lawful() && Points(group, X) && |c| == |X|
    ensures group.elem(Linear(group, X, c))
  {
    if X != [] {
      LinearElem(group, X[1..], c[1..]);
      group.PowElem(X[0], c[0]);
      assert group.Closed(group.Pow(X[0], c[0]), Linear(group, X[1..], c[1..]));
    }
  }

  lemma {:induction false} LinearAdd<G(!new)>(group: AbelianGroup<G>, X: seq<G>, c: seq<int>, d: seq<int>)
    requires group.Lawful() && Points(group, X) && |c| == |X| == |d|
    ensures group.op(Linear(group, X, c), Linear(group, X, d)) == Linear(group, X, Sum(c, d))
  {
    if X == [] {
      assert group.Unit(group.unit);
    } else {
      LinearAdd(group, X[1..], c[1..], d[1..]);
      LinearElem(group, X[1..], c[1..]);
      LinearElem(group, X[1..], d[1..]);
      assert Sum(c, d)[1..] == Sum(c[1..], d[1..]);
      group.PowElem(X[0], c[0]);
      group.PowElem(X[0], d[0]);
      group.Shuffle(group.Pow(X[0], c[0]), Linear(group, X[1..], c[1..]), group.Pow(X[0], d[0]),
                    Linear(group, X[1..], d[1..]));
      group.PowAdd(X[0], c[0], d[0]);
    }
  }

  lemma {:induction false} LinearZero<G(!new)>(group: AbelianGroup<G>, X: seq<G>)
    requires group.Lawful() && Points(group, X)
    ensures Linear(group, X, Zeros(|X|)) == group.unit
  {
    if X != [] {
      assert Zeros(|X|)[1..] == Zeros(|X| - 1);
      LinearZero(group, X[1..]);
      assert group.Unit(group.unit);
    }
  }

  lemma {:induction false} LinearOne<G(!new)>(group: AbelianGroup<G>, X: seq<G>, k: nat)
    requires group.Lawful() && Points(group, X) && k < |X|
    ensures Linear(group, X, OneAt(|X|, k)) == X[k]
  {
    group.PowOne(X[0]);
    if k == 0 {
      assert OneAt(|X|, 0)[1..] == Zeros(|X| - 1);
      LinearZero(group, X[1..]);
      assert group.Unit(X[0]);
    } else {
      assert OneAt(|X|, k)[1..] == OneAt(|X| - 1, k - 1);
      LinearOne(group, X[1..], k - 1);
      assert group.Comm(group.unit, X[k]) && group.Unit(X[k]);
    }
  }

  /** Adding a point twice, or subtracting one combination from another. */
  lemma LinearSub<G(!new)>(group: AbelianGroup<G>, X: seq<G>, c: seq<int>, d: seq<int>, diff: seq<int>)
    requires group.Lawful() && Points(group, X) && |c| == |X| == |d| == |diff| && c == Sum(diff, d)
    ensures group.op(Linear(group, X, c), group.inv(Linear(group, X, d))) == Linear(group, X, diff)
  {
    LinearAdd(group, X, diff, d);
    LinearElem(group, X, diff);
    LinearElem(group, X, d);
    group.DivOp(Linear(group, X, diff), Linear(group, X, d));
  }
}
