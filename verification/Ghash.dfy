/** Multiplication in GF(2^128) by a table, as in `src/core/schemes/mcore/src/gcm.rs`: `precompute` and
    `gf2mul`, proved against the bitwise block multiplication of section 6.3 of NIST SP 800-38D.
    A block is a number of 128 bits, whose bit 0 in that section is the most significant one. */
module Ghash {
  import opened Digits
  import opened Masks

  /** 2^32. */
  const WORD: int := 0x1_0000_0000

  predicate IsWord(x: int) {
    0 <= x < WORD
  }

  /** Four 32-bit words, the most significant first. */
  predicate IsBlock(w: seq<int>) {
    |w| == 4 && IsWord(w[0]) && IsWord(w[1]) && IsWord(w[2]) && IsWord(w[3])
  }

  function Join(high: nat, low: nat): nat {
    high * 0x1_0000_0000 + low
  }

  function Num(w: seq<int>): (n: nat)
    requires IsBlock(w)
  {
    Join(Join(Join(w[0], w[1]), w[2]), w[3])
  }

  /** The reduction constant: 11100001 followed by 120 zeros. */
  const R: nat := 0xE100_0000_0000_0000_0000_0000_0000_0000

  // ----- exclusive or, word by word

  lemma HalfJoined(a: int, p: int, b: int)
    ensures (a * (2 * p) + b) / 2 == a * p + b / 2 && (a * (2 * p) + b) % 2 == b % 2
  {
    assert a * (2 * p) == 2 * (a * p);
  }

  lemma JoinedNotNegative(a: nat, p: nat, b: nat)
    ensures a * p + b >= 0
  {
  }

  /** Joined numbers are combined part by part. */
  lemma XorJoined(a: nat, b: nat, c: nat, d: nat, n: nat)
    requires b < Pow2(n) && d < Pow2(n)
    ensures a * Pow2(n) + b >= 0 && c * Pow2(n) + d >= 0
    ensures Xor(a * Pow2(n) + b, c * Pow2(n) + d) == Xor(a, c) * Pow2(n) + Xor(b, d)
  {
    JoinedNotNegative(a, Pow2(n), b);
    JoinedNotNegative(c, Pow2(n), d);
    XorParts(a, b, c, d, n, Pow2(n), a * Pow2(n) + b, c * Pow2(n) + d);
  }

  lemma {:induction false} XorParts(a: nat, b: nat, c: nat, d: nat, n: nat, p: nat, x: nat, y: nat)
    requires p == Pow2(n) && b < p && d < p && x == a * p + b && y == c * p + d
    ensures Xor(x, y) == Xor(a, c) * p + Xor(b, d)
    decreases n
  {
    if n == 0 {
      assert x == a && y == c;
      XorZero(0, 0);
    } else {
      var h := Pow2(n - 1);
      HalfJoined(a, h, b);
      HalfJoined(c, h, d);
      XorParts(a, b / 2, c, d / 2, n - 1, h, x / 2, y / 2);
      XorStep(x, y, b, d, Xor(a, c), h);
    }
  }

  lemma XorStep(x: nat, y: nat, b: nat, d: nat, high: nat, h: nat)
    requires x % 2 == b % 2 && y % 2 == d % 2 && Xor(x / 2, y / 2) == high * h + Xor(b / 2, d / 2)
    ensures Xor(x, y) == high * (2 * h) + Xor(b, d)
  {
    XorHalves(x, y);
    XorHalves(b, d);
    HalfJoined(high, h, Xor(b, d));
    ParityJoined(x, y, b, d);
    SameHalves(Xor(x, y), high * (2 * h) + Xor(b, d));
  }

  lemma ParityJoined(x: int, y: int, b: int, d: int)
    requires x % 2 == b % 2 && y % 2 == d % 2
    ensures (x + y) % 2 == (b + d) % 2
  {
  }

  lemma WordBits(n: nat)
    requires n == 32
    ensures Pow2(n) == WORD
  {
    var h: nat := 8;
    EightBits(h);
    Pow2Add(h, h);
    Pow2Add(2 * h, 2 * h);
  }

  lemma XorJoinedWord(a: nat, b: nat, c: nat, d: nat)
    requires IsWord(b) && IsWord(d)
    ensures Xor(Join(a, b), Join(c, d)) == Join(Xor(a, c), Xor(b, d))
  {
    var n: nat :| n == 32;
    WordBits(n);
    XorJoined(a, b, c, d, n);
  }

  lemma XorWord(b: int, d: int)
    requires IsWord(b) && IsWord(d)
    ensures IsWord(Xor(b, d))
  {
    var n: nat :| n == 32;
    WordBits(n);
    XorBound(b, d, n);
  }

  function XorBlocks(a: seq<int>, b: seq<int>): seq<int>
    requires IsBlock(a) && IsBlock(b)
  {
    [Xor(a[0], b[0]), Xor(a[1], b[1]), Xor(a[2], b[2]), Xor(a[3], b[3])]
  }

  lemma XorBlocksNum(a: seq<int>, b: seq<int>)
    requires IsBlock(a) && IsBlock(b)
    ensures IsBlock(XorBlocks(a, b)) && Num(XorBlocks(a, b)) == Xor(Num(a), Num(b))
  {
    XorWord(a[0], b[0]);
    XorWord(a[1], b[1]);
    XorWord(a[2], b[2]);
    XorWord(a[3], b[3]);
    XorFour(a[0], a[1], a[2], a[3], b[0], b[1], b[2], b[3]);
  }

  lemma XorFour(a0: nat, a1: nat, a2: nat, a3: nat, b0: nat, b1: nat, b2: nat, b3: nat)
    requires IsWord(a1) && IsWord(a2) && IsWord(a3) && IsWord(b1) && IsWord(b2) && IsWord(b3)
    ensures Xor(Join(Join(Join(a0, a1), a2), a3), Join(Join(Join(b0, b1), b2), b3))
         == Join(Join(Join(Xor(a0, b0), Xor(a1, b1)), Xor(a2, b2)), Xor(a3, b3))
  {
    XorJoinedWord(a0, a1, b0, b1);
    XorJoinedWord(Join(a0, a1), a2, Join(b0, b1), b2);
    XorJoinedWord(Join(Join(a0, a1), a2), a3, Join(Join(b0, b1), b2), b3);
  }

  // ----- precompute

  /** V.x: a shift to the right, and the reduction constant for a bit that falls out. */
  function Shifted(v: nat): nat {
    if v % 2 == 1 then Xor(v / 2, R) else v / 2
  }

  /** The loop over the words of one row. */
  function Halved(t: seq<int>): (r: seq<int>)
    requires IsBlock(t)
    ensures IsBlock(r) && Num(r) == Num(t) / 2
  {
    [t[0] / 2, (t[0] % 2) * 0x8000_0000 + t[1] / 2, (t[1] % 2) * 0x8000_0000 + t[2] / 2,
     (t[2] % 2) * 0x8000_0000 + t[3] / 2]
  }

  lemma ReductionBlock(r: seq<int>)
    requires IsBlock(r)
    ensures IsBlock([0xE100_0000, 0, 0, 0]) && Num([0xE100_0000, 0, 0, 0]) == R
    ensures XorBlocks(r, [0xE100_0000, 0, 0, 0]) == r[0 := Xor(r[0], 0xE100_0000)]
  {
    XorWithZero(r[1]);
    XorWithZero(r[2]);
    XorWithZero(r[3]);
  }

  /** One row of the table from the row before it. */
  function NextBlock(t: seq<int>): (r: seq<int>)
    requires IsBlock(t)
    ensures IsBlock(r) && Num(r) == Shifted(Num(t))
  {
    var r := Halved(t);
    ReductionBlock(r);
    XorBlocksNum(r, [0xE100_0000, 0, 0, 0]);
    if t[3] % 2 == 1 then r[0 := Xor(r[0], 0xE100_0000)] else r
  }

  method NextRow(t: seq<int>) returns (r: seq<int>)
    requires IsBlock(t)
    ensures r == NextBlock(t)
  {
    var c := 0;
    r := [];
    for j := 0 to 4
      invariant |r| == j && (forall i :: 0 <= i < j ==> r[i] == Halved(t)[i])
      invariant c == if j == 0 then 0 else (t[j - 1] % 2) * 0x8000_0000
    {
      r := r + [c + t[j] / 2];
      c := (t[j] % 2) * 0x8000_0000;
    }
    assert r == Halved(t);
    if c != 0 {
      r := r[0 := Xor(r[0], 0xE100_0000)];
    }
  }

  /** H.x^i. */
  function Multiple(h: nat, i: nat): nat {
    if i == 0 then h else Shifted(Multiple(h, i - 1))
  }

  /** Bytes packed to words, the most significant first. */
  function Packed(s: seq<int>): (w: seq<int>)
    requires |s| == 16 && AllBytes(s)
    ensures IsBlock(w)
  {
    [Pack(s[0..4]), Pack(s[4..8]), Pack(s[8..12]), Pack(s[12..16])]
  }

  function Pack(b: seq<int>): (w: int)
    requires |b| == 4 && AllBytes(b)
    ensures IsWord(w)
  {
    b[0] * 0x100_0000 + b[1] * 0x1_0000 + b[2] * 0x100 + b[3]
  }

  lemma Divisions(a: int)
    requires IsWord(a)
    ensures a / 0x1_0000 == a / 256 / 256 && a / 0x100_0000 == a / 256 / 256 / 256 < 256
    ensures a == (a / 256) * 256 + a % 256
    ensures a / 256 == (a / 256 / 256) * 256 + (a / 256) % 256
    ensures a / 256 / 256 == (a / 256 / 256 / 256) * 256 + (a / 256 / 256) % 256
  {
  }

  function Unpack(a: int): (b: seq<int>)
    requires IsWord(a)
    ensures |b| == 4 && AllBytes(b) && Pack(b) == a
  {
    Divisions(a);
    [a / 0x100_0000, (a / 0x1_0000) % 256, (a / 0x100) % 256, a % 256]
  }

  /** Row i of the table for the key block h. */
  function Row(h: seq<int>, i: nat): (r: seq<int>)
    requires |h| == 16 && AllBytes(h)
    ensures IsBlock(r)
  {
    if i == 0 then Packed(h) else NextBlock(Row(h, i - 1))
  }

  /** Row i is H.x^i. */
  lemma {:induction false} RowMultiple(h: seq<int>, i: nat)
    requires |h| == 16 && AllBytes(h)
    ensures Num(Row(h, i)) == Multiple(Num(Packed(h)), i)
  {
    if i > 0 {
      RowMultiple(h, i - 1);
    }
  }

  ghost predicate TableOf(h: seq<int>, table: seq<seq<int>>) {
    && |h| == 16 && AllBytes(h) && |table| == 128
    && forall i {:trigger Row(h, i)} :: 0 <= i < 128 ==> table[i] == Row(h, i)
  }

  /** `precompute`. */
  method Precompute(h: seq<int>) returns (table: seq<seq<int>>)
    requires |h| == 16 && AllBytes(h)
    ensures TableOf(h, table)
  {
    table := [Packed(h)];
    for i := 1 to 128
      invariant |table| == i && forall j {:trigger Row(h, j)} :: 0 <= j < i ==> table[j] == Row(h, j)
    {
      assert Row(h, i - 1) == table[i - 1];
      var row := NextRow(table[i - 1]);
      table := table + [row];
    }
  }

  // ----- gf2mul

  /** Bit i of a string of bytes, the most significant bit of the first byte first. */
  predicate BitAt(x: seq<int>, i: nat)
    requires |x| == 16 && i < 128
  {
    (x[i / 8] / Pow2(7 - i % 8)) % 2 == 1
  }

  /** The multiplication of section 6.3 of NIST SP 800-38D from step i on. */
  function BlockProduct(x: seq<int>, v: nat, z: nat, i: nat): nat
    requires |x| == 16 && i <= 128
    decreases 128 - i
  {
    if i == 128 then z else BlockProduct(x, Shifted(v), if BitAt(x, i) then Xor(z, v) else z, i + 1)
  }

  /** The sum of the rows selected by the first i bits. */
  function Selected(h: seq<int>, x: seq<int>, i: nat): (p: seq<int>)
    requires |h| == 16 && AllBytes(h) && |x| == 16 && i <= 128
    ensures IsBlock(p)
  {
    if i == 0 then [0, 0, 0, 0]
    else
      var p := Selected(h, x, i - 1);
      XorBlocksNum(p, Row(h, i - 1));
      if BitAt(x, i - 1) then XorBlocks(p, Row(h, i - 1)) else p
  }

  lemma ProductStep(x: seq<int>, v: nat, z: nat, i: nat, next: nat, w: nat)
    requires |x| == 16 && i < 128 && next == Shifted(v) && w == if BitAt(x, i) then Xor(z, v) else z
    ensures BlockProduct(x, v, z, i) == BlockProduct(x, next, w, i + 1)
  {
  }

  lemma SelectedNum(h: seq<int>, x: seq<int>, i: nat)
    requires |h| == 16 && AllBytes(h) && |x| == 16 && i < 128
    ensures Num(Selected(h, x, i + 1))
         == if BitAt(x, i) then Xor(Num(Selected(h, x, i)), Multiple(Num(Packed(h)), i)) else Num(Selected(h, x, i))
  {
    RowMultiple(h, i);
    XorBlocksNum(Selected(h, x, i), Row(h, i));
  }

  /** The rows that the bits select add up to the product of the standard. */
  lemma {:induction false} SelectedProduct(h: seq<int>, x: seq<int>, i: nat)
    requires |h| == 16 && AllBytes(h) && |x| == 16 && i <= 128
    ensures BlockProduct(x, Multiple(Num(Packed(h)), i), Num(Selected(h, x, i)), i)
            == BlockProduct(x, Num(Packed(h)), 0, 0)
  {
    var n := Num(Packed(h));
    if i == 0 {
      assert Num([0, 0, 0, 0]) == 0;
    } else {
      var k := i - 1;
      SelectedProduct(h, x, k);
      SelectedNum(h, x, k);
      ProductStep(x, Multiple(n, k), Num(Selected(h, x, k)), k, Multiple(n, i), Num(Selected(h, x, i)));
    }
  }

  /** Words unpacked to bytes. */
  function Unpacked(w: seq<int>): (s: seq<int>)
    requires IsBlock(w)
    ensures |s| == 16 && AllBytes(s)
  {
    Unpack(w[0]) + Unpack(w[1]) + Unpack(w[2]) + Unpack(w[3])
  }

  lemma PackUnpack(w: seq<int>)
    requires IsBlock(w)
    ensures Packed(Unpacked(w)) == w
  {
    FourParts(Unpack(w[0]), Unpack(w[1]), Unpack(w[2]), Unpack(w[3]));
  }

  lemma FourParts(a: seq<int>, b: seq<int>, c: seq<int>, d: seq<int>)
    requires |a| == |b| == |c| == |d| == 4
    ensures (a + b + c + d)[0..4] == a && (a + b + c + d)[4..8] == b && (a + b + c + d)[8..12] == c
            && (a + b + c + d)[12..16] == d
  {
  }

  /** The product of two blocks, as bytes. */
  function Product(h: seq<int>, x: seq<int>): (y: seq<int>)
    requires |h| == 16 && AllBytes(h) && |x| == 16
    ensures |y| == 16 && AllBytes(y)
  {
    Unpacked(Selected(h, x, 128))
  }

  /** The product is the one of the standard. */
  lemma ProductIsStandard(h: seq<int>, x: seq<int>)
    requires |h| == 16 && AllBytes(h) && |x| == 16
    ensures Num(Packed(Product(h, x))) == BlockProduct(x, Num(Packed(h)), 0, 0)
  {
    SelectedProduct(h, x, 128);
    PackUnpack(Selected(h, x, 128));
  }

  /** `gf2mul`: the state times the key block. */
  method Gf2Mul(table: seq<seq<int>>, x: seq<int>, ghost h: seq<int>) returns (y: seq<int>)
    requires TableOf(h, table) && |x| == 16 && AllBytes(x)
    ensures y == Product(h, x)
  {
    var p := [0, 0, 0, 0];
    var j, m := 8, 0;
    for i := 0 to 128
      invariant 1 <= j <= 8 && 8 * m + (8 - j) == i && p == Selected(h, x, i)
    {
      j := j - 1;
      p := SelectRow(table, x, h, p, i, m, j);
      if j == 0 {
        j := 8;
        m := m + 1;
      }
    }
    y := Unpacked(p);
  }

  /** The row of one bit is taken in if the bit is set. */
  method SelectRow(table: seq<seq<int>>, x: seq<int>, ghost h: seq<int>, p0: seq<int>, i: nat, m: nat, j: nat)
    returns (p: seq<int>)
    requires TableOf(h, table) && |x| == 16 && AllBytes(x) && i < 128 && m == i / 8 && j == 7 - i % 8
    requires p0 == Selected(h, x, i)
    ensures p == Selected(h, x, i + 1)
  {
    assert Row(h, i) == table[i];
    p := if (x[m] / Pow2(j)) % 2 == 1 then XorBlocks(p0, table[i]) else p0;
  }
}
