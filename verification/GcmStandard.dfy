/** What `add_plain` and `add_cipher` of `src/core/schemes/mcore/src/gcm.rs` compute, against NIST SP 800-38D on
    numbers: the GHASH chain of section 6.4 and the counter mode of section 6.5. */
module GcmStandard {
  import opened Digits
  import opened Vectors
  import opened Masks
  import opened Ghash
  import opened Gcm
  import Residues

  // ----- blocks as numbers

  /** The number that bytes stand for, the most significant first. */
  function BytesNum(s: seq<int>): nat
    requires AllBytes(s)
  {
    if s == [] then 0 else BytesNum(s[..|s| - 1]) * 256 + s[|s| - 1]
  }

  lemma BytesSnoc(s: seq<int>, x: int)
    requires AllBytes(s) && IsByte(x)
    ensures AllBytes(s + [x]) && BytesNum(s + [x]) == BytesNum(s) * 256 + x
  {
    assert (s + [x])[..|s|] == s;
  }

  lemma FourBytes(s: seq<int>, a: int, b: int, c: int, d: int)
    requires AllBytes(s) && IsByte(a) && IsByte(b) && IsByte(c) && IsByte(d)
    ensures AllBytes(s + [a, b, c, d])
    ensures BytesNum(s + [a, b, c, d]) == Join(BytesNum(s), a * 0x100_0000 + b * 0x1_0000 + c * 0x100 + d)
  {
    BytesSnoc(s, a);
    BytesSnoc(s + [a], b);
    BytesSnoc(s + [a] + [b], c);
    BytesSnoc(s + [a] + [b] + [c], d);
    assert s + [a, b, c, d] == s + [a] + [b] + [c] + [d];
  }

  lemma PackIsNumber(s: seq<int>, w: seq<int>)
    requires AllBytes(s) && |w| == 4 && AllBytes(w)
    ensures AllBytes(s + w) && BytesNum(s + w) == Join(BytesNum(s), Pack(w))
  {
    FourBytes(s, w[0], w[1], w[2], w[3]);
    assert w == [w[0], w[1], w[2], w[3]];
  }

  /** The number of the packed words is the number of the bytes. */
  lemma NumIsNumber(s: seq<int>)
    requires IsBytes(s, 16)
    ensures Num(Packed(s)) == BytesNum(s)
  {
    var a := TopWord(s, 0, 0);
    var b := TopWord(s, 4, a);
    var c := TopWord(s, 8, b);
    var d := TopWord(s, 12, c);
    assert s[..16] == s;
  }

  lemma TopWord(s: seq<int>, k: nat, before: nat) returns (n: nat)
    requires AllBytes(s) && k + 4 <= |s| && before == BytesNum(s[..k])
    ensures n == Join(before, Pack(s[k..k + 4])) && n == BytesNum(s[..k + 4])
  {
    PackIsNumber(s[..k], s[k..k + 4]);
    assert s[..k] + s[k..k + 4] == s[..k + 4];
    n := BytesNum(s[..k + 4]);
  }

  lemma {:induction false} XorNumber(a: seq<int>, b: seq<int>)
    requires |a| == |b| && AllBytes(a) && AllBytes(b)
    ensures AllBytes(XorBytes(a, b)) && BytesNum(XorBytes(a, b)) == Xor(BytesNum(a), BytesNum(b))
  {
    XorTwice(a, b);
    if a != [] {
      var n := |a| - 1;
      XorNumber(a[..n], b[..n]);
      assert XorBytes(a, b)[..n] == XorBytes(a[..n], b[..n]);
      XorLastByte(BytesNum(a[..n]), a[n], BytesNum(b[..n]), b[n]);
    }
  }

  lemma XorLastByte(a: nat, x: nat, b: nat, y: nat)
    requires IsByte(x) && IsByte(y)
    ensures Xor(a * 256 + x, b * 256 + y) == Xor(a, b) * 256 + Xor(x, y)
  {
    var e: nat :| e == 8;
    EightBits(e);
    XorJoined(a, x, b, y, e);
  }

  // ----- bits

  lemma HalfQuotient(x: nat, p: int)
    requires p >= 1
    ensures x / (2 * p) == x / 2 / p
  {
    var q, r := x / 2 / p, x / 2 % p;
    assert x / 2 == p * q + r;
    assert (2 * p) * q == 2 * (p * q);
    Residues.DivModUnique(x, 2 * p, q, 2 * r + x % 2);
  }

  lemma {:induction false} BitIsQuotient(x: nat, j: nat)
    ensures (x / Pow2(j)) % 2 == Bit(x, j)
    decreases j
  {
    if j > 0 {
      BitIsQuotient(x / 2, j - 1);
      HalfQuotient(x, Pow2(j - 1));
    }
  }

  lemma HalfOfJoined(a: nat, p: nat, l: nat, x: nat)
    requires x == a * (2 * p) + l
    ensures x / 2 == a * p + l / 2 && x % 2 == l % 2
  {
    assert a * (2 * p) == 2 * (a * p);
  }

  /** The bits of a number written in two parts. */
  lemma {:induction false} BitJoined(a: nat, l: nat, n: nat, j: nat, x: nat)
    requires l < Pow2(n) && x == a * Pow2(n) + l
    ensures Bit(x, j) == if j < n then Bit(l, j) else Bit(a, j - n)
    decreases n, j
  {
    if n > 0 {
      HalfOfJoined(a, Pow2(n - 1), l, x);
      if j > 0 {
        BitJoined(a, l / 2, n - 1, j - 1, x / 2);
      }
    }
  }

  /** Bit b of byte k, counted from the least significant bit of the last byte. */
  lemma {:induction false} ByteBit(s: seq<int>, k: nat, b: nat)
    requires AllBytes(s) && k < |s| && b < 8
    ensures Bit(BytesNum(s), 8 * (|s| - 1 - k) + b) == Bit(s[k], b)
  {
    var n := |s| - 1;
    var e: nat :| e == 8;
    EightBits(e);
    BitJoined(BytesNum(s[..n]), s[n], e, 8 * (n - k) + b, BytesNum(s));
    if k < n {
      ByteBit(s[..n], k, b);
    }
  }

  /** The bit that the loop of `gf2mul` tests is bit 127 - i of the number. */
  lemma BitOfBlock(x: seq<int>, i: nat)
    requires IsBytes(x, 16) && i < 128
    ensures BitAt(x, i) <==> Bit(BytesNum(x), 127 - i) == 1
  {
    var k, b := i / 8, 7 - i % 8;
    ByteBit(x, k, b);
    BitIsQuotient(x[k], b);
    assert 8 * (15 - k) + b == 127 - i;
  }

  // ----- the chain

  /** The bits of a block, the most significant first. */
  function BlockBits(x: nat): (bits: seq<bool>)
    ensures |bits| == 128
  {
    seq(128, i requires 0 <= i < 128 => Bit(x, 127 - i) == 1)
  }

  /** The multiplication of section 6.3: for every bit the product takes in v if the bit is set, and v is shifted. */
  function NumProduct(bits: seq<bool>, v: nat, z: nat): nat {
    if bits == [] then z else NumProduct(bits[1..], Shifted(v), if bits[0] then Xor(z, v) else z)
  }

  lemma {:induction false} ProductOnNumbers(x: seq<int>, bits: seq<bool>, v: nat, z: nat, i: nat)
    requires IsBytes(x, 16) && i <= 128 && bits == BlockBits(BytesNum(x))
    ensures BlockProduct(x, v, z, i) == NumProduct(bits[i..], v, z)
    decreases 128 - i
  {
    if i < 128 {
      BitOfBlock(x, i);
      assert bits[i..][0] == bits[i] && bits[i..][1..] == bits[i + 1..];
      ProductOnNumbers(x, bits, Shifted(v), if BitAt(x, i) then Xor(z, v) else z, i + 1);
    }
  }

  /** Data with zeros up to a whole number of blocks. */
  function Padded(data: seq<int>): (p: seq<int>)
    ensures |p| == 16 * BlockCount(|data|)
  {
    data + Zeros(16 * BlockCount(|data|) - |data|)
  }

  /** The number of blocks that n bytes begin. */
  function BlockCount(n: nat): (k: nat)
    ensures 16 * k - 16 < n <= 16 * k
  {
    if n == 0 then 0 else 1 + BlockCount(if n < 16 then 0 else n - 16)
  }

  lemma PaddedBytes(data: seq<int>)
    requires AllBytes(data)
    ensures AllBytes(Padded(data))
  {
  }

  /** The product with the key block. */
  function TimesKey(h: nat): nat -> nat {
    (x: nat) => NumProduct(BlockBits(x), h, 0)
  }

  /** Y_n of section 6.4 from Y_0 = y: in every step the next block is taken in and the sum is multiplied. */
  function Chain(times: nat -> nat, y: nat, p: seq<int>, n: nat): nat
    requires AllBytes(p) && 16 * n <= |p|
  {
    if n == 0 then y else times(Xor(Chain(times, y, p, n - 1), BytesNum(p[16 * n - 16..16 * n])))
  }

  lemma {:induction false} ChainFront(times: nat -> nat, y: nat, b: seq<int>, p: seq<int>, n: nat)
    requires IsBytes(b, 16) && AllBytes(p) && 16 * n <= |p| && AllBytes(b + p)
    ensures Chain(times, y, b + p, n + 1) == Chain(times, times(Xor(y, BytesNum(b))), p, n)
  {
    if n == 0 {
      assert (b + p)[0..16] == b;
    } else {
      ChainFront(times, y, b, p, n - 1);
      assert (b + p)[16 * n..16 * n + 16] == p[16 * n - 16..16 * n];
    }
  }

  lemma TakenIsSum(x: seq<int>, d: seq<int>)
    requires IsBytes(x, 16) && AllBytes(d) && |d| <= 16
    ensures AllBytes(d + Zeros(16 - |d|)) && Taken(x, d) == XorBytes(x, d + Zeros(16 - |d|))
  {
    var z := d + Zeros(16 - |d|);
    forall i | |d| <= i < 16 ensures Xor(x[i], z[i]) == x[i] {
      assert IsByte(x[i]) && z[i] == 0;
      XorWithZero(x[i]);
    }
  }

  /** One block: the state takes in the block and is multiplied by the key block. */
  lemma AbsorbBlock(h: seq<int>, x: seq<int>, d: seq<int>, times: nat -> nat)
    requires IsBytes(h, 16) && IsBytes(x, 16) && AllBytes(d) && |d| <= 16 && times == TimesKey(BytesNum(h))
    ensures AllBytes(d + Zeros(16 - |d|))
    ensures BytesNum(Product(h, Taken(x, d))) == times(Xor(BytesNum(x), BytesNum(d + Zeros(16 - |d|))))
  {
    var z := d + Zeros(16 - |d|);
    TakenIsSum(x, d);
    XorNumber(x, z);
    ProductIsStandard(h, Taken(x, d));
    NumIsNumber(Product(h, Taken(x, d)));
    NumIsNumber(h);
    var bits := BlockBits(BytesNum(Taken(x, d)));
    ProductOnNumbers(Taken(x, d), bits, BytesNum(h), 0, 0);
    assert bits[0..] == bits;
  }

  /** The state of GCM after data is the GHASH chain over its zero-padded blocks. */
  lemma AbsorbedIsGhash(h: seq<int>, x: seq<int>, data: seq<int>)
    requires IsBytes(h, 16) && IsBytes(x, 16) && AllBytes(data)
    ensures AllBytes(Padded(data))
    ensures BytesNum(Absorbed(h, x, data))
         == Chain(TimesKey(BytesNum(h)), BytesNum(x), Padded(data), BlockCount(|data|))
  {
    AbsorbedFrom(h, x, data, TimesKey(BytesNum(h)));
  }

  lemma AbsorbedNext(h: seq<int>, x: seq<int>, data: seq<int>, n: nat)
    requires IsBytes(h, 16) && IsBytes(x, 16) && AllBytes(data) && data != [] && n == First(data)
    ensures Absorbed(h, x, data) == Absorbed(h, Product(h, Taken(x, data[..n])), data[n..])
  {
  }

  lemma {:induction false} AbsorbedFrom(h: seq<int>, x: seq<int>, data: seq<int>, times: nat -> nat)
    requires IsBytes(h, 16) && IsBytes(x, 16) && AllBytes(data) && times == TimesKey(BytesNum(h))
    ensures AllBytes(Padded(data))
    ensures BytesNum(Absorbed(h, x, data)) == Chain(times, BytesNum(x), Padded(data), BlockCount(|data|))
    decreases |data|
  {
    if data != [] {
      var n := First(data);
      var y := Product(h, Taken(x, data[..n]));
      AbsorbBlock(h, x, data[..n], times);
      AbsorbedNext(h, x, data, n);
      AbsorbedFrom(h, y, data[n..], times);
      ChainOfData(times, BytesNum(x), data, n, data[..n] + Zeros(16 - n));
    }
  }

  /** The chain over data is the first step and the chain over the rest. */
  lemma ChainOfData(times: nat -> nat, y: nat, data: seq<int>, n: nat, b: seq<int>)
    requires data != [] && AllBytes(data) && n == First(data) && b == data[..n] + Zeros(16 - n) && IsBytes(b, 16)
    ensures AllBytes(Padded(data)) && AllBytes(Padded(data[n..]))
    ensures Chain(times, y, Padded(data), BlockCount(|data|))
         == Chain(times, times(Xor(y, BytesNum(b))), Padded(data[n..]), BlockCount(|data[n..]|))
  {
    PaddedBytes(data);
    PaddedBytes(data[n..]);
    PaddedSplits(data, n);
    ChainStep(times, y, b, Padded(data), Padded(data[n..]), BlockCount(|data|), BlockCount(|data[n..]|));
  }

  lemma ChainStep(times: nat -> nat, y: nat, b: seq<int>, p: seq<int>, rest: seq<int>, n: nat, k: nat)
    requires IsBytes(b, 16) && AllBytes(p) && AllBytes(rest) && p == b + rest && 16 * k <= |rest| && n == k + 1
    ensures 16 * n <= |p| && Chain(times, y, p, n) == Chain(times, times(Xor(y, BytesNum(b))), rest, k)
  {
    ChainFront(times, y, b, rest, k);
  }

  lemma PaddedSplits(data: seq<int>, n: nat)
    requires data != [] && n == First(data)
    ensures BlockCount(|data|) == BlockCount(|data| - n) + 1
    ensures Padded(data) == data[..n] + Zeros(16 - n) + Padded(data[n..])
  {
  }

  // ----- counter mode

  lemma LastByte(a: int, b: int, x: int, y: int)
    requires a * 256 + x == b * 256 + y && IsByte(x) && IsByte(y)
    ensures a == b && x == y
  {
  }

  lemma PackInjective(a: seq<int>, b: seq<int>)
    requires |a| == 4 && |b| == 4 && AllBytes(a) && AllBytes(b) && Pack(a) == Pack(b)
    ensures a == b
  {
    LastByte((a[0] * 256 + a[1]) * 256 + a[2], (b[0] * 256 + b[1]) * 256 + b[2], a[3], b[3]);
    LastByte(a[0] * 256 + a[1], b[0] * 256 + b[1], a[2], b[2]);
    LastByte(a[0], b[0], a[1], b[1]);
  }

  /** The k-th counter block after f: the last four bytes count, as a number modulo 2^32. */
  ghost predicate CounterBlock(f: seq<int>, k: nat, g: seq<int>) {
    && IsBytes(f, 16) && IsBytes(g, 16) && g[..12] == f[..12]
    && AllBytes(f[12..]) && AllBytes(g[12..]) && BytesNum(g[12..]) == (BytesNum(f[12..]) + k) % 0x1_0000_0000
  }

  lemma CounterIsNumber(f: seq<int>)
    requires IsBytes(f, 16)
    ensures AllBytes(f[12..]) && BytesNum(f[12..]) == Counter(f)
  {
    PackIsNumber([], f[12..]);
    assert [] + f[12..] == f[12..] && f[12..] == f[12..16];
  }

  lemma OneBlock(f: seq<int>, g: seq<int>)
    requires IsBytes(f, 16) && CounterBlock(f, 0, g)
    ensures g == f
  {
    CounterIsNumber(f);
    CounterIsNumber(g);
    PackInjective(f[12..16], g[12..16]);
    assert f == f[..12] + f[12..16] && g == g[..12] + g[12..16];
  }

  lemma NextBlockCounts(f: seq<int>, k: nat, g: seq<int>)
    requires IsBytes(f, 16) && CounterBlock(f, k + 1, g)
    ensures CounterBlock(Incremented(f), k, g)
  {
    CounterIsNumber(f);
    CounterIsNumber(g);
    CounterIsNumber(Incremented(f));
  }

  /** Every byte of the text is combined with its byte of the encrypted counter blocks. */
  lemma {:induction false} CryptAt(encrypt: seq<int> -> seq<int>, f: seq<int>, data: seq<int>, i: nat, g: seq<int>)
    requires IsCipher(encrypt) && IsBytes(f, 16) && AllBytes(data) && i < |data| && CounterBlock(f, i / 16 + 1, g)
    ensures |Crypt(encrypt, f, data)| == |data| && IsBytes(encrypt(g), 16)
    ensures Crypt(encrypt, f, data)[i] == Xor(data[i], encrypt(g)[i % 16])
    decreases |data|
  {
    var n := First(data);
    CryptBytes(encrypt, f, data);
    CryptNext(encrypt, f, data, n);
    NextBlockCounts(f, i / 16, g);
    if i < 16 {
      FirstBlock(i, 16);
      OneBlock(Incremented(f), g);
    } else {
      OneBlockLess(i, 16);
      CryptAt(encrypt, Incremented(f), data[n..], i - 16, g);
      JoinedAt(XorBytes(data[..n], encrypt(Incremented(f))[..n]), Crypt(encrypt, Incremented(f), data[n..]), i);
    }
  }

  lemma JoinedAt(a: seq<int>, b: seq<int>, i: nat)
    requires |a| <= i < |a| + |b|
    ensures (a + b)[i] == b[i - |a|]
  {
  }

  /** The counter block that is left counts one for every block begun. */
  lemma {:induction false} CounterLeft(f: seq<int>, n: nat)
    requires IsBytes(f, 16)
    ensures CounterBlock(f, BlockCount(n), CounterAfter(f, n))
    decreases n
  {
    CounterIsNumber(f);
    if n > 0 {
      var m := if n < 16 then 0 else n - 16;
      CounterLeft(Incremented(f), m);
      CounterIsNumber(Incremented(f));
      CountsOn(Counter(f), BlockCount(m));
      assert BlockCount(n) == BlockCount(m) + 1;
    }
  }

  lemma CountsOn(c: int, k: nat)
    requires 0 <= c < 0x1_0000_0000
    ensures (NextWord(c) + k) % 0x1_0000_0000 == (c + (k + 1)) % 0x1_0000_0000
  {
  }
}
