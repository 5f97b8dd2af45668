/** Byte buffers and the mask generation function `mgf1` of `src/core/schemes/mcore/src/hmac.rs`.
    The hash function is a parameter. */
module Masks {
  import opened Digits
  import opened Vectors
  import Residues

  predicate IsByte(x: int) {
    0 <= x < 256
  }

  predicate AllBytes(s: seq<int>) {
    forall i :: 0 <= i < |s| ==> IsByte(s[i])
  }

  /** A hash of hlen bytes: of a message, and of a message with a counter appended. */
  datatype Hash = Hash(hlen: nat, plain: seq<int> -> seq<int>, counted: (seq<int>, nat) -> seq<int>) {
    ghost predicate Plain(m: seq<int>) {
      |plain(m)| == hlen && AllBytes(plain(m))
    }

    ghost predicate Counted(m: seq<int>, c: nat) {
      |counted(m, c)| == hlen && AllBytes(counted(m, c))
    }

    ghost predicate Valid() {
      1 <= hlen <= 64 && (forall m :: Plain(m)) && (forall m, c :: Counted(m, c))
    }
  }

  // ----- exclusive or of byte strings

  function XorBytes(a: seq<int>, b: seq<int>): (c: seq<int>)
    requires |a| == |b| && AllBytes(a) && AllBytes(b)
    ensures |c| == |a|
  {
    seq(|a|, i requires 0 <= i < |a| => Xor(a[i], b[i]))
  }

  lemma XorByte(a: int, b: int)
    requires IsByte(a) && IsByte(b)
    ensures IsByte(Xor(a, b)) && Xor(Xor(a, b), b) == a
  {
    var n: nat :| n == 8;
    EightBits(n);
    XorBound(a, b, n);
    XorAssociates(a, b, b);
    XorSelf(b);
    XorWithZero(a);
  }

  lemma EightBits(n: nat)
    requires n == 8
    ensures Pow2(n) == 256
  {
    var h: nat := 4;
    assert Pow2(h) == 16 by { assert Pow2(4) == 16; }
    Pow2Add(h, h);
  }

  /** Masking twice with the same mask changes nothing. */
  lemma XorTwice(a: seq<int>, b: seq<int>)
    requires |a| == |b| && AllBytes(a) && AllBytes(b)
    ensures AllBytes(XorBytes(a, b)) && XorBytes(XorBytes(a, b), b) == a
  {
    forall i | 0 <= i < |a| ensures IsByte(XorBytes(a, b)[i]) && Xor(XorBytes(a, b)[i], b[i]) == a[i] {
      XorByte(a[i], b[i]);
    }
  }

  lemma XorBytesCommutes(a: seq<int>, b: seq<int>)
    requires |a| == |b| && AllBytes(a) && AllBytes(b)
    ensures XorBytes(a, b) == XorBytes(b, a)
  {
    forall i | 0 <= i < |a| ensures Xor(a[i], b[i]) == Xor(b[i], a[i]) {
      XorCommutes(a[i], b[i]);
    }
  }

  // ----- buffers

  /** A buffer with src written at an offset. */
  function Written(d: seq<int>, off: nat, src: seq<int>): (r: seq<int>)
    requires off + |src| <= |d|
    ensures |r| == |d|
  {
    d[..off] + src + d[off + |src|..]
  }

  method Write(d: array<int>, off: nat, src: seq<int>)
    requires off + |src| <= d.Length
    modifies d
    ensures d[..] == Written(old(d[..]), off, src)
  {
    for i := 0 to |src|
      invariant forall j :: 0 <= j < off || off + i <= j < d.Length ==> d[j] == old(d[..])[j]
      invariant forall j :: 0 <= j < i ==> d[off + j] == src[j]
    {
      d[off + i] := src[i];
    }
    forall j | 0 <= j < d.Length ensures d[j] == Written(old(d[..]), off, src)[j] {
      if off <= j < off + |src| {
        assert d[off + (j - off)] == src[j - off];
      }
    }
  }

  /** Exclusive or of src into a buffer, at an offset. */
  method XorInto(d: array<int>, off: nat, src: seq<int>)
    requires off + |src| <= d.Length && AllBytes(d[off..off + |src|]) && AllBytes(src)
    modifies d
    ensures d[..] == Written(old(d[..]), off, XorBytes(old(d[off..off + |src|]), src))
  {
    ghost var d0 := d[..];
    ghost var x := d0[off..off + |src|];
    for i := 0 to |src|
      invariant forall j :: 0 <= j < off || off + i <= j < d.Length ==> d[j] == d0[j]
      invariant forall j :: 0 <= j < i ==> d[off + j] == Xor(x[j], src[j])
    {
      assert d[off + i] == x[i] && IsByte(x[i]) && IsByte(src[i]);
      d[off + i] := Xor(d[off + i], src[i]);
    }
    forall j | 0 <= j < d.Length ensures d[j] == Written(d0, off, XorBytes(x, src))[j] {
      if off <= j < off + |src| {
        assert d[off + (j - off)] == Xor(x[j - off], src[j - off]);
      }
    }
  }

  method Clear(d: array<int>)
    modifies d
    ensures d[..] == Zeros(d.Length)
  {
    for i := 0 to d.Length
      invariant forall j :: 0 <= j < i ==> d[j] == 0
    {
      d[i] := 0;
    }
  }

  // ----- mgf1

  /** The mask from block `counter` on, `n` bytes of it. */
  function Mask(h: Hash, z: seq<int>, counter: nat, n: nat): (m: seq<int>)
    decreases n
  {
    var b := h.counted(z, counter);
    if h.hlen == 0 || |b| != h.hlen then Zeros(n)
    else if n < h.hlen then b[..n]
    else b + Mask(h, z, counter + 1, n - h.hlen)
  }

  lemma {:induction false} MaskBytes(h: Hash, z: seq<int>, counter: nat, n: nat)
    requires h.Valid()
    ensures |Mask(h, z, counter, n)| == n && AllBytes(Mask(h, z, counter, n))
    decreases n
  {
    assert h.Counted(z, counter);
    if n >= h.hlen {
      MaskBytes(h, z, counter + 1, n - h.hlen);
    }
  }

  lemma OneBlockLess(i: nat, n: nat)
    requires n >= 1 && i >= n
    ensures i / n == (i - n) / n + 1 && i % n == (i - n) % n && (i - n) / n >= 0
  {
    var q, r := (i - n) / n, (i - n) % n;
    Residues.Distribute(n, q, 1);
    Residues.DivModUnique(i, n, q + 1, r);
    if q < 0 {
      Residues.MulBounds(n, q);
    }
  }

  lemma FirstBlock(i: nat, n: nat)
    requires i < n
    ensures i / n == 0 && i % n == i
  {
    Residues.DivModUnique(i, n, 0, i);
  }

  /** Byte i of the mask is byte i % hlen of the hash with counter i / hlen. */
  lemma {:induction false} MaskAt(h: Hash, z: seq<int>, counter: nat, n: nat, i: nat)
    requires h.Valid() && i < n
    ensures |Mask(h, z, counter, n)| == n && 0 <= i / h.hlen && h.Counted(z, counter + i / h.hlen)
    ensures Mask(h, z, counter, n)[i] == h.counted(z, counter + i / h.hlen)[i % h.hlen]
    decreases n
  {
    MaskBytes(h, z, counter, n);
    assert h.Counted(z, counter);
    if i < h.hlen {
      FirstBlock(i, h.hlen);
    } else {
      OneBlockLess(i, h.hlen);
      MaskBytes(h, z, counter + 1, n - h.hlen);
      MaskAt(h, z, counter + 1, n - h.hlen, i - h.hlen);
    }
  }

  lemma MaskEnd(h: Hash, z: seq<int>, counter: nat)
    requires h.Valid()
    ensures Mask(h, z, counter, 0) == []
  {
    assert h.Counted(z, counter);
  }

  /** The number of blocks: all but perhaps the last are whole. */
  function Blocks(n: nat, hlen: nat): int
    requires hlen >= 1
  {
    n / hlen + (if n % hlen != 0 then 1 else 0)
  }

  lemma MulPlusOne(hlen: nat, c: int)
    ensures hlen * (c + 1) == hlen * c + hlen
  {
  }

  lemma BlocksCover(n: nat, hlen: nat, c: nat, j: nat)
    requires hlen >= 1 && j == hlen * c && c < Blocks(n, hlen)
    ensures j < n && (j + hlen > n ==> n % hlen == n - j && c + 1 == Blocks(n, hlen))
    ensures j + hlen <= n ==> j + hlen == hlen * (c + 1) && (c + 1 == Blocks(n, hlen) <==> j + hlen == n)
  {
    var q, r := n / hlen, n % hlen;
    MulPlusOne(hlen, c);
    Residues.Distribute(hlen, q, c);
    Residues.MulBounds(hlen, q - c);
    Residues.Distribute(hlen, q - c, 1);
    Residues.MulBounds(hlen, q - c - 1);
  }

  /** `mgf1`: the whole buffer is cleared, and its first n bytes are the mask. */
  method Mgf1(h: Hash, z: seq<int>, n: nat, k: array<int>)
    requires h.Valid() && n <= k.Length
    modifies k
    ensures k[..] == Mask(h, z, 0, n) + Zeros(k.Length - n)
  {
    Clear(k);
    MaskBytes(h, z, 0, n);
    var j := 0;
    var blocks := Blocks(n, h.hlen);
    var counter := 0;
    NoBlocks(n, h.hlen);
    while counter < blocks
      invariant 0 <= counter <= blocks && 0 <= j <= n && (counter < blocks ==> j == h.hlen * counter)
                && (counter == blocks ==> j == n)
      invariant |Mask(h, z, counter, n - j)| == n - j
      invariant k[..] == Mask(h, z, 0, n)[..j] + Zeros(k.Length - j)
      invariant Mask(h, z, 0, n) == Mask(h, z, 0, n)[..j] + Mask(h, z, counter, n - j)
    {
      j := MaskBlock(h, z, n, k, counter, j);
      counter := counter + 1;
    }
    MaskEnd(h, z, counter);
  }

  lemma NoBlocks(n: nat, hlen: nat)
    requires hlen >= 1
    ensures Blocks(n, hlen) >= 0 && (Blocks(n, hlen) == 0 ==> n == 0)
  {
    var q := n / hlen;
    assert n == hlen * q + n % hlen;
    Residues.MulBounds(hlen, q);
  }

  /** One block of the mask, cut to what is left. */
  method MaskBlock(h: Hash, z: seq<int>, n: nat, k: array<int>, counter: nat, j: nat) returns (next: nat)
    requires h.Valid() && n <= k.Length && counter < Blocks(n, h.hlen) && j == h.hlen * counter
    requires j <= n && |Mask(h, z, 0, n)| == n && |Mask(h, z, counter, n - j)| == n - j
    requires k[..] == Mask(h, z, 0, n)[..j] + Zeros(k.Length - j)
    requires Mask(h, z, 0, n) == Mask(h, z, 0, n)[..j] + Mask(h, z, counter, n - j)
    modifies k
    ensures j <= next <= n && |Mask(h, z, counter + 1, n - next)| == n - next
    ensures counter + 1 < Blocks(n, h.hlen) ==> next == h.hlen * (counter + 1)
    ensures counter + 1 == Blocks(n, h.hlen) ==> next == n
    ensures k[..] == Mask(h, z, 0, n)[..next] + Zeros(k.Length - next)
    ensures Mask(h, z, 0, n) == Mask(h, z, 0, n)[..next] + Mask(h, z, counter + 1, n - next)
  {
    var b;
    ghost var m := Mask(h, z, 0, n);
    b, next := NextPiece(h, z, n, counter, j, m);
    Write(k, j, b);
    assert m[..next] == m[..j] + b;
    assert k[..] == m[..next] + Zeros(k.Length - next);
  }

  /** One more block of the mask. */
  lemma MaskSplits(h: Hash, z: seq<int>, n: nat, counter: nat, j: nat, size: nat, m: seq<int>)
    requires h.Valid() && j <= n && size == (if j + h.hlen > n then n - j else h.hlen)
    requires |m| == n && |Mask(h, z, counter, n - j)| == n - j && m == m[..j] + Mask(h, z, counter, n - j)
    ensures h.Counted(z, counter) && j + size <= n && |Mask(h, z, counter + 1, n - j - size)| == n - j - size
    ensures m[j..j + size] == h.counted(z, counter)[..size] && m[..j + size] == m[..j] + h.counted(z, counter)[..size]
    ensures m == m[..j + size] + Mask(h, z, counter + 1, n - j - size)
  {
    assert h.Counted(z, counter);
    var b, rest := h.counted(z, counter), Mask(h, z, counter + 1, n - j - size);
    MaskBytes(h, z, counter + 1, n - j - size);
    assert Mask(h, z, counter, n - j) == b[..size] + rest;
    assert m == m[..j] + (b[..size] + rest);
  }

  /** `mgf1xor`: the mask is taken into the first n bytes. */
  method Mgf1Xor(h: Hash, z: seq<int>, n: nat, k: array<int>)
    requires h.Valid() && n <= k.Length && AllBytes(k[..n])
    modifies k
    ensures |Mask(h, z, 0, n)| == n && AllBytes(Mask(h, z, 0, n))
    ensures k[..] == XorBytes(old(k[..n]), Mask(h, z, 0, n)) + old(k[n..])
  {
    MaskBytes(h, z, 0, n);
    ghost var k0, m := k[..], Mask(h, z, 0, n);
    ghost var want := XorBytes(k0[..n], m);
    var j := 0;
    var blocks := Blocks(n, h.hlen);
    var counter := 0;
    NoBlocks(n, h.hlen);
    while counter < blocks
      invariant 0 <= counter <= blocks && 0 <= j <= n && (counter < blocks ==> j == h.hlen * counter)
                && (counter == blocks ==> j == n)
      invariant |Mask(h, z, counter, n - j)| == n - j && m == m[..j] + Mask(h, z, counter, n - j)
      invariant k[..] == want[..j] + k0[j..]
    {
      j := XorBlock(h, z, n, k, counter, j, k0, m, want);
      counter := counter + 1;
    }
  }

  method XorBlock(h: Hash, z: seq<int>, n: nat, k: array<int>, counter: nat, j: nat, ghost k0: seq<int>,
                  ghost m: seq<int>, ghost want: seq<int>)
      returns (next: nat)
    requires h.Valid() && n <= k.Length == |k0| && counter < Blocks(n, h.hlen) && j == h.hlen * counter
    requires j <= n == |m| && AllBytes(m) && AllBytes(k0[..n]) && want == XorBytes(k0[..n], m)
    requires |Mask(h, z, counter, n - j)| == n - j && m == m[..j] + Mask(h, z, counter, n - j)
    requires k[..] == want[..j] + k0[j..]
    modifies k
    ensures j <= next <= n && |Mask(h, z, counter + 1, n - next)| == n - next
    ensures counter + 1 < Blocks(n, h.hlen) ==> next == h.hlen * (counter + 1)
    ensures counter + 1 == Blocks(n, h.hlen) ==> next == n
    ensures m == m[..next] + Mask(h, z, counter + 1, n - next) && k[..] == want[..next] + k0[next..]
  {
    var b;
    b, next := NextPiece(h, z, n, counter, j, m);
    TakeIn(k, j, b, k0, m, want, n);
  }

  /** The next piece of the mask: a block, cut to what is left. */
  method NextPiece(h: Hash, z: seq<int>, n: nat, counter: nat, j: nat, ghost m: seq<int>)
    returns (b: seq<int>, next: nat)
    requires h.Valid() && counter < Blocks(n, h.hlen) && j == h.hlen * counter && j <= n == |m|
    requires |Mask(h, z, counter, n - j)| == n - j && m == m[..j] + Mask(h, z, counter, n - j)
    ensures next == j + |b| <= n && b == m[j..next] && |Mask(h, z, counter + 1, n - next)| == n - next
    ensures counter + 1 < Blocks(n, h.hlen) ==> next == h.hlen * (counter + 1)
    ensures counter + 1 == Blocks(n, h.hlen) ==> next == n
    ensures m == m[..next] + Mask(h, z, counter + 1, n - next)
  {
    BlocksCover(n, h.hlen, counter, j);
    var size := if j + h.hlen > n then n % h.hlen else h.hlen;
    next := j + size;
    MaskSplits(h, z, n, counter, j, size, m);
    b := h.counted(z, counter)[..size];
  }

  lemma XorSlice(a: seq<int>, b: seq<int>, i: nat, j: nat)
    requires |a| == |b| && AllBytes(a) && AllBytes(b) && i <= j <= |a|
    ensures AllBytes(a[i..j]) && AllBytes(b[i..j]) && XorBytes(a, b)[i..j] == XorBytes(a[i..j], b[i..j])
  {
  }

  lemma SliceOfPrefix(s: seq<int>, n: nat, i: nat, j: nat)
    requires i <= j <= n <= |s|
    ensures s[..n][i..j] == s[i..j]
  {
  }

  lemma JoinSlices(w: seq<int>, s: seq<int>, j: nat, e: nat)
    requires j <= e <= |w| <= |s|
    ensures Written(w[..j] + s[j..], j, w[j..e]) == w[..e] + s[e..]
  {
  }

  lemma MiddleOf(w: seq<int>, s: seq<int>, j: nat, e: nat)
    requires j <= e <= |w| <= |s|
    ensures (w[..j] + s[j..])[j..e] == s[j..e]
  {
  }

  /** The bytes from j on take in their part of the mask. */
  method TakeIn(k: array<int>, j: nat, b: seq<int>, ghost k0: seq<int>, ghost m: seq<int>, ghost want: seq<int>,
                ghost n: nat)
    requires |k0| == k.Length && j + |b| <= n == |m| <= k.Length && AllBytes(m) && AllBytes(k0[..n])
             && b == m[j..j + |b|]
    requires want == XorBytes(k0[..n], m) && k[..] == want[..j] + k0[j..]
    modifies k
    ensures k[..] == want[..j + |b|] + k0[j + |b|..]
  {
    ghost var before, e := k[..], j + |b|;
    XorSlice(k0[..n], m, j, e);
    SliceOfPrefix(k0, n, j, e);
    MiddleOf(want, k0, j, e);
    assert k[j..e] == before[j..e];
    XorInto(k, j, b);
    JoinSlices(want, k0, j, e);
  }
}
