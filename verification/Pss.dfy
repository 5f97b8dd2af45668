/** Signature padding `pss_encode` and `pss_verify` of `src/core/schemes/mcore/src/hmac.rs` (sections
    9.1.1 and 9.1.2 of RFC 8017), with one bit of the first byte unused. */
module Pss {
  import opened Vectors
  import opened Digits
  import opened Masks
  import opened Options
  import Oaep

  /** Room for the salt, the hash, the marker and the trailer. */
  predicate Fits(h: Hash, n: nat) {
    2 * h.hlen + 2 <= n
  }

  /** The hash of eight zeros, the message hash and the salt. */
  function SaltedHash(h: Hash, m: seq<int>, salt: seq<int>): seq<int> {
    h.plain(Zeros(8) + h.plain(m) + salt)
  }

  /** The data block before masking: zeros, the marker and the salt. */
  function Block(h: Hash, salt: seq<int>, n: nat): (db: seq<int>)
    requires Fits(h, n) && |salt| == h.hlen
    ensures |db| == n - h.hlen - 1
  {
    Zeros(n - 2 * h.hlen - 2) + [1] + salt
  }

  /** A byte string without the top bit of its first byte. */
  function TopCleared(x: seq<int>): (y: seq<int>)
    requires |x| >= 1
    ensures |y| == |x|
  {
    [x[0] % 128] + x[1..]
  }

  ghost predicate Inputs(h: Hash, m: seq<int>, salt: seq<int>, n: nat) {
    h.Valid() && Fits(h, n) && |salt| == h.hlen && AllBytes(salt)
  }

  lemma BlockBytes(h: Hash, salt: seq<int>, n: nat)
    requires Fits(h, n) && |salt| == h.hlen && AllBytes(salt)
    ensures AllBytes(Block(h, salt, n))
  {
  }

  function Encoded(h: Hash, m: seq<int>, salt: seq<int>, n: nat): (em: seq<int>)
    requires Inputs(h, m, salt, n)
    ensures |em| == n
  {
    BlockBytes(h, salt, n);
    var hash := SaltedHash(h, m, salt);
    assert h.Plain(Zeros(8) + h.plain(m) + salt);
    TopCleared(Oaep.Masked(h, Block(h, salt, n), hash)) + hash + [0xbc]
  }

  /** The data block in an encoded message, unmasked. */
  function BlockIn(h: Hash, em: seq<int>): (db: seq<int>)
    requires h.Valid() && Fits(h, |em|) && AllBytes(em)
    ensures |db| == |em| - h.hlen - 1
  {
    var n := |em|;
    TopCleared(Oaep.Masked(h, em[..n - h.hlen - 1], em[n - h.hlen - 1..n - 1]))
  }

  function SaltIn(h: Hash, em: seq<int>): (salt: seq<int>)
    requires h.Valid() && Fits(h, |em|) && AllBytes(em)
    ensures |salt| == h.hlen
  {
    BlockIn(h, em)[|em| - 2 * h.hlen - 1..]
  }

  /** What `pss_verify` accepts. */
  predicate Accepted(h: Hash, m: seq<int>, em: seq<int>)
    requires h.Valid() && Fits(h, |em|) && AllBytes(em)
  {
    var n, db := |em|, BlockIn(h, em);
    && em[n - 1] == 0xbc && em[0] < 128
    && (forall i :: 0 <= i < n - 2 * h.hlen - 2 ==> db[i] == 0) && db[n - 2 * h.hlen - 2] == 1
    && em[n - h.hlen - 1..n - 1] == SaltedHash(h, m, SaltIn(h, em))
  }

  /** The string that is hashed: eight zeros, the hash of the message, and the salt. */
  ghost predicate Hashed(h: Hash, m: seq<int>, salt: seq<int>, s: seq<int>) {
    && |s| == 8 + |h.plain(m)| + |salt| && (forall i :: 0 <= i < 8 ==> s[i] == 0)
    && s[8..8 + |h.plain(m)|] == h.plain(m) && s[8 + |h.plain(m)|..] == salt
  }

  lemma HashOfHashed(h: Hash, m: seq<int>, salt: seq<int>, s: seq<int>)
    requires Hashed(h, m, salt, s)
    ensures SaltedHash(h, m, salt) == h.plain(s)
  {
    assert s == s[..8] + s[8..8 + |h.plain(m)|] + s[8 + |h.plain(m)|..];
    assert s[..8] == Zeros(8);
  }

  /** The encoding byte by byte, in terms of the hashes: under the mask of the salted hash zeros, the marker and the
      salt, without the top bit of the first byte. */
  lemma EncodedBlockAt(h: Hash, m: seq<int>, salt: seq<int>, n: nat, s: seq<int>, i: nat, x: int)
    requires Inputs(h, m, salt, n) && Hashed(h, m, salt, s) && i < n - h.hlen - 1
    requires x == if i < n - 2 * h.hlen - 2 then 0 else if i == n - 2 * h.hlen - 2 then 1
                  else salt[i - (n - 2 * h.hlen - 1)]
    ensures 0 <= i / h.hlen && h.Counted(h.plain(s), i / h.hlen) && IsByte(x)
    ensures var byte := Xor(x, h.counted(h.plain(s), i / h.hlen)[i % h.hlen]);
            Encoded(h, m, salt, n)[i] == if i == 0 then byte % 128 else byte
  {
    BlockBytes(h, salt, n);
    HashOfHashed(h, m, salt, s);
    assert Block(h, salt, n)[i] == x;
    Oaep.MaskedAt(h, Block(h, salt, n), h.plain(s), i);
  }

  /** Then the hash and the trailer. */
  lemma EncodedEnd(h: Hash, m: seq<int>, salt: seq<int>, n: nat, s: seq<int>)
    requires Inputs(h, m, salt, n) && Hashed(h, m, salt, s)
    ensures Encoded(h, m, salt, n)[n - h.hlen - 1..] == h.plain(s) + [0xbc]
  {
    HashOfHashed(h, m, salt, s);
    assert h.Plain(s);
  }

  // ----- masking with the top bit cleared

  lemma ClearedByte(a: int, b: int)
    requires IsByte(a) && IsByte(b)
    ensures Xor(Xor(a, b) % 128, b) % 128 == a % 128
  {
    var n: nat :| n == 7;
    SevenBits(n);
    XorByte(a, b);
    XorLow(Xor(a, b), b, n);
  }

  lemma SevenBits(n: nat)
    requires n == 7
    ensures Pow2(n) == 128
  {
    EightBits(n + 1);
  }

  /** Unmasking the cleared mask gives back the string, but for the top bit. */
  lemma ClearedTwice(h: Hash, x: seq<int>, seed: seq<int>)
    requires h.Valid() && AllBytes(x) && |x| >= 1
    ensures AllBytes(TopCleared(Oaep.Masked(h, x, seed)))
    ensures TopCleared(Oaep.Masked(h, TopCleared(Oaep.Masked(h, x, seed)), seed)) == TopCleared(x)
  {
    MaskBytes(h, seed, 0, |x|);
    var k := Mask(h, seed, 0, |x|);
    var y := Oaep.Masked(h, x, seed);
    var z := TopCleared(y);
    assert AllBytes(z) by {
      forall i | 0 <= i < |z| ensures IsByte(z[i]) {
        assert IsByte(y[i]);
      }
    }
    Oaep.MaskedTwice(h, x, seed);
    var back, full := Oaep.Masked(h, z, seed), Oaep.Masked(h, y, seed);
    assert forall i :: 1 <= i < |x| ==> back[i] == full[i];
    ClearedByte(x[0], k[0]);
  }

  lemma EncodedBytes(h: Hash, m: seq<int>, salt: seq<int>, n: nat)
    requires Inputs(h, m, salt, n)
    ensures AllBytes(Encoded(h, m, salt, n))
  {
    BlockBytes(h, salt, n);
    var hash := SaltedHash(h, m, salt);
    assert h.Plain(Zeros(8) + h.plain(m) + salt);
    ClearedTwice(h, Block(h, salt, n), hash);
  }

  /** The parts of an encoded message. */
  lemma Parts(h: Hash, m: seq<int>, salt: seq<int>, n: nat)
    requires Inputs(h, m, salt, n)
    ensures AllBytes(Encoded(h, m, salt, n)) && AllBytes(Block(h, salt, n))
    ensures Encoded(h, m, salt, n)[n - h.hlen - 1..n - 1] == SaltedHash(h, m, salt)
    ensures Encoded(h, m, salt, n)[..n - h.hlen - 1]
            == TopCleared(Oaep.Masked(h, Block(h, salt, n), SaltedHash(h, m, salt)))
    ensures Encoded(h, m, salt, n)[n - 1] == 0xbc && Encoded(h, m, salt, n)[0] < 128
  {
    EncodedBytes(h, m, salt, n);
    BlockBytes(h, salt, n);
    assert h.Plain(Zeros(8) + h.plain(m) + salt);
  }

  /** Every encoded message is accepted. */
  lemma EncodedAccepted(h: Hash, m: seq<int>, salt: seq<int>, n: nat)
    requires Inputs(h, m, salt, n)
    ensures AllBytes(Encoded(h, m, salt, n)) && Accepted(h, m, Encoded(h, m, salt, n))
    ensures SaltIn(h, Encoded(h, m, salt, n)) == salt
  {
    var em, block := Encoded(h, m, salt, n), Block(h, salt, n);
    Parts(h, m, salt, n);
    ClearedTwice(h, block, SaltedHash(h, m, salt));
    assert TopCleared(block) == block;
    assert BlockIn(h, em) == block;
    assert block[n - 2 * h.hlen - 1..] == salt;
  }

  lemma SaltBytes(h: Hash, em: seq<int>)
    requires h.Valid() && Fits(h, |em|) && AllBytes(em)
    ensures AllBytes(BlockIn(h, em)) && AllBytes(SaltIn(h, em))
  {
    var n := |em|;
    ClearedTwice(h, em[..n - h.hlen - 1], em[n - h.hlen - 1..n - 1]);
    var db, salt := BlockIn(h, em), SaltIn(h, em);
    forall i | 0 <= i < |salt| ensures IsByte(salt[i]) {
      assert salt[i] == db[n - 2 * h.hlen - 1 + i];
    }
  }

  /** Only encoded messages are accepted: the accepted string is the encoding with the salt in it. */
  lemma AcceptedEncoded(h: Hash, m: seq<int>, em: seq<int>)
    requires h.Valid() && Fits(h, |em|) && AllBytes(em) && Accepted(h, m, em)
    ensures Inputs(h, m, SaltIn(h, em), |em|) && em == Encoded(h, m, SaltIn(h, em), |em|)
  {
    var n := |em|;
    var x, hash := em[..n - h.hlen - 1], em[n - h.hlen - 1..n - 1];
    SaltBytes(h, em);
    AcceptedBlock(h, m, em);
    ClearedTwice(h, x, hash);
    assert TopCleared(x) == x;
    assert em == x + hash + [0xbc];
  }

  /** A string that is accepted for two messages gives two equal hashes of strings that carry the two message
      hashes. */
  lemma AcceptedForBoth(h: Hash, m: seq<int>, m': seq<int>, em: seq<int>, s: seq<int>, s': seq<int>)
    requires h.Valid() && Fits(h, |em|) && AllBytes(em) && Accepted(h, m, em) && Accepted(h, m', em)
    requires Hashed(h, m, SaltIn(h, em), s) && Hashed(h, m', SaltIn(h, em), s')
    ensures h.plain(s) == h.plain(s') && (h.plain(m) != h.plain(m') ==> s != s')
  {
    assert h.Plain(m) && h.Plain(m');
    HashOfHashed(h, m, SaltIn(h, em), s);
    HashOfHashed(h, m', SaltIn(h, em), s');
  }

  lemma AcceptedBlock(h: Hash, m: seq<int>, em: seq<int>)
    requires h.Valid() && Fits(h, |em|) && AllBytes(em) && Accepted(h, m, em)
    ensures BlockIn(h, em) == Block(h, SaltIn(h, em), |em|)
  {
  }

  // ----- the procedures

  /** `pss_encode`: refuses lengths that are too short; the buffer may be longer than the encoding.  It stops
      at an index past the buffer exactly when the encoding does not fit. */
  method PssEncode(h: Hash, m: seq<int>, salt: seq<int>, f: array<int>, rfs: nat) returns (r: Call<bool>)
    requires h.Valid() && |salt| == h.hlen && AllBytes(salt)
    modifies f
    ensures r.Panics? <==> Fits(h, rfs) && f.Length < rfs
    ensures r == Returns(true) <==> Fits(h, rfs) && rfs <= f.Length
    ensures r == Returns(true) ==> f[..] == Encoded(h, m, salt, rfs) + old(f[rfs..])
    ensures r == Returns(false) ==> f[..] == old(f[..])
  {
    var hlen := h.hlen;
    if rfs < hlen + hlen + 2 {
      return Returns(false);
    }
    if f.Length < rfs {
      return Panics;
    }
    assert h.Plain(m) && h.Plain(Zeros(8) + h.plain(m) + salt);
    var hash := h.plain(Zeros(8) + h.plain(m) + salt);
    BlockBytes(h, salt, rfs);
    LayOut(h, salt, f, rfs);
    Seal(h, hash, f, rfs, Block(h, salt, rfs));
    r := Returns(true);
  }

  method LayOut(h: Hash, salt: seq<int>, f: array<int>, rfs: nat)
    requires Fits(h, rfs) && rfs <= f.Length && |salt| == h.hlen
    modifies f
    ensures f[..rfs - h.hlen - 1] == Block(h, salt, rfs) && f[rfs..] == old(f[rfs..])
  {
    var zeros := rfs - h.hlen - h.hlen - 2;
    ghost var rest := f[rfs..];
    Write(f, 0, Zeros(zeros));
    assert f[..zeros] == Zeros(zeros) && f[rfs..] == rest;
    Write(f, zeros, [1]);
    assert f[..zeros + 1] == Zeros(zeros) + [1] && f[rfs..] == rest;
    Write(f, zeros + 1, salt);
  }

  /** The block at the start of the buffer is masked, and the hash and the trailer follow it. */
  method Seal(h: Hash, hash: seq<int>, f: array<int>, rfs: nat, ghost block: seq<int>)
    requires h.Valid() && |hash| == h.hlen && rfs == |block| + h.hlen + 1 <= f.Length && |block| >= 1
    requires AllBytes(block) && f[..|block|] == block
    modifies f
    ensures f[..] == TopCleared(Oaep.Masked(h, block, hash)) + hash + [0xbc] + old(f[rfs..])
  {
    var n := rfs - h.hlen - 1;
    MaskAndClear(h, hash, f, n, block);
    ghost var before := f[..];
    assert before[rfs..] == before[n..][h.hlen + 1..] && before[n..] == old(f[n..]);
    assert old(f[n..])[h.hlen + 1..] == old(f[rfs..]);
    Write(f, n, hash + [0xbc]);
    WrittenTail(before, n, hash);
  }

  lemma WrittenTail(s: seq<int>, n: nat, hash: seq<int>)
    requires n + |hash| + 1 <= |s|
    ensures Written(s, n, hash + [0xbc]) == s[..n] + hash + [0xbc] + s[n + |hash| + 1..]
  {
  }

  /** `pss_verify`.  It stops at an index past its buffer of 512 bytes exactly for longer blocks that pass the
      two tests before it. */
  method PssVerify(h: Hash, m: seq<int>, f: seq<int>) returns (r: Call<bool>)
    requires h.Valid() && AllBytes(f)
    ensures r.Panics? <==> Fits(h, |f|) && f[|f| - 1] == 0xbc && f[0] < 128 && |f| - h.hlen - 1 > 512
    ensures r.Returns? ==> (r.value <==> Fits(h, |f|) && Accepted(h, m, f))
  {
    var n, hlen := |f|, h.hlen;
    if n < hlen + hlen + 2 {
      return Returns(false);
    }
    if f[n - 1] != 0xbc || f[0] - f[0] % 128 != 0 {
      return Returns(false);
    }
    if n - hlen - 1 > 512 {
      return Panics;
    }
    var db := UnmaskBlock(h, f[..n - hlen - 1], f[n - hlen - 1..n - 1]);
    ghost var block := BlockIn(h, f);
    var k := 0;
    for i := 0 to n - hlen - hlen - 2
      invariant k >= 0 && (k == 0 <==> forall j :: 0 <= j < i ==> db[j] == 0)
    {
      OrZero(k, db[i]);
      k := BitOr(k, db[i]);
    }
    if k != 0 || db[n - hlen - hlen - 2] != 1 {
      return Returns(false);
    }
    var salt := db[n - hlen - hlen - 1..];
    var hmask := h.plain(Zeros(8) + h.plain(m) + salt);
    r := Returns(f[n - hlen - 1..n - 1] == hmask);
  }

  lemma OrZero(a: nat, b: nat)
    ensures BitOr(a, b) == 0 <==> a == 0 && b == 0
  {
    BitOrLength(a, b);
  }

  method UnmaskBlock(h: Hash, x: seq<int>, hash: seq<int>) returns (db: seq<int>)
    requires h.Valid() && AllBytes(x) && 1 <= |x| <= 512
    ensures db == TopCleared(Oaep.Masked(h, x, hash)) && AllBytes(db)
  {
    var d := new int[512](_ => 0);
    Write(d, 0, x);
    MaskAndClear(h, hash, d, |x|, x);
    db := d[..|x|];
    ClearedTwice(h, x, hash);
  }

  /** The first n bytes are masked, and the top bit of the first is cleared. */
  method MaskAndClear(h: Hash, hash: seq<int>, d: array<int>, n: nat, ghost x: seq<int>)
    requires h.Valid() && 1 <= n == |x| <= d.Length && d[..n] == x && AllBytes(x)
    modifies d
    ensures d[..n] == TopCleared(Oaep.Masked(h, x, hash)) && d[n..] == old(d[n..])
  {
    Mgf1Xor(h, hash, n, d);
    ghost var masked := Oaep.Masked(h, x, hash);
    assert d[..n] == masked && d[n..] == old(d[n..]);
    d[0] := d[0] % 128;
    assert d[1..n] == masked[1..];
  }
}
