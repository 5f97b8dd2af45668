/** Encryption and decryption in Galois/Counter Mode (`src/core/schemes/mcore/src/gcm.rs`): `add_plain` and
    `add_cipher` over an arbitrary block cipher. */
module Gcm {
  import opened Digits
  import opened Masks
  import opened Ghash

  predicate IsBytes(s: seq<int>, n: nat) {
    |s| == n && AllBytes(s)
  }

  /** A block cipher under one key: blocks of 16 bytes to blocks of 16 bytes. */
  ghost predicate IsCipher(encrypt: seq<int> -> seq<int>) {
    forall b :: IsBytes(encrypt(b), 16)
  }

  /** 2^64, at which the length in bytes wraps around. */
  const LENGTHS: int := 0x1_0000_0000_0000_0000

  /** Two words that hold a number of bytes. */
  ghost predicate Counts(hi: int, lo: int, n: nat) {
    IsWord(hi) && IsWord(lo) && hi * 0x1_0000_0000 + lo == n % LENGTHS
  }

  // ----- the counter

  function Counter(f: seq<int>): int
    requires IsBytes(f, 16)
  {
    Pack(f[12..16])
  }

  /** A 32-bit increment. */
  function NextWord(c: int): int {
    if c + 1 == WORD then 0 else c + 1
  }

  /** The counter block after one increment of its last four bytes, which wraps around. */
  function Incremented(f: seq<int>): (g: seq<int>)
    requires IsBytes(f, 16)
    ensures IsBytes(g, 16) && Counter(g) == NextWord(Counter(f)) && g[..12] == f[..12]
  {
    var c := NextWord(Counter(f));
    var g := f[..12] + Unpack(c);
    assert g[12..16] == Unpack(c);
    g
  }

  function First(data: seq<int>): (n: nat)
    ensures n <= |data| && n <= 16 && (data != [] ==> n >= 1)
  {
    if |data| < 16 then |data| else 16
  }

  /** Data combined with the key stream that follows counter block f. */
  function Crypt(encrypt: seq<int> -> seq<int>, f: seq<int>, data: seq<int>): (r: seq<int>)
    requires IsBytes(f, 16)
    decreases |data|
  {
    if data == [] then []
    else
      var g, n := Incremented(f), First(data);
      var key := encrypt(g);
      if !AllBytes(data) || !IsBytes(key, 16) then []
      else XorBytes(data[..n], key[..n]) + Crypt(encrypt, g, data[n..])
  }

  lemma {:induction false} CryptBytes(encrypt: seq<int> -> seq<int>, f: seq<int>, data: seq<int>)
    requires IsCipher(encrypt) && IsBytes(f, 16) && AllBytes(data)
    ensures |Crypt(encrypt, f, data)| == |data| && AllBytes(Crypt(encrypt, f, data))
    decreases |data|
  {
    if data != [] {
      var g, n := Incremented(f), First(data);
      CryptBytes(encrypt, g, data[n..]);
      XorTwice(data[..n], encrypt(g)[..n]);
    }
  }

  /** Combining twice with the same key stream changes nothing. */
  lemma {:induction false} CryptTwice(encrypt: seq<int> -> seq<int>, f: seq<int>, data: seq<int>)
    requires IsCipher(encrypt) && IsBytes(f, 16) && AllBytes(data)
    ensures |Crypt(encrypt, f, data)| == |data| && Crypt(encrypt, f, Crypt(encrypt, f, data)) == data
    decreases |data|
  {
    CryptBytes(encrypt, f, data);
    if data != [] {
      var g, n := Incremented(f), First(data);
      var key, c := encrypt(g)[..n], Crypt(encrypt, f, data);
      CryptTwice(encrypt, g, data[n..]);
      CryptBytes(encrypt, g, data[n..]);
      XorTwice(data[..n], key);
      assert c[..n] == XorBytes(data[..n], key) && c[n..] == Crypt(encrypt, g, data[n..]);
      assert First(c) == n;
    }
  }

  /** The GHASH state after data: block by block, exclusive or and a product with the key block. */
  function Absorbed(h: seq<int>, x: seq<int>, data: seq<int>): (y: seq<int>)
    requires IsBytes(h, 16) && IsBytes(x, 16) && AllBytes(data)
    ensures IsBytes(y, 16)
    decreases |data|
  {
    if data == [] then x
    else
      var n := First(data);
      Absorbed(h, Product(h, Taken(x, data[..n])), data[n..])
  }

  /** A state with some bytes taken in at its start. */
  function Taken(x: seq<int>, d: seq<int>): (y: seq<int>)
    requires IsBytes(x, 16) && AllBytes(d) && |d| <= 16
    ensures |y| == 16
  {
    XorBytes(x[..|d|], d) + x[|d|..]
  }

  function CounterAfter(f: seq<int>, n: nat): (g: seq<int>)
    requires IsBytes(f, 16)
    decreases n
  {
    if n == 0 then f else CounterAfter(Incremented(f), if n < 16 then 0 else n - 16)
  }

  // ----- one block

  /** The bytes of one block, combined with the key and taken into the state; the lengths count them. */
  method CryptBlock(x0: seq<int>, key: seq<int>, d: seq<int>, encrypting: bool) returns (x: seq<int>, out: seq<int>)
    requires IsBytes(x0, 16) && IsBytes(key, 16) && AllBytes(d) && |d| <= 16
    ensures out == XorBytes(d, key[..|d|]) && AllBytes(out)
    ensures x == Taken(x0, if encrypting then out else d)
  {
    x, out := x0, [];
    XorTwice(d, key[..|d|]);
    ghost var want := XorBytes(d, key[..|d|]);
    ghost var c := if encrypting then want else d;
    for i := 0 to |d|
      invariant |x| == 16 && |out| == i && (forall j :: 0 <= j < i ==> out[j] == want[j])
      invariant forall j :: 0 <= j < i ==> x[j] == Xor(x0[j], c[j])
      invariant forall j :: i <= j < 16 ==> x[j] == x0[j]
    {
      assert IsByte(d[i]) && IsByte(key[i]) && IsByte(x0[i]) && IsByte(want[i]);
      var o := Xor(d[i], key[i]);
      out := out + [o];
      x := x[i := Xor(x[i], if encrypting then o else d[i])];
    }
  }

  lemma OneMore(hi: int, lo: int, n: nat)
    requires Counts(hi, lo, n)
    ensures Counts(if lo + 1 == WORD then NextWord(hi) else hi, NextWord(lo), n + 1)
  {
  }

  /** The two words of the length, counted up byte by byte, each with wrap-around. */
  method CountBytes(hi0: int, lo0: int, n: nat, ghost total: nat) returns (hi: int, lo: int)
    requires Counts(hi0, lo0, total)
    ensures Counts(hi, lo, total + n)
  {
    hi, lo := hi0, lo0;
    for i := 0 to n
      invariant Counts(hi, lo, total + i)
    {
      OneMore(hi, lo, total + i);
      lo := NextWord(lo);
      if lo == 0 {
        hi := NextWord(hi);
      }
    }
  }

  lemma TakenBytes(x: seq<int>, d: seq<int>)
    requires IsBytes(x, 16) && AllBytes(d) && |d| <= 16
    ensures IsBytes(Taken(x, d), 16)
  {
    XorTwice(x[..|d|], d);
  }

  /** The first block of the combined data, and the blocks after it. */
  lemma CryptNext(encrypt: seq<int> -> seq<int>, f: seq<int>, data: seq<int>, n: nat)
    requires IsCipher(encrypt) && IsBytes(f, 16) && AllBytes(data) && data != [] && n == First(data)
    ensures IsBytes(encrypt(Incremented(f)), 16)
    ensures var block := XorBytes(data[..n], encrypt(Incremented(f))[..n]);
            var rest := Crypt(encrypt, Incremented(f), data[n..]);
            Crypt(encrypt, f, data) == block + rest && AllBytes(block) && AllBytes(rest) && First(block + rest) == n
            && (block + rest)[..n] == block && (block + rest)[n..] == rest
  {
    CryptBytes(encrypt, f, data);
    CryptBytes(encrypt, Incremented(f), data[n..]);
    XorTwice(data[..n], encrypt(Incremented(f))[..n]);
  }

  lemma JoinOut(a: seq<int>, b: seq<int>, c: seq<int>)
    ensures a + (b + c) == (a + b) + c
  {
  }

  /** The cipher text that belongs to data, in either direction. */
  function CipherOf(encrypt: seq<int> -> seq<int>, f: seq<int>, data: seq<int>, encrypting: bool): seq<int>
    requires IsBytes(f, 16)
  {
    if encrypting then Crypt(encrypt, f, data) else data
  }

  // ----- the object

  const ACCEPTING_HEADER := 0
  const ACCEPTING_CIPHER := 1
  const NOT_ACCEPTING_MORE := 2

  class Gcm {
    const h: seq<int>
    const table: seq<seq<int>>
    const encrypt: seq<int> -> seq<int>
    var statex: seq<int>
    var f: seq<int>
    var lenc0: int
    var lenc1: int
    var status: int
    /** The number of bytes processed, which the two words count modulo 2^64. */
    ghost var processed: nat

    /** A state after the header: the key block is h and the counter block f. */
    constructor (h: seq<int>, encrypt: seq<int> -> seq<int>, statex: seq<int>, f: seq<int>)
      requires IsCipher(encrypt) && IsBytes(h, 16) && IsBytes(statex, 16) && IsBytes(f, 16)
      ensures Valid() && this.h == h && this.encrypt == encrypt && this.statex == statex && this.f == f
      ensures processed == 0 && status == ACCEPTING_HEADER
    {
      var t := Precompute(h);
      this.h, this.encrypt, this.table := h, encrypt, t;
      this.statex, this.f := statex, f;
      lenc0, lenc1, status, processed := 0, 0, ACCEPTING_HEADER, 0;
    }

    ghost predicate Valid()
      reads this
    {
      && IsCipher(encrypt) && TableOf(h, table) && IsBytes(h, 16) && IsBytes(statex, 16) && IsBytes(f, 16)
      && Counts(lenc0, lenc1, processed)
    }

    method CountIn(n: nat)
      requires Counts(lenc0, lenc1, processed)
      modifies this`lenc0, this`lenc1, this`processed
      ensures Counts(lenc0, lenc1, processed) && processed == old(processed) + n
    {
      lenc0, lenc1 := CountBytes(lenc0, lenc1, n, processed);
      processed := processed + n;
    }

    /** One block of `add_plain` or `add_cipher`. */
    method ProcessBlock(d: seq<int>, encrypting: bool) returns (out: seq<int>)
      requires Valid() && AllBytes(d) && 1 <= |d| <= 16
      modifies this
      ensures Valid() && f == Incremented(old(f)) && status == old(status) && processed == old(processed) + |d|
      ensures IsBytes(encrypt(f), 16) && out == XorBytes(d, encrypt(f)[..|d|]) && AllBytes(out)
      ensures statex == Product(h, Taken(old(statex), if encrypting then out else d))
    {
      f := Incremented(f);
      var cb := encrypt(f);
      assert IsBytes(cb, 16);
      var x;
      x, out := CryptBlock(statex, cb, d, encrypting);
      CountIn(|d|);
      TakenBytes(statex, if encrypting then out else d);
      statex := Gf2Mul(table, x, h);
    }

    /** The next block of the data that is left, of which `c` is the cipher text. */
    method ProcessNext(rest: seq<int>, encrypting: bool, ghost c: seq<int>) returns (out: seq<int>, n: nat)
      requires Valid() && AllBytes(rest) && rest != []
      requires c == CipherOf(encrypt, f, rest, encrypting) && AllBytes(c) && |c| == |rest|
      modifies this
      ensures 1 <= n <= |rest| && AllBytes(rest[n..]) && Valid() && status == old(status)
              && processed == old(processed) + n
      ensures CounterAfter(f, |rest| - n) == CounterAfter(old(f), |rest|)
      ensures out + Crypt(encrypt, f, rest[n..]) == Crypt(encrypt, old(f), rest)
      ensures AllBytes(c[n..]) && c[n..] == CipherOf(encrypt, f, rest[n..], encrypting)
      ensures Absorbed(h, statex, c[n..]) == Absorbed(h, old(statex), c)
    {
      n := First(rest);
      CryptNext(encrypt, f, rest, n);
      out := ProcessBlock(rest[..n], encrypting);
      assert c[..n] == if encrypting then out else rest[..n];
    }

    /** The loop of `add_plain` and `add_cipher`, which differ in what the state takes in. */
    method Process(data: seq<int>, encrypting: bool) returns (out: seq<int>)
      requires Valid() && AllBytes(data)
      modifies this
      ensures Valid() && status == old(status) && processed == old(processed) + |data|
              && f == CounterAfter(old(f), |data|)
      ensures out == Crypt(encrypt, old(f), data) && AllBytes(out)
      ensures statex == Absorbed(h, old(statex), if encrypting then out else data)
    {
      out := [];
      CryptBytes(encrypt, f, data);
      ghost var total, c := Crypt(encrypt, f, data), CipherOf(encrypt, f, data, encrypting);
      ghost var endState, endCounter := Absorbed(h, statex, c), CounterAfter(f, |data|);
      var rest := data;
      while rest != []
        invariant |rest| <= |data| && Valid() && status == old(status) && AllBytes(rest)
        invariant processed == old(processed) + |data| - |rest| && CounterAfter(f, |rest|) == endCounter
        invariant out + Crypt(encrypt, f, rest) == total
        invariant AllBytes(c) && |c| == |rest| && c == CipherOf(encrypt, f, rest, encrypting)
        invariant Absorbed(h, statex, c) == endState
        decreases |rest|
      {
        var block, n := ProcessNext(rest, encrypting, c);
        JoinOut(out, block, Crypt(encrypt, f, rest[n..]));
        c := c[n..];
        rest := rest[n..];
        out := out + block;
      }
    }

    /** Both directions refuse data after an incomplete block. */
    method Add(data: seq<int>, encrypting: bool) returns (ok: bool, out: seq<int>)
      requires Valid() && AllBytes(data)
      modifies this
      ensures Valid() && (ok <==> old(status) == ACCEPTING_HEADER || old(status) == ACCEPTING_CIPHER)
      ensures ok ==> out == Crypt(encrypt, old(f), data) && AllBytes(out)
      ensures ok ==> statex == Absorbed(h, old(statex), if encrypting then out else data)
      ensures ok ==> f == CounterAfter(old(f), |data|) && processed == old(processed) + |data|
      ensures ok ==> status == if |data| % 16 != 0 then NOT_ACCEPTING_MORE else ACCEPTING_CIPHER
      ensures !ok ==> out == [] && statex == old(statex) && f == old(f)
      ensures !ok ==> processed == old(processed) && status == old(status)
    {
      if status == ACCEPTING_HEADER {
        status := ACCEPTING_CIPHER;
      }
      if status != ACCEPTING_CIPHER {
        return false, [];
      }
      out := Process(data, encrypting);
      if |data| % 16 != 0 {
        status := NOT_ACCEPTING_MORE;
      }
      ok := true;
    }

    /** `add_plain`: the cipher text goes into the state. */
    method AddPlain(plain: seq<int>) returns (ok: bool, cipher: seq<int>)
      requires Valid() && AllBytes(plain)
      modifies this
      ensures Valid() && (ok <==> old(status) == ACCEPTING_HEADER || old(status) == ACCEPTING_CIPHER)
      ensures ok ==> cipher == Crypt(encrypt, old(f), plain) && AllBytes(cipher)
      ensures ok ==> statex == Absorbed(h, old(statex), cipher)
      ensures ok ==> f == CounterAfter(old(f), |plain|) && processed == old(processed) + |plain|
      ensures ok ==> status == if |plain| % 16 != 0 then NOT_ACCEPTING_MORE else ACCEPTING_CIPHER
      ensures !ok ==> statex == old(statex) && f == old(f) && processed == old(processed) && status == old(status)
    {
      ok, cipher := Add(plain, true);
    }

    /** `add_cipher`: so does it here. */
    method AddCipher(cipher: seq<int>) returns (ok: bool, plain: seq<int>)
      requires Valid() && AllBytes(cipher)
      modifies this
      ensures Valid() && (ok <==> old(status) == ACCEPTING_HEADER || old(status) == ACCEPTING_CIPHER)
      ensures ok ==> plain == Crypt(encrypt, old(f), cipher) && statex == Absorbed(h, old(statex), cipher)
      ensures ok ==> f == CounterAfter(old(f), |cipher|) && processed == old(processed) + |cipher|
      ensures ok ==> status == if |cipher| % 16 != 0 then NOT_ACCEPTING_MORE else ACCEPTING_CIPHER
      ensures !ok ==> statex == old(statex) && f == old(f) && processed == old(processed) && status == old(status)
    {
      ok, plain := Add(cipher, false);
    }
  }

  /** `add_plain` on one side and `add_cipher` on the other, from equal states: the plain text comes
      back, and both sides end in the same state. */
  method SendAndReceive(a: Gcm, b: Gcm, plain: seq<int>) returns (ok: bool, received: seq<int>)
    requires a != b && a.Valid() && b.Valid() && a.h == b.h && a.encrypt == b.encrypt
    requires a.statex == b.statex && a.f == b.f && a.processed == b.processed && a.status == b.status
    requires AllBytes(plain)
    modifies a, b
    ensures (ok <==> old(a.status) == ACCEPTING_HEADER || old(a.status) == ACCEPTING_CIPHER)
            && (ok ==> received == plain)
    ensures a.statex == b.statex && a.f == b.f && a.processed == b.processed && a.status == b.status
  {
    CryptTwice(a.encrypt, a.f, plain);
    var cipher, ok2;
    ok, cipher := a.AddPlain(plain);
    if ok {
      ok2, received := b.AddCipher(cipher);
    } else {
      received := [];
    }
  }
}
