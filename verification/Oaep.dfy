/** Encryption padding `oaep_encode` and `oaep_decode` of `src/core/schemes/mcore/src/hmac.rs` (sections
    7.1.1 and 7.1.2 of RFC 8017).  Labels and seeds are byte strings; no label is the empty one. */
module Oaep {
  import opened Vectors
  import opened Options
  import opened Digits
  import opened Masks

  // ----- the format

  /** Room for two hashes, the marker and the leading zero. */
  predicate Sizes(h: Hash, rfs: nat) {
    2 * h.hlen + 2 <= rfs
  }

  /** The encoded message fits the caller's buffer, and its data block the buffer of 512 bytes in the code. */
  predicate Holds(h: Hash, rfs: nat, size: nat) {
    rfs <= size && rfs - 1 - h.hlen <= 512
  }

  function Capacity(h: Hash, rfs: nat): nat
    requires Sizes(h, rfs)
  {
    rfs - 2 - 2 * h.hlen
  }

  /** Label hash, zeros, the marker and the message. */
  function DataBlock(h: Hash, p: seq<int>, m: seq<int>, rfs: nat): (db: seq<int>)
    requires Sizes(h, rfs) && |m| <= Capacity(h, rfs) && |h.plain(p)| == h.hlen
    ensures |db| == rfs - 1 - h.hlen
  {
    h.plain(p) + Zeros(Capacity(h, rfs) - |m|) + [1] + m
  }

  ghost predicate Inputs(h: Hash, p: seq<int>, m: seq<int>, seed: seq<int>, rfs: nat) {
    h.Valid() && Sizes(h, rfs) && AllBytes(m) && AllBytes(seed) && |seed| == h.hlen && |m| <= Capacity(h, rfs)
  }

  lemma DataBlockBytes(h: Hash, p: seq<int>, m: seq<int>, rfs: nat)
    requires h.Valid() && Sizes(h, rfs) && AllBytes(m) && |m| <= Capacity(h, rfs)
    ensures |h.plain(p)| == h.hlen && AllBytes(h.plain(p)) && AllBytes(DataBlock(h, p, m, rfs))
  {
    assert h.Plain(p);
  }

  /** A byte string masked with the mask that a seed generates. */
  function Masked(h: Hash, x: seq<int>, seed: seq<int>): (y: seq<int>)
    requires h.Valid() && AllBytes(x)
    ensures |y| == |x| && AllBytes(y)
  {
    MaskBytes(h, seed, 0, |x|);
    XorTwice(x, Mask(h, seed, 0, |x|));
    XorBytes(x, Mask(h, seed, 0, |x|))
  }

  lemma MaskedTwice(h: Hash, x: seq<int>, seed: seq<int>)
    requires h.Valid() && AllBytes(x)
    ensures Masked(h, Masked(h, x, seed), seed) == x
  {
    MaskBytes(h, seed, 0, |x|);
    XorTwice(x, Mask(h, seed, 0, |x|));
  }

  /** The encoded message: a zero, the masked seed and the masked data block. */
  function Encoded(h: Hash, p: seq<int>, m: seq<int>, seed: seq<int>, rfs: nat): (em: seq<int>)
    requires Inputs(h, p, m, seed, rfs)
    ensures |em| == rfs && AllBytes(em)
  {
    DataBlockBytes(h, p, m, rfs);
    var db := Masked(h, DataBlock(h, p, m, rfs), seed);
    [0] + Masked(h, seed, db) + db
  }

  lemma MaskedAt(h: Hash, x: seq<int>, seed: seq<int>, i: nat)
    requires h.Valid() && AllBytes(x) && i < |x|
    ensures 0 <= i / h.hlen && h.Counted(seed, i / h.hlen) && IsByte(x[i])
    ensures Masked(h, x, seed)[i] == Xor(x[i], h.counted(seed, i / h.hlen)[i % h.hlen])
  {
    MaskAt(h, seed, 0, |x|, i);
    MaskBytes(h, seed, 0, |x|);
  }

  /** The encoding byte by byte, in terms of the hashes: a zero, and the seed under the mask of the block. */
  lemma EncodedSeedAt(h: Hash, p: seq<int>, m: seq<int>, seed: seq<int>, rfs: nat, i: nat)
    requires Inputs(h, p, m, seed, rfs) && i < h.hlen
    ensures var em, high := Encoded(h, p, m, seed, rfs), Encoded(h, p, m, seed, rfs)[1 + h.hlen..];
            em[0] == 0 && h.Counted(high, 0) && em[1 + i] == Xor(seed[i], h.counted(high, 0)[i])
  {
    DataBlockBytes(h, p, m, rfs);
    var masked := Masked(h, DataBlock(h, p, m, rfs), seed);
    assert Encoded(h, p, m, seed, rfs)[1 + h.hlen..] == masked;
    MaskedAt(h, seed, masked, i);
    FirstBlock(i, h.hlen);
  }

  /** Then, under the mask of the seed, the hash of the label, zeros, the marker and the message. */
  lemma EncodedBlockAt(h: Hash, p: seq<int>, m: seq<int>, seed: seq<int>, rfs: nat, i: nat, x: int)
    requires Inputs(h, p, m, seed, rfs) && i < rfs - 1 - h.hlen && h.Plain(p)
    requires x == if i < h.hlen then h.plain(p)[i] else if i < rfs - 2 - h.hlen - |m| then 0
                  else if i == rfs - 2 - h.hlen - |m| then 1 else m[i - (rfs - 1 - h.hlen - |m|)]
    ensures 0 <= i / h.hlen && h.Counted(seed, i / h.hlen) && IsByte(x)
    ensures Encoded(h, p, m, seed, rfs)[1 + h.hlen + i] == Xor(x, h.counted(seed, i / h.hlen)[i % h.hlen])
  {
    DataBlockBytes(h, p, m, rfs);
    var db := DataBlock(h, p, m, rfs);
    assert db[i] == x;
    MaskedAt(h, db, seed, i);
    assert Encoded(h, p, m, seed, rfs)[1 + h.hlen..] == Masked(h, db, seed);
  }

  /** The first position that is not zero, or the length. */
  function FirstNonZero(s: seq<int>): (k: nat)
    ensures k <= |s| && (forall i :: 0 <= i < k ==> s[i] == 0) && (k < |s| ==> s[k] != 0)
  {
    if s == [] || s[0] != 0 then 0 else 1 + FirstNonZero(s[1..])
  }

  function SeedOf(h: Hash, em: seq<int>): (seed: seq<int>)
    requires h.Valid() && AllBytes(em) && |em| >= 2 * h.hlen + 2
    ensures |seed| == h.hlen && AllBytes(seed)
  {
    Masked(h, em[1..1 + h.hlen], em[1 + h.hlen..])
  }

  function BlockOf(h: Hash, em: seq<int>): (db: seq<int>)
    requires h.Valid() && AllBytes(em) && |em| >= 2 * h.hlen + 2
    ensures |db| == |em| - 1 - h.hlen && AllBytes(db)
  {
    Masked(h, em[1 + h.hlen..], SeedOf(h, em))
  }

  /** The message in a data block, if the leading byte, the label and the marker are right. */
  function MessageIn(h: Hash, p: seq<int>, lead: int, db: seq<int>): Option<seq<int>>
    requires |db| > h.hlen
  {
    var rest := db[h.hlen..];
    var k := FirstNonZero(rest);
    if k == |rest| then None
    else if db[..h.hlen] != h.plain(p) || lead != 0 || rest[k] != 1 then None
    else Some(rest[k + 1..])
  }

  function Decoded(h: Hash, p: seq<int>, em: seq<int>): Option<seq<int>>
    requires h.Valid() && AllBytes(em) && |em| >= 2 * h.hlen + 2
  {
    MessageIn(h, p, em[0], BlockOf(h, em))
  }

  // ----- round trip and soundness

  lemma MessageInBlock(h: Hash, p: seq<int>, m: seq<int>, rfs: nat)
    requires h.Valid() && Sizes(h, rfs) && AllBytes(m) && |m| <= Capacity(h, rfs) && |h.plain(p)| == h.hlen
    ensures MessageIn(h, p, 0, DataBlock(h, p, m, rfs)) == Some(m)
  {
    var db := DataBlock(h, p, m, rfs);
    var rest, z := db[h.hlen..], Capacity(h, rfs) - |m|;
    assert db[..h.hlen] == h.plain(p);
    assert rest == Zeros(z) + [1] + m;
    var k := FirstNonZero(rest);
    assert rest[z] == 1;
    assert forall i :: 0 <= i < z ==> rest[i] == Zeros(z)[i];
    assert k == z;
    assert rest[z + 1..] == m;
  }

  /** Decoding an encoded message gives the message, for every message, label and seed. */
  lemma RoundTrip(h: Hash, p: seq<int>, m: seq<int>, seed: seq<int>, rfs: nat)
    requires Inputs(h, p, m, seed, rfs)
    ensures Decoded(h, p, Encoded(h, p, m, seed, rfs)) == Some(m)
  {
    DataBlockBytes(h, p, m, rfs);
    var em, block := Encoded(h, p, m, seed, rfs), DataBlock(h, p, m, rfs);
    var db := Masked(h, block, seed);
    assert em[1..1 + h.hlen] == Masked(h, seed, db) && em[1 + h.hlen..] == db;
    MaskedTwice(h, seed, db);
    MaskedTwice(h, block, seed);
    MessageInBlock(h, p, m, rfs);
  }

  /** A block that gives a message is the data block of that message. */
  lemma BlockShape(h: Hash, p: seq<int>, lead: int, db: seq<int>, m: seq<int>, rfs: nat)
    requires h.Valid() && Sizes(h, rfs) && |db| == rfs - 1 - h.hlen && AllBytes(db)
             && MessageIn(h, p, lead, db) == Some(m)
    ensures lead == 0 && AllBytes(m) && |m| <= Capacity(h, rfs) && |h.plain(p)| == h.hlen
            && db == DataBlock(h, p, m, rfs)
  {
    assert h.Plain(p);
    var rest := db[h.hlen..];
    var k := FirstNonZero(rest);
    assert rest == Zeros(k) + [1] + m;
    assert db == db[..h.hlen] + rest;
    forall i | 0 <= i < |m| ensures IsByte(m[i]) {
      assert m[i] == db[h.hlen + k + 1 + i];
    }
  }

  /** Only encoded messages decode: what is accepted is the encoding of the message it gives. */
  lemma OnlyEncodings(h: Hash, p: seq<int>, em: seq<int>, m: seq<int>)
    requires h.Valid() && AllBytes(em) && Sizes(h, |em|) && Decoded(h, p, em) == Some(m)
    ensures Inputs(h, p, m, SeedOf(h, em), |em|) && em == Encoded(h, p, m, SeedOf(h, em), |em|)
  {
    var seed, low, high := SeedOf(h, em), em[1..1 + h.hlen], em[1 + h.hlen..];
    BlockShape(h, p, em[0], BlockOf(h, em), m, |em|);
    MaskedTwice(h, high, seed);
    MaskedTwice(h, low, high);
    ThreeParts(em, h.hlen);
  }

  lemma ThreeParts(em: seq<int>, n: nat)
    requires n < |em|
    ensures em == [em[0]] + em[1..1 + n] + em[1 + n..]
  {
  }

  /** Under another label the message decodes exactly if the label has the same hash. */
  lemma OtherLabel(h: Hash, p: seq<int>, q: seq<int>, m: seq<int>, seed: seq<int>, rfs: nat)
    requires Inputs(h, p, m, seed, rfs)
    ensures Decoded(h, q, Encoded(h, p, m, seed, rfs)) == if h.plain(q) == h.plain(p) then Some(m) else None
  {
    RoundTrip(h, p, m, seed, rfs);
    var em := Encoded(h, p, m, seed, rfs);
    assert MessageIn(h, p, em[0], BlockOf(h, em)) == Some(m);
  }

  // ----- the length that is returned

  function DecodedLength(h: Hash, p: seq<int>, em: seq<int>): nat
    requires h.Valid() && AllBytes(em) && |em| >= 2 * h.hlen + 2
  {
    match Decoded(h, p, em)
    case None => 0
    case Some(m) => |m|
  }

  ghost predicate Encodes(h: Hash, p: seq<int>, em: seq<int>, m: seq<int>, seed: seq<int>) {
    Inputs(h, p, m, seed, |em|) && em == Encoded(h, p, m, seed, |em|)
  }

  /** The returned length tells exactly the encodings of the non-empty messages from all other strings: zero
      stands for an error and for the empty message. */
  lemma ZeroLengthIff(h: Hash, p: seq<int>, em: seq<int>)
    requires h.Valid() && AllBytes(em) && Sizes(h, |em|)
    ensures DecodedLength(h, p, em) == 0 <==> !exists m, seed :: m != [] && Encodes(h, p, em, m, seed)
  {
    if Decoded(h, p, em).Some? {
      var m := Decoded(h, p, em).value;
      OnlyEncodings(h, p, em, m);
      assert Encodes(h, p, em, m, SeedOf(h, em));
    }
    forall m, seed | Encodes(h, p, em, m, seed) ensures DecodedLength(h, p, em) == |m| {
      RoundTrip(h, p, m, seed, |em|);
    }
  }

  /** The encoding of the empty message, and the same with another leading byte: the first decodes and the
      second does not, and both give the length zero. */
  lemma ZeroLengthInput(h: Hash, p: seq<int>, seed: seq<int>, rfs: nat)
    requires Inputs(h, p, [], seed, rfs)
    ensures var em := Encoded(h, p, [], seed, rfs);
            && Decoded(h, p, em) == Some([]) && DecodedLength(h, p, em) == 0
            && Decoded(h, p, em[0 := 1]) == None && DecodedLength(h, p, em[0 := 1]) == 0
  {
    RoundTrip(h, p, [], seed, rfs);
  }

  // ----- the procedures

  lemma MaskedEither(h: Hash, x: seq<int>, seed: seq<int>)
    requires h.Valid() && AllBytes(x)
    ensures |Mask(h, seed, 0, |x|)| == |x| && AllBytes(Mask(h, seed, 0, |x|))
    ensures XorBytes(x, Mask(h, seed, 0, |x|)) == Masked(h, x, seed) == XorBytes(Mask(h, seed, 0, |x|), x)
  {
    MaskBytes(h, seed, 0, |x|);
    XorBytesCommutes(x, Mask(h, seed, 0, |x|));
  }

  /** A buffer that starts with the mask of a seed takes in the string to be masked. */
  method MaskInto(h: Hash, seed: seq<int>, x: seq<int>, d: array<int>)
    requires h.Valid() && AllBytes(x) && |x| <= d.Length
    modifies d
    ensures d[..] == Masked(h, x, seed) + Zeros(d.Length - |x|)
  {
    var n := |x|;
    Mgf1(h, seed, n, d);
    MaskedEither(h, x, seed);
    assert d[0..n] == Mask(h, seed, 0, n);
    XorInto(d, 0, x);
  }

  /** The data block is laid out at the start of the buffer. */
  method LayOut(h: Hash, p: seq<int>, m: seq<int>, rfs: nat, f: array<int>)
    requires h.Valid() && Sizes(h, rfs) && AllBytes(m) && |m| <= Capacity(h, rfs) && f.Length >= rfs
    modifies f
    ensures |h.plain(p)| == h.hlen && f[..rfs - 1 - h.hlen] == DataBlock(h, p, m, rfs)
  {
    assert h.Plain(p);
    var hlen, slen := h.hlen, rfs - 1 - |m| - 2 * h.hlen - 1;
    Write(f, 0, h.plain(p));
    Write(f, hlen, Zeros(slen));
    Write(f, hlen + slen, [1]);
    Write(f, hlen + slen + 1, m);
  }

  /** `oaep_encode`: refuses messages that are too long, and encodes all others.  It stops at a negative
      size when there is no room for even the empty message, and at an index past a buffer when the
      encoded message does not fit. */
  method OaepEncode(h: Hash, m: seq<int>, seed: seq<int>, p: seq<int>, f: array<int>, rfs: nat) returns (r: Call<bool>)
    requires h.Valid() && AllBytes(m) && AllBytes(seed) && |seed| == h.hlen
    modifies f
    ensures r.Panics? <==> !Sizes(h, rfs) || (|m| <= Capacity(h, rfs) && !Holds(h, rfs, f.Length))
    ensures r == Returns(true) <==> Sizes(h, rfs) && |m| <= Capacity(h, rfs) && Holds(h, rfs, f.Length)
    ensures r == Returns(true) ==> f[..] == Encoded(h, p, m, seed, rfs) + Zeros(f.Length - rfs)
    ensures r == Returns(false) ==> f[..] == old(f[..])
  {
    var olen, hlen := rfs - 1, h.hlen;
    if olen - hlen - hlen - 1 < 0 {
      return Panics;
    }
    if |m| > olen - hlen - hlen - 1 {
      return Returns(false);
    }
    if f.Length < rfs || olen - hlen > 512 {
      return Panics;
    }
    DataBlockBytes(h, p, m, rfs);
    LayOut(h, p, m, rfs, f);
    var dbmask := new int[512](_ => 0);
    MaskInto(h, seed, f[..olen - hlen], dbmask);
    Assemble(h, seed, dbmask[..olen - hlen], f);
    r := Returns(true);
  }

  /** The masked seed goes before the masked block, and a zero before both; the rest is cleared. */
  method Assemble(h: Hash, seed: seq<int>, db: seq<int>, f: array<int>)
    requires h.Valid() && AllBytes(seed) && AllBytes(db) && f.Length >= |seed| + |db| + 1
    modifies f
    ensures f[..] == [0] + Masked(h, seed, db) + db + Zeros(f.Length - |seed| - |db| - 1)
  {
    MaskInto(h, db, seed, f);
    Write(f, |seed|, db);
    ShiftUp(f, |seed| + |db| + 1);
    WrittenAndShifted(Masked(h, seed, db), f.Length - |seed|, db);
  }

  /** The first n bytes moved up by one, and a zero before them. */
  function ShiftedUp(s: seq<int>, n: nat): (t: seq<int>)
    requires 1 <= n <= |s|
    ensures |t| == |s|
  {
    [0] + s[..n - 1] + s[n..]
  }

  lemma WrittenAndShifted(x: seq<int>, k: nat, y: seq<int>)
    requires |y| < k
    ensures ShiftedUp(Written(x + Zeros(k), |x|, y), |x| + |y| + 1) == [0] + x + y + Zeros(k - |y| - 1)
  {
    var w := Written(x + Zeros(k), |x|, y);
    assert w[..|x| + |y|] == x + y;
    assert w[|x| + |y| + 1..] == Zeros(k - |y| - 1);
  }

  method ShiftUp(f: array<int>, n: nat)
    requires 1 <= n <= f.Length
    modifies f
    ensures f[..] == ShiftedUp(old(f[..]), n)
  {
    ghost var s := f[..];
    var i := n;
    while i > 1
      invariant 1 <= i <= n
      invariant forall j :: i <= j < n ==> f[j] == s[j - 1]
      invariant forall j :: 0 <= j < i || n <= j < f.Length ==> f[j] == s[j]
    {
      i := i - 1;
      f[i] := f[i - 1];
    }
    f[0] := 0;
    forall j | 0 <= j < f.Length ensures f[j] == ShiftedUp(s, n)[j] {
    }
  }

  /** The data block of an encoded message, unmasked in a buffer of its own. */
  method Unmask(h: Hash, f: array<int>, rfs: nat, ghost em: seq<int>) returns (db: seq<int>)
    requires h.Valid() && Sizes(h, rfs) && Holds(h, rfs, f.Length) && em == f[..rfs] && AllBytes(em)
    modifies f
    ensures db == BlockOf(h, em)
  {
    var hlen := h.hlen;
    var seed := new int[64](_ => 0);
    var high, low := f[1 + hlen..rfs], f[1..1 + hlen];
    assert high == em[1 + hlen..] && low == em[1..1 + hlen];
    MaskInto(h, high, low, seed);
    db := UnmaskBlock(h, high, seed[..hlen], f);
  }

  /** The mask is generated in one buffer and taken into another. */
  method UnmaskBlock(h: Hash, high: seq<int>, seed: seq<int>, f: array<int>) returns (db: seq<int>)
    requires h.Valid() && AllBytes(high) && |high| <= 512 && |high| <= f.Length
    modifies f
    ensures db == Masked(h, high, seed)
  {
    var n := |high|;
    var dbmask := new int[512](_ => 0);
    Write(dbmask, 0, high);
    Mgf1(h, seed, n, f);
    MaskedEither(h, high, seed);
    assert dbmask[0..n] == high && f[..n] == Mask(h, seed, 0, n);
    XorInto(dbmask, 0, f[..n]);
    db := dbmask[..n];
  }

  /** The search for the marker. */
  method Search(s: seq<int>) returns (k: nat)
    ensures k == FirstNonZero(s)
  {
    k := 0;
    assert s[0..] == s;
    while k < |s| && s[k] == 0
      invariant k <= |s| && FirstNonZero(s) == k + FirstNonZero(s[k..])
    {
      assert s[k..][1..] == s[k + 1..];
      k := k + 1;
    }
  }

  /** `oaep_decode`: the length of the message, which is left at the start of the buffer; zero for
      anything that is not an encoded message.  It stops exactly when an encoded message of rfs bytes does
      not fit a buffer: the branch that pads a short buffer first writes at its own index rfs - 1. */
  method OaepDecode(h: Hash, p: seq<int>, f: array<int>, rfs: nat) returns (r: Call<nat>)
    requires h.Valid() && AllBytes(f[..])
    modifies f
    ensures r.Panics? <==> rfs == 0 || (Sizes(h, rfs) && !Holds(h, rfs, f.Length))
    ensures r.Returns? && !Sizes(h, rfs) ==> r.value == 0
    ensures r.Returns? && Sizes(h, rfs) ==>
              && AllBytes(old(f[..rfs])) && r.value == DecodedLength(h, p, old(f[..rfs]))
              && (Decoded(h, p, old(f[..rfs])).Some? ==> f[..r.value] == Decoded(h, p, old(f[..rfs])).value)
  {
    if rfs == 0 {
      return Panics;
    }
    var olen, hlen := rfs - 1, h.hlen;
    if olen < hlen + hlen + 1 {
      return Returns(0);
    }
    if f.Length < rfs || olen - hlen > 512 {
      return Panics;
    }
    ghost var em := f[..rfs];
    var x, chash := f[0], h.plain(p);
    var db := Unmask(h, f, rfs, em);
    var comp := chash == db[..hlen];
    var rest := db[hlen..];
    var k := Search(rest);
    if k >= |rest| {
      return Returns(0);
    }
    if !comp || x != 0 || rest[k] != 1 {
      return Returns(0);
    }
    Write(f, 0, rest[k + 1..]);
    r := Returns(olen - hlen - hlen - k - 1);
  }
}
