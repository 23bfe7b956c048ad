/**
  The streaming hash of public/sm/sm3.cpp: a byte-fed block buffer, a bit counter in two words,
  and the padding loop. The compression function (`SM3_Transform` on the registers and the
  sixteen message words) is a parameter, so every statement holds for any compression.
 */
module Sm3 {
  import opened Common
  import opened Sm4Cipher

  type Regs = r: seq<word> | |r| == 8 witness seq(8, _ => 0)

  type Compression = (Regs, seq<word>) -> Regs

  // ---------------------------------------------------------------- what is computed

  /** The sixteen big-endian words of a block. */
  function Words(block: seq<byte>): (ws: seq<word>)
    requires |block| == 64
    ensures |ws| == 16
  {
    seq(16, i requires 0 <= i < 16 => GetBE32(block[4 * i..4 * i + 4]))
  }

  /** Compressing block after block. */
  function Fold(cf: Compression, r: Regs, data: seq<byte>): (r': Regs)
    requires |data| % 64 == 0
    decreases |data|
  {
    if data == [] then r else Fold(cf, cf(r, Words(data[..64])), data[64..])
  }

  const WORD_32: nat := 0x1_0000_0000

  /** The four bytes of a number, most significant first. */
  function NumberBytes(n: nat): (d: seq<byte>)
    requires n < WORD_32
    ensures |d| == 4
  {
    [ToByte(n / 0x100_0000), ToByte(n / 0x1_0000 % 256), ToByte(n / 0x100 % 256), ToByte(n % 256)]
  }

  function W32(n: nat): (w: word)
    requires n < WORD_32
  {
    GetBE32(NumberBytes(n))
  }

  /** Zeros after the mark bit, up to 56 modulo 64. */
  function Zeros(n: nat): (z: nat)
    ensures z < 64 && (n + 1 + z) % 64 == 56
  {
    (119 - n % 64) % 64
  }

  /** The low 64 bits of the message length in bits, as two words. */
  function LowBits(n: nat): (w: nat)
    ensures w < WORD_32
  {
    8 * n % WORD_32
  }

  function HighBits(n: nat): (w: nat)
    ensures w < WORD_32
  {
    8 * n / WORD_32 % WORD_32
  }

  function LengthBytes(n: nat): (b: seq<byte>)
    ensures |b| == 8
  {
    PutBE32(W32(HighBits(n))) + PutBE32(W32(LowBits(n)))
  }

  function ZeroBytes(n: nat): (b: seq<byte>)
    ensures |b| == n
  {
    seq(n, _ => 0)
  }

  function PadWith(m: seq<byte>, len: seq<byte>): (p: seq<byte>)
    requires |len| == 8
    ensures |p| % 64 == 0
  {
    m + [0x80] + ZeroBytes(Zeros(|m|)) + len
  }

  /** Section 5.2 of GB/T 32905-2016: a mark bit, zeros, and the length in bits as 64 bits. */
  function Pad(m: seq<byte>): (p: seq<byte>)
    ensures |p| % 64 == 0
  {
    PadWith(m, LengthBytes(|m|))
  }

  function RegBytes(r: seq<word>): (d: seq<byte>)
    ensures |d| == 4 * |r|
  {
    if r == [] then [] else PutBE32(r[0]) + RegBytes(r[1..])
  }

  /** Section 5.3: the digest is the registers after folding the padded message. */
  function Digest(cf: Compression, iv: Regs, m: seq<byte>): (d: seq<byte>)
    ensures |d| == 32
  {
    RegBytes(Fold(cf, iv, Pad(m)))
  }

  lemma {:induction false} FoldAppend(cf: Compression, r: Regs, a: seq<byte>, b: seq<byte>)
    requires |a| % 64 == 0 && |b| % 64 == 0
    ensures |a + b| % 64 == 0 && Fold(cf, r, a + b) == Fold(cf, Fold(cf, r, a), b)
    decreases |a|
  {
    hide Words;
    if a == [] {
      assert a + b == b;
    } else {
      assert (a + b)[..64] == a[..64] && (a + b)[64..] == a[64..] + b;
      FoldAppend(cf, cf(r, Words(a[..64])), a[64..], b);
    }
  }

  lemma FoldOne(cf: Compression, r: Regs, block: seq<byte>)
    requires |block| == 64
    ensures Fold(cf, r, block) == cf(r, Words(block))
  {
    hide Words;
    assert block[..64] == block && block[64..] == [];
  }

  // ---------------------------------------------------------------- bytes inside words

  /** Address `a` of a little-endian word: its big-endian bytes from the back. */
  function ByteOfWord(w: word, a: nat): (b: byte)
    requires a < 4
  {
    PutBE32(w)[3 - a]
  }

  function SetByte(w: word, a: nat, b: byte): (r: word)
    requires a < 4
  {
    GetBE32(PutBE32(w)[3 - a := b])
  }

  lemma SetGetByte(w: word, a: nat, b: byte, c: nat)
    requires a < 4 && c < 4
    ensures ByteOfWord(SetByte(w, a, b), c) == if c == a then b else ByteOfWord(w, c)
  {
    hide PutBE32, GetBE32;
    PutGet(PutBE32(w)[3 - a := b]);
  }

  /** `i ^ 0x03`: the same word, its bytes in the opposite order. */
  function XorThree(i: nat): (j: nat)
    ensures j / 4 == i / 4 && j % 4 == 3 - i % 4
  {
    i - i % 4 + (3 - i % 4)
  }

  /** The byte a byte pointer into an array of little-endian words sees. */
  function MemByte(ws: seq<word>, j: nat): (b: byte)
    requires j < 4 * |ws|
  {
    ByteOfWord(ws[j / 4], j % 4)
  }

  /** Bytes stored through `p[i ^ 3]`, read back in order. */
  ghost predicate Holds(ws: seq<word>, d: seq<byte>)
    requires |ws| == 16
  {
    |d| <= 64 && forall i :: 0 <= i < |d| ==> MemByte(ws, XorThree(i)) == d[i]
  }

  lemma HoldsWord(ws: seq<word>, d: seq<byte>, q: nat)
    requires |ws| == 16 && Holds(ws, d) && 4 * q + 4 <= |d|
    ensures ws[q] == GetBE32(d[4 * q..4 * q + 4])
  {
    hide PutBE32, GetBE32;
    GetPut(ws[q]);
    var e := PutBE32(ws[q]);
    assert MemByte(ws, XorThree(4 * q)) == e[0];
    assert MemByte(ws, XorThree(4 * q + 1)) == e[1];
    assert MemByte(ws, XorThree(4 * q + 2)) == e[2];
    assert MemByte(ws, XorThree(4 * q + 3)) == e[3];
    assert e == d[4 * q..4 * q + 4];
  }

  lemma HoldsWords(ws: seq<word>, d: seq<byte>)
    requires |ws| == 16 && |d| == 64 && Holds(ws, d)
    ensures ws == Words(d)
  {
    hide Holds, GetBE32;
    forall q | 0 <= q < 16 ensures ws[q] == GetBE32(d[4 * q..4 * q + 4]) {
      HoldsWord(ws, d, q);
    }
  }

  lemma HoldsMore(ws: seq<word>, d: seq<byte>, b: byte)
    requires |ws| == 16 && Holds(ws, d) && |d| < 64
    ensures var j := XorThree(|d|);
            Holds(ws[j / 4 := SetByte(ws[j / 4], j % 4, b)], d + [b])
  {
    hide SetByte, ByteOfWord;
    var j := XorThree(|d|);
    var ws' := ws[j / 4 := SetByte(ws[j / 4], j % 4, b)];
    forall i | 0 <= i < |d| + 1 ensures MemByte(ws', XorThree(i)) == (d + [b])[i] {
      var a := XorThree(i);
      SetGetByte(ws[j / 4], j % 4, b, a % 4);
      if i < |d| {
        assert a != j;
        assert MemByte(ws, XorThree(i)) == d[i];
      }
    }
  }

  /** Storing a whole word puts its four big-endian bytes at the end. */
  lemma HoldsMoreWord(ws: seq<word>, d: seq<byte>, q: nat, w: word)
    requires |ws| == 16 && Holds(ws, d) && q < 16 && |d| == 4 * q
    ensures Holds(ws[q := w], d + PutBE32(w))
  {
    hide PutBE32;
    var ws', d' := ws[q := w], d + PutBE32(w);
    forall i | 0 <= i < |d'| ensures MemByte(ws', XorThree(i)) == d'[i] {
      if i < |d| {
        assert XorThree(i) / 4 < q;
        assert MemByte(ws, XorThree(i)) == d[i];
      } else {
        assert XorThree(i) / 4 == q && XorThree(i) % 4 == 3 - (i - 4 * q);
      }
    }
  }

  lemma {:induction false} RegByte(r: seq<word>, i: nat)
    requires i < 4 * |r|
    ensures RegBytes(r)[i] == MemByte(r, XorThree(i))
    decreases |r|
  {
    hide PutBE32, ByteOfWord;
    FirstWord(r[0]);
    if |r| > 1 {
      RegByte(r[1..], if i >= 4 then i - 4 else 0);
      if i >= 4 {
        assert XorThree(i) == XorThree(i - 4) + 4;
      }
    }
  }

  lemma FirstWord(w: word)
    ensures forall i :: 0 <= i < 4 ==> PutBE32(w)[i] == ByteOfWord(w, 3 - i)
  {
    hide PutBE32;
  }

  /** The bytes of a number, weighted, give the number back. */
  lemma NumberBack(n: nat)
    requires n < WORD_32
    ensures var b := NumberBytes(n);
            b[0] as int * 0x100_0000 + b[1] as int * 0x1_0000 + b[2] as int * 0x100 + b[3] as int == n
  {
    hide ToByte;
    ToByteValue(n / 0x100_0000);
    ToByteValue(n / 0x1_0000 % 256);
    ToByteValue(n / 0x100 % 256);
    ToByteValue(n % 256);
    Digits256(n);
  }

  lemma Digits256(n: nat)
    ensures n == n / 0x100_0000 * 0x100_0000 + n / 0x1_0000 % 256 * 0x1_0000 + n / 0x100 % 256 * 0x100 + n % 256
  {
    var a := n / 0x100;
    var b := n / 0x1_0000;
    assert b == a / 256 && n / 0x100_0000 == b / 256;
  }

  // ---------------------------------------------------------------- the bit counter

  lemma CounterStep(n: nat)
    ensures LowBits(n + 1) == (LowBits(n) + 8) % WORD_32
    ensures HighBits(n + 1) == if LowBits(n + 1) == 0 then (HighBits(n) + 1) % WORD_32 else HighBits(n)
  {
    var q, r := 8 * n / WORD_32, 8 * n % WORD_32;
    MultipleOfEight(n, q, r);
    assert 8 * (n + 1) == WORD_32 * q + (r + 8);
    if r + 8 == WORD_32 {
      assert 8 * (n + 1) == WORD_32 * (q + 1);
      assert 8 * (n + 1) / WORD_32 == q + 1;
      NextHigh(q);
    } else {
      assert 8 * (n + 1) / WORD_32 == q && 8 * (n + 1) % WORD_32 == r + 8;
    }
  }

  lemma MultipleOfEight(n: nat, q: nat, r: nat)
    requires 8 * n == WORD_32 * q + r && r < WORD_32
    ensures r + 8 <= WORD_32
  {
    assert r == 8 * (n - 0x2000_0000 * q);
  }

  lemma NextHigh(q: nat)
    ensures (q + 1) % WORD_32 == (q % WORD_32 + 1) % WORD_32
  {
  }

  lemma CounterBlock(n: nat)
    ensures LowBits(n) / 8 % 64 == n % 64 && LowBits(n) % 512 == 8 * (n % 64)
  {
    var q := 8 * n / WORD_32;
    var k := n - 64 * (q * 0x80_0000);
    assert LowBits(n) == 8 * k;
    Eightfold(k, q * 0x80_0000);
  }

  lemma Eightfold(k: nat, t: nat)
    ensures (k + 64 * t) % 64 == k % 64 && 8 * k / 8 % 64 == k % 64 && 8 * k % 512 == 8 * (k % 64)
  {
    var q, r := k / 64, k % 64;
    assert k + 64 * t == 64 * (q + t) + r;
    assert 8 * k == 512 * q + 8 * r;
  }

  lemma PaddingDone(n: nat, z: nat)
    requires z <= Zeros(n)
    ensures 8 * ((n + 1 + z) % 64) == 448 <==> z == Zeros(n)
  {
  }

  function Cut64(n: nat): (m: nat)
    ensures m <= n < m + 64 && m % 64 == 0 && n - m == n % 64
  {
    n - n % 64
  }

  // ---------------------------------------------------------------- the context

  /** `SM3_CTX`; `msg` is what has been fed so far. */
  class Sm3Ctx {
    const cf: Compression
    const start: Regs
    var bitLen0: nat
    var bitLen1: nat
    var regs: Regs
    var w: array<word>
    ghost var msg: seq<byte>

    /** The registers have folded the whole blocks, the buffer holds the rest. */
    ghost predicate Valid()
      reads this, w
    {
      && w.Length == 16
      && bitLen0 == LowBits(|msg|) && bitLen1 == HighBits(|msg|)
      && regs == Fold(cf, start, msg[..Cut64(|msg|)])
      && Holds(w[..], msg[Cut64(|msg|)..])
    }

    /** `SM3_Init`. */
    constructor (cf: Compression, start: Regs)
      ensures Valid() && fresh(w) && msg == [] && this.cf == cf && this.start == start
    {
      this.cf, this.start := cf, start;
      bitLen0, bitLen1, regs := 0, 0, start;
      w := new word[16](_ => 0);
      msg := [];
    }

    /** `SM3_Transform` on a complete block. */
    method Transform()
      requires w.Length == 16
      modifies this`regs
      ensures regs == cf(old(regs), w[..])
    {
      regs := cf(regs, w[..]);
    }

    /** `p[i ^ 0x03] = b`, where `d` is in the buffer already. */
    method StoreByte(i: nat, b: byte, ghost d: seq<byte>)
      requires w.Length == 16 && Holds(w[..], d) && i == |d| < 64
      modifies w
      ensures Holds(w[..], d + [b])
    {
      hide Holds, SetByte;
      ghost var before := w[..];
      var j := XorThree(i);
      HoldsMore(before, d, b);
      w[j / 4] := SetByte(w[j / 4], j % 4, b);
      assert w[..] == before[j / 4 := SetByte(before[j / 4], j % 4, b)];
    }

    /** One turn of the loop of `SM3_Update`. */
    method Feed(b: byte)
      requires Valid()
      modifies this`bitLen0, this`bitLen1, this`regs, this`msg, w
      ensures Valid() && msg == old(msg) + [b]
    {
      hide Holds, Fold, LowBits, HighBits, Words, Cut64;
      ghost var n, d := |msg|, msg[Cut64(|msg|)..];
      CounterBlock(n);
      CounterStep(n);
      CounterBlock(n + 1);
      StoreByte(bitLen0 / 8 % 64, b, d);
      bitLen0 := (bitLen0 + 8) % WORD_32;
      if bitLen0 == 0 {
        bitLen1 := (bitLen1 + 1) % WORD_32;
      }
      msg := msg + [b];
      NextCut(cf, start, old(msg), b);
      if bitLen0 % 512 == 0 {
        HoldsWords(w[..], d + [b]);
        Transform();
        HoldsNothing(w[..]);
      }
    }

    /** `SM3_Update`. */
    method Update(data: seq<byte>)
      requires Valid()
      modifies this`bitLen0, this`bitLen1, this`regs, this`msg, w
      ensures Valid() && msg == old(msg) + data
    {
      hide Holds, Fold, LowBits, HighBits;
      var i := 0;
      while i < |data|
        invariant 0 <= i <= |data| && Valid() && msg == old(msg) + data[..i]
      {
        Feed(data[i]);
        assert data[..i + 1] == data[..i] + [data[i]];
        i := i + 1;
      }
      assert data[..i] == data;
    }

    /** The mark and the zeros of `SM3_Final`; the loop stops after `Zeros` turns. */
    method FeedPadding()
      requires Valid()
      modifies this`bitLen0, this`bitLen1, this`regs, this`msg, w
      ensures Valid() && msg == old(msg) + [0x80] + ZeroBytes(Zeros(|old(msg)|))
    {
      hide Holds, Fold, LowBits, HighBits, ZeroBytes, Zeros, Cut64;
      ghost var m := msg;
      Feed(0x80);
      ghost var z := 0;
      CounterBlock(|msg|);
      PaddingDone(|m|, z);
      ZeroStep(m, 0);
      while bitLen0 % 512 != 448
        invariant Valid() && z <= Zeros(|m|) && msg == m + [0x80] + ZeroBytes(z)
        invariant bitLen0 % 512 == 448 <==> z == Zeros(|m|)
        decreases Zeros(|m|) - z
      {
        Feed(0);
        ZeroStep(m, z);
        z := z + 1;
        CounterBlock(|msg|);
        PaddingDone(|m|, z);
      }
    }

    /** The two counter words complete the last block. */
    method StoreLength(len0: nat, len1: nat)
      requires Valid() && |msg| % 64 == 56 && len0 < WORD_32 && len1 < WORD_32
      modifies w
      ensures Holds(w[..], msg[Cut64(|msg|)..] + PutBE32(W32(len1)) + PutBE32(W32(len0)))
    {
      hide Holds, Fold, LowBits, HighBits, PutBE32, W32;
      ghost var d := msg[Cut64(|msg|)..];
      ghost var ws := w[..];
      HoldsMoreWord(ws, d, 14, W32(len1));
      w[14] := W32(len1);
      ghost var ws1 := w[..];
      assert ws1 == ws[14 := W32(len1)];
      HoldsMoreWord(ws1, d + PutBE32(W32(len1)), 15, W32(len0));
      w[15] := W32(len0);
      assert w[..] == ws1[15 := W32(len0)];
    }

    /** The registers as bytes, each word from its highest address down. */
    method ReadDigest() returns (hash: seq<byte>)
      ensures hash == RegBytes(regs)
    {
      hide RegBytes, MemByte;
      hash := [];
      var i := 0;
      while i < 32
        invariant 0 <= i <= 32 && |hash| == i
        invariant forall k :: 0 <= k < i ==> hash[k] == MemByte(regs, XorThree(k))
      {
        hash := hash + [MemByte(regs, XorThree(i))];
        i := i + 1;
      }
      DigestBytes(regs, hash);
    }

    /** `SM3_Final`: the digest of everything fed. The context is spent afterwards. */
    method Final() returns (hash: seq<byte>)
      requires Valid()
      modifies this`bitLen0, this`bitLen1, this`regs, this`msg, w
      ensures hash == Digest(cf, start, old(msg))
    {
      hide Holds, Fold, LowBits, HighBits, Digest, RegBytes, PutBE32, W32, Pad, ZeroBytes;
      ghost var m := msg;
      var len0, len1 := bitLen0, bitLen1;
      FeedPadding();
      StoreLength(len0, len1);
      LastBlockFold(cf, start, m, msg, w[..]);
      Transform();
      hash := ReadDigest();
      DigestIs(cf, start, m);
    }
  }

  lemma ZeroStep(m: seq<byte>, z: nat)
    ensures m + [0x80] + ZeroBytes(0) == m + [0x80]
    ensures m + [0x80] + ZeroBytes(z) + [0] == m + [0x80] + ZeroBytes(z + 1)
  {
    assert ZeroBytes(0) == [] && ZeroBytes(z) + [0] == ZeroBytes(z + 1);
  }

  lemma HoldsNothing(ws: seq<word>)
    requires |ws| == 16
    ensures Holds(ws, [])
  {
  }

  /** What one more byte does to the whole blocks and the rest. */
  lemma NextCut(cf: Compression, r: Regs, m: seq<byte>, b: byte)
    ensures var c, m' := Cut64(|m|), m + [b];
            if |m'| % 64 == 0 then
              && Cut64(|m'|) == |m'| && m'[..|m'|] == m' && m'[|m'|..] == [] && |m[c..] + [b]| == 64
              && Fold(cf, r, m') == cf(Fold(cf, r, m[..c]), Words(m[c..] + [b]))
            else
              Cut64(|m'|) == c && m'[..c] == m[..c] && m'[c..] == m[c..] + [b]
  {
    hide Fold, Words;
    var c, m' := Cut64(|m|), m + [b];
    if |m'| % 64 == 0 {
      var last := m[c..] + [b];
      assert m' == m[..c] + last;
      FoldAppend(cf, r, m[..c], last);
      FoldOne(cf, Fold(cf, r, m[..c]), last);
    }
  }

  /** The words stored last complete the padded message. */
  lemma LastBlockFold(cf: Compression, r: Regs, m: seq<byte>, fed: seq<byte>, ws: seq<word>)
    requires fed == m + [0x80] + ZeroBytes(Zeros(|m|)) && |ws| == 16
    requires var d := fed[Cut64(|fed|)..];
             Holds(ws, d + PutBE32(W32(HighBits(|m|))) + PutBE32(W32(LowBits(|m|))))
    ensures Fold(cf, r, Pad(m)) == cf(Fold(cf, r, fed[..Cut64(|fed|)]), ws)
  {
    hide Holds, Fold, Words, LowBits, HighBits, W32, PutBE32;
    var c := Cut64(|fed|);
    var l := LengthBytes(|m|);
    var d := fed[c..];
    var last := d + l;
    assert d + PutBE32(W32(HighBits(|m|))) + PutBE32(W32(LowBits(|m|))) == last;
    assert Pad(m) == fed[..c] + last;
    HoldsWords(ws, last);
    FoldAppend(cf, r, fed[..c], last);
    FoldOne(cf, Fold(cf, r, fed[..c]), last);
  }

  lemma DigestBytes(r: Regs, hash: seq<byte>)
    requires |hash| == 32 && forall k :: 0 <= k < 32 ==> hash[k] == MemByte(r, XorThree(k))
    ensures hash == RegBytes(r)
  {
    hide RegBytes, MemByte;
    RegByte(r, 0);
    forall k | 0 <= k < 32 ensures hash[k] == RegBytes(r)[k] {
      RegByte(r, k);
    }
  }

  lemma DigestIs(cf: Compression, r: Regs, m: seq<byte>)
    ensures Digest(cf, r, m) == RegBytes(Fold(cf, r, Pad(m)))
  {
  }

  // ---------------------------------------------------------------- whole runs

  lemma NextChunk(fed: seq<byte>, chunks: seq<seq<byte>>, i: nat)
    requires i < |chunks|
    ensures fed + Concat(chunks[i..]) == fed + chunks[i] + Concat(chunks[i + 1..])
  {
    assert chunks[i..][0] == chunks[i] && chunks[i..][1..] == chunks[i + 1..];
  }

  lemma NoChunks(fed: seq<byte>)
    ensures fed + Concat([]) == fed
  {
  }

  /** However a message is cut into updates, the digest is that of the whole message. */
  method HashChunks(cf: Compression, start: Regs, chunks: seq<seq<byte>>) returns (hash: seq<byte>)
    ensures hash == Digest(cf, start, Concat(chunks))
  {
    hide Digest, Concat;
    assert chunks[0..] == chunks && [] + Concat(chunks) == Concat(chunks);
    var ctx := new Sm3Ctx(cf, start);
    var i := 0;
    while i < |chunks|
      invariant 0 <= i <= |chunks| && ctx.Valid() && fresh(ctx) && fresh(ctx.w) && ctx.cf == cf && ctx.start == start
      invariant ctx.msg + Concat(chunks[i..]) == Concat(chunks)
    {
      NextChunk(ctx.msg, chunks, i);
      ctx.Update(chunks[i]);
      i := i + 1;
    }
    NoChunks(ctx.msg);
    assert chunks[i..] == [];
    hash := ctx.Final();
  }

  /** `SM3`. */
  method Sm3(cf: Compression, start: Regs, data: seq<byte>) returns (hash: seq<byte>)
    ensures hash == Digest(cf, start, data) && |hash| == 32
  {
    hide Digest;
    var ctx := new Sm3Ctx(cf, start);
    ctx.Update(data);
    assert [] + data == data;
    hash := ctx.Final();
  }
}
