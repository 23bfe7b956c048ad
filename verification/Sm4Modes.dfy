/**
  The one-shot modes of public/sm/sm4.cpp: ECB and CBC with padding. A buffer that the source
  fills is an array here, with the capacity the caller states.
 */
module Sm4Modes {
  import opened Common
  import opened Sm4Cipher

  datatype Mode = ECB | CBC

  // ---------------------------------------------------------------- whole blocks

  predicate Whole(data: seq<byte>) {
    |data| % 16 == 0
  }

  /** The block that is encrypted, and that becomes the next chaining value. */
  function EncStep(t: Tables, k: Key, mode: Mode, iv: Block, d: seq<byte>): (c: Block)
    requires |d| == 16
  {
    EncryptBlock(t, k, if mode == ECB then ToBlock(d) else Xor(ToBlock(d), iv))
  }

  function Enc(t: Tables, k: Key, mode: Mode, iv: Block, data: seq<byte>): (e: seq<byte>)
    requires Whole(data)
    ensures |e| == |data|
    decreases |data|
  {
    if data == [] then []
    else
      var c := EncStep(t, k, mode, iv, data[..16]);
      ToBytes(c) + Enc(t, k, mode, c, data[16..])
  }

  /** The chaining value after encrypting. */
  function EncIv(t: Tables, k: Key, mode: Mode, iv: Block, data: seq<byte>): (c: Block)
    requires Whole(data)
    decreases |data|
  {
    if data == [] then iv else EncIv(t, k, mode, EncStep(t, k, mode, iv, data[..16]), data[16..])
  }

  function DecStep(t: Tables, k: Key, mode: Mode, iv: Block, d: seq<byte>): (p: Block)
    requires |d| == 16
  {
    var p := DecryptBlock(t, k, ToBlock(d));
    if mode == ECB then p else Xor(p, iv)
  }

  /** The chaining value after decrypting one block. */
  function NextIv(mode: Mode, iv: Block, d: seq<byte>): (c: Block)
    requires |d| == 16
  {
    if mode == ECB then iv else ToBlock(d)
  }

  function Dec(t: Tables, k: Key, mode: Mode, iv: Block, data: seq<byte>): (p: seq<byte>)
    requires Whole(data)
    ensures |p| == |data|
    decreases |data|
  {
    if data == [] then []
    else ToBytes(DecStep(t, k, mode, iv, data[..16])) + Dec(t, k, mode, NextIv(mode, iv, data[..16]), data[16..])
  }

  function DecIv(mode: Mode, iv: Block, data: seq<byte>): (c: Block)
    requires Whole(data)
    decreases |data|
  {
    if data == [] then iv else DecIv(mode, NextIv(mode, iv, data[..16]), data[16..])
  }

  lemma EncHead(t: Tables, k: Key, mode: Mode, iv: Block, d: seq<byte>, rest: seq<byte>)
    requires |d| == 16 && Whole(rest)
    ensures Whole(d + rest)
    ensures var c := EncStep(t, k, mode, iv, d);
            && Enc(t, k, mode, iv, d + rest) == ToBytes(c) + Enc(t, k, mode, c, rest)
            && EncIv(t, k, mode, iv, d + rest) == EncIv(t, k, mode, c, rest)
  {
    hide EncStep, ToBytes;
    assert (d + rest)[..16] == d && (d + rest)[16..] == rest;
  }

  lemma DecHead(t: Tables, k: Key, mode: Mode, iv: Block, d: seq<byte>, rest: seq<byte>)
    requires |d| == 16 && Whole(rest)
    ensures Whole(d + rest)
    ensures Dec(t, k, mode, iv, d + rest)
         == ToBytes(DecStep(t, k, mode, iv, d)) + Dec(t, k, mode, NextIv(mode, iv, d), rest)
    ensures DecIv(mode, iv, d + rest) == DecIv(mode, NextIv(mode, iv, d), rest)
  {
    hide DecStep, NextIv, ToBytes;
    assert (d + rest)[..16] == d && (d + rest)[16..] == rest;
  }

  /** One block decrypts to what was encrypted, and leaves the chaining value of encryption. */
  lemma StepRoundTrip(t: Tables, k: Key, mode: Mode, iv: Block, d: seq<byte>)
    requires TwoWay(k) && |d| == 16
    ensures var c := EncStep(t, k, mode, iv, d);
            && ToBytes(DecStep(t, k, mode, iv, ToBytes(c))) == d
            && (mode == CBC ==> NextIv(mode, iv, ToBytes(c)) == c)
  {
    hide ToBlock, ToBytes, EncryptBlock, DecryptBlock, Xor;
    var b := ToBlock(d);
    var c := EncStep(t, k, mode, iv, d);
    BlockBytes(c);
    BytesBlock(d);
    DecryptEncrypt(t, k, if mode == ECB then b else Xor(b, iv));
    XorTwice(b, iv);
  }

  lemma {:induction false} EcbIgnoresIv(t: Tables, k: Key, iv: Block, iv': Block, data: seq<byte>)
    requires Whole(data)
    ensures Enc(t, k, ECB, iv, data) == Enc(t, k, ECB, iv', data)
    ensures Dec(t, k, ECB, iv, data) == Dec(t, k, ECB, iv', data)
    decreases |data|
  {
    hide EncryptBlock, DecryptBlock, ToBytes, ToBlock;
    if data != [] {
      EcbIgnoresIv(t, k, iv, iv', data[16..]);
    }
  }

  /** Decrypting whole blocks undoes encrypting them, in either mode and from any chaining value. */
  lemma {:induction false} DecEnc(t: Tables, k: Key, mode: Mode, iv: Block, data: seq<byte>)
    requires TwoWay(k) && Whole(data)
    ensures Dec(t, k, mode, iv, Enc(t, k, mode, iv, data)) == data
    decreases |data|
  {
    hide EncStep, DecStep, NextIv, ToBytes, TwoWay;
    if data != [] {
      var d, rest := data[..16], data[16..];
      var c := EncStep(t, k, mode, iv, d);
      var e := Enc(t, k, mode, c, rest);
      StepRoundTrip(t, k, mode, iv, d);
      DecEnc(t, k, mode, c, rest);
      DecHead(t, k, mode, iv, ToBytes(c), e);
      if mode == ECB {
        EcbIgnoresIv(t, k, NextIv(mode, iv, ToBytes(c)), c, e);
      }
      assert data == d + rest;
    }
  }

  /** Encrypting one part after the other is encrypting both. */
  lemma {:induction false} EncAppend(t: Tables, k: Key, mode: Mode, iv: Block, a: seq<byte>, b: seq<byte>)
    requires Whole(a) && Whole(b)
    ensures Whole(a + b)
    ensures Enc(t, k, mode, iv, a + b) == Enc(t, k, mode, iv, a) + Enc(t, k, mode, EncIv(t, k, mode, iv, a), b)
    ensures EncIv(t, k, mode, iv, a + b) == EncIv(t, k, mode, EncIv(t, k, mode, iv, a), b)
    decreases |a|
  {
    hide EncStep, ToBytes;
    if a == [] {
      assert a + b == b;
    } else {
      var d, rest := a[..16], a[16..];
      var c := EncStep(t, k, mode, iv, d);
      EncAppend(t, k, mode, c, rest, b);
      EncHead(t, k, mode, iv, d, rest + b);
      assert a + b == d + (rest + b);
    }
  }

  lemma {:induction false} DecAppend(t: Tables, k: Key, mode: Mode, iv: Block, a: seq<byte>, b: seq<byte>)
    requires Whole(a) && Whole(b)
    ensures Whole(a + b)
    ensures Dec(t, k, mode, iv, a + b) == Dec(t, k, mode, iv, a) + Dec(t, k, mode, DecIv(mode, iv, a), b)
    ensures DecIv(mode, iv, a + b) == DecIv(mode, DecIv(mode, iv, a), b)
    decreases |a|
  {
    hide DecStep, NextIv, ToBytes;
    if a == [] {
      assert a + b == b;
    } else {
      var d, rest := a[..16], a[16..];
      DecAppend(t, k, mode, NextIv(mode, iv, d), rest, b);
      DecHead(t, k, mode, iv, d, rest + b);
      assert a + b == d + (rest + b);
    }
  }

  // ---------------------------------------------------------------- block by block

  /** Block `i` of a whole number of blocks. */
  function BlockAt(data: seq<byte>, i: nat): (b: Block)
    requires 16 * i + 16 <= |data|
  {
    ToBlock(data[16 * i..16 * i + 16])
  }

  lemma BlockFront(b: Block, rest: seq<byte>)
    ensures BlockAt(ToBytes(b) + rest, 0) == b
  {
    hide ToBlock, ToBytes;
    assert (ToBytes(b) + rest)[0..16] == ToBytes(b);
    BlockBytes(b);
  }

  lemma BlockBehind(front: seq<byte>, rest: seq<byte>, i: nat)
    requires |front| == 16 && i > 0 && 16 * i <= |rest|
    ensures BlockAt(front + rest, i) == BlockAt(rest, i - 1)
  {
    hide ToBlock;
    assert (front + rest)[16 * i..16 * i + 16] == rest[16 * (i - 1)..16 * (i - 1) + 16];
  }

  /**
    The rule of either mode: in ECB every block is encrypted on its own, in CBC it is first
    combined with the encrypted block before it, the first one with the initial value.
   */
  lemma {:induction false} EncRule(t: Tables, k: Key, mode: Mode, iv: Block, data: seq<byte>, i: nat)
    requires Whole(data) && 16 * i + 16 <= |data|
    ensures var e := Enc(t, k, mode, iv, data);
            BlockAt(e, i) ==
            EncryptBlock(t, k, if mode == ECB then BlockAt(data, i)
                               else Xor(BlockAt(data, i), if i == 0 then iv else BlockAt(e, i - 1)))
    decreases i
  {
    hide BlockAt, ToBytes, ToBlock, EncryptBlock, Xor;
    var d, rest := data[..16], data[16..];
    var c := EncStep(t, k, mode, iv, d);
    var e := Enc(t, k, mode, c, rest);
    assert data == d + rest;
    BlockFront(c, e);
    FirstBlock(data);
    if i > 0 {
      EncRule(t, k, mode, c, rest, i - 1);
      BlockBehind(d, rest, i);
      BlockBehind(ToBytes(c), e, i);
      if i > 1 {
        BlockBehind(ToBytes(c), e, i - 1);
      }
    }
  }

  lemma FirstBlock(data: seq<byte>)
    requires |data| >= 16
    ensures BlockAt(data, 0) == ToBlock(data[..16])
  {
    hide ToBlock;
    assert data[0..16] == data[..16];
  }

  lemma {:induction false} DecRule(t: Tables, k: Key, mode: Mode, iv: Block, data: seq<byte>, i: nat)
    requires Whole(data) && 16 * i + 16 <= |data|
    ensures var b := DecryptBlock(t, k, BlockAt(data, i));
            BlockAt(Dec(t, k, mode, iv, data), i) ==
            if mode == ECB then b else Xor(b, if i == 0 then iv else BlockAt(data, i - 1))
    decreases i
  {
    hide BlockAt, ToBytes, ToBlock, DecryptBlock, Xor;
    var d, rest := data[..16], data[16..];
    var b, iv' := DecStep(t, k, mode, iv, d), NextIv(mode, iv, d);
    var p := Dec(t, k, mode, iv', rest);
    assert data == d + rest;
    BlockFront(b, p);
    FirstBlock(data);
    if i > 0 {
      DecRule(t, k, mode, iv', rest, i - 1);
      BlockBehind(d, rest, i);
      BlockBehind(ToBytes(b), p, i);
      if i > 1 {
        BlockBehind(d, rest, i - 1);
      }
    }
  }

  // ---------------------------------------------------------------- padding

  function Fill(n: nat, b: byte): (s: seq<byte>)
    ensures |s| == n && forall i :: 0 <= i < n ==> s[i] == b
  {
    seq(n, _ => b)
  }

  function PadCount(n: nat): (p: nat)
    ensures 1 <= p <= 16 && (n + p) % 16 == 0
  {
    16 - n % 16
  }

  /** `padding` 0 adds zeros up to a whole block; any other value adds a counted padding. */
  function Padded(padding: int, d: seq<byte>): (p: seq<byte>)
    ensures Whole(p)
    ensures d <= p
  {
    var n := PadCount(|d|);
    if padding == 0 then d + Fill(n % 16, 0) else d + Fill(n, ToByte(n))
  }

  /** The padding argument 0 adds fewer than sixteen zeros, any other one to sixteen times their number. */
  lemma PaddedMeans(padding: int, d: seq<byte>)
    ensures var p := Padded(padding, d);
            && d == p[..|d|] && |p| % 16 == 0
            && if padding == 0 then |p| < |d| + 16 && forall i :: |d| <= i < |p| ==> p[i] == 0
               else |d| < |p| <= |d| + 16 && forall i :: |d| <= i < |p| ==> p[i] as int == |p| - |d|
  {
    hide ToByte;
    ToByteValue(PadCount(|d|));
  }

  datatype Unpadded = Data(data: seq<byte>) | Error(code: int)

  /** The padding checks after decryption. */
  function Unpad(padding: int, p: seq<byte>): (r: Unpadded)
    requires |p| >= 16
    ensures r.Error? ==> r.code == 3 || r.code == 5
  {
    if padding == 0 then Data(p)
    else
      var n := p[|p| - 1] as int;
      if n <= 0 || n > 16 then Error(3)
      else if exists j :: |p| - n <= j < |p| && p[j] as int != n then Error(5)
      else Data(p[..|p| - n])
  }

  /** Counted padding is removed exactly; zero padding stays, so it is exact on whole blocks only. */
  lemma UnpadPadded(padding: int, d: seq<byte>)
    requires padding == 0 ==> d != []
    ensures |Padded(padding, d)| >= 16
    ensures padding != 0 ==> Unpad(padding, Padded(padding, d)) == Data(d)
    ensures padding == 0 ==> (Unpad(padding, Padded(padding, d)) == Data(d) <==> Whole(d))
  {
    hide Padded, Unpad;
    if padding != 0 {
      UnpadCounted(padding, d);
    } else {
      UnpadZeros(d);
    }
  }

  lemma UnpadCounted(padding: int, d: seq<byte>)
    requires padding != 0
    ensures |Padded(padding, d)| >= 16 && Unpad(padding, Padded(padding, d)) == Data(d)
  {
    hide ToByte, PadCount;
    var n := PadCount(|d|);
    var p := Padded(padding, d);
    ToByteValue(n);
    assert forall j :: |d| <= j < |p| ==> p[j] == ToByte(n);
    assert p[..|p| - n] == d;
  }

  /** Exactly the padded messages pass the check of counted padding. */
  lemma UnpadExactly(padding: int, p: seq<byte>, d: seq<byte>)
    requires padding != 0 && |p| >= 16 && Whole(p)
    ensures Unpad(padding, p) == Data(d) <==> p == Padded(padding, d)
  {
    hide Unpad, Padded;
    UnpadCounted(padding, d);
    if Unpad(padding, p) == Data(d) {
      UnpadShape(padding, p);
      CountedIs(padding, p, d, |p| - |d|);
    }
  }

  /** What the check has seen. */
  lemma UnpadShape(padding: int, p: seq<byte>)
    requires padding != 0 && |p| >= 16 && Unpad(padding, p).Data?
    ensures var d := Unpad(padding, p).data;
            && |p| - 16 <= |d| < |p| && d == p[..|d|]
            && forall j :: |d| <= j < |p| ==> p[j] as int == |p| - |d|
  {
  }

  lemma CountedIs(padding: int, p: seq<byte>, d: seq<byte>, n: nat)
    requires padding != 0 && 0 < n <= 16 && |p| == |d| + n && Whole(p) && d == p[..|d|]
    requires forall j :: |d| <= j < |p| ==> p[j] as int == n
    ensures p == Padded(padding, d)
  {
    hide ToByte;
    ToByteValue(n);
    assert PadCount(|d|) == n;
    forall j | |d| <= j < |p| ensures p[j] == Fill(n, ToByte(n))[j - |d|] {
      SameValue(p[j], ToByte(n));
    }
  }

  lemma UnpadZeros(d: seq<byte>)
    requires d != []
    ensures |Padded(0, d)| >= 16
    ensures Unpad(0, Padded(0, d)) == Data(d) <==> Whole(d)
  {
    hide ToByte;
    var p := Padded(0, d);
    if Whole(d) {
      assert p == d;
    } else {
      assert |p| != |d|;
    }
  }

  // ---------------------------------------------------------------- one-shot results

  const ZERO_BLOCK := Block(0, 0, 0, 0)

  /** What `enin_sm4` produces. */
  function EcbEncrypted(t: Tables, k: Key, padding: int, d: seq<byte>): (e: seq<byte>)
    ensures |e| == |Padded(padding, d)|
  {
    Enc(t, k, ECB, ZERO_BLOCK, Padded(padding, d))
  }

  /** The padding check of the decryption functions, which refuse any other padding argument. */
  function Checked(padding: int, p: seq<byte>): (r: Unpadded)
    requires |p| >= 16
  {
    if padding > 1 || padding < 0 then Error(4) else Unpad(padding, p)
  }

  /** What `dein_sm4` produces, given enough room. */
  function EcbDecrypted(t: Tables, k: Key, padding: int, e: seq<byte>): (r: Unpadded)
    requires Whole(e) && e != []
  {
    Checked(padding, Dec(t, k, ECB, ZERO_BLOCK, e))
  }

  /** What `sm4_CBC` produces: always with counted padding. */
  function CbcEncrypted(t: Tables, k: Key, iv: Block, d: seq<byte>): (e: seq<byte>) {
    Enc(t, k, CBC, iv, Padded(1, d))
  }

  function CbcDecrypted(t: Tables, k: Key, padding: int, iv: Block, e: seq<byte>): (r: Unpadded)
    requires Whole(e) && e != []
  {
    Checked(padding, Dec(t, k, CBC, iv, e))
  }

  /** `dein_sm4` after `enin_sm4`, for every key, message and padding argument. */
  lemma EcbRoundTrip(t: Tables, k: Key, padding: int, d: seq<byte>)
    requires TwoWay(k) && (padding == 0 ==> d != [])
    ensures var e := EcbEncrypted(t, k, padding, d);
            && Whole(e) && e != []
            && (EcbDecrypted(t, k, padding, e) == Data(d) <==> padding == 1 || (padding == 0 && Whole(d)))
            && (padding > 1 || padding < 0 ==> EcbDecrypted(t, k, padding, e) == Error(4))
  {
    hide Enc, Dec, Unpad, Padded;
    UnpadPadded(padding, d);
    DecEnc(t, k, ECB, ZERO_BLOCK, Padded(padding, d));
  }

  /** `dein_sm4_CBC` after `sm4_CBC`. */
  lemma CbcRoundTrip(t: Tables, k: Key, iv: Block, d: seq<byte>)
    requires TwoWay(k)
    ensures var e := CbcEncrypted(t, k, iv, d);
            Whole(e) && e != [] && CbcDecrypted(t, k, 1, iv, e) == Data(d)
  {
    hide Enc, Dec, Unpad, Padded;
    UnpadPadded(1, d);
    DecEnc(t, k, CBC, iv, Padded(1, d));
  }
}
