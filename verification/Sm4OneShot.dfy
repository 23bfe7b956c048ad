/**
  The one-shot functions of public/sm/sm4.cpp as they run: word buffers, byte buffers with a
  stated capacity, return codes, and the two chaining buffers whose roles are swapped.
 */
module Sm4OneShot {
  import opened Common
  import opened Sm4Cipher
  import opened Sm4Modes

  /** Writing bytes at a position of a buffer. */
  function Splice(s: seq<byte>, pos: nat, d: seq<byte>): (r: seq<byte>)
    requires pos + |d| <= |s|
    ensures |r| == |s|
  {
    s[..pos] + d + s[pos + |d|..]
  }

  lemma SpliceTwice(s: seq<byte>, pos: nat, a: seq<byte>, b: seq<byte>)
    requires pos + |a| + |b| <= |s|
    ensures Splice(Splice(s, pos, a), pos + |a|, b) == Splice(s, pos, a + b)
  {
    var r := Splice(s, pos, a);
    assert r[..pos + |a|] == s[..pos] + a;
    assert r[pos + |a| + |b|..] == s[pos + |a| + |b|..];
    assert s[..pos] + a + b == s[..pos] + (a + b);
  }

  lemma SpliceNothing(s: seq<byte>, pos: nat)
    requires pos <= |s|
    ensures Splice(s, pos, []) == s
  {
  }

  /** Four words from sixteen bytes. */
  method Load(src: seq<byte>, tmp: array<word>)
    requires |src| == 16 && tmp.Length == 4
    modifies tmp
    ensures BlockOf(tmp[..]) == ToBlock(src)
  {
    hide GetBE32;
    tmp[0] := GetBE32(src[0..4]);
    tmp[1] := GetBE32(src[4..8]);
    tmp[2] := GetBE32(src[8..12]);
    tmp[3] := GetBE32(src[12..16]);
  }

  method StoreWord(w: word, out: array<byte>, pos: nat)
    requires pos + 4 <= out.Length
    modifies out
    ensures out[..] == Splice(old(out[..]), pos, PutBE32(w))
  {
    var d := PutBE32(w);
    hide PutBE32;
    out[pos], out[pos + 1], out[pos + 2], out[pos + 3] := d[0], d[1], d[2], d[3];
  }

  /** Sixteen bytes from a block, word by word. */
  method Store(b: Block, out: array<byte>, pos: nat)
    requires pos + 16 <= out.Length
    modifies out
    ensures out[..] == Splice(old(out[..]), pos, ToBytes(b))
  {
    hide PutBE32, Splice;
    ghost var s := out[..];
    ghost var p0, p1, p2, p3 := PutBE32(b.w0), PutBE32(b.w1), PutBE32(b.w2), PutBE32(b.w3);
    StoreWord(b.w0, out, pos);
    StoreWord(b.w1, out, pos + 4);
    SpliceTwice(s, pos, p0, p1);
    StoreWord(b.w2, out, pos + 8);
    SpliceTwice(s, pos, p0 + p1, p2);
    StoreWord(b.w3, out, pos + 12);
    SpliceTwice(s, pos, p0 + p1 + p2, p3);
  }

  lemma BlockWords(s: seq<word>, b: Block)
    requires |s| == 4 && s[0] == b.w0 && s[1] == b.w1 && s[2] == b.w2 && s[3] == b.w3
    ensures BlockOf(s) == b
  {
  }

  /** One more block decrypted and stored behind the others. */
  lemma DecryptedMore(t: Tables, k: Key, mode: Mode, iv: Block, ed: seq<byte>, at: nat, p: Block, before: seq<byte>)
    requires at % 16 == 0 && at + 16 <= |ed| <= |before|
    requires p == DecStep(t, k, mode, DecIv(mode, iv, ed[..at]), ed[at..at + 16])
    ensures Splice(Splice(before, 0, Dec(t, k, mode, iv, ed[..at])), at, ToBytes(p))
         == Splice(before, 0, Dec(t, k, mode, iv, ed[..at + 16]))
    ensures DecIv(mode, iv, ed[..at + 16]) == if mode == ECB then DecIv(mode, iv, ed[..at])
            else ToBlock(ed[at..at + 16])
  {
    hide ToBlock, ToBytes, Splice, Dec, DecIv, DecStep;
    assert ed[..at] + ed[at..at + 16] == ed[..at + 16];
    ExtendDec(t, k, mode, iv, ed[..at], ed[at..at + 16], p);
    SpliceTwice(before, 0, Dec(t, k, mode, iv, ed[..at]), ToBytes(p));
  }

  /** One block through the cipher: load, encrypt or decrypt in place. */
  method CryptBlock(t: Tables, rks: seq<word>, d: seq<byte>) returns (c: Block)
    requires |d| == 16 && |rks| == 32
    ensures c == Crypt(t, rks, ToBlock(d))
  {
    hide Crypt, ToBlock;
    var tmp := new word[4](_ => 0);
    Load(d, tmp);
    CryptInPlace(t, rks, tmp);
    c := BlockOf(tmp[..]);
  }

  /** The padded last block, as the source builds it in its own buffer. */
  method LastBlock(d: seq<byte>, padding: int) returns (last: seq<byte>)
    requires |d| < 16 && (padding == 0 ==> d != [])
    ensures last == Padded(padding, d) && |last| == 16
  {
    hide ToByte, Padded;
    var buffer := new byte[16](_ => 0);
    var nPad := 16 - |d|;
    var cPad := if padding == 0 then 0 else ToByte(nPad);
    forall i | 0 <= i < |d| {
      buffer[i] := d[i];
    }
    assert buffer[..|d|] == d;
    for i := 0 to nPad
      invariant buffer[..|d|] == d
      invariant forall j :: |d| <= j < |d| + i ==> buffer[j] == cPad
    {
      buffer[|d| + i] := cPad;
    }
    last := buffer[..];
    assert last == d + Fill(nPad, cPad);
    LastPadded(d, padding);
  }

  lemma LastPadded(d: seq<byte>, padding: int)
    requires |d| < 16 && (padding == 0 ==> d != [])
    ensures Padded(padding, d) == d + Fill(16 - |d|, if padding == 0 then 0 else ToByte(16 - |d|))
  {
    hide ToByte, PadCount, Fill, Padded;
    SmallCount(|d|);
    PaddedIs(padding, d);
  }

  lemma PaddedIs(padding: int, d: seq<byte>)
    ensures var n := PadCount(|d|);
            Padded(padding, d) == if padding == 0 then d + Fill(n % 16, 0) else d + Fill(n, ToByte(n))
  {
    hide ToByte, PadCount, Fill;
  }

  lemma SmallCount(n: nat)
    requires n < 16
    ensures PadCount(n) == 16 - n && (n > 0 ==> PadCount(n) % 16 == 16 - n)
  {
  }

  /** `enin_sm4`: 1 when the buffer is too small, else 0 and the encrypted message. */
  method EninSm4(t: Tables, k: Key, d: seq<byte>, ed: array<byte>, capacity: nat, padding: int)
    returns (code: int, edLen: nat)
    requires ValidKey(k) && capacity <= ed.Length
    modifies ed
    ensures code == if capacity < |Padded(padding, d)| then 1 else 0
    ensures code == 0 ==>
              edLen == |Padded(padding, d)| && ed[..] == Splice(old(ed[..]), 0, EcbEncrypted(t, k, padding, d))
    ensures code == 1 ==> edLen == capacity && ed[..] == old(ed[..])
  {
    hide Crypt, ToBlock, ToBytes, Splice, Enc, EncStep, Padded;
    PaddedSize(padding, |d|, d);
    var nPad := 16 - |d| % 16;
    if padding == 0 {
      nPad := nPad % 16;
    }
    var nEn := |d| + nPad;
    if capacity < nEn {
      return 1, capacity;
    }
    ghost var before := ed[..];
    SpliceNothing(before, 0);
    NoBlocks(t, k, ECB, ZERO_BLOCK);
    var at, nData := 0, |d|;
    assert d[..0] == [];
    while nData >= 16
      invariant 0 <= nData && at + nData == |d| && at % 16 == 0
      invariant ed[..] == Splice(before, 0, Enc(t, k, ECB, ZERO_BLOCK, d[..at]))
    {
      var c := CryptBlock(t, k.erk, d[at..at + 16]);
      Store(c, ed, at);
      EncryptedMore(t, k, d[..at], d[at..at + 16], c, before);
      assert d[..at] + d[at..at + 16] == d[..at + 16];
      at, nData := at + 16, nData - 16;
    }
    PaddedSplit(padding, d, at);
    if padding != 0 || nData > 0 {
      OneLast(padding, d[at..]);
      var last := LastBlock(d[at..], padding);
      var c := CryptBlock(t, k.erk, last);
      Store(c, ed, at);
      EncryptedMore(t, k, d[..at], last, c, before);
    }
    return 0, nEn;
  }

  lemma NoBlocks(t: Tables, k: Key, mode: Mode, iv: Block)
    ensures Enc(t, k, mode, iv, []) == [] && EncIv(t, k, mode, iv, []) == iv
    ensures Dec(t, k, mode, iv, []) == [] && DecIv(mode, iv, []) == iv
  {
  }

  /** One more block at the end of what is encrypted. */
  lemma ExtendEnc(t: Tables, k: Key, mode: Mode, iv: Block, a: seq<byte>, d: seq<byte>, c: Block)
    requires Whole(a) && |d| == 16
    requires c == EncryptBlock(t, k, if mode == ECB then ToBlock(d) else Xor(ToBlock(d), EncIv(t, k, mode, iv, a)))
    ensures Whole(a + d) && Enc(t, k, mode, iv, a + d) == Enc(t, k, mode, iv, a) + ToBytes(c)
    ensures EncIv(t, k, mode, iv, a + d) == c
  {
    hide EncryptBlock, ToBlock, ToBytes, Xor, Enc, EncIv;
    var v := EncIv(t, k, mode, iv, a);
    EncAppend(t, k, mode, iv, a, d);
    assert d + [] == d;
    EncHead(t, k, mode, v, d, []);
    NoBlocks(t, k, mode, c);
    assert ToBytes(c) + [] == ToBytes(c);
  }

  lemma ExtendDec(t: Tables, k: Key, mode: Mode, iv: Block, a: seq<byte>, d: seq<byte>, p: Block)
    requires Whole(a) && |d| == 16
    requires p == DecStep(t, k, mode, DecIv(mode, iv, a), d)
    ensures Whole(a + d) && Dec(t, k, mode, iv, a + d) == Dec(t, k, mode, iv, a) + ToBytes(p)
    ensures DecIv(mode, iv, a + d) == NextIv(mode, DecIv(mode, iv, a), d)
  {
    hide DecStep, NextIv, ToBytes, Dec, DecIv;
    var v := DecIv(mode, iv, a);
    DecAppend(t, k, mode, iv, a, d);
    assert d + [] == d;
    DecHead(t, k, mode, v, d, []);
    NoBlocks(t, k, mode, NextIv(mode, v, d));
    assert ToBytes(p) + [] == ToBytes(p);
  }

  lemma PaddedSplit(padding: int, d: seq<byte>, at: nat)
    requires at <= |d| < at + 16 && at % 16 == 0
    ensures padding == 0 && at == |d| ==> Padded(padding, d) == d[..at]
    ensures padding != 0 || at < |d| ==> Padded(padding, d) == d[..at] + Padded(padding, d[at..])
  {
    hide ToByte, PadCount, Fill, Padded;
    var n := PadCount(|d|);
    PaddedIs(padding, d);
    PaddedIs(padding, d[at..]);
    SameCount(|d|, at);
    SplitFill(d, at, Fill(n % 16, 0));
    SplitFill(d, at, Fill(n, ToByte(n)));
  }

  lemma SameCount(n: nat, at: nat)
    requires at <= n && at % 16 == 0
    ensures PadCount(n - at) == PadCount(n)
    ensures at == n ==> PadCount(n) % 16 == 0
  {
    var q := at / 16;
    assert at == 16 * q;
    Sixteens(n - at, q);
  }

  lemma Sixteens(r: nat, q: nat)
    ensures (r + 16 * q) % 16 == r % 16
  {
    assert r + 16 * q == 16 * (r / 16 + q) + r % 16;
  }

  lemma PaddedSize(padding: int, n: nat, d: seq<byte>)
    requires n == |d|
    ensures |Padded(padding, d)| == n + if padding == 0 then (16 - n % 16) % 16 else 16 - n % 16
  {
    hide ToByte;
  }

  lemma SizeBehind(n: nat, at: nat)
    requires at <= n < at + 16 && at % 16 == 0
    ensures n + (16 - n % 16) == at + 16
  {
  }

  lemma OneLast(padding: int, d: seq<byte>)
    requires |d| < 16 && (padding == 0 ==> d != [])
    ensures |Padded(padding, d)| == 16
  {
    PaddedSize(padding, |d|, d);
  }

  /** One more block encrypted and stored behind the others. */
  lemma EncryptedMore(t: Tables, k: Key, a: seq<byte>, d: seq<byte>, c: Block, before: seq<byte>)
    requires Whole(a) && |d| == 16 && |a| + 16 <= |before| && c == EncryptBlock(t, k, ToBlock(d))
    ensures Whole(a + d)
    ensures Splice(Splice(before, 0, Enc(t, k, ECB, ZERO_BLOCK, a)), |a|, ToBytes(c))
         == Splice(before, 0, Enc(t, k, ECB, ZERO_BLOCK, a + d))
  {
    hide EncryptBlock, ToBlock, ToBytes, Splice, Enc;
    ExtendEnc(t, k, ECB, ZERO_BLOCK, a, d, c);
    SpliceTwice(before, 0, Enc(t, k, ECB, ZERO_BLOCK, a), ToBytes(c));
  }

  lemma SplitFill(d: seq<byte>, at: nat, x: seq<byte>)
    requires at <= |d|
    ensures d + x == d[..at] + (d[at..] + x)
    ensures x == [] && at == |d| ==> d + x == d[..at]
  {
  }

  /** The padding loop of both decryption functions. */
  method CheckPadding(d: array<byte>, len: nat, padding: int) returns (code: int, nPad: nat)
    requires 16 <= len <= d.Length
    ensures match Unpad(padding, d[..len])
            case Error(e) => code == e && code != 0
            case Data(p) => code == 0 && nPad <= len && p == d[..len - nPad]
  {
    ghost var p := d[..len];
    nPad := d[len - 1] as int;
    if padding == 0 {
      nPad := 0;
    } else if nPad <= 0 || nPad > 16 {
      return 3, 0;
    }
    if padding != 0 {
      for i := 1 to nPad + 1
        invariant forall j :: len - i < j < len ==> p[j] as int == nPad
      {
        if d[len - i] as int != nPad {
          assert p[len - i] as int != nPad;
          return 5, 0;
        }
      }
    }
    return 0, nPad;
  }

  /**
    `dein_sm4`: 4 for an unknown padding, 1 for a short buffer or a partial block, else the
    decrypted message or the code of its padding check. The source looks at the last byte of the
    output before checking anything, so an empty message is not allowed.
   */
  method DeinSm4(t: Tables, k: Key, ed: seq<byte>, d: array<byte>, capacity: nat, padding: int)
    returns (code: int, dLen: nat)
    requires ValidKey(k) && capacity <= d.Length && ed != []
    modifies d
    ensures padding > 1 || padding < 0 ==> code == 4
    ensures 0 <= padding <= 1 && (capacity < |ed| || !Whole(ed)) ==> code == 1
    ensures code == 4 || code == 1 ==> dLen == capacity && d[..] == old(d[..])
    ensures 0 <= padding <= 1 && |ed| <= capacity && Whole(ed) ==>
              && d[..] == Splice(old(d[..]), 0, Dec(t, k, ECB, ZERO_BLOCK, ed))
              && (match EcbDecrypted(t, k, padding, ed)
                  case Error(e) => code == e && code != 0 && dLen == capacity
                  case Data(p) => code == 0 && dLen == |p| && d[..dLen] == p)
  {
    dLen := capacity;
    if padding > 1 || padding < 0 {
      return 4, capacity;
    }
    if capacity < |ed| || |ed| % 16 != 0 {
      return 1, capacity;
    }
    DecryptBlocks(t, k, ECB, ZERO_BLOCK, ed, d);
    PrefixOfSplice(old(d[..]), d[..], Dec(t, k, ECB, ZERO_BLOCK, ed));
    hide Dec, Unpad, Splice;
    assert d[..|ed|] == Dec(t, k, ECB, ZERO_BLOCK, ed);
    var nPad;
    code, nPad := CheckPadding(d, |ed|, padding);
    if code == 0 {
      dLen := |ed| - nPad;
    }
  }

  lemma PrefixOfSplice(before: seq<byte>, after: seq<byte>, e: seq<byte>)
    requires |e| <= |before| && after == Splice(before, 0, e)
    ensures after[..|e|] == e
  {
  }

  /**
    The block loop of both decryption functions. For CBC it keeps two word buffers: the current
    chaining value and the ciphertext block just read, which change places after every block.
   */
  method DecryptBlocks(t: Tables, k: Key, mode: Mode, iv: Block, ed: seq<byte>, d: array<byte>)
    requires ValidKey(k) && Whole(ed) && |ed| <= d.Length
    modifies d
    ensures d[..] == Splice(old(d[..]), 0, Dec(t, k, mode, iv, ed))
  {
    hide Crypt, ToBlock, ToBytes, Splice, Dec, DecIv, DecStep, BlockOf;
    ghost var before := d[..];
    SpliceNothing(before, 0);
    NoBlocks(t, k, mode, iv);
    var pIV, pIVp := new word[4](_ => 0), new word[4](_ => 0);
    pIV[0], pIV[1], pIV[2], pIV[3] := iv.w0, iv.w1, iv.w2, iv.w3;
    BlockWords(pIV[..], iv);
    var at, nData := 0, |ed|;
    assert ed[..0] == [];
    while nData >= 16
      invariant 0 <= nData && at + nData == |ed| && at % 16 == 0
      invariant pIV != pIVp && pIV.Length == pIVp.Length == 4 && fresh(pIV) && fresh(pIVp)
      invariant BlockOf(pIV[..]) == DecIv(mode, iv, ed[..at])
      invariant d[..] == Splice(before, 0, Dec(t, k, mode, iv, ed[..at]))
    {
      var p := DecryptOne(t, k, mode, ed[at..at + 16], pIV, pIVp);
      DecryptedMore(t, k, mode, iv, ed, at, p, before);
      Store(p, d, at);
      if mode == CBC {
        pIV, pIVp := pIVp, pIV;
      }
      at, nData := at + 16, nData - 16;
    }
    assert ed[..at] == ed;
  }

  method DecryptOne(t: Tables, k: Key, mode: Mode, e: seq<byte>, pIV: array<word>, pIVp: array<word>) returns (p: Block)
    requires ValidKey(k) && |e| == 16 && pIV.Length == pIVp.Length == 4 && pIV != pIVp
    modifies pIVp
    ensures p == DecStep(t, k, mode, BlockOf(pIV[..]), e)
    ensures BlockOf(pIVp[..]) == ToBlock(e)
  {
    hide Crypt, ToBlock, Xor32;
    Load(e, pIVp);
    p := CryptBlock(t, k.drk, e);
    if mode == CBC {
      p := Block(Xor32(p.w0, pIV[0]), Xor32(p.w1, pIV[1]), Xor32(p.w2, pIV[2]), Xor32(p.w3, pIV[3]));
    }
  }

  /** `sm4_CBC`: counted padding always, so a whole message grows by a block. */
  method Sm4Cbc(t: Tables, k: Key, input: seq<byte>, iv: seq<byte>, out: array<byte>) returns (code: int, outLen: nat)
    requires ValidKey(k) && |iv| == 16 && |Padded(1, input)| <= out.Length
    modifies out
    ensures code == 0 && outLen == |Padded(1, input)|
    ensures out[..] == Splice(old(out[..]), 0, CbcEncrypted(t, k, ToBlock(iv), input))
  {
    hide ToBlock, Splice, Enc, EncIv, ValidKey, Padded, BlockOf;
    ghost var before, v := out[..], ToBlock(iv);
    PaddedSize(1, |input|, input);
    SpliceNothing(before, 0);
    NoBlocks(t, k, CBC, v);
    var pIV := new word[4](_ => 0);
    Load(iv, pIV);
    var at, len := 0, |input|;
    assert input[..0] == [];
    while len >= 16
      invariant 0 <= len && at + len == |input| && at % 16 == 0 && fresh(pIV)
      invariant BlockOf(pIV[..]) == EncIv(t, k, CBC, v, input[..at])
      invariant out[..] == Splice(before, 0, Enc(t, k, CBC, v, input[..at]))
    {
      EmitChained(t, k, input[at..at + 16], pIV, out, before, v, input[..at]);
      assert input[..at] + input[at..at + 16] == input[..at + 16];
      at, len := at + 16, len - 16;
    }
    PaddedSplit(1, input, at);
    SizeBehind(|input|, at);
    var last := LastBlock(input[at..], 1);
    EmitChained(t, k, last, pIV, out, before, v, input[..at]);
    return 0, at + 16;
  }

  /** One more block of a CBC message: chain, encrypt, write behind what is already written. */
  method EmitChained(t: Tables, k: Key, d: seq<byte>, pIV: array<word>, out: array<byte>, ghost before: seq<byte>,
      ghost v: Block, a: seq<byte>)
    requires ValidKey(k) && |d| == 16 && pIV.Length == 4 && Whole(a) && |a| + 16 <= out.Length == |before|
    requires BlockOf(pIV[..]) == EncIv(t, k, CBC, v, a) && out[..] == Splice(before, 0, Enc(t, k, CBC, v, a))
    modifies pIV, out
    ensures Whole(a + d) && BlockOf(pIV[..]) == EncIv(t, k, CBC, v, a + d)
    ensures out[..] == Splice(before, 0, Enc(t, k, CBC, v, a + d))
  {
    hide ToBlock, ToBytes, Splice, Enc, EncIv, EncryptBlock, Xor;
    EncryptChained(t, k, d, pIV);
    ExtendEnc(t, k, CBC, v, a, d, BlockOf(pIV[..]));
    Store(BlockOf(pIV[..]), out, |a|);
    SpliceTwice(before, 0, Enc(t, k, CBC, v, a), ToBytes(BlockOf(pIV[..])));
  }

  /** Mixing a block into the chaining value and encrypting that in place. */
  method EncryptChained(t: Tables, k: Key, d: seq<byte>, pIV: array<word>)
    requires ValidKey(k) && |d| == 16 && pIV.Length == 4
    modifies pIV
    ensures BlockOf(pIV[..]) == EncryptBlock(t, k, Xor(ToBlock(d), old(BlockOf(pIV[..]))))
  {
    hide Crypt, ToBlock, Xor32, Xor, BlockOf;
    ghost var was := pIV[..];
    var tmp := new word[4](_ => 0);
    Load(d, tmp);
    ghost var words := tmp[..];
    for i := 0 to 4
      invariant tmp[..] == words
      invariant forall j :: 0 <= j < i ==> pIV[j] == Xor32(words[j], was[j])
      invariant forall j :: i <= j < 4 ==> pIV[j] == was[j]
    {
      pIV[i] := Xor32(tmp[i], pIV[i]);
    }
    XorWords(tmp[..], was, pIV[..]);
    CryptInPlace(t, k.erk, pIV);
  }

  lemma XorWords(a: seq<word>, b: seq<word>, c: seq<word>)
    requires |a| == |b| == |c| == 4 && forall j :: 0 <= j < 4 ==> c[j] == Xor32(a[j], b[j])
    ensures BlockOf(c) == Xor(BlockOf(a), BlockOf(b))
  {
    hide Xor32;
  }

  /** `dein_sm4_CBC`, with the same codes as `dein_sm4`. */
  method DeinSm4Cbc(t: Tables, k: Key, ed: seq<byte>, d: array<byte>, capacity: nat, iv: seq<byte>, padding: int)
    returns (code: int, dLen: nat)
    requires ValidKey(k) && capacity <= d.Length && ed != [] && |iv| == 16
    modifies d
    ensures padding > 1 || padding < 0 ==> code == 4
    ensures 0 <= padding <= 1 && (capacity < |ed| || !Whole(ed)) ==> code == 1
    ensures code == 4 || code == 1 ==> dLen == capacity && d[..] == old(d[..])
    ensures 0 <= padding <= 1 && |ed| <= capacity && Whole(ed) ==>
              && d[..] == Splice(old(d[..]), 0, Dec(t, k, CBC, ToBlock(iv), ed))
              && (match CbcDecrypted(t, k, padding, ToBlock(iv), ed)
                  case Error(e) => code == e && code != 0 && dLen == capacity
                  case Data(p) => code == 0 && dLen == |p| && d[..dLen] == p)
  {
    dLen := capacity;
    if padding > 1 || padding < 0 {
      return 4, capacity;
    }
    if capacity < |ed| || |ed| % 16 != 0 {
      return 1, capacity;
    }
    ghost var v := ToBlock(iv);
    DecryptBlocks(t, k, CBC, ToBlock(iv), ed, d);
    PrefixOfSplice(old(d[..]), d[..], Dec(t, k, CBC, v, ed));
    hide Dec, Unpad, Splice, ToBlock;
    assert d[..|ed|] == Dec(t, k, CBC, v, ed);
    var nPad;
    code, nPad := CheckPadding(d, |ed|, padding);
    if code == 0 {
      dLen := |ed| - nPad;
    }
  }
}
