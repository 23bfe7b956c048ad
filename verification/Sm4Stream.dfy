/**
  The buffering interface of public/sm/sm4.cpp: `sm4_InitBlock`, `sm4_UpdateBlock`,
  `sm4_FinalBlock`. The first half says what a stream of updates means; the class runs it.
 */
module Sm4Stream {
  import opened Common
  import opened Sm4Cipher
  import opened Sm4Modes
  import opened Sm4OneShot

  // ---------------------------------------------------------------- what a stream computes

  /** The source's `flag`: 0 encrypts, 1 decrypts, anything else only chains for a MAC. */
  datatype Way = Encrypt | Decrypt | Mac

  /** A stream between calls: the chaining value and the bytes of the block not yet complete. */
  datatype Stream = Stream(iv: Block, pending: seq<byte>)

  function Cut(n: nat): (m: nat)
    ensures m <= n < m + 16 && m % 16 == 0 && n - m == n % 16
  {
    n / 16 * 16
  }

  function Written(t: Tables, k: Key, mode: Mode, way: Way, iv: Block, data: seq<byte>): (o: seq<byte>)
    requires Whole(data)
    ensures way != Mac ==> |o| == |data|
    ensures way == Mac ==> o == []
  {
    match way
    case Encrypt => Enc(t, k, mode, iv, data)
    case Decrypt => Dec(t, k, mode, iv, data)
    case Mac => []
  }

  function Chained(t: Tables, k: Key, mode: Mode, way: Way, iv: Block, data: seq<byte>): (c: Block)
    requires Whole(data)
  {
    if way == Decrypt then DecIv(mode, iv, data) else EncIv(t, k, mode, iv, data)
  }

  /** The whole blocks of the bytes at hand, and the rest. */
  function Front(all: seq<byte>): (f: seq<byte>)
    ensures Whole(f) && |f| == Cut(|all|)
  {
    all[..Cut(|all|)]
  }

  function Back(all: seq<byte>): (b: seq<byte>)
    ensures |b| == |all| % 16
  {
    all[Cut(|all|)..]
  }

  /** The output of one update. */
  function UpdateOut(t: Tables, k: Key, mode: Mode, way: Way, s: Stream, input: seq<byte>): (o: seq<byte>)
    ensures way != Mac ==> |o| == Cut(|s.pending| + |input|)
  {
    Written(t, k, mode, way, s.iv, Front(s.pending + input))
  }

  /** The state after one update. */
  function UpdateTo(t: Tables, k: Key, mode: Mode, way: Way, s: Stream, input: seq<byte>): (s': Stream)
    ensures |s'.pending| == (|s.pending| + |input|) % 16
  {
    var all := s.pending + input;
    Stream(Chained(t, k, mode, way, s.iv, Front(all)), Back(all))
  }

  lemma WrittenAppend(t: Tables, k: Key, mode: Mode, way: Way, iv: Block, a: seq<byte>, b: seq<byte>)
    requires Whole(a) && Whole(b)
    ensures Whole(a + b)
    ensures Written(t, k, mode, way, iv, a + b)
         == Written(t, k, mode, way, iv, a) + Written(t, k, mode, way, Chained(t, k, mode, way, iv, a), b)
    ensures Chained(t, k, mode, way, iv, a + b)
         == Chained(t, k, mode, way, Chained(t, k, mode, way, iv, a), b)
  {
    hide Enc, Dec, EncIv, DecIv;
    EncAppend(t, k, mode, iv, a, b);
    DecAppend(t, k, mode, iv, a, b);
  }

  /** Two updates are one update with both inputs. */
  lemma UpdateTwice(t: Tables, k: Key, mode: Mode, way: Way, s: Stream, a: seq<byte>, b: seq<byte>)
    ensures var s1 := UpdateTo(t, k, mode, way, s, a);
            && UpdateOut(t, k, mode, way, s, a + b)
               == UpdateOut(t, k, mode, way, s, a) + UpdateOut(t, k, mode, way, s1, b)
            && UpdateTo(t, k, mode, way, s, a + b) == UpdateTo(t, k, mode, way, s1, b)
  {
    hide Written, Chained, Cut;
    var x := s.pending + a;
    var m := Cut(|x|);
    var y := x[m..] + b;
    var n := Cut(|y|);
    var all := s.pending + (a + b);
    CutAdd(|x|, |b|);
    SplitTwice(s.pending, a, b, m, n);
    WrittenAppend(t, k, mode, way, s.iv, x[..m], y[..n]);
  }

  lemma SplitTwice(p: seq<byte>, a: seq<byte>, b: seq<byte>, m: nat, n: nat)
    requires m <= |p| + |a| && n <= |p| + |a| - m + |b|
    ensures var all, x := p + (a + b), p + a;
            var y := x[m..] + b;
            |all| == |x| + |b| && all[..m + n] == x[..m] + y[..n] && all[m + n..] == y[n..]
  {
    assert p + (a + b) == p + a + b;
  }

  lemma CutAdd(x: nat, b: nat)
    ensures Cut(x + b) == Cut(x) + Cut(x - Cut(x) + b)
  {
  }

  /** The outputs of a run of updates, one after the other. */
  function FeedOut(t: Tables, k: Key, mode: Mode, way: Way, s: Stream, chunks: seq<seq<byte>>): (o: seq<byte>)
    decreases |chunks|
  {
    if chunks == [] then []
    else UpdateOut(t, k, mode, way, s, chunks[0])
         + FeedOut(t, k, mode, way, UpdateTo(t, k, mode, way, s, chunks[0]), chunks[1..])
  }

  function FeedTo(t: Tables, k: Key, mode: Mode, way: Way, s: Stream, chunks: seq<seq<byte>>): (s': Stream)
    decreases |chunks|
  {
    if chunks == [] then s else FeedTo(t, k, mode, way, UpdateTo(t, k, mode, way, s, chunks[0]), chunks[1..])
  }

  /** However the input is cut into updates, the outputs together are those of a single update. */
  lemma {:induction false} FeedIsUpdate(t: Tables, k: Key, mode: Mode, way: Way, s: Stream, chunks: seq<seq<byte>>)
    requires |s.pending| < 16
    ensures FeedOut(t, k, mode, way, s, chunks) == UpdateOut(t, k, mode, way, s, Concat(chunks))
    ensures FeedTo(t, k, mode, way, s, chunks) == UpdateTo(t, k, mode, way, s, Concat(chunks))
    decreases |chunks|
  {
    hide UpdateOut, UpdateTo;
    if chunks == [] {
      UpdateNothing(t, k, mode, way, s);
    } else {
      var s1 := UpdateTo(t, k, mode, way, s, chunks[0]);
      FeedIsUpdate(t, k, mode, way, s1, chunks[1..]);
      UpdateTwice(t, k, mode, way, s, chunks[0], Concat(chunks[1..]));
    }
  }

  lemma UpdateNothing(t: Tables, k: Key, mode: Mode, way: Way, s: Stream)
    requires |s.pending| < 16
    ensures UpdateOut(t, k, mode, way, s, []) == [] && UpdateTo(t, k, mode, way, s, []) == s
  {
    assert s.pending + [] == s.pending;
    assert s.pending[..0] == [];
    NoBlocks(t, k, mode, s.iv);
  }

  /** What the final call writes when encrypting; with zero padding a finished stream writes nothing. */
  function FinalEncrypt(t: Tables, k: Key, mode: Mode, padtype: int, s: Stream): (o: seq<byte>) {
    if s.pending == [] && padtype == 0 then [] else Enc(t, k, mode, s.iv, Padded(padtype, s.pending))
  }

  /** What the final call makes of the last block when decrypting. */
  function FinalDecrypt(t: Tables, k: Key, mode: Mode, padtype: int, s: Stream, input: seq<byte>): (r: Unpadded)
    requires |s.pending| + |input| == 16
    ensures r.Error? ==> r.code == 3 || r.code == 5
  {
    Unpad(padtype, ToBytes(DecStep(t, k, mode, s.iv, s.pending + input)))
  }

  /** The final MAC: a partial block is completed with zeros. */
  function FinalMac(t: Tables, k: Key, mode: Mode, s: Stream): (o: seq<byte>)
    requires |s.pending| < 16
  {
    ToBytes(if s.pending == [] then s.iv else EncStep(t, k, mode, s.iv, ZeroFilled(s.pending)))
  }

  function ZeroFilled(d: seq<byte>): (b: seq<byte>)
    requires |d| < 16
    ensures |b| == 16
  {
    d + Fill(16 - |d|, 0)
  }

  /** Streaming encryption equals encrypting the padded whole message at once. */
  lemma StreamEncrypts(t: Tables, k: Key, mode: Mode, padtype: int, iv: Block, chunks: seq<seq<byte>>)
    ensures var s0 := Stream(iv, []);
            FeedOut(t, k, mode, Encrypt, s0, chunks)
                + FinalEncrypt(t, k, mode, padtype, FeedTo(t, k, mode, Encrypt, s0, chunks)) ==
            Enc(t, k, mode, iv, Padded(padtype, Concat(chunks)))
  {
    hide Enc, EncIv, Padded, FeedOut, FeedTo;
    var data := Concat(chunks);
    var m := Cut(|data|);
    FeedIsUpdate(t, k, mode, Encrypt, Stream(iv, []), chunks);
    assert [] + data == data;
    PaddedSplit(padtype, data, m);
    if padtype == 0 && m == |data| {
      assert data[m..] == [];
      assert Enc(t, k, mode, iv, data[..m]) + [] == Enc(t, k, mode, iv, data[..m]);
    } else {
      EncAppend(t, k, mode, iv, data[..m], Padded(padtype, data[m..]));
    }
  }

  /** In particular streaming gives what `enin_sm4` and `sm4_CBC` give. */
  lemma StreamIsOneShot(t: Tables, k: Key, padtype: int, iv: Block, chunks: seq<seq<byte>>)
    ensures var s0 := Stream(iv, []);
            && FeedOut(t, k, ECB, Encrypt, s0, chunks)
                + FinalEncrypt(t, k, ECB, padtype, FeedTo(t, k, ECB, Encrypt, s0, chunks))
               == EcbEncrypted(t, k, padtype, Concat(chunks))
            && FeedOut(t, k, CBC, Encrypt, s0, chunks)
                + FinalEncrypt(t, k, CBC, 1, FeedTo(t, k, CBC, Encrypt, s0, chunks))
               == CbcEncrypted(t, k, iv, Concat(chunks))
  {
    hide Enc, Padded, FeedOut, FeedTo, FinalEncrypt;
    StreamEncrypts(t, k, ECB, padtype, iv, chunks);
    StreamEncrypts(t, k, CBC, 1, iv, chunks);
    EcbIgnoresIv(t, k, iv, ZERO_BLOCK, Padded(padtype, Concat(chunks)));
  }

  /** The padding lies in the last block. */
  lemma UnpadTail(padding: int, a: seq<byte>, b: seq<byte>)
    requires |b| == 16
    ensures Unpad(padding, a + b) ==
            (match Unpad(padding, b) case Data(q) => Data(a + q) case Error(e) => Error(e))
  {
    var p, n := a + b, b[15] as int;
    assert p[|p| - 1] == b[15];
    if padding != 0 && 0 < n <= 16 {
      BadPadding(a, b, n);
      assert p[..|p| - n] == a + b[..16 - n];
    }
  }

  /** A wrong padding byte of the last block is one of the whole. */
  lemma BadPadding(a: seq<byte>, b: seq<byte>, n: nat)
    requires |b| == 16 && n <= 16
    ensures var p := a + b;
            (exists j :: |p| - n <= j < |p| && p[j] as int != n) <==> (exists j :: 16 - n <= j < 16 && b[j] as int != n)
  {
    var p := a + b;
    if j :| |p| - n <= j < |p| && p[j] as int != n {
      assert b[j - |a|] == p[j];
    }
    if j :| 16 - n <= j < 16 && b[j] as int != n {
      assert p[j + |a|] == b[j];
    }
  }

  /** Streaming decryption, the last bytes given to the final call, equals decrypting at once. */
  lemma StreamDecrypts(t: Tables, k: Key, mode: Mode, padtype: int, iv: Block, chunks: seq<seq<byte>>, last: seq<byte>)
    requires |Concat(chunks)| % 16 + |last| == 16
    ensures var s0 := Stream(iv, []);
            var s1 := FeedTo(t, k, mode, Decrypt, s0, chunks);
            var e := Concat(chunks) + last;
            && |s1.pending| + |last| == 16 && Whole(e) && e != []
            && Unpad(padtype, Dec(t, k, mode, iv, e))
               == (match FinalDecrypt(t, k, mode, padtype, s1, last)
                   case Data(q) => Data(FeedOut(t, k, mode, Decrypt, s0, chunks) + q)
                   case Error(c) => Error(c))
  {
    hide Dec, DecIv, DecStep, ToBytes, Unpad, FeedOut, FeedTo, Concat, Cut, Whole;
    var data := Concat(chunks);
    var m := Cut(|data|);
    FeedIsUpdate(t, k, mode, Decrypt, Stream(iv, []), chunks);
    assert [] + data == data;
    DecryptSplit(t, k, mode, padtype, iv, data, last);
  }

  /** The blocks before the last one, and the last one. */
  lemma DecryptSplit(t: Tables, k: Key, mode: Mode, padtype: int, iv: Block, data: seq<byte>, last: seq<byte>)
    requires |data| % 16 + |last| == 16
    ensures var m, e := Cut(|data|), data + last;
            && Whole(e) && e != [] && Whole(data[..m]) && |data[m..]| + |last| == 16
            && Unpad(padtype, Dec(t, k, mode, iv, e))
               == (match FinalDecrypt(t, k, mode, padtype, Stream(DecIv(mode, iv, data[..m]), data[m..]), last)
                   case Data(q) => Data(Dec(t, k, mode, iv, data[..m]) + q)
                   case Error(c) => Error(c))
  {
    hide Dec, DecIv, DecStep, ToBytes, Unpad;
    var m := Cut(|data|);
    var b := data[m..] + last;
    assert data + last == data[..m] + b;
    var v := DecIv(mode, iv, data[..m]);
    ExtendDec(t, k, mode, iv, data[..m], b, DecStep(t, k, mode, v, b));
    UnpadTail(padtype, Dec(t, k, mode, iv, data[..m]), ToBytes(DecStep(t, k, mode, v, b)));
  }

  /** The streaming MAC is the last chaining value over the zero-padded message. */
  lemma StreamMacs(t: Tables, k: Key, mode: Mode, iv: Block, chunks: seq<seq<byte>>)
    ensures var s1 := FeedTo(t, k, mode, Mac, Stream(iv, []), chunks);
            |s1.pending| < 16 && FinalMac(t, k, mode, s1) == ToBytes(EncIv(t, k, mode, iv, Padded(0, Concat(chunks))))
  {
    hide Enc, EncIv, EncStep, ToBytes, FeedTo, Padded, ZeroFilled;
    var data := Concat(chunks);
    var m := Cut(|data|);
    FeedIsUpdate(t, k, mode, Mac, Stream(iv, []), chunks);
    assert [] + data == data;
    ZeroPaddedSplit(data, m);
    if m < |data| {
      var b := ZeroFilled(data[m..]);
      LastChained(t, k, mode, iv, data[..m], b);
    }
  }

  lemma ZeroPaddedSplit(data: seq<byte>, m: nat)
    requires m <= |data| < m + 16 && m % 16 == 0
    ensures m == |data| ==> Padded(0, data) == data[..m] && data[m..] == []
    ensures m < |data| ==> Padded(0, data) == data[..m] + ZeroFilled(data[m..])
  {
    hide ToByte, Padded;
    PaddedSplit(0, data, m);
    if m < |data| {
      LastPadded(data[m..], 0);
    } else {
      assert data[m..] == [];
    }
  }

  lemma LastChained(t: Tables, k: Key, mode: Mode, iv: Block, a: seq<byte>, b: seq<byte>)
    requires Whole(a) && |b| == 16
    ensures Whole(a + b) && EncIv(t, k, mode, iv, a + b) == EncStep(t, k, mode, EncIv(t, k, mode, iv, a), b)
  {
    hide EncryptBlock, ToBlock, Xor, Enc, EncIv;
    ExtendEnc(t, k, mode, iv, a, b, EncStep(t, k, mode, EncIv(t, k, mode, iv, a), b));
  }

  // ---------------------------------------------------------------- the object

  lemma OneBlock(t: Tables, k: Key, mode: Mode, iv: Block, d: seq<byte>)
    requires |d| == 16
    ensures Enc(t, k, mode, iv, d) == ToBytes(EncStep(t, k, mode, iv, d))
            && EncIv(t, k, mode, iv, d) == EncStep(t, k, mode, iv, d)
    ensures Dec(t, k, mode, iv, d) == ToBytes(DecStep(t, k, mode, iv, d)) && DecIv(mode, iv, d) == NextIv(mode, iv, d)
  {
    hide EncStep, DecStep, NextIv, ToBytes, Enc, EncIv, Dec, DecIv;
    assert d + [] == d;
    EncHead(t, k, mode, iv, d, []);
    DecHead(t, k, mode, iv, d, []);
    NoBlocks(t, k, mode, EncStep(t, k, mode, iv, d));
    NoBlocks(t, k, mode, NextIv(mode, iv, d));
    assert ToBytes(EncStep(t, k, mode, iv, d)) + [] == ToBytes(EncStep(t, k, mode, iv, d));
    assert ToBytes(DecStep(t, k, mode, iv, d)) + [] == ToBytes(DecStep(t, k, mode, iv, d));
  }

  function WayOf(flag: int): (w: Way) {
    if flag == 0 then Encrypt else if flag == 1 then Decrypt else Mac
  }

  /** `SM4_KEY_OBJ`. */
  class Sm4Obj {
    const t: Tables
    var key: Key
    var ivtmp: array<word>
    var left: array<byte>
    var leftsize: nat
    var mode: int
    var padtype: int

    ghost predicate Valid()
      reads this, ivtmp, left
    {
      ValidTables(t) && ValidKey(key) && ivtmp.Length == 4 && left.Length == 16 && leftsize <= 16
    }

    function ModeOf(): (m: Mode)
      reads this`mode
    {
      if mode == 0 then ECB else CBC
    }

    /** What the object holds of the stream. */
    ghost function State(): (s: Stream)
      requires Valid()
      reads this, ivtmp, left
    {
      Stream(BlockOf(ivtmp[..]), left[..leftsize])
    }

    constructor (t: Tables, key: Key)
      requires ValidTables(t) && ValidKey(key)
      ensures Valid() && this.t == t && fresh(ivtmp) && fresh(left)
    {
      this.t, this.key := t, key;
      ivtmp, left := new word[4](_ => 0), new byte[16](_ => 0);
      leftsize, mode, padtype := 0, 0, 0;
    }

    /**
      `sm4_InitBlock`: 1 for a flag or mode out of range, 2 when a chaining mode lacks its
      initial value, else 0 and an empty stream.
     */
    method Init(masterKey: seq<byte>, flag: int, mode: int, padding: int, iv: seq<byte>, hasIv: bool)
        returns (code: int)
      requires Valid() && |masterKey| == 16 && (hasIv ==> |iv| == 16)
      modifies this`key, this`leftsize, this`mode, this`padtype, ivtmp, left
      ensures Valid()
      ensures code == if !(0 <= flag <= 2 && 0 <= mode <= 2) then 1 else if mode > 0 && !hasIv then 2 else 0
      ensures code == 0 ==>
                && key.erk == RoundKeys(t, masterKey) && (flag != 0 ==> TwoWay(key))
                && this.mode == mode && padtype == (if padding == 0 then 0 else 1)
                && leftsize == 0 && (mode > 0 ==> BlockOf(ivtmp[..]) == ToBlock(iv))
    {
      hide ToBlock, RoundKeys, TwoWay;
      if flag < 0 || flag > 2 || mode < 0 || mode > 2 {
        return 1;
      }
      key := SetKey(t, masterKey, flag, key);
      this.mode := mode;
      padtype := if padding == 0 then 0 else 1;
      if mode > 0 {
        if !hasIv {
          return 2;
        }
        Load(iv, ivtmp);
      }
      forall i | 0 <= i < 16 {
        left[i] := 0;
      }
      leftsize := 0;
      return 0;
    }

    /** A complete block: chain, run the cipher, write if there is something to write. */
    method ProcessBlock(out: array<byte>, pos: nat, room: nat, flag: int) returns (ok: bool)
      requires Valid() && leftsize == 16 && out != left && pos + room <= out.Length
      requires flag == 1 ==> 0 <= mode <= 1
      modifies this`leftsize, ivtmp, out
      ensures Valid() && ok == (WayOf(flag) == Mac || room >= 16)
      ensures ok ==> leftsize == 0
      ensures !ok ==> leftsize == 16 && out[..] == old(out[..])
      ensures ok || WayOf(flag) != Decrypt ==>
                BlockOf(ivtmp[..]) == Chained(t, key, ModeOf(), WayOf(flag), old(BlockOf(ivtmp[..])), left[..])
      ensures !ok && WayOf(flag) == Decrypt ==> BlockOf(ivtmp[..]) == old(BlockOf(ivtmp[..]))
      ensures ok ==> |Written(t, key, ModeOf(), WayOf(flag), old(BlockOf(ivtmp[..])), left[..])| <= room
      ensures ok ==>
                var o := Written(t, key, ModeOf(), WayOf(flag), old(BlockOf(ivtmp[..])), left[..]);
                out[..] == Splice(old(out[..]), pos, o)
    {
      hide Enc, EncIv, Dec, DecIv, Splice, ToBytes, ToBlock, Crypt, Xor;
      ghost var iv, d := BlockOf(ivtmp[..]), left[..];
      OneBlock(t, key, ModeOf(), iv, d);
      SpliceNothing(out[..], pos);
      if flag == 1 {
        var saved := new word[4](_ => 0);
        var p := DecryptOne(t, key, ModeOf(), left[..], ivtmp, saved);
        if room < 16 {
          return false;
        }
        Store(p, out, pos);
        if mode != 0 {
          ivtmp[0], ivtmp[1], ivtmp[2], ivtmp[3] := saved[0], saved[1], saved[2], saved[3];
        }
      } else {
        if mode == 0 {
          Load(left[..], ivtmp);
          CryptInPlace(t, key.erk, ivtmp);
        } else {
          EncryptChained(t, key, left[..], ivtmp);
        }
        if flag == 0 {
          if room < 16 {
            return false;
          }
          Store(BlockOf(ivtmp[..]), out, pos);
        }
      }
      leftsize := 0;
      return true;
    }

    /** Bytes that at most complete the pending block: keep them, and process a complete block. */
    method Absorb(piece: seq<byte>, out: array<byte>, pos: nat, room: nat, flag: int) returns (ok: bool, written: nat)
      requires Valid() && leftsize + |piece| <= 16 && out != left && pos + room <= out.Length
      requires flag == 1 ==> 0 <= mode <= 1
      modifies this`leftsize, ivtmp, left, out
      ensures Valid() && ok == (old(leftsize) + |piece| < 16 || WayOf(flag) == Mac || room >= 16)
      ensures ok ==> leftsize < 16 && State() == UpdateTo(t, key, ModeOf(), WayOf(flag), old(State()), piece)
      ensures ok ==>
                var o := UpdateOut(t, key, ModeOf(), WayOf(flag), old(State()), piece);
                written == |o| <= room && out[..] == Splice(old(out[..]), pos, o)
      ensures !ok ==>
                && WayOf(flag) != Mac && room < 16 && old(leftsize) + |piece| == 16 && leftsize == 16
                && out[..] == old(out[..])
      ensures !ok ==> State() == Stuck(t, key, ModeOf(), WayOf(flag), old(State()), piece)
    {
      hide UpdateTo, UpdateOut, Splice, Chained, Written, WayOf;
      ghost var s := State();
      PieceUpdate(t, key, ModeOf(), WayOf(flag), s, piece);
      SpliceNothing(out[..], pos);
      forall i | 0 <= i < |piece| {
        left[leftsize + i] := piece[i];
      }
      leftsize := leftsize + |piece|;
      assert left[..leftsize] == s.pending + piece && out[..] == old(out[..]);
      ok, written := true, 0;
      if leftsize == 16 {
        assert left[..] == left[..leftsize];
        ok := ProcessBlock(out, pos, room, flag);
        assert left[..16] == left[..];
        if ok && WayIsWriting(flag) {
          written := 16;
        }
        assert ok ==> left[..0] == [];
      }
    }

    function WayIsWriting(flag: int): (b: bool)
      ensures b == (WayOf(flag) != Mac)
    {
      flag == 0 || flag == 1
    }

    /** What has been done after `at` bytes of an update that started in `s0`. */
    ghost predicate Done(input: seq<byte>, at: nat, out: array<byte>, pos: nat, outlen: nat, written: nat, way: Way,
        s0: Stream, before: seq<byte>)
      requires Valid() && at <= |input| && pos + outlen <= |before|
      reads this, ivtmp, left, out
    {
      var o := UpdateOut(t, key, ModeOf(), way, s0, input[..at]);
      && State() == UpdateTo(t, key, ModeOf(), way, s0, input[..at])
      && written == |o| <= outlen && out[..] == Splice(before, pos, o)
    }

    lemma DoneAll(input: seq<byte>, out: array<byte>, pos: nat, outlen: nat, written: nat, way: Way,
        s0: Stream, before: seq<byte>)
      requires Valid() && pos + outlen <= |before| && Done(input, |input|, out, pos, outlen, written, way, s0, before)
      ensures var o := UpdateOut(t, key, ModeOf(), way, s0, input);
              && State() == UpdateTo(t, key, ModeOf(), way, s0, input)
              && written == |o| <= outlen && out[..] == Splice(before, pos, o)
              && (way != Mac ==> Cut(|s0.pending| + |input|) <= outlen)
    {
      hide UpdateTo, UpdateOut, Splice, Cut, BlockOf;
      assert input[..|input|] == input;
      Fits(t, key, ModeOf(), way, s0, input);
    }

    /** One turn of the loop of `sm4_UpdateBlock`. */
    method Turn(input: seq<byte>, at: nat, out: array<byte>, pos: nat, outlen: nat, written: nat, flag: int,
        ghost s0: Stream, ghost before: seq<byte>)
      returns (ok: bool, nUsed: nat, n: nat)
      requires Valid() && leftsize < 16 && out != left && pos + outlen <= out.Length == |before|
      requires (flag == 1 ==> 0 <= mode <= 1) && at < |input| && written <= outlen && |s0.pending| <= 16
      requires Done(input, at, out, pos, outlen, written, WayOf(flag), s0, before)
      modifies this`leftsize, ivtmp, left, out
      ensures Valid()
      ensures ok ==> leftsize < 16 && 0 < nUsed <= |input| - at && written + n <= outlen
      ensures ok ==> Done(input, at + nUsed, out, pos, outlen, written + n, WayOf(flag), s0, before)
      ensures !ok ==> WayOf(flag) != Mac && Cut(|s0.pending| + |input|) > outlen
      ensures !ok ==>
                var o := UpdateOut(t, key, ModeOf(), WayOf(flag), s0, input);
                && Cut(outlen) + 16 <= |o| && out[..] == Splice(before, pos, o[..Cut(outlen)])
                && State() == StuckAt(t, key, ModeOf(), WayOf(flag), s0, input, Cut(outlen))
    {
      hide UpdateTo, UpdateOut, Splice, WayOf, Cut, Stuck, StuckAt, BlockOf;
      ghost var m, w := ModeOf(), WayOf(flag);
      nUsed := if leftsize > 0 then 16 - leftsize else 16;
      if nUsed > |input| - at {
        nUsed := |input| - at;
      }
      var piece := input[at..at + nUsed];
      UpdateMore(t, key, m, w, s0, input, at, nUsed, before, pos, outlen);
      ok, n := Absorb(piece, out, pos + written, outlen - written, flag);
      if !ok {
        TooLong(t, key, m, w, s0, input, at, nUsed, outlen);
        GotStuck(t, key, m, w, s0, input, at, nUsed, outlen);
      }
    }

    /** The first turn of that loop when a complete block is kept: it takes no bytes. */
    method KeptBlock(input: seq<byte>, out: array<byte>, pos: nat, outlen: nat, flag: int)
        returns (ok: bool, written: nat)
      requires Valid() && out != left && pos + outlen <= out.Length && input != []
      requires flag == 1 ==> 0 <= mode <= 1
      modifies this`leftsize, ivtmp, left, out
      ensures Valid()
      ensures ok ==> leftsize < 16 && written <= outlen
      ensures ok ==> Done(input, 0, out, pos, outlen, written, WayOf(flag), old(State()), old(out[..]))
      ensures !ok ==> WayOf(flag) != Mac && Cut(old(leftsize) + |input|) > outlen
      ensures !ok ==>
                var o := UpdateOut(t, key, ModeOf(), WayOf(flag), old(State()), input);
                && Cut(outlen) + 16 <= |o| && out[..] == Splice(old(out[..]), pos, o[..Cut(outlen)])
                && State() == StuckAt(t, key, ModeOf(), WayOf(flag), old(State()), input, Cut(outlen))
    {
      hide UpdateTo, UpdateOut, Splice, WayOf, Cut, Stuck, StuckAt, BlockOf;
      ghost var s0, before := State(), out[..];
      assert input[..0] == [];
      if leftsize == 16 {
        ok, written := Absorb([], out, pos, outlen, flag);
        if !ok {
          StuckAgain(t, key, ModeOf(), WayOf(flag), s0, input, before, pos, outlen);
        }
      } else {
        UpdateNothing(t, key, ModeOf(), WayOf(flag), s0);
        SpliceNothing(before, pos);
        ok, written := true, 0;
      }
    }

    /**
      `sm4_UpdateBlock`. It fails with 2 exactly when the blocks completed by this input do not
      fit the buffer: then it has written those that fit and is stuck with the next one. Otherwise
      it has written them all and keeps the rest for the next call. An object that is stuck
      processes the block it keeps once more, before it takes any byte of a new input.
     */
    method Update(input: seq<byte>, out: array<byte>, pos: nat, outlen: nat, flag: int)
        returns (code: int, written: nat)
      requires Valid() && out != left && pos + outlen <= out.Length
      requires flag == 1 ==> 0 <= mode <= 1
      modifies this`leftsize, ivtmp, left, out
      ensures Valid()
      ensures input == [] ==> code == 0 && written == 0 && State() == old(State()) && out[..] == old(out[..])
      ensures input != [] || old(leftsize) < 16 ==>
                code == if WayOf(flag) != Mac && Cut(old(leftsize) + |input|) > outlen then 2 else 0
      ensures (input != [] || old(leftsize) < 16) && code == 0 ==>
                var o := UpdateOut(t, key, ModeOf(), WayOf(flag), old(State()), input);
                && leftsize < 16 && State() == UpdateTo(t, key, ModeOf(), WayOf(flag), old(State()), input)
                && written == |o| <= outlen && out[..] == Splice(old(out[..]), pos, o)
      ensures code == 2 ==>
                var o := UpdateOut(t, key, ModeOf(), WayOf(flag), old(State()), input);
                && Cut(outlen) + 16 <= |o| && out[..] == Splice(old(out[..]), pos, o[..Cut(outlen)])
                && State() == StuckAt(t, key, ModeOf(), WayOf(flag), old(State()), input, Cut(outlen))
    {
      hide UpdateTo, UpdateOut, Splice, WayOf, Cut, Stuck, StuckAt, BlockOf, Done;
      if input == [] {
        if leftsize < 16 {
          UpdateNothing(t, key, ModeOf(), WayOf(flag), State());
          SpliceNothing(out[..], pos);
          CutSmall(leftsize);
        }
        return 0, 0;
      }
      ghost var s0, before := State(), out[..];
      var at := 0;
      var ok;
      ok, written := KeptBlock(input, out, pos, outlen, flag);
      if !ok {
        return 2, 0;
      }
      while at < |input|
        invariant 0 <= at <= |input| && Valid() && leftsize < 16
        invariant 0 <= written <= outlen && Done(input, at, out, pos, outlen, written, WayOf(flag), s0, before)
      {
        var nUsed, n;
        ok, nUsed, n := Turn(input, at, out, pos, outlen, written, flag, s0, before);
        if !ok {
          return 2, 0;
        }
        written := written + n;
        at := at + nUsed;
      }
      DoneAll(input, out, pos, outlen, written, WayOf(flag), s0, before);
      return 0, written;
    }

    /** The last block while encrypting or chaining: complete it, mix it in, run the cipher. */
    method SealBlock(nUsed: nat, flag: int)
      requires Valid() && nUsed <= 16 && flag != 1
      modifies ivtmp, left
      ensures Valid()
      ensures BlockOf(ivtmp[..])
              == EncStep(t, key, ModeOf(), old(BlockOf(ivtmp[..])), Sealed(old(left[..nUsed]), padtype, flag))
    {
      hide ToBlock, Crypt, Xor, ToByte;
      var nPad := 0;
      if padtype != 0 && flag == 0 {
        nPad := 16 - nUsed;
      }
      ghost var d := left[..nUsed];
      forall i | nUsed <= i < 16 {
        left[i] := ToByte(nPad);
      }
      assert left[..] == d + Fill(16 - nUsed, ToByte(nPad));
      if mode == 0 {
        Load(left[..], ivtmp);
        CryptInPlace(t, key.erk, ivtmp);
      } else {
        EncryptChained(t, key, left[..], ivtmp);
      }
    }

    /**
      `sm4_FinalBlock` while encrypting or chaining: 1 when the given bytes do not fit the pending
      block, 2 when there is no room for the result, else the completed last block or the MAC. A
      MAC comes out even of an empty rest, and zero padding writes nothing then.
     */
    method Finish(input: seq<byte>, out: array<byte>, pos: nat, outlen: nat, flag: int)
        returns (code: int, written: nat)
      requires Valid() && leftsize < 16 && flag != 1 && out != left && pos + outlen <= out.Length
      modifies ivtmp, left, out
      ensures Valid()
      ensures leftsize + |input| > 16 ==> code == 1
      ensures leftsize + |input| <= 16 ==>
                var o := FinalBytes(t, key, ModeOf(), padtype, flag, old(State()), input);
                if outlen < |o| then code == 2
                else code == 0 && written == |o| && out[..] == Splice(old(out[..]), pos, o)
      ensures code != 0 ==> out[..] == old(out[..])
    {
      hide ToBytes, Splice, EncStep, Sealed;
      SpliceNothing(out[..], pos);
      var nUsed := |input| + leftsize;
      if nUsed > 16 {
        return 1, 0;
      }
      ghost var s := State();
      if nUsed == 0 {
        assert s.pending + input == [];
        if flag == 2 {
          if outlen < 16 {
            return 2, 0;
          }
          Store(BlockOf(ivtmp[..]), out, pos);
          return 0, 16;
        } else if padtype == 0 {
          return 0, 0;
        }
      }
      forall i | 0 <= i < |input| {
        left[leftsize + i] := input[i];
      }
      assert left[..nUsed] == s.pending + input && out[..] == old(out[..]);
      SealBlock(nUsed, flag);
      if outlen < 16 {
        return 2, 0;
      }
      Store(BlockOf(ivtmp[..]), out, pos);
      return 0, 16;
    }

    /** The last block decrypted into a buffer of its own. */
    method DecryptLast() returns (tmpOut: array<byte>)
      requires Valid()
      ensures fresh(tmpOut) && tmpOut.Length == 16
      ensures tmpOut[..] == ToBytes(DecStep(t, key, ModeOf(), BlockOf(ivtmp[..]), left[..]))
    {
      hide ToBytes, DecStep, Splice, BlockOf;
      var saved := new word[4](_ => 0);
      var p := DecryptOne(t, key, ModeOf(), left[..], ivtmp, saved);
      tmpOut := new byte[16](_ => 0);
      ghost var blank := tmpOut[..];
      Store(p, tmpOut, 0);
      WholeSplice(blank, tmpOut[..], ToBytes(p));
    }

    /**
      `sm4_FinalBlock` while decrypting: 1 unless the given bytes complete exactly one block (or
      there is nothing at all and no padding to remove), then the padding check's code, or 2 when
      the plain bytes do not fit.
     */
    method FinishDecrypt(input: seq<byte>, out: array<byte>, pos: nat, outlen: nat) returns (code: int, written: nat)
      requires Valid() && leftsize < 16 && 0 <= padtype <= 1
      requires out != left && pos + outlen <= out.Length
      modifies left, out
      ensures Valid()
      ensures leftsize + |input| != 16 ==> out[..] == old(out[..])
      ensures leftsize + |input| != 16 ==> code == if leftsize + |input| == 0 && padtype == 0 then 0 else 1
      ensures leftsize + |input| == 16 ==>
                match FinalDecrypt(t, key, ModeOf(), padtype, old(State()), input)
                case Error(e) => code == e && out[..] == old(out[..])
                case Data(p) =>
                  if outlen < |p| then code == 2 && out[..] == old(out[..])
                  else code == 0 && written == |p| && out[..] == Splice(old(out[..]), pos, p)
    {
      hide ToBytes, DecStep, Splice, Unpad;
      if leftsize + |input| == 0 && padtype == 0 {
        return 0, 0;
      }
      if leftsize + |input| != 16 {
        return 1, 0;
      }
      ghost var s := State();
      forall i | 0 <= i < |input| {
        left[leftsize + i] := input[i];
      }
      assert left[..] == s.pending + input && out[..] == old(out[..]);
      var tmpOut := DecryptLast();
      assert tmpOut[..16] == tmpOut[..];
      var nPad;
      code, nPad := CheckPadding(tmpOut, 16, padtype);
      if code != 0 {
        return code, 0;
      }
      if outlen < 16 - nPad {
        return 2, 0;
      }
      var plain := tmpOut[..16 - nPad];
      CopyOut(plain, out, pos);
      return 0, 16 - nPad;
    }
  }

  method CopyOut(d: seq<byte>, out: array<byte>, pos: nat)
    requires pos + |d| <= out.Length
    modifies out
    ensures out[..] == Splice(old(out[..]), pos, d)
  {
    forall i | 0 <= i < |d| {
      out[pos + i] := d[i];
    }
  }

  lemma WholeSplice(before: seq<byte>, after: seq<byte>, d: seq<byte>)
    requires |before| == |d| && after == Splice(before, 0, d)
    ensures after == d
  {
  }

  /** The last block as `sm4_FinalBlock` completes it. */
  function Sealed(d: seq<byte>, padtype: int, flag: int): (b: seq<byte>)
    requires |d| <= 16
    ensures |b| == 16
  {
    var n := 16 - |d|;
    d + Fill(n, ToByte(if padtype != 0 && flag == 0 then n else 0))
  }

  /** What the final call writes when it does not decrypt. */
  function FinalBytes(t: Tables, k: Key, mode: Mode, padtype: int, flag: int, s: Stream,
      input: seq<byte>): (o: seq<byte>)
    requires |s.pending| + |input| <= 16
  {
    var d := s.pending + input;
    if d == [] && flag == 2 then ToBytes(s.iv)
    else if d == [] && padtype == 0 then []
    else ToBytes(EncStep(t, k, mode, s.iv, Sealed(d, padtype, flag)))
  }

  /** Without further input these are the padded last block and the MAC. */
  lemma FinalMeans(t: Tables, k: Key, mode: Mode, padtype: int, s: Stream)
    requires |s.pending| < 16
    ensures FinalBytes(t, k, mode, padtype, 0, s, []) == FinalEncrypt(t, k, mode, padtype, s)
    ensures FinalBytes(t, k, mode, padtype, 2, s, []) == FinalMac(t, k, mode, s)
  {
    hide Enc, EncIv, Dec, DecIv, EncStep, ToBytes, Padded, Sealed, ZeroFilled;
    assert s.pending + [] == s.pending;
    SealedShape(s.pending, padtype, 0);
    SealedShape(s.pending, padtype, 2);
    OneBlock(t, k, mode, s.iv, Sealed(s.pending, padtype, 0));
  }

  lemma SealedShape(d: seq<byte>, padtype: int, flag: int)
    requires |d| < 16
    ensures flag == 0 && (padtype != 0 || d != []) ==> Padded(padtype, d) == Sealed(d, padtype, flag)
    ensures flag != 0 ==> ZeroFilled(d) == Sealed(d, padtype, flag)
  {
    hide ToByte;
    ToByteZero();
  }

  /**
    Giving bytes to the final call is the same as an update with them before it, unless they
    complete the block while encrypting with counted padding: then the final call writes that
    block alone, and the block of padding is lost.
   */
  lemma FinalInputExactly(t: Tables, k: Key, mode: Mode, padtype: int, flag: int, s: Stream, input: seq<byte>)
    requires |s.pending| < 16 && |s.pending| + |input| <= 16 && (flag == 0 || flag == 2)
    ensures var s1 := UpdateTo(t, k, mode, WayOf(flag), s, input);
            && |s1.pending| < 16
            && (FinalBytes(t, k, mode, padtype, flag, s, input)
                == UpdateOut(t, k, mode, WayOf(flag), s, input) + FinalBytes(t, k, mode, padtype, flag, s1, [])
                <==> |s.pending| + |input| < 16 || flag == 2 || padtype == 0)
  {
    hide UpdateTo, UpdateOut, FinalBytes, Written, Chained, Enc, EncIv;
    var d, way := s.pending + input, WayOf(flag);
    PieceUpdate(t, k, mode, way, s, input);
    if |d| < 16 {
      var o := FinalBytes(t, k, mode, padtype, flag, s, input);
      SameFinal(t, k, mode, padtype, flag, s, input);
      assert [] + o == o;
    } else {
      FullFinal(t, k, mode, padtype, flag, s, input);
    }
  }

  lemma SameFinal(t: Tables, k: Key, mode: Mode, padtype: int, flag: int, s: Stream, input: seq<byte>)
    requires |s.pending| + |input| < 16
    ensures FinalBytes(t, k, mode, padtype, flag, Stream(s.iv, s.pending + input), [])
            == FinalBytes(t, k, mode, padtype, flag, s, input)
  {
    hide EncStep, ToBytes, Sealed;
    assert s.pending + input + [] == s.pending + input;
  }

  /** The bytes complete the block. */
  lemma FullFinal(t: Tables, k: Key, mode: Mode, padtype: int, flag: int, s: Stream, input: seq<byte>)
    requires |s.pending| + |input| == 16 && (flag == 0 || flag == 2)
    ensures var d, way := s.pending + input, WayOf(flag);
            FinalBytes(t, k, mode, padtype, flag, s, input)
            == Written(t, k, mode, way, s.iv, d)
               + FinalBytes(t, k, mode, padtype, flag, Stream(Chained(t, k, mode, way, s.iv, d), []), [])
            <==> flag == 2 || padtype == 0
  {
    hide Enc, EncIv, Dec, DecIv, EncStep, ToBytes, Sealed;
    var d := s.pending + input;
    OneBlock(t, k, mode, s.iv, d);
    SealedFull(d, padtype, flag);
    var b := ToBytes(EncStep(t, k, mode, s.iv, d));
    var o := FinalBytes(t, k, mode, padtype, flag, Stream(Chained(t, k, mode, WayOf(flag), s.iv, d), []), []);
    assert b + [] == b && [] + b == b;
    assert flag == 0 && padtype != 0 ==> |b + o| == 32;
  }

  lemma SealedFull(d: seq<byte>, padtype: int, flag: int)
    requires |d| == 16
    ensures Sealed(d, padtype, flag) == d
  {
    hide ToByte;
  }

  /** What an update with at most the rest of a block does. */
  lemma PieceUpdate(t: Tables, k: Key, mode: Mode, way: Way, s: Stream, x: seq<byte>)
    requires |s.pending| + |x| <= 16
    ensures |s.pending| + |x| < 16 ==>
              && UpdateOut(t, k, mode, way, s, x) == []
              && UpdateTo(t, k, mode, way, s, x) == Stream(s.iv, s.pending + x)
    ensures |s.pending| + |x| == 16 ==>
              && UpdateOut(t, k, mode, way, s, x) == Written(t, k, mode, way, s.iv, s.pending + x)
              && UpdateTo(t, k, mode, way, s, x) == Stream(Chained(t, k, mode, way, s.iv, s.pending + x), [])
  {
    hide Written, Chained, Cut;
    var all := s.pending + x;
    CutSmall(|all|);
    if |all| < 16 {
      assert all[..0] == [] && all[0..] == all;
      NothingWritten(t, k, mode, way, s.iv);
    } else {
      assert all[..16] == all && all[16..] == [];
    }
  }

  lemma CutSmall(n: nat)
    ensures n < 16 ==> Cut(n) == 0
    ensures n == 16 ==> Cut(n) == 16
  {
  }

  lemma NothingWritten(t: Tables, k: Key, mode: Mode, way: Way, iv: Block)
    ensures Written(t, k, mode, way, iv, []) == [] && Chained(t, k, mode, way, iv, []) == iv
  {
    hide Enc, EncIv, Dec, DecIv;
    NoBlocks(t, k, mode, iv);
  }

  /** What one more piece adds to the output and the state. */
  lemma UpdateMore(t: Tables, k: Key, mode: Mode, way: Way, s: Stream, input: seq<byte>, at: nat, n: nat,
      before: seq<byte>, pos: nat, outlen: nat)
    requires at + n <= |input| && pos + outlen <= |before|
    ensures var s1, o1 := UpdateTo(t, k, mode, way, s, input[..at]), UpdateOut(t, k, mode, way, s, input[..at]);
            var o2 := UpdateOut(t, k, mode, way, s1, input[at..at + n]);
            && UpdateTo(t, k, mode, way, s, input[..at + n]) == UpdateTo(t, k, mode, way, s1, input[at..at + n])
            && |UpdateOut(t, k, mode, way, s, input[..at + n])| == |o1| + |o2|
            && (|o1| + |o2| <= outlen ==>
                  Splice(Splice(before, pos, o1), pos + |o1|, o2)
                      == Splice(before, pos, UpdateOut(t, k, mode, way, s, input[..at + n])))
  {
    hide UpdateTo, UpdateOut, Splice;
    SliceJoin(input, 0, at, at + n);
    assert input[0..at] == input[..at] && input[0..at + n] == input[..at + n];
    UpdateTwice(t, k, mode, way, s, input[..at], input[at..at + n]);
    var s1, o1 := UpdateTo(t, k, mode, way, s, input[..at]), UpdateOut(t, k, mode, way, s, input[..at]);
    var o2 := UpdateOut(t, k, mode, way, s1, input[at..at + n]);
    if |o1| + |o2| <= outlen {
      SpliceTwice(before, pos, o1, o2);
    }
  }

  /** When a completed block does not fit, neither does the whole input. */
  lemma TooLong(t: Tables, k: Key, mode: Mode, way: Way, s: Stream, input: seq<byte>, at: nat, n: nat, outlen: nat)
    requires at + n <= |input| && way != Mac
    requires |UpdateTo(t, k, mode, way, s, input[..at]).pending| + n == 16
    requires outlen - |UpdateOut(t, k, mode, way, s, input[..at])| < 16
    ensures Cut(|s.pending| + |input|) > outlen
  {
    hide UpdateTo, UpdateOut;
  }

  /** An object that could not write a completed block: it keeps the block, and has chained it unless it decrypts. */
  function Stuck(t: Tables, k: Key, mode: Mode, way: Way, s: Stream, x: seq<byte>): (s': Stream)
    requires |s.pending| + |x| == 16
  {
    var d := s.pending + x;
    Stream(if way == Decrypt then s.iv else Chained(t, k, mode, way, s.iv, d), d)
  }

  /** The same after `n` bytes have been processed. */
  function StuckAt(t: Tables, k: Key, mode: Mode, way: Way, s: Stream, input: seq<byte>, n: nat): (s': Stream)
    requires n % 16 == 0 && n + 16 <= |s.pending| + |input|
  {
    var all := s.pending + input;
    Stream(Chained(t, k, mode, way, s.iv, all[..if way == Decrypt then n else n + 16]), all[n..n + 16])
  }

  /** Where an update stops when the next block does not fit. */
  lemma GotStuck(t: Tables, k: Key, mode: Mode, way: Way, s: Stream, input: seq<byte>, at: nat, n: nat, outlen: nat)
    requires at + n <= |input| && way != Mac
    requires |UpdateTo(t, k, mode, way, s, input[..at]).pending| + n == 16
    requires |UpdateOut(t, k, mode, way, s, input[..at])| <= outlen < |UpdateOut(t, k, mode, way, s, input[..at])| + 16
    ensures var o := UpdateOut(t, k, mode, way, s, input);
            && Cut(outlen) + 16 <= |o| && o[..Cut(outlen)] == UpdateOut(t, k, mode, way, s, input[..at])
            && Cut(outlen) + 16 <= |s.pending| + |input|
            && Stuck(t, k, mode, way, UpdateTo(t, k, mode, way, s, input[..at]), input[at..at + n])
               == StuckAt(t, k, mode, way, s, input, Cut(outlen))
  {
    hide UpdateTo, UpdateOut, Written, Chained, Cut, Stuck, StuckAt;
    var a, rest := input[..at], input[at..];
    assert input == a + rest;
    UpdateTwice(t, k, mode, way, s, a, rest);
    UpdatePosition(t, k, mode, way, s, input, at, n, outlen);
    PrefixOf(UpdateOut(t, k, mode, way, s, a), UpdateOut(t, k, mode, way, UpdateTo(t, k, mode, way, s, a), rest));
    StuckState(t, k, mode, way, s, input, at, n, Cut(outlen));
  }

  lemma PrefixOf(a: seq<byte>, b: seq<byte>)
    ensures (a + b)[..|a|] == a
  {
  }

  lemma StuckState(t: Tables, k: Key, mode: Mode, way: Way, s: Stream, input: seq<byte>, at: nat, n: nat, c: nat)
    requires at + n <= |input| && c % 16 == 0 && c + 16 == |s.pending| + at + n && n <= 16
    requires var all := s.pending + input;
             UpdateTo(t, k, mode, way, s, input[..at])
                 == Stream(Chained(t, k, mode, way, s.iv, all[..c]), all[c..c + 16 - n])
    ensures Stuck(t, k, mode, way, UpdateTo(t, k, mode, way, s, input[..at]), input[at..at + n])
            == StuckAt(t, k, mode, way, s, input, c)
  {
    hide UpdateTo, Written, Chained;
    var all := s.pending + input;
    SliceBehind(s.pending, input, at, at + n);
    assert |s.pending| + at == c + 16 - n;
    SliceJoin(all, c, c + 16 - n, c + 16);
    SliceJoin(all, 0, c, c + 16);
    assert all[0..c] == all[..c] && all[0..c + 16] == all[..c + 16];
    WrittenAppend(t, k, mode, way, s.iv, all[..c], all[c..c + 16]);
  }

  lemma UpdatePosition(t: Tables, k: Key, mode: Mode, way: Way, s: Stream, input: seq<byte>, at: nat, n: nat,
      outlen: nat)
    requires at + n <= |input| && way != Mac
    requires |UpdateTo(t, k, mode, way, s, input[..at]).pending| + n == 16
    requires |UpdateOut(t, k, mode, way, s, input[..at])| <= outlen < |UpdateOut(t, k, mode, way, s, input[..at])| + 16
    ensures var c, all := Cut(outlen), s.pending + input;
            && |UpdateOut(t, k, mode, way, s, input[..at])| == c && c + 16 <= |all|
            && c + 16 <= |UpdateOut(t, k, mode, way, s, input)|
            && UpdateTo(t, k, mode, way, s, input[..at])
                == Stream(Chained(t, k, mode, way, s.iv, all[..c]), all[c..c + 16 - n])
            && c + 16 - n == |s.pending| + at
  {
    hide Written, Chained;
    var c, all, part := Cut(outlen), s.pending + input, s.pending + input[..at];
    CutUnique(|part|, outlen);
    assert part == all[..|part|];
    assert part[..c] == all[..c] && part[c..] == all[c..|part|];
    CutEnough(|all|, c);
  }

  lemma CutUnique(p: nat, outlen: nat)
    requires Cut(p) <= outlen < Cut(p) + 16
    ensures Cut(p) == Cut(outlen)
  {
  }

  lemma CutEnough(n: nat, c: nat)
    requires c % 16 == 0 && c + 16 <= n
    ensures Cut(n) >= c + 16
  {
  }

  lemma Fits(t: Tables, k: Key, mode: Mode, way: Way, s: Stream, input: seq<byte>)
    ensures way != Mac ==> |UpdateOut(t, k, mode, way, s, input)| == Cut(|s.pending| + |input|)
  {
    hide Written, Cut;
  }

  /** The block that is kept does not fit once more. */
  lemma StuckAgain(t: Tables, k: Key, mode: Mode, way: Way, s: Stream, input: seq<byte>, before: seq<byte>, pos: nat,
      outlen: nat)
    requires |s.pending| == 16 && outlen < 16 && pos + outlen <= |before| && way != Mac
    ensures var o := UpdateOut(t, k, mode, way, s, input);
            && Cut(outlen) == 0 && |o| >= 16 && Cut(|s.pending| + |input|) >= 16
                && Splice(before, pos, o[..0]) == before
            && Stuck(t, k, mode, way, s, []) == StuckAt(t, k, mode, way, s, input, 0)
  {
    hide UpdateOut, Written, Chained, Splice;
    CutSmall(outlen);
    CutEnough(|s.pending| + |input|, 0);
    Fits(t, k, mode, way, s, input);
    SpliceNothing(before, pos);
    assert UpdateOut(t, k, mode, way, s, input)[..0] == [];
    var d, all := s.pending + [], s.pending + input;
    assert d == s.pending && all[0..16] == d && all[..16] == d && all[..0] == [];
    NothingWritten(t, k, mode, way, s.iv);
  }

  // ---------------------------------------------------------------- trying again

  lemma XorSwap(a: Block, b: Block)
    ensures Xor(a, b) == Xor(b, a)
  {
    hide Xor32;
    XorSwapWord(a.w0, b.w0);
    XorSwapWord(a.w1, b.w1);
    XorSwapWord(a.w2, b.w2);
    XorSwapWord(a.w3, b.w3);
  }

  lemma XorSwapWord(a: word, b: word)
    ensures Xor32(a, b) == Xor32(b, a)
  {
  }

  /** Chaining from different values gives different blocks. */
  lemma ChainInjective(t: Tables, k: Key, v: Block, w: Block, d: seq<byte>)
    requires ValidKey(k) && |d| == 16
    ensures EncStep(t, k, CBC, v, d) == EncStep(t, k, CBC, w, d) <==> v == w
  {
    hide ToBlock, Xor, Crypt, Reverse;
    var k2, b := Key(k.erk, Reverse(k.erk)), ToBlock(d);
    DecryptEncrypt(t, k2, Xor(b, v));
    DecryptEncrypt(t, k2, Xor(b, w));
    XorSwap(b, v);
    XorSwap(b, w);
    XorTwice(v, b);
    XorTwice(w, b);
  }

  /** Where an ECB encryption starts does not show behind its first block. */
  lemma EcbChained(t: Tables, k: Key, v: Block, w: Block, d: seq<byte>, rest: seq<byte>)
    requires |d| == 16 && Whole(rest)
    ensures Whole(d + rest)
    ensures Enc(t, k, ECB, v, d + rest) == Enc(t, k, ECB, w, d + rest)
    ensures EncIv(t, k, ECB, v, d + rest) == EncIv(t, k, ECB, w, d + rest)
  {
    hide Enc, EncIv, EncryptBlock, ToBlock, ToBytes;
    EncHead(t, k, ECB, v, d, rest);
    EncHead(t, k, ECB, w, d, rest);
  }

  lemma CbcDiffers(t: Tables, k: Key, v: Block, w: Block, d: seq<byte>, rest: seq<byte>)
    requires ValidKey(k) && |d| == 16 && Whole(rest)
    ensures Whole(d + rest)
    ensures Enc(t, k, CBC, v, d + rest) == Enc(t, k, CBC, w, d + rest) <==> v == w
  {
    hide Enc, EncIv, EncStep, ToBlock, ToBytes;
    EncHead(t, k, CBC, v, d, rest);
    EncHead(t, k, CBC, w, d, rest);
    ChainInjective(t, k, v, w, d);
    var a, b := EncStep(t, k, CBC, v, d), EncStep(t, k, CBC, w, d);
    BlockBytes(a);
    BlockBytes(b);
    PrefixOf(ToBytes(a), Enc(t, k, CBC, a, rest));
    PrefixOf(ToBytes(b), Enc(t, k, CBC, b, rest));
  }

  /** Another update of a stuck object sees the same bytes, from another chaining value. */
  lemma RetrySplits(s: Stream, x: seq<byte>, y: seq<byte>, v: Block)
    requires |s.pending| + |x| == 16
    ensures var d, all := s.pending + x, s.pending + (x + y);
            && d + y == all && |Front(all)| >= 16 && Front(all)[..16] == d && Whole(Front(all)[16..])
            && Front(all) == d + Front(all)[16..]
  {
    var d, all := s.pending + x, s.pending + (x + y);
    assert d + y == all;
    CutEnough(|all|, 0);
    assert Front(all)[..16] == d;
  }

  /**
    An object that is stuck goes on correctly, with the bytes that follow and enough room, if and
    only if it decrypts, or the mode is ECB, or the cipher happened to map the block to the chaining
    value it was mixed with: chaining encrypts the block a second time.
   */
  lemma RetryExactly(t: Tables, k: Key, mode: Mode, way: Way, s: Stream, x: seq<byte>, y: seq<byte>)
    requires ValidKey(k) && |s.pending| + |x| == 16 && way != Mac
    ensures var s1 := Stuck(t, k, mode, way, s, x);
            (&& UpdateOut(t, k, mode, way, s1, y) == UpdateOut(t, k, mode, way, s, x + y)
             && UpdateTo(t, k, mode, way, s1, y) == UpdateTo(t, k, mode, way, s, x + y))
            <==> way == Decrypt || mode == ECB || EncStep(t, k, mode, s.iv, s.pending + x) == s.iv
  {
    hide Enc, EncIv, Dec, DecIv, EncStep, Front, Back;
    var d, all := s.pending + x, s.pending + (x + y);
    RetrySplits(s, x, y, s.iv);
    if way == Encrypt {
      var rest := Front(all)[16..];
      OneBlock(t, k, mode, s.iv, d);
      var v := EncStep(t, k, mode, s.iv, d);
      if mode == ECB {
        EcbChained(t, k, s.iv, v, d, rest);
      } else {
        CbcDiffers(t, k, s.iv, v, d, rest);
      }
    }
  }
}
