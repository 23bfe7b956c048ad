/**
  The SM4 block cipher of public/sm/sm4.cpp: byte order helpers, round function, key schedule and
  the 32-step network, each with the loop the source runs. The S-box and the constants FK and CK
  are parameters, so every statement here holds for any contents of those tables.
 */
module Sm4Cipher {
  import opened Common

  type word = bv32

  datatype Tables = Tables(sbox: byte -> byte, fk: seq<word>, ck: seq<word>)

  predicate ValidTables(t: Tables) {
    |t.fk| == 4 && |t.ck| == 32
  }

  datatype Block = Block(w0: word, w1: word, w2: word, w3: word)

  /** `SM4_KEY`: the round keys for either direction. */
  datatype Key = Key(erk: seq<word>, drk: seq<word>)

  predicate ValidKey(k: Key) {
    |k.erk| == 32 && |k.drk| == 32
  }

  /** A key that can decrypt what it encrypts, as `sm4_SetKey` with a non-zero flag makes it. */
  predicate TwoWay(k: Key) {
    ValidKey(k) && k.drk == Reverse(k.erk)
  }

  // ---------------------------------------------------------------- bytes and words

  /** `_GetBE32`. */
  function GetBE32(d: seq<byte>): (w: word)
    requires |d| == 4
  {
    (d[0] as word << 24) | (d[1] as word << 16) | (d[2] as word << 8) | d[3] as word
  }

  /** `_PutBE32`. */
  function PutBE32(a: word): (d: seq<byte>)
    ensures |d| == 4
  {
    [((a >> 24) & 0xff) as byte, ((a >> 16) & 0xff) as byte, ((a >> 8) & 0xff) as byte, (a & 0xff) as byte]
  }

  lemma GetPut(a: word)
    ensures GetBE32(PutBE32(a)) == a
  {
  }

  lemma PutGet(d: seq<byte>)
    requires |d| == 4
    ensures PutBE32(GetBE32(d)) == d
  {
    hide PutBE32, GetBE32;
    assert d == [d[0], d[1], d[2], d[3]];
    PutGetBytes(d[0], d[1], d[2], d[3]);
  }

  lemma PutGetBytes(a: byte, b: byte, c: byte, d: byte)
    ensures PutBE32(GetBE32([a, b, c, d])) == [a, b, c, d]
  {
  }

  function ToBlock(d: seq<byte>): (b: Block)
    requires |d| == 16
  {
    Block(GetBE32(d[0..4]), GetBE32(d[4..8]), GetBE32(d[8..12]), GetBE32(d[12..16]))
  }

  function ToBytes(b: Block): (d: seq<byte>)
    ensures |d| == 16
  {
    PutBE32(b.w0) + PutBE32(b.w1) + PutBE32(b.w2) + PutBE32(b.w3)
  }

  lemma BlockBytes(b: Block)
    ensures ToBlock(ToBytes(b)) == b
  {
    hide PutBE32, GetBE32;
    var d := ToBytes(b);
    assert d[0..4] == PutBE32(b.w0) && d[4..8] == PutBE32(b.w1);
    assert d[8..12] == PutBE32(b.w2) && d[12..16] == PutBE32(b.w3);
    GetPut(b.w0);
    GetPut(b.w1);
    GetPut(b.w2);
    GetPut(b.w3);
  }

  lemma BytesBlock(d: seq<byte>)
    requires |d| == 16
    ensures ToBytes(ToBlock(d)) == d
  {
    hide PutBE32, GetBE32;
    PutGet(d[0..4]);
    PutGet(d[4..8]);
    PutGet(d[8..12]);
    PutGet(d[12..16]);
    assert d[0..4] + d[4..8] + d[8..12] + d[12..16] == d;
  }

  function Xor(a: Block, b: Block): (c: Block) {
    Block(Xor32(a.w0, b.w0), Xor32(a.w1, b.w1), Xor32(a.w2, b.w2), Xor32(a.w3, b.w3))
  }

  lemma XorTwice(a: Block, b: Block)
    ensures Xor(Xor(a, b), b) == a
  {
    hide Xor32;
    XorSelf(a.w0, b.w0);
    XorSelf(a.w1, b.w1);
    XorSelf(a.w2, b.w2);
    XorSelf(a.w3, b.w3);
  }

  // ---------------------------------------------------------------- round functions

  function Xor32(a: word, b: word): (r: word) {
    a ^ b
  }

  function RotateLeft(a: word, k: word): (r: word)
    requires 0 < k < 32
  {
    (a << k) | (a >> (32 - k))
  }

  /** The S-box on each byte of a word. */
  function Substitute(t: Tables, a: word): (b: word) {
    var b0 := t.sbox((a & 0xff) as byte);
    var b1 := t.sbox(((a >> 8) & 0xff) as byte);
    var b2 := t.sbox(((a >> 16) & 0xff) as byte);
    var b3 := t.sbox(((a >> 24) & 0xff) as byte);
    b0 as word | (b1 as word << 8) | (b2 as word << 16) | (b3 as word << 24)
  }

  /** The rotations of `SMS4Lt`. */
  function Spread(b: word): (c: word) {
    Xor32(Xor32(Xor32(Xor32(b, RotateLeft(b, 2)), RotateLeft(b, 10)), RotateLeft(b, 18)), RotateLeft(b, 24))
  }

  /** The rotations of `SMS4CalciRK`. */
  function KeySpread(b: word): (c: word) {
    Xor32(Xor32(b, RotateLeft(b, 13)), RotateLeft(b, 23))
  }

  /** `SMS4Lt`. */
  function Lt(t: Tables, a: word): (c: word) {
    Spread(Substitute(t, a))
  }

  /** `SMS4CalciRK`. */
  function CalciRK(t: Tables, a: word): (c: word) {
    KeySpread(Substitute(t, a))
  }

  function Mix(a: word, b: word, c: word, k: word): (r: word) {
    a ^ b ^ c ^ k
  }

  /** `SMS4F`, with any mixing function: the oldest word is mixed with the other three. */
  function RoundF(f: word -> word, x0: word, x1: word, x2: word, x3: word, rk: word): (y: word) {
    Xor32(x0, f(Mix(x1, x2, x3, rk)))
  }

  lemma RoundBack(f: word -> word, x0: word, x1: word, x2: word, x3: word, rk: word)
    ensures RoundF(f, RoundF(f, x0, x1, x2, x3, rk), x3, x2, x1, rk) == x0
  {
    XorOrder(x1, x2, x3, rk);
    XorSelf(x0, f(Mix(x1, x2, x3, rk)));
    hide Mix, Xor32;
  }

  lemma XorOrder(a: word, b: word, c: word, k: word)
    ensures Mix(c, b, a, k) == Mix(a, b, c, k)
  {
  }

  lemma XorSelf(a: word, b: word)
    ensures Xor32(Xor32(a, b), b) == a
  {
  }

  /** One step of the network. */
  function Step(f: word -> word, rk: word, b: Block): (c: Block) {
    Block(b.w1, b.w2, b.w3, RoundF(f, b.w0, b.w1, b.w2, b.w3, rk))
  }

  function Steps(f: word -> word, rks: seq<word>, b: Block): (c: Block) {
    if rks == [] then b else Steps(f, rks[1..], Step(f, rks[0], b))
  }

  function Flip(b: Block): (c: Block) {
    Block(b.w3, b.w2, b.w1, b.w0)
  }

  function Reverse(s: seq<word>): (r: seq<word>)
    ensures |r| == |s|
  {
    if s == [] then [] else Reverse(s[1..]) + [s[0]]
  }

  lemma {:induction false} ReverseAt(s: seq<word>, i: nat)
    requires i < |s|
    ensures Reverse(s)[i] == s[|s| - 1 - i]
  {
    if i < |s| - 1 {
      ReverseAt(s[1..], i);
    }
  }

  lemma {:induction false} StepsSnoc(f: word -> word, rks: seq<word>, k: word, b: Block)
    ensures Steps(f, rks + [k], b) == Step(f, k, Steps(f, rks, b))
  {
    hide Step;
    if rks == [] {
      assert ([] + [k])[1..] == [];
      assert rks + [k] == [k];
      OneStep(f, k, b);
    } else {
      assert (rks + [k])[1..] == rks[1..] + [k];
      StepsSnoc(f, rks[1..], k, Step(f, rks[0], b));
    }
  }

  lemma OneStep(f: word -> word, k: word, b: Block)
    ensures Steps(f, [k], b) == Step(f, k, b)
  {
    hide Step;
    assert [k][1..] == [];
    assert Steps(f, [], Step(f, k, b)) == Step(f, k, b);
  }

  /** A step undoes itself on the flipped block, whatever the mixing function. */
  lemma StepBack(f: word -> word, k: word, b: Block)
    ensures Step(f, k, Flip(Step(f, k, b))) == Flip(b)
  {
    hide RoundF;
    RoundBack(f, b.w0, b.w1, b.w2, b.w3, k);
  }

  /** Running the steps backwards over the flipped block undoes them. */
  lemma {:induction false} StepsBack(f: word -> word, rks: seq<word>, b: Block)
    ensures Steps(f, Reverse(rks), Flip(Steps(f, rks, b))) == Flip(b)
  {
    hide Step, Flip;
    if rks != [] {
      var k, rest := rks[0], rks[1..];
      var mid := Step(f, k, b);
      StepsBack(f, rest, mid);
      StepsSnoc(f, Reverse(rest), k, Flip(Steps(f, rks, b)));
      StepBack(f, k, b);
    }
  }

  // ---------------------------------------------------------------- the cipher

  /** `sm4_Encrypt_S` and `sm4_Decrypt_S` on one block, with the round keys of one direction. */
  function Crypt(t: Tables, rks: seq<word>, b: Block): (c: Block) {
    Flip(Steps(a => Lt(t, a), rks, b))
  }

  /** The reversed round keys decrypt, for every table, every key and any number of rounds. */
  lemma CryptBack(t: Tables, rks: seq<word>, b: Block)
    ensures Crypt(t, Reverse(rks), Crypt(t, rks, b)) == b
  {
    hide Steps, Lt;
    var f := a => Lt(t, a);
    StepsBack(f, rks, b);
    assert Flip(Flip(b)) == b;
  }

  /** Four consecutive words of a buffer. */
  function Window(s: seq<word>, i: nat): (b: Block)
    requires i + 4 <= |s|
  {
    Block(s[i], s[i + 1], s[i + 2], s[i + 3])
  }

  lemma WindowIs(s: seq<word>, i: nat)
    requires i + 4 <= |s|
    ensures Window(s, i) == Block(s[i], s[i + 1], s[i + 2], s[i + 3])
  {
  }

  /** The step that fills the next word of the buffer. */
  lemma StepsWindow(f: word -> word, rks: seq<word>, i: nat, s: seq<word>)
    requires i < |rks| && i + 5 <= |s| && s[i + 4] == RoundF(f, s[i], s[i + 1], s[i + 2], s[i + 3], rks[i])
    ensures Steps(f, rks[i..], Window(s, i)) == Steps(f, rks[i + 1..], Window(s, i + 1))
  {
    hide RoundF;
    assert rks[i..][1..] == rks[i + 1..];
    assert Step(f, rks[i], Window(s, i)) == Window(s, i + 1);
  }

  lemma NextWindow(f: word -> word, rks: seq<word>, i: nat, s: seq<word>, next: word)
    requires i < |rks| && i + 5 <= |s| && next == RoundF(f, s[i], s[i + 1], s[i + 2], s[i + 3], rks[i])
    ensures Steps(f, rks[i..], Window(s, i)) == Steps(f, rks[i + 1..], Window(s[i + 4 := next], i + 1))
  {
    hide RoundF, Steps;
    var s' := s[i + 4 := next];
    assert Window(s, i) == Window(s', i);
    StepsWindow(f, rks, i, s');
  }

  method CryptInPlace(t: Tables, rks: seq<word>, psrc: array<word>)
    requires psrc.Length == 4 && |rks| == 32
    modifies psrc
    ensures BlockOf(psrc[..]) == Crypt(t, rks, old(BlockOf(psrc[..])))
  {
    hide Lt, Step, Steps, RoundF, Window;
    var f := (a: word) => Lt(t, a);
    ghost var start := BlockOf(psrc[..]);
    var ulbuf := new word[36](_ => 0);
    ulbuf[0], ulbuf[1], ulbuf[2], ulbuf[3] := psrc[0], psrc[1], psrc[2], psrc[3];
    var i := 0;
    WindowIs(ulbuf[..], 0);
    assert rks[0..] == rks;
    while i < 32
      invariant 0 <= i <= 32
      invariant Steps(f, rks[i..], Window(ulbuf[..], i)) == Steps(f, rks, start)
    {
      ghost var before := ulbuf[..];
      var next := RoundF(f, ulbuf[i], ulbuf[i + 1], ulbuf[i + 2], ulbuf[i + 3], rks[i]);
      NextWindow(f, rks, i, before, next);
      ulbuf[i + 4] := next;
      assert ulbuf[..] == before[i + 4 := next];
      i := i + 1;
    }
    assert rks[32..] == [];
    NoSteps(f, Window(ulbuf[..], 32));
    WindowIs(ulbuf[..], 32);
    psrc[0], psrc[1], psrc[2], psrc[3] := ulbuf[35], ulbuf[34], ulbuf[33], ulbuf[32];
  }

  lemma NoSteps(f: word -> word, b: Block)
    ensures Steps(f, [], b) == b
  {
  }

  function BlockOf(s: seq<word>): (b: Block)
    requires |s| == 4
  {
    Block(s[0], s[1], s[2], s[3])
  }

  // ---------------------------------------------------------------- the key schedule

  function KeyF(t: Tables, k0: word, k1: word, k2: word, k3: word, ck: word): (y: word) {
    Xor32(k0, CalciRK(t, Mix(k1, k2, k3, ck)))
  }

  /** The round keys from round `i` on, from the four key words before it. */
  function Schedule(t: Tables, k: Block, i: nat): (rks: seq<word>)
    requires ValidTables(t) && i <= 32
    ensures |rks| == 32 - i
    decreases 32 - i
  {
    if i == 32 then []
    else
      var next := KeyF(t, k.w0, k.w1, k.w2, k.w3, t.ck[i]);
      [next] + Schedule(t, Block(k.w1, k.w2, k.w3, next), i + 1)
  }

  function RoundKeys(t: Tables, key: seq<byte>): (rks: seq<word>)
    requires ValidTables(t) && |key| == 16
    ensures |rks| == 32
  {
    Schedule(t, Xor(ToBlock(key), BlockOf(t.fk)), 0)
  }

  /** The key words are read byte by byte, by shifting and adding. */
  method ReadKeyWord(key: seq<byte>, i: nat) returns (mk: word)
    requires |key| == 16 && i < 4
    ensures mk == GetBE32(key[i * 4..i * 4 + 4])
  {
    mk := key[i * 4] as word;
    mk := mk << 8;
    mk := mk + key[i * 4 + 1] as word;
    mk := mk << 8;
    mk := mk + key[i * 4 + 2] as word;
    mk := mk << 8;
    mk := mk + key[i * 4 + 3] as word;
    ShiftAdd(key[i * 4], key[i * 4 + 1], key[i * 4 + 2], key[i * 4 + 3]);
    assert key[i * 4..i * 4 + 4] == [key[i * 4], key[i * 4 + 1], key[i * 4 + 2], key[i * 4 + 3]];
  }

  lemma ShiftAdd(a: byte, b: byte, c: byte, d: byte)
    ensures (((((a as word << 8) + b as word) << 8) + c as word) << 8) + d as word == GetBE32([a, b, c, d])
  {
  }

  /**
    `sm4_SetKey`: the round keys, and their reverse for decryption when the flag asks for it.
    Without the flag the decryption keys are left as they were.
   */
  method SetKey(t: Tables, key: seq<byte>, flag: int, before: Key) returns (k: Key)
    requires ValidTables(t) && |key| == 16 && ValidKey(before)
    ensures ValidKey(k) && k.erk == RoundKeys(t, key)
    ensures flag != 0 ==> TwoWay(k)
    ensures flag == 0 ==> k.drk == before.drk
  {
    hide RoundKeys, Reverse;
    var erk := ExpandKey(t, key);
    var drk := before.drk;
    if flag != 0 {
      drk := [];
      for i := 0 to 32
        invariant |drk| == i
        invariant forall j :: 0 <= j < i ==> drk[j] == erk[31 - j]
      {
        drk := drk + [erk[31 - i]];
      }
      forall i | 0 <= i < 32 ensures drk[i] == Reverse(erk)[i] {
        ReverseAt(erk, i);
      }
    }
    k := Key(erk, drk);
  }

  /** The master key words, each mixed with its system parameter. */
  method FirstWords(t: Tables, key: seq<byte>) returns (k: Block)
    requires ValidTables(t) && |key| == 16
    ensures k == Xor(ToBlock(key), BlockOf(t.fk))
  {
    hide GetBE32, Xor32;
    var m0 := ReadKeyWord(key, 0);
    var m1 := ReadKeyWord(key, 1);
    var m2 := ReadKeyWord(key, 2);
    var m3 := ReadKeyWord(key, 3);
    k := Block(Xor32(m0, t.fk[0]), Xor32(m1, t.fk[1]), Xor32(m2, t.fk[2]), Xor32(m3, t.fk[3]));
  }

  /** The first loop of `SM4_InitRK`. */
  method ExpandKey(t: Tables, key: seq<byte>) returns (erk: seq<word>)
    requires ValidTables(t) && |key| == 16
    ensures erk == RoundKeys(t, key)
  {
    hide KeyF, Schedule, Xor, ToBlock, BlockOf;
    var k := FirstWords(t, key);
    var w := new word[36](_ => 0);
    w[0], w[1], w[2], w[3] := k.w0, k.w1, k.w2, k.w3;
    erk := [];
    for i := 0 to 32
      invariant |erk| == i
      invariant RoundKeys(t, key) == erk + Schedule(t, Window(w[..], i), i)
    {
      ghost var before := w[..];
      w[i + 4] := KeyF(t, w[i], w[i + 1], w[i + 2], w[i + 3], t.ck[i]);
      assert Window(before, i) == Window(w[..], i);
      ScheduleStep(t, w[..], i);
      assert erk + ([w[i + 4]] + Schedule(t, Window(w[..], i + 1), i + 1))
          == erk + [w[i + 4]] + Schedule(t, Window(w[..], i + 1), i + 1);
      erk := erk + [w[i + 4]];
    }
  }

  lemma ScheduleStep(t: Tables, s: seq<word>, i: nat)
    requires ValidTables(t) && i < 32 && i + 5 <= |s|
    requires s[i + 4] == KeyF(t, s[i], s[i + 1], s[i + 2], s[i + 3], t.ck[i])
    ensures Schedule(t, Window(s, i), i) == [s[i + 4]] + Schedule(t, Window(s, i + 1), i + 1)
  {
    hide KeyF;
  }

  function EncryptBlock(t: Tables, k: Key, b: Block): (c: Block) {
    Crypt(t, k.erk, b)
  }

  function DecryptBlock(t: Tables, k: Key, b: Block): (c: Block) {
    Crypt(t, k.drk, b)
  }

  /** Decryption undoes encryption on every block, for every key set for both directions. */
  lemma DecryptEncrypt(t: Tables, k: Key, b: Block)
    requires TwoWay(k)
    ensures DecryptBlock(t, k, EncryptBlock(t, k, b)) == b
  {
    hide Crypt;
    CryptBack(t, k.erk, b);
  }
}
