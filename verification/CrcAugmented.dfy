/**
  Augmented messages in public/bt/boost/include/boost/crc.hpp: straight polynomial division, where
  the message is followed by room for the checksum.
 */
module CrcAugmented {
  import opened Crc

  // ---------------------------------------------------------------- division bit by bit

  /** One step of `augmented_crc_modulo_word_update`. */
  function AugStep(w: nat, p: Reg, r: Reg, b: bool): (r': Reg)
    requires 0 < w <= |r| == |p|
    ensures |r'| == |r|
  {
    Xor(Shl(r, 1)[0 := b], if r[w - 1] then p else Zero(|p|))
  }

  function AugFeed(w: nat, p: Reg, r: Reg, bits: seq<bool>): (r': Reg)
    requires 0 < w <= |r| == |p|
    ensures |r'| == |r|
    decreases |bits|
  {
    if bits == [] then r else AugFeed(w, p, AugStep(w, p, r, bits[0]), bits[1..])
  }

  lemma AugStepLinear(w: nat, p: Reg, r: Reg, s: Reg, b: bool, c: bool)
    requires 0 < w <= |r| == |s| == |p|
    ensures AugStep(w, p, Xor(r, s), b != c) == Xor(AugStep(w, p, r, b), AugStep(w, p, s, c))
  {
  }

  lemma {:induction false} AugLinear(w: nat, p: Reg, r: Reg, s: Reg, b: seq<bool>, c: seq<bool>)
    requires 0 < w <= |r| == |s| == |p| && |b| == |c|
    ensures AugFeed(w, p, Xor(r, s), Xor(b, c)) == Xor(AugFeed(w, p, r, b), AugFeed(w, p, s, c))
    decreases |b|
  {
    hide AugStep, Xor;
    if b != [] {
      AugStepLinear(w, p, r, s, b[0], c[0]);
      assert Xor(b, c)[1..] == Xor(b[1..], c[1..]);
      AugLinear(w, p, AugStep(w, p, r, b[0]), AugStep(w, p, s, c[0]), b[1..], c[1..]);
    }
  }

  lemma {:induction false} AugAppend(w: nat, p: Reg, r: Reg, a: seq<bool>, b: seq<bool>)
    requires 0 < w <= |r| == |p|
    ensures AugFeed(w, p, r, a + b) == AugFeed(w, p, AugFeed(w, p, r, a), b)
    decreases |a|
  {
    hide AugStep;
    if a == [] {
      assert a + b == b;
    } else {
      assert (a + b)[1..] == a[1..] + b;
      AugAppend(w, p, AugStep(w, p, r, a[0]), a[1..], b);
    }
  }

  lemma AugOne(w: nat, p: Reg, r: Reg, b: bool)
    requires 0 < w <= |r| == |p|
    ensures AugFeed(w, p, r, [b]) == AugStep(w, p, r, b)
  {
    hide AugStep;
    assert [b][1..] == [];
  }

  lemma AugStepLow(w: nat, p: Reg, r: Reg, b: bool)
    requires 0 < w <= |r| == |p|
    ensures AugStep(w, p, r, b)[..w] == AugStep(w, p[..w], r[..w], b)
  {
  }

  lemma {:induction false} AugLow(w: nat, p: Reg, r: Reg, bits: seq<bool>)
    requires 0 < w <= |r| == |p|
    ensures AugFeed(w, p, r, bits)[..w] == AugFeed(w, p[..w], r[..w], bits)
    decreases |bits|
  {
    hide AugStep;
    if bits != [] {
      AugStepLow(w, p, r, bits[0]);
      AugLow(w, p, AugStep(w, p, r, bits[0]), bits[1..]);
    }
  }

  /** A zero bit is the same step in both forms of division. */
  lemma ZeroStep(w: nat, p: Reg, r: Reg)
    requires 0 < w <= |r| == |p|
    ensures AugStep(w, p, r, false) == Step(w, p, r, false)
  {
    assert r[w - 1 := r[w - 1]] == r;
    assert Shl(r, 1)[0 := false] == Shl(r, 1);
  }

  lemma {:induction false} ZeroFeed(w: nat, p: Reg, r: Reg, k: nat)
    requires 0 < w <= |r| == |p|
    ensures AugFeed(w, p, r, Zero(k)) == Feed(w, p, r, Zero(k))
    decreases k
  {
    hide AugStep, Step;
    if k > 0 {
      ZeroStep(w, p, r);
      assert Zero(k)[1..] == Zero(k - 1);
      ZeroFeed(w, p, Step(w, p, r, false), k - 1);
    }
  }

  /** Bits shifted into a register whose top is clear. */
  lemma {:induction false} ShiftIn(p: Reg, r: Reg, bits: seq<bool>)
    requires 0 < |r| == |p| && |bits| <= |r| && InRange(r, |r| - |bits|)
    ensures AugFeed(|r|, p, r, bits) == Rev(bits) + r[..|r| - |bits|]
    decreases |bits|
  {
    hide AugStep;
    var n, k := |r|, |bits|;
    if bits == [] {
      assert r[..n] == r;
    } else {
      var r1 := AugStep(n, p, r, bits[0]);
      ShiftInStep(p, r, bits[0]);
      assert InRange(r1, n - |bits[1..]|);
      ShiftIn(p, r1, bits[1..]);
      assert r1[..n - (k - 1)] == [bits[0]] + r[..n - k];
      assert Rev(bits) == Rev(bits[1..]) + [bits[0]];
    }
  }

  lemma ShiftInStep(p: Reg, r: Reg, b: bool)
    requires 0 < |r| == |p| && !r[|r| - 1]
    ensures AugStep(|r|, p, r, b) == [b] + r[..|r| - 1]
  {
  }

  // ---------------------------------------------------------------- both forms of division

  /** What the room for the checksum makes of a remainder. */
  function Settled(p: Reg, a: Reg): (r: Reg)
    requires 0 < |a| == |p|
    ensures |r| == |a|
  {
    AugFeed(|a|, p, a, Zero(|a|))
  }

  lemma LoneBit(p: Reg, b: bool)
    requires 0 < |p|
    ensures AugFeed(|p|, p, Zero(|p|), [b] + Zero(|p|)) == Step(|p|, p, Zero(|p|), b)
  {
    hide AugFeed, Rev, AugStep, Step, Xor;
    var n := |p|;
    var bits := [b] + Zero(n - 1);
    MoveZero(n, b);
    AugAppend(n, p, Zero(n), bits, [false]);
    ShiftIn(p, Zero(n), bits);
    RevLone(n, b);
    AugOne(n, p, Zero(n)[n - 1 := b], false);
    LoneStep(p, b);
  }

  lemma MoveZero(n: nat, b: bool)
    requires 0 < n
    ensures [b] + Zero(n) == [b] + Zero(n - 1) + [false]
  {
    assert Zero(n) == Zero(n - 1) + [false];
  }

  lemma RevLone(n: nat, b: bool)
    requires 0 < n
    ensures Rev([b] + Zero(n - 1)) + Zero(n)[..0] == Zero(n)[n - 1 := b]
  {
  }

  lemma LoneStep(p: Reg, b: bool)
    requires 0 < |p|
    ensures AugStep(|p|, p, Zero(|p|)[|p| - 1 := b], false) == Step(|p|, p, Zero(|p|), b)
  {
  }

  lemma SettleStep(p: Reg, a: Reg, b: bool)
    requires 0 < |a| == |p|
    ensures Settled(p, AugStep(|a|, p, a, b)) == Step(|a|, p, Settled(p, a), b)
  {
    hide AugFeed, AugStep, Step, Xor;
    var n := |a|;
    var z := Settled(p, a);
    AugOne(n, p, a, b);
    AugAppend(n, p, a, [b], Zero(n));
    SplitBit(a, b);
    AugLinear(n, p, a, Zero(n), Zero(n) + [false], [b] + Zero(n));
    AugAppend(n, p, a, Zero(n), [false]);
    AugOne(n, p, z, false);
    ZeroStep(n, p, z);
    LoneBit(p, b);
    StepLinear(n, p, z, Zero(n), false, b);
    SplitBit(z, b);
  }

  lemma SplitBit(a: Reg, b: bool)
    ensures Xor(a, Zero(|a|)) == a
    ensures Xor(Zero(|a|) + [false], [b] + Zero(|a|)) == [b] + Zero(|a|)
  {
  }

  /** Augmented division with room for the checksum is plain division from the settled remainder. */
  lemma {:induction false} AugmentedIsPlain(p: Reg, a: Reg, bits: seq<bool>)
    requires 0 < |a| == |p|
    ensures AugFeed(|a|, p, a, bits + Zero(|a|)) == Feed(|a|, p, Settled(p, a), bits)
    decreases |bits|
  {
    hide AugStep, Step, Settled, AugFeed, Feed;
    if bits == [] {
      SettleNothing(p, a);
      assert bits + Zero(|a|) == Zero(|a|);
    } else {
      var a1 := AugStep(|a|, p, a, bits[0]);
      FirstBit(p, a, bits);
      AugmentedIsPlain(p, a1, bits[1..]);
      SettleStep(p, a, bits[0]);
    }
  }

  lemma SettleNothing(p: Reg, a: Reg)
    requires 0 < |a| == |p|
    ensures AugFeed(|a|, p, a, Zero(|a|)) == Feed(|a|, p, Settled(p, a), [])
  {
  }

  lemma FirstBit(p: Reg, a: Reg, bits: seq<bool>)
    requires 0 < |a| == |p| && bits != []
    ensures AugFeed(|a|, p, a, bits + Zero(|a|)) == AugFeed(|a|, p, AugStep(|a|, p, a, bits[0]), bits[1..] + Zero(|a|))
    ensures Feed(|a|, p, Settled(p, a), bits) == Feed(|a|, p, Step(|a|, p, Settled(p, a), bits[0]), bits[1..])
  {
    hide AugStep, Step, Settled;
    assert (bits + Zero(|a|))[1..] == bits[1..] + Zero(|a|);
  }

  lemma ZeroSettles(p: Reg)
    requires 0 < |p|
    ensures Settled(p, Zero(|p|)) == Zero(|p|)
  {
    ZeroFeed(|p|, p, Zero(|p|), |p|);
    ZerosIn(|p|, p, |p|);
  }

  /** With some value in the room for the checksum, the remainder is their difference. */
  lemma AugmentedCheck(p: Reg, bits: seq<bool>, c: Reg)
    requires 0 < |c| == |p|
    ensures AugFeed(|p|, p, Zero(|p|), bits + Rev(c)) == Xor(Feed(|p|, p, Zero(|p|), bits), c)
  {
    hide AugFeed, Feed, Xor, Rev;
    var n := |p|;
    var z := Zero(n);
    AugmentedIsPlain(p, z, bits);
    ZeroSettles(p);
    CheckSplits(bits, c);
    AugLinear(n, p, z, z, bits + z, Zero(|bits|) + Rev(c));
    AugAppend(n, p, z, Zero(|bits|), Rev(c));
    ZeroFeed(n, p, z, |bits|);
    ZerosIn(n, p, |bits|);
    ShiftIn(p, z, Rev(c));
    RevRev(c);
  }

  lemma CheckSplits(bits: seq<bool>, c: Reg)
    ensures Xor(Zero(|c|), Zero(|c|)) == Zero(|c|)
    ensures Xor(bits + Zero(|c|), Zero(|bits|) + Rev(c)) == bits + Rev(c)
  {
  }

  lemma RevRev(c: Reg)
    ensures Rev(Rev(c)) + Zero(|c|)[..0] == c
  {
  }

  // ---------------------------------------------------------------- a byte at a time

  /** `(r << 8) | d`. */
  function ShiftByte(r: Reg, d: Octet): (r': Reg)
    requires 8 <= |r|
    ensures |r'| == |r| && forall i :: 0 <= i < |r'| ==> r'[i] == if i < 8 then d[i] else r[i - 8]
  {
    seq(|r|, i requires 0 <= i < |r| => if i < 8 then d[i] else r[i - 8])
  }

  /** Zero initial remainder, no final mask, no reflection. */
  function Plain(w: nat, p: Reg): (c: Params)
    requires 8 <= w <= |p| && InRange(p, w)
    ensures ValidParams(c)
  {
    Params(w, p, Zero(|p|), Zero(|p|), false, false)
  }

  /** One turn of the direct `augmented_crc_update`. */
  function AugByte(w: nat, p: Reg, r: Reg, d: Octet): (r': Reg)
    requires 8 <= w <= |r| == |p| && InRange(p, w)
    ensures |r'| == |r|
  {
    Xor(ShiftByte(r, d), Entry(Plain(w, p), r[w - 8..w]))
  }

  function AugTable(w: nat, p: Reg, r: Reg, msg: seq<Octet>): (r': Reg)
    requires 8 <= w <= |r| == |p| && InRange(p, w)
    ensures |r'| == |r|
    decreases |msg|
  {
    if msg == [] then r else AugTable(w, p, AugByte(w, p, r, msg[0]), msg[1..])
  }

  /** `augmented_crc`. */
  function Augmented(w: nat, p: Reg, init: Reg, msg: seq<Octet>): (r: Reg)
    requires 8 <= w <= |init| == |p| && InRange(p, w)
    ensures |r| == |p|
  {
    Low(AugTable(w, p, init, msg), w)
  }

  lemma AugByteStep(p: Reg, r: Reg, d: Octet)
    requires 8 <= |r| == |p|
    ensures AugFeed(|r|, p, r, Rev(d)) == Xor(ShiftByte(r, d), Product(p, Rev(r[|r| - 8..])))
  {
    hide AugFeed, Feed, Xor, Rev;
    var n := |r|;
    AugLinear(n, p, r, Zero(n), Zero(8), Rev(d));
    ZeroFeed(n, p, r, 8);
    ByteStep(p, r, Zero(8));
    ShiftIn(p, Zero(n), Rev(d));
    OctetSplits(r, d, Product(p, Rev(r[n - 8..])));
  }

  lemma OctetSplits(r: Reg, d: Octet, product: Reg)
    requires 8 <= |r| == |product|
    ensures Xor(r, Zero(|r|)) == r && Xor(Zero(8), Rev(d)) == Rev(d) && Rev(Zero(8)) == Zero(8)
    ensures Xor(r[|r| - 8..], Zero(8)) == r[|r| - 8..]
    ensures Xor(Xor(Shl(r, 8), product), Rev(Rev(d)) + Zero(|r|)[..|r| - 8]) == Xor(ShiftByte(r, d), product)
  {
    assert Rev(Rev(d)) == d;
  }

  lemma AugByteLow(w: nat, p: Reg, r: Reg, d: Octet)
    requires 8 <= w <= |r| == |p| && InRange(p, w)
    ensures AugByte(w, p, r, d)[..w] == AugFeed(w, p[..w], r[..w], Rev(d))
  {
    hide AugFeed, Feed, Xor, Rev;
    var top := r[w - 8..w];
    AugByteStep(p[..w], r[..w], d);
    assert r[..w][w - 8..] == top;
    FeedLow(w, p, Zero(|p|), Rev(top));
    assert Zero(|p|)[..w] == Zero(w);
    XorLow(ShiftByte(r, d), Entry(Plain(w, p), top), w);
    assert ShiftByte(r, d)[..w] == ShiftByte(r[..w], d);
  }

  /** The table-driven update divides like the bit-wise one. */
  lemma {:induction false} AugTableIsFeed(w: nat, p: Reg, r: Reg, msg: seq<Octet>)
    requires 8 <= w <= |r| == |p| && InRange(p, w)
    ensures AugTable(w, p, r, msg)[..w] == AugFeed(w, p[..w], r[..w], MsgBits(false, msg))
    decreases |msg|
  {
    hide AugByte, AugFeed, Rev;
    if msg == [] {
      AugNothing(w, p[..w], r[..w]);
    } else {
      AugByteLow(w, p, r, msg[0]);
      AugTableIsFeed(w, p, AugByte(w, p, r, msg[0]), msg[1..]);
      AugAppend(w, p[..w], r[..w], Rev(msg[0]), MsgBits(false, msg[1..]));
    }
  }

  lemma AugNothing(w: nat, p: Reg, r: Reg)
    requires 0 < w <= |r| == |p|
    ensures AugFeed(w, p, r, []) == r
  {
  }

  // ---------------------------------------------------------------- checksums in the message

  /** A register as bytes, the highest first. */
  function BigEndian(c: Reg): (msg: seq<Octet>)
    requires |c| % 8 == 0
    decreases |c|
  {
    if c == [] then [] else [c[|c| - 8..]] + BigEndian(c[..|c| - 8])
  }

  lemma {:induction false} BigEndianBits(c: Reg)
    requires |c| % 8 == 0
    ensures MsgBits(false, BigEndian(c)) == Rev(c)
    decreases |c|
  {
    if c != [] {
      var hi, lo := c[|c| - 8..], c[..|c| - 8];
      BigEndianBits(lo);
      assert BigEndian(c)[0] == hi && BigEndian(c)[1..] == BigEndian(lo);
      assert Rev(c) == Rev(hi) + Rev(lo);
    }
  }

  lemma {:induction false} MsgBitsAppend(a: seq<Octet>, b: seq<Octet>)
    ensures MsgBits(false, a + b) == MsgBits(false, a) + MsgBits(false, b)
    decreases |a|
  {
    hide Rev;
    if a == [] {
      assert a + b == b;
    } else {
      assert (a + b)[1..] == a[1..] + b;
      MsgBitsAppend(a[1..], b);
    }
  }

  lemma LowOf(r: Reg, s: Reg, w: nat)
    requires w <= |r| == |s|
    ensures Low(r, w) == Low(s, w) <==> r[..w] == s[..w]
    ensures Low(r, w)[..w] == r[..w]
  {
    if Low(r, w) == Low(s, w) {
      forall i | 0 <= i < w ensures r[i] == s[i] {
        assert Low(r, w)[i] == Low(s, w)[i];
      }
    }
    if r[..w] == s[..w] {
      forall i | 0 <= i < w ensures r[i] == s[i] {
        assert r[i] == r[..w][i];
      }
      assert Low(r, w) == Low(s, w);
    }
  }

  /** A message followed by a checksum, in bits. */
  lemma Appended(w: nat, p: Reg, msg: seq<Octet>, c: Reg)
    requires 8 <= w <= |p| && InRange(p, w) && |c| == w && w % 8 == 0
    ensures AugTable(w, p, Zero(|p|), msg + BigEndian(c))[..w]
         == Xor(Feed(w, p, Zero(|p|), MsgBits(false, msg))[..w], c)
  {
    hide AugFeed, Feed, Xor, Rev, MsgBits, AugTable, BigEndian;
    AugTableIsFeed(w, p, Zero(|p|), msg + BigEndian(c));
    assert Zero(|p|)[..w] == Zero(w);
    MsgBitsAppend(msg, BigEndian(c));
    BigEndianBits(c);
    AugmentedCheck(p[..w], MsgBits(false, msg), c);
    FeedLow(w, p, Zero(|p|), MsgBits(false, msg));
  }

  lemma PlainOutput(w: nat, p: Reg, msg: seq<Octet>)
    requires 8 <= w <= |p| && InRange(p, w)
    ensures Basic(Plain(w, p), msg) == Low(Feed(w, p, Zero(|p|), MsgBits(false, msg)), w)
  {
    hide Feed, MsgBits;
    var r := Feed(w, p, Zero(|p|), MsgBits(false, msg));
    assert Xor(r, Zero(|p|)) == r;
  }

  /** Augmented division over a message and zero bytes gives the plain checksum of the message. */
  lemma AugmentedZeros(w: nat, p: Reg, msg: seq<Octet>)
    requires 8 <= w <= |p| && InRange(p, w) && w % 8 == 0
    ensures Augmented(w, p, Zero(|p|), msg + BigEndian(Zero(w))) == Optimal(Plain(w, p), msg)
  {
    hide Feed, MsgBits, AugTable, BigEndian, Xor, Basic, Optimal;
    Appended(w, p, msg, Zero(w));
    var r := Feed(w, p, Zero(|p|), MsgBits(false, msg));
    assert Xor(r[..w], Zero(w)) == r[..w];
    LowOf(AugTable(w, p, Zero(|p|), msg + BigEndian(Zero(w))), r, w);
    PlainOutput(w, p, msg);
    TablesAgree(Plain(w, p), msg);
  }

  /** With a checksum in place of the zeros the result is zero if and only if the checksum is right. */
  lemma AugmentedDetects(w: nat, p: Reg, msg: seq<Octet>, c: Reg)
    requires 8 <= w <= |p| && InRange(p, w) && w % 8 == 0 && |c| == w
    ensures |Optimal(Plain(w, p), msg)| == |p|
    ensures Augmented(w, p, Zero(|p|), msg + BigEndian(c)) == Zero(|p|) <==> c == Optimal(Plain(w, p), msg)[..w]
  {
    hide Feed, MsgBits, AugTable, BigEndian, Basic, Optimal;
    Appended(w, p, msg, c);
    var r := Feed(w, p, Zero(|p|), MsgBits(false, msg));
    var t := AugTable(w, p, Zero(|p|), msg + BigEndian(c));
    TablesAgree(Plain(w, p), msg);
    PlainOutput(w, p, msg);
    LowOf(r, r, w);
    LowOf(t, Zero(|p|), w);
    assert Low(Zero(|p|), w) == Zero(|p|) && Zero(|p|)[..w] == Zero(w);
    XorZero(r[..w], c);
  }

  lemma XorZero(a: Reg, c: Reg)
    requires |a| == |c|
    ensures Xor(a, c) == Zero(|a|) <==> a == c
  {
    if Xor(a, c) == Zero(|a|) {
      forall i | 0 <= i < |a| ensures a[i] == c[i] {
        assert !Xor(a, c)[i];
      }
    }
    if a == c {
      assert Xor(a, c) == Zero(|a|);
    }
  }
}
