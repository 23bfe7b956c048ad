/**
  The checksum engine of public/bt/boost/include/boost/crc.hpp. A register is the sequence of its
  bits, the coefficient of the lowest power first; `w` is the width of the checksum, which may be
  smaller than the register.
 */
module Crc {

  type Reg = seq<bool>

  type Octet = b: seq<bool> | |b| == 8 witness [false, false, false, false, false, false, false, false]

  // ---------------------------------------------------------------- registers

  function Zero(n: nat): (r: Reg)
    ensures |r| == n && forall i :: 0 <= i < n ==> !r[i]
  {
    seq(n, _ => false)
  }

  function Xor(a: Reg, b: Reg): (r: Reg)
    requires |a| == |b|
    ensures |r| == |a| && forall i :: 0 <= i < |r| ==> r[i] == (a[i] != b[i])
  {
    seq(|a|, i requires 0 <= i < |a| => a[i] != b[i])
  }

  function Shl(a: Reg, k: nat): (r: Reg)
    ensures |r| == |a| && forall i :: 0 <= i < |r| ==> r[i] == (i >= k && a[i - k])
  {
    seq(|a|, i requires 0 <= i < |a| => i >= k && a[i - k])
  }

  function Shr(a: Reg, k: nat): (r: Reg)
    ensures |r| == |a| && forall i :: 0 <= i < |r| ==> r[i] == (i + k < |a| && a[i + k])
  {
    seq(|a|, i requires 0 <= i < |a| => i + k < |a| && a[i + k])
  }

  function Rev(a: Reg): (r: Reg)
    ensures |r| == |a| && forall i :: 0 <= i < |r| ==> r[i] == a[|a| - 1 - i]
  {
    seq(|a|, i requires 0 <= i < |a| => a[|a| - 1 - i])
  }

  /** `x & low_bits_mask`. */
  function Low(a: Reg, w: nat): (r: Reg)
    requires w <= |a|
    ensures |r| == |a| && forall i :: 0 <= i < |r| ==> r[i] == (i < w && a[i])
  {
    seq(|a|, i requires 0 <= i < |a| => i < w && a[i])
  }

  /** Reverses the low `w` bits and keeps the others. */
  function Reflect(a: Reg, w: nat): (r: Reg)
    requires w <= |a|
    ensures |r| == |a| && forall i :: 0 <= i < |r| ==> r[i] == if i < w then a[w - 1 - i] else a[i]
  {
    seq(|a|, i requires 0 <= i < |a| => if i < w then a[w - 1 - i] else a[i])
  }

  // ---------------------------------------------------------------- division bit by bit

  /** One step of `crc_modulo_word_update`. */
  function Step(w: nat, p: Reg, r: Reg, b: bool): (r': Reg)
    requires 0 < w <= |r| == |p|
    ensures |r'| == |r|
  {
    var q := r[w - 1] != b;
    Xor(Shl(r[w - 1 := q], 1), if q then p else Zero(|p|))
  }

  function Feed(w: nat, p: Reg, r: Reg, bits: seq<bool>): (r': Reg)
    requires 0 < w <= |r| == |p|
    ensures |r'| == |r|
    decreases |bits|
  {
    if bits == [] then r else Feed(w, p, Step(w, p, r, bits[0]), bits[1..])
  }

  lemma StepLinear(w: nat, p: Reg, r: Reg, s: Reg, b: bool, c: bool)
    requires 0 < w <= |r| == |s| == |p|
    ensures Step(w, p, Xor(r, s), b != c) == Xor(Step(w, p, r, b), Step(w, p, s, c))
  {
  }

  /** Division is linear over GF(2), in the register and the input together. */
  lemma {:induction false} FeedLinear(w: nat, p: Reg, r: Reg, s: Reg, b: seq<bool>, c: seq<bool>)
    requires 0 < w <= |r| == |s| == |p| && |b| == |c|
    ensures Feed(w, p, Xor(r, s), Xor(b, c)) == Xor(Feed(w, p, r, b), Feed(w, p, s, c))
    decreases |b|
  {
    hide Step, Xor;
    if b != [] {
      StepLinear(w, p, r, s, b[0], c[0]);
      assert Xor(b, c)[1..] == Xor(b[1..], c[1..]);
      FeedLinear(w, p, Step(w, p, r, b[0]), Step(w, p, s, c[0]), b[1..], c[1..]);
    }
  }

  lemma {:induction false} FeedAppend(w: nat, p: Reg, r: Reg, a: seq<bool>, b: seq<bool>)
    requires 0 < w <= |r| == |p|
    ensures Feed(w, p, r, a + b) == Feed(w, p, Feed(w, p, r, a), b)
    decreases |a|
  {
    hide Step;
    if a == [] {
      assert a + b == b;
    } else {
      assert (a + b)[1..] == a[1..] + b;
      FeedAppend(w, p, Step(w, p, r, a[0]), a[1..], b);
    }
  }

  /** Only the low `w` bits take part. */
  lemma StepLow(w: nat, p: Reg, r: Reg, b: bool)
    requires 0 < w <= |r| == |p|
    ensures Step(w, p, r, b)[..w] == Step(w, p[..w], r[..w], b)
  {
  }

  lemma {:induction false} FeedLow(w: nat, p: Reg, r: Reg, bits: seq<bool>)
    requires 0 < w <= |r| == |p|
    ensures Feed(w, p, r, bits)[..w] == Feed(w, p[..w], r[..w], bits)
    decreases |bits|
  {
    hide Step;
    if bits != [] {
      StepLow(w, p, r, bits[0]);
      FeedLow(w, p, Step(w, p, r, bits[0]), bits[1..]);
    }
  }

  // ---------------------------------------------------------------- a byte at a time

  lemma StepTop(p: Reg, r: Reg)
    requires 0 < |r| == |p|
    ensures Step(|r|, p, r, r[|r| - 1]) == Shl(r, 1)
  {
  }

  /** Feeding a register its own top bits shifts them out. */
  lemma {:induction false} ShiftOut(p: Reg, r: Reg, k: nat)
    requires 0 < |r| == |p| && k <= |r|
    ensures Feed(|r|, p, r, Rev(r[|r| - k..])) == Shl(r, k)
    decreases k
  {
    hide Step;
    if k == 0 {
      assert Rev(r[|r|..]) == [];
      assert Shl(r, 0) == r;
    } else {
      StepTop(p, r);
      TopBits(r, k);
      ShiftOut(p, Shl(r, 1), k - 1);
    }
  }

  lemma TopBits(r: Reg, k: nat)
    requires 0 < k <= |r|
    ensures var bits, r1 := Rev(r[|r| - k..]), Shl(r, 1);
            bits[0] == r[|r| - 1] && bits[1..] == Rev(r1[|r| - (k - 1)..]) && Shl(r1, k - 1) == Shl(r, k)
  {
  }

  /** The composite effect of the bits of one index, most significant first. */
  function Product(p: Reg, bits: seq<bool>): (r: Reg)
    requires 0 < |p|
    ensures |r| == |p|
  {
    Feed(|p|, p, Zero(|p|), bits)
  }

  /** A whole byte at once: shift the top byte out and add the effect of what it differs by. */
  lemma ByteStep(p: Reg, r: Reg, d: Octet)
    requires 8 <= |r| == |p|
    ensures Feed(|r|, p, r, Rev(d)) == Xor(Shl(r, 8), Product(p, Rev(Xor(r[|r| - 8..], d))))
  {
    hide Feed;
    var top := r[|r| - 8..];
    ShiftOut(p, r, 8);
    FeedLinear(|r|, p, r, Zero(|r|), Rev(top), Rev(Xor(top, d)));
    assert Xor(r, Zero(|r|)) == r;
    assert Xor(Rev(top), Rev(Xor(top, d))) == Rev(d);
  }

  // ---------------------------------------------------------------- parameter sets

  /** Width, polynomial, initial remainder, final mask and the two reflections. */
  datatype Params = Params(w: nat, poly: Reg, init: Reg, final: Reg, refIn: bool, refOut: bool)

  predicate InRange(r: Reg, w: nat) {
    forall i :: w <= i < |r| ==> !r[i]
  }

  predicate ValidParams(c: Params) {
    8 <= c.w <= |c.poly| == |c.init| == |c.final| && InRange(c.poly, c.w) && InRange(c.init, c.w)
  }

  /** The bits of a byte in the order they are read. */
  function Order(refIn: bool, d: Octet): (bits: seq<bool>)
    ensures |bits| == 8
  {
    if refIn then d else Rev(d)
  }

  function MsgBits(refIn: bool, msg: seq<Octet>): (bits: seq<bool>) {
    if msg == [] then [] else Order(refIn, msg[0]) + MsgBits(refIn, msg[1..])
  }

  /** The output stage of both computers. */
  function Output(reflect: bool, w: nat, final: Reg, r: Reg): (s: Reg)
    requires w <= |r| == |final|
    ensures |s| == |r|
  {
    Low(Xor(if reflect then Reflect(r, w) else r, final), w)
  }

  /** What `crc_basic` computes: division bit by bit. */
  function Basic(c: Params, msg: seq<Octet>): (s: Reg)
    requires ValidParams(c)
  {
    Output(c.refOut, c.w, c.final, Feed(c.w, c.poly, c.init, MsgBits(c.refIn, msg)))
  }

  /** An element of the table, at the index with these bits. */
  function Entry(c: Params, e: Octet): (r: Reg)
    requires ValidParams(c)
    ensures |r| == |c.poly|
  {
    var product := Feed(c.w, c.poly, Zero(|c.poly|), Order(c.refIn, e));
    if c.refIn then Reflect(product, c.w) else product
  }

  /** One turn of `crc_update`, direct or reflected. */
  function ByteUpdate(c: Params, r: Reg, d: Octet): (r': Reg)
    requires ValidParams(c) && |r| == |c.poly|
    ensures |r'| == |r|
  {
    if c.refIn then Xor(Shr(r, 8), Entry(c, Xor(r[..8], d)))
    else Xor(Shl(r, 8), Entry(c, Xor(r[c.w - 8..c.w], d)))
  }

  function TableUpdate(c: Params, r: Reg, msg: seq<Octet>): (r': Reg)
    requires ValidParams(c) && |r| == |c.poly|
    ensures |r'| == |r|
    decreases |msg|
  {
    if msg == [] then r else TableUpdate(c, ByteUpdate(c, r, msg[0]), msg[1..])
  }

  function Start(c: Params): (r: Reg)
    requires ValidParams(c)
    ensures |r| == |c.poly|
  {
    if c.refIn then Reflect(c.init, c.w) else c.init
  }

  /** What `crc_optimal` computes: division byte by byte, through the table. */
  function Optimal(c: Params, msg: seq<Octet>): (s: Reg)
    requires ValidParams(c)
  {
    Output(c.refOut != c.refIn, c.w, c.final, TableUpdate(c, Start(c), msg))
  }

  lemma OutputLow(reflect: bool, w: nat, final: Reg, r: Reg, r': Reg)
    requires w <= |r| == |r'| == |final| && r[..w] == r'[..w]
    ensures Output(reflect, w, final, r) == Output(reflect, w, final, r')
  {
    forall i | 0 <= i < w ensures r[i] == r'[i] {
      assert r[i] == r[..w][i];
    }
  }

  // ---------------------------------------------------------------- direct tables

  lemma DirectByte(c: Params, r: Reg, d: Octet)
    requires ValidParams(c) && !c.refIn && |r| == |c.poly|
    ensures ByteUpdate(c, r, d)[..c.w] == Feed(c.w, c.poly[..c.w], r[..c.w], Rev(d))
  {
    hide Feed;
    var w := c.w;
    var e := Xor(r[w - 8..w], d);
    ByteStep(c.poly[..w], r[..w], d);
    assert r[..w][w - 8..] == r[w - 8..w];
    FeedLow(w, c.poly, Zero(|c.poly|), Rev(e));
    assert Zero(|c.poly|)[..w] == Zero(w);
    XorLow(Shl(r, 8), Entry(c, e), w);
    assert Shl(r, 8)[..w] == Shl(r[..w], 8);
  }

  lemma XorLow(a: Reg, b: Reg, w: nat)
    requires w <= |a| == |b|
    ensures Xor(a, b)[..w] == Xor(a[..w], b[..w])
  {
  }

  lemma {:induction false} DirectRun(c: Params, r: Reg, msg: seq<Octet>)
    requires ValidParams(c) && !c.refIn && |r| == |c.poly|
    ensures TableUpdate(c, r, msg)[..c.w] == Feed(c.w, c.poly[..c.w], r[..c.w], MsgBits(false, msg))
    decreases |msg|
  {
    hide ByteUpdate, Feed;
    if msg == [] {
      NoBits(c.w, c.poly[..c.w], r[..c.w]);
    } else {
      DirectByte(c, r, msg[0]);
      DirectRun(c, ByteUpdate(c, r, msg[0]), msg[1..]);
      FeedAppend(c.w, c.poly[..c.w], r[..c.w], Rev(msg[0]), MsgBits(false, msg[1..]));
    }
  }

  lemma NoBits(w: nat, p: Reg, r: Reg)
    requires 0 < w <= |r| == |p|
    ensures Feed(w, p, r, []) == r
  {
  }

  // ---------------------------------------------------------------- reflected tables

  lemma ReflectAll(r: Reg)
    ensures Reflect(r, |r|) == Rev(r) && Rev(Rev(r)) == r
  {
  }

  /** In a register of exactly the width, the reflected update is the direct one in the mirror. */
  lemma MirrorByte(c: Params, r: Reg, d: Octet)
    requires ValidParams(c) && c.refIn && |r| == |c.poly| == c.w
    ensures Rev(ByteUpdate(c, r, d)) == Feed(c.w, c.poly, Rev(r), d)
  {
    hide Feed, Xor, Rev, Shl, Shr, Reflect;
    var e := Xor(r[..8], d);
    ByteStep(c.poly, Rev(r), Rev(d));
    ReflectAll(d);
    MirrorIndex(r, d);
    var product := Product(c.poly, e);
    ReflectAll(product);
    MirrorShift(r, product);
  }

  lemma MirrorIndex(r: Reg, d: Octet)
    requires 8 <= |r|
    ensures Rev(Xor(Rev(r)[|r| - 8..], Rev(d))) == Xor(r[..8], d)
  {
    assert Rev(r)[|r| - 8..] == Rev(r[..8]);
  }

  lemma MirrorShift(r: Reg, product: Reg)
    requires |r| == |product|
    ensures Rev(Xor(Shr(r, 8), Rev(product))) == Xor(Shl(Rev(r), 8), product)
  {
  }

  lemma {:induction false} MirrorRun(c: Params, r: Reg, msg: seq<Octet>)
    requires ValidParams(c) && c.refIn && |r| == |c.poly| == c.w
    ensures Rev(TableUpdate(c, r, msg)) == Feed(c.w, c.poly, Rev(r), MsgBits(true, msg))
    decreases |msg|
  {
    hide ByteUpdate, Feed, Rev;
    if msg == [] {
      NoBits(c.w, c.poly, Rev(r));
    } else {
      MirrorByte(c, r, msg[0]);
      MirrorRun(c, ByteUpdate(c, r, msg[0]), msg[1..]);
      FeedAppend(c.w, c.poly, Rev(r), msg[0], MsgBits(true, msg[1..]));
    }
  }

  lemma OutputMirror(refOut: bool, w: nat, final: Reg, r: Reg)
    requires w == |r| == |final|
    ensures Output(!refOut, w, final, r) == Output(refOut, w, final, Rev(r))
  {
    ReflectAll(r);
    ReflectAll(Rev(r));
  }

  /** Table-driven and bit-wise agree on direct input, and on reflected input in an exact register. */
  lemma TablesAgree(c: Params, msg: seq<Octet>)
    requires ValidParams(c) && (c.refIn ==> |c.poly| == c.w)
    ensures Optimal(c, msg) == Basic(c, msg)
  {
    hide Feed, TableUpdate, Output, MsgBits;
    if c.refIn {
      MirrorRun(c, Start(c), msg);
      ReflectAll(c.init);
      OutputMirror(c.refOut, c.w, c.final, TableUpdate(c, Start(c), msg));
    } else {
      DirectRun(c, c.init, msg);
      FeedLow(c.w, c.poly, c.init, MsgBits(false, msg));
      OutputLow(c.refOut, c.w, c.final, TableUpdate(c, c.init, msg), Feed(c.w, c.poly, c.init, MsgBits(false, msg)));
    }
  }

  // ---------------------------------------------------------------- registers wider than the width

  /** The same parameters in a register of exactly the width. */
  function Narrow(c: Params): (n: Params)
    requires ValidParams(c)
    ensures ValidParams(n) && |n.poly| == n.w == c.w && n.refIn == c.refIn && n.refOut == c.refOut
  {
    Params(c.w, c.poly[..c.w], c.init[..c.w], c.final[..c.w], c.refIn, c.refOut)
  }

  lemma NarrowEntry(c: Params, e: Octet)
    requires ValidParams(c)
    ensures Entry(c, e)[..c.w] == Entry(Narrow(c), e)
  {
    hide Feed;
    FeedLow(c.w, c.poly, Zero(|c.poly|), Order(c.refIn, e));
    assert Zero(|c.poly|)[..c.w] == Zero(c.w);
    NarrowReflect(Feed(c.w, c.poly, Zero(|c.poly|), Order(c.refIn, e)), c.w);
  }

  lemma NarrowReflect(r: Reg, w: nat)
    requires w <= |r|
    ensures Reflect(r, w)[..w] == Reflect(r[..w], w)
  {
  }

  /** Bits above the width fall into it, eight places down, with the next reflected byte. */
  lemma Spill(c: Params, r: Reg, d: Octet, i: nat)
    requires ValidParams(c) && c.refIn && |r| == |c.poly| && i < c.w
    ensures ByteUpdate(c, r, d)[i]
         == (ByteUpdate(Narrow(c), r[..c.w], d)[i] != (c.w <= i + 8 < |r| && r[i + 8]))
  {
    hide Entry, Narrow;
    var n := Narrow(c);
    var e := Xor(r[..8], d);
    assert r[..c.w][..8] == r[..8];
    NarrowEntry(c, e);
    assert Entry(c, e)[i] == Entry(c, e)[..c.w][i];
    assert ByteUpdate(n, r[..c.w], d) == Xor(Shr(r[..c.w], 8), Entry(n, e));
  }

  const LAST_BIT: Octet := [false, false, false, false, false, false, false, true]

  lemma {:induction false} ZerosIn(w: nat, p: Reg, k: nat)
    requires 0 < w <= |p|
    ensures Feed(w, p, Zero(|p|), Zero(k)) == Zero(|p|)
    decreases k
  {
    hide Step;
    if k > 0 {
      StepZero(w, p);
      assert Zero(k)[1..] == Zero(k - 1);
      ZerosIn(w, p, k - 1);
    }
  }

  lemma StepZero(w: nat, p: Reg)
    requires 0 < w <= |p|
    ensures Step(w, p, Zero(|p|), false) == Zero(|p|)
  {
  }

  lemma FeedOne(w: nat, p: Reg, r: Reg, b: bool)
    requires 0 < w <= |r| == |p|
    ensures Feed(w, p, r, [b]) == Step(w, p, r, b)
  {
    hide Step;
    assert [b][1..] == [];
  }

  /** The table element for this index sets the bit just above the width. */
  lemma JunkEntry(c: Params)
    requires ValidParams(c) && c.refIn && c.w < |c.poly|
    ensures Entry(c, LAST_BIT)[c.w]
  {
    hide Feed, Step;
    var z := Zero(|c.poly|);
    assert LAST_BIT == Zero(7) + [true];
    FeedAppend(c.w, c.poly, z, Zero(7), [true]);
    ZerosIn(c.w, c.poly, 7);
    FeedOne(c.w, c.poly, z, true);
    JunkStep(c.w, c.poly);
  }

  lemma JunkStep(w: nat, p: Reg)
    requires 0 < w < |p| && InRange(p, w)
    ensures Step(w, p, Zero(|p|), true)[w]
  {
  }

  lemma OutputDiffers(reflect: bool, w: nat, final: Reg, r: Reg, r': Reg, i: nat)
    requires i < w == |r'| <= |r| == |final| && r[i] != r'[i]
    ensures Output(reflect, w, final, r)[..w] != Output(reflect, w, final[..w], r')
  {
    var j := if reflect then w - 1 - i else i;
    assert Output(reflect, w, final, r)[..w][j] != Output(reflect, w, final[..w], r')[j];
  }

  lemma NarrowBasic(c: Params, msg: seq<Octet>)
    requires ValidParams(c)
    ensures Basic(c, msg)[..c.w] == Basic(Narrow(c), msg)
  {
    hide Feed, MsgBits;
    var r := Feed(c.w, c.poly, c.init, MsgBits(c.refIn, msg));
    FeedLow(c.w, c.poly, c.init, MsgBits(c.refIn, msg));
    NarrowOutput(c.refOut, c.w, c.final, r);
  }

  lemma NarrowOutput(reflect: bool, w: nat, final: Reg, r: Reg)
    requires w <= |r| == |final|
    ensures Output(reflect, w, final, r)[..w] == Output(reflect, w, final[..w], r[..w])
  {
    NarrowReflect(r, w);
  }

  /** The first byte of a message that goes wrong. */
  function BadByte(c: Params): (d: Octet)
    requires ValidParams(c)
  {
    Xor(Start(c)[..8], LAST_BIT)
  }

  lemma StartFacts(c: Params)
    requires ValidParams(c)
    ensures InRange(Start(c), c.w) && Start(c)[..c.w] == Start(Narrow(c))
    ensures Xor(Start(c)[..8], BadByte(c)) == LAST_BIT
  {
    NarrowReflect(c.init, c.w);
  }

  /** Reflected input in a wider register: after that byte, whatever the next one is. */
  lemma TwoBytes(c: Params, d: Octet)
    requires ValidParams(c) && c.refIn && c.w < |c.poly|
    ensures Optimal(c, [BadByte(c), d]) != Basic(c, [BadByte(c), d])
  {
    hide ByteUpdate, Entry, Output, Start, Basic, BadByte, TableUpdate;
    var n, b, w := Narrow(c), BadByte(c), c.w;
    var r0 := Start(c);
    var r1 := ByteUpdate(c, r0, b);
    var r2 := ByteUpdate(c, r1, d);
    StartFacts(c);
    FirstByte(c, b);
    TwoUpdates(c, r0, b, d);
    TwoUpdates(n, Start(n), b, d);
    Spill(c, r1, d, w - 8);
    OutputDiffers(c.refOut != c.refIn, w, c.final, r2, ByteUpdate(n, r1[..w], d), w - 8);
    TablesAgree(n, [b, d]);
    NarrowBasic(c, [b, d]);
  }

  lemma TwoUpdates(c: Params, r: Reg, a: Octet, b: Octet)
    requires ValidParams(c) && |r| == |c.poly|
    ensures TableUpdate(c, r, [a, b]) == ByteUpdate(c, ByteUpdate(c, r, a), b)
  {
    hide ByteUpdate;
    assert [a, b][1..] == [b] && [b][1..] == [];
    assert TableUpdate(c, ByteUpdate(c, r, a), [b]) == ByteUpdate(c, ByteUpdate(c, r, a), b);
  }

  /** The first byte is right inside the width and leaves a bit just above it. */
  lemma FirstByte(c: Params, b: Octet)
    requires ValidParams(c) && c.refIn && c.w < |c.poly| && b == BadByte(c)
    ensures ByteUpdate(c, Start(c), b)[..c.w] == ByteUpdate(Narrow(c), Start(Narrow(c)), b)
    ensures ByteUpdate(c, Start(c), b)[c.w]
  {
    hide Entry, Start, BadByte;
    StartFacts(c);
    JunkEntry(c);
    var r := Start(c);
    assert ByteUpdate(c, r, b) == Xor(Shr(r, 8), Entry(c, LAST_BIT));
    CleanByte(c, r, b);
  }

  lemma CleanByte(c: Params, r: Reg, d: Octet)
    requires ValidParams(c) && c.refIn && |r| == |c.poly| && InRange(r, c.w)
    ensures ByteUpdate(c, r, d)[..c.w] == ByteUpdate(Narrow(c), r[..c.w], d)
  {
    hide ByteUpdate;
    forall i | 0 <= i < c.w ensures ByteUpdate(c, r, d)[i] == ByteUpdate(Narrow(c), r[..c.w], d)[i] {
      Spill(c, r, d, i);
    }
  }

  /** The two computers give the same checksum for every message. */
  ghost predicate AlwaysAgree(c: Params)
    requires ValidParams(c)
  {
    forall msg :: Optimal(c, msg) == Basic(c, msg)
  }

  /** They do so exactly when the input is not reflected or the register has no bits above the width. */
  lemma AgreeExactly(c: Params)
    requires ValidParams(c)
    ensures AlwaysAgree(c) <==> !c.refIn || |c.poly| == c.w
  {
    hide Optimal, Basic;
    if !c.refIn || |c.poly| == c.w {
      forall msg ensures Optimal(c, msg) == Basic(c, msg) {
        TablesAgree(c, msg);
      }
    } else {
      TwoBytes(c, LAST_BIT);
    }
  }
}
