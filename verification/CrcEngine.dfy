/**
  The loops of public/bt/boost/include/boost/crc.hpp, each proved against the division it stands
  for, and the two computers `crc_basic` and `crc_optimal`.
 */
module CrcEngine {
  import opened Crc
  import opened CrcAugmented

  // ---------------------------------------------------------------- numbers as bits

  function Pow2(k: nat): (n: nat)
    ensures n > 0
  {
    if k == 0 then 1 else 2 * Pow2(k - 1)
  }

  function Value(b: seq<bool>): (n: nat)
    ensures n < Pow2(|b|)
  {
    if b == [] then 0 else (if b[0] then 1 else 0) + 2 * Value(b[1..])
  }

  function BitsOf(n: nat, k: nat): (b: seq<bool>)
    ensures |b| == k
  {
    if k == 0 then [] else [n % 2 == 1] + BitsOf(n / 2, k - 1)
  }

  lemma {:induction false} BitsOfValue(b: seq<bool>)
    ensures BitsOf(Value(b), |b|) == b
    decreases |b|
  {
    if b != [] {
      var n := Value(b);
      assert n / 2 == Value(b[1..]) && (n % 2 == 1) == b[0];
      BitsOfValue(b[1..]);
    }
  }

  lemma {:induction false} ValueOfBits(n: nat, k: nat)
    requires n < Pow2(k)
    ensures Value(BitsOf(n, k)) == n
  {
    if k > 0 {
      ValueOfBits(n / 2, k - 1);
      assert BitsOf(n, k)[1..] == BitsOf(n / 2, k - 1);
    }
  }

  function Index(e: Octet): (n: nat)
    ensures n < 256
  {
    assert Pow2(8) == 2 * 2 * 2 * 2 * Pow2(4) == 256;
    Value(e)
  }

  lemma IndexIsOne(e: Octet, n: nat)
    requires n < 256
    ensures Index(e) == n <==> e == BitsOf(n, 8)
  {
    assert Pow2(8) == 2 * 2 * 2 * 2 * Pow2(4) == 256;
    hide Value, BitsOf, Pow2;
    BitsOfValue(e);
    ValueOfBits(n, 8);
  }

  // ---------------------------------------------------------------- reflection and division

  /** `reflect_unsigned`: two places at a time, from the outside in. */
  method ReflectUnsigned(x: Reg, n: nat) returns (y: Reg)
    requires 0 < n <= |x|
    ensures y == Reflect(x, n)
  {
    y := x;
    var l, h := 0, n - 1;
    while h > l
      invariant 0 <= l <= h + 1 && l + h == n - 1
      invariant Swapped(x, y, n, l)
    {
      ghost var z := y;
      if y[h] != y[l] {
        y := y[h := !y[h]][l := !y[l]];
      }
      SwapMore(x, z, y, n, l);
      h, l := h - 1, l + 1;
    }
    SwappedAll(x, y, n, l);
  }

  lemma SwappedAll(x: Reg, y: Reg, n: nat, l: nat)
    requires n <= |x| && n <= 2 * l + 1 && Swapped(x, y, n, l)
    ensures y == Reflect(x, n)
  {
    forall i | 0 <= i < |x| ensures y[i] == Reflect(x, n)[i] {
      if i < n && i >= l && n - 1 - i >= l {
        assert n - 1 - i == i;
      }
    }
  }

  /** The outer `l` places on either side have been exchanged. */
  ghost predicate Swapped(x: Reg, y: Reg, n: nat, l: nat)
    requires n <= |x|
  {
    && |y| == |x|
    && forall i :: 0 <= i < |y| ==> y[i] == (if i < n && (i < l || n - 1 - i < l) then x[n - 1 - i] else x[i])
  }

  lemma SwapMore(x: Reg, z: Reg, y: Reg, n: nat, l: nat)
    requires n <= |x| && l < n - 1 - l && Swapped(x, z, n, l)
    requires var h := n - 1 - l;
             y == if z[h] != z[l] then z[h := !z[h]][l := !z[l]] else z
    ensures Swapped(x, y, n, l + 1)
  {
    var h := n - 1 - l;
    assert z[h] == x[h] && z[l] == x[l];
    assert y[h] == x[l] && y[l] == x[h];
  }

  /** The bits of a word in the order `crc_modulo_word_update` reads them. */
  function WordOrder(word: Reg, n: nat, reflect: bool): (bits: seq<bool>)
    requires n <= |word|
    ensures |bits| == n
  {
    if reflect then word[..n] else Rev(word[..n])
  }

  method ModuloWordUpdate(w: nat, remainder: Reg, word: Reg, p: Reg, n: nat, reflect: bool) returns (r: Reg)
    requires 0 < w <= |remainder| == |p| && 0 < n <= |word|
    ensures r == Feed(w, p, remainder, WordOrder(word, n, reflect))
  {
    hide Feed, Step, Xor, Reflect, Shr, Shl, Rev;
    ghost var bits := WordOrder(word, n, reflect);
    var x := word;
    if !reflect {
      x := ReflectUnsigned(x, n);
    }
    OrderRead(word, n);
    assert bits[0..] == bits;
    r := remainder;
    var i := n;
    while i != 0
      invariant 0 <= i <= n && |r| == |p| && |x| == |word|
      invariant x[..i] == bits[n - i..]
      invariant Feed(w, p, r, bits[n - i..]) == Feed(w, p, remainder, bits)
    {
      OneRead(x, i, bits[n - i..]);
      NextBit(w, p, r, bits, n - i);
      r := DivideBit(w, r, x[0], p);
      assert bits[n - i..][1..] == bits[n - i + 1..];
      x := Shr(x, 1);
      i := i - 1;
    }
    assert bits[n..] == [];
    NoBits(w, p, r);
  }

  /** The body of that loop. */
  method DivideBit(w: nat, remainder: Reg, bit: bool, p: Reg) returns (r: Reg)
    requires 0 < w <= |remainder| == |p|
    ensures r == Step(w, p, remainder, bit)
  {
    hide Step, Xor, Shl;
    r := remainder;
    if bit {
      r := r[w - 1 := !r[w - 1]];
    }
    var quotient := r[w - 1];
    r := Shl(r, 1);
    r := Xor(r, if quotient then p else Zero(|p|));
    StepIs(w, p, remainder, bit, r);
  }

  lemma OrderRead(word: Reg, n: nat)
    requires n <= |word|
    ensures Reflect(word, n)[..n] == Rev(word[..n])
  {
  }

  lemma OneRead(x: Reg, i: nat, rest: seq<bool>)
    requires 0 < i <= |x| && x[..i] == rest
    ensures x[0] == rest[0] && Shr(x, 1)[..i - 1] == rest[1..]
  {
    assert x[0] == x[..i][0];
    assert Shr(x, 1)[..i - 1] == x[..i][1..];
  }

  lemma NextBit(w: nat, p: Reg, r: Reg, bits: seq<bool>, k: nat)
    requires 0 < w <= |r| == |p| && k < |bits|
    ensures Feed(w, p, r, bits[k..]) == Feed(w, p, Step(w, p, r, bits[k]), bits[k + 1..])
  {
    hide Step;
    assert bits[k..][1..] == bits[k + 1..];
  }

  lemma StepIs(w: nat, p: Reg, r: Reg, b: bool, r': Reg)
    requires 0 < w <= |r| == |p|
    requires var m := if b then r[w - 1 := !r[w - 1]] else r;
             r' == Xor(Shl(m, 1), if m[w - 1] then p else Zero(|p|))
    ensures r' == Step(w, p, r, b)
  {
    hide Xor;
    assert !b ==> r[w - 1 := r[w - 1]] == r;
  }

  // ---------------------------------------------------------------- the table

  ghost predicate IsTable(c: Params, table: seq<Reg>)
    requires ValidParams(c)
  {
    |table| == 256 && forall e: Octet :: table[Index(e)] == Entry(c, e)
  }

  /** The dividend whose product is stored for an index. */
  function Dividend(refIn: bool, e: Octet): (d: Octet) {
    if refIn then Rev(e) else e
  }

  /** `make_partial_xor_products_table`, for bytes. */
  method MakeTable(c: Params) returns (table: seq<Reg>)
    requires ValidParams(c)
    ensures IsTable(c, table)
  {
    hide Index, Entry, Feed, BitsOf, Reflect;
    var n := |c.poly|;
    var result := new Reg[256](_ => Zero(n));
    var dividend := 0;
    while dividend < 256
      invariant 0 <= dividend <= 256
      invariant forall e: Octet :: Index(Dividend(c.refIn, e)) < dividend ==> result[Index(e)] == Entry(c, e)
    {
      var bits: Octet := BitsOf(dividend, 8);
      var remainder := ModuloWordUpdate(c.w, Zero(n), bits, c.poly, 8, false);
      var at, element := bits, remainder;
      if c.refIn {
        at := ReflectUnsigned(bits, 8);
        element := ReflectUnsigned(remainder, c.w);
      }
      EntryAt(c, bits, at, element);
      result[Index(at)] := element;
      forall e: Octet | Index(Dividend(c.refIn, e)) < dividend + 1 ensures result[Index(e)] == Entry(c, e) {
        IndexIsOne(Dividend(c.refIn, e), dividend);
        IndexIsOne(e, Index(at));
        IndexIsOne(at, Index(at));
        DividendTwice(c.refIn, e);
      }
      dividend := dividend + 1;
    }
    table := result[..];
  }

  lemma EntryAt(c: Params, bits: Octet, at: Octet, element: Reg)
    requires ValidParams(c) && at == (if c.refIn then Reflect(bits, 8) else bits)
    requires var product := Feed(c.w, c.poly, Zero(|c.poly|), WordOrder(bits, 8, false));
             element == if c.refIn then Reflect(product, c.w) else product
    ensures element == Entry(c, at) && at == Dividend(c.refIn, bits)
  {
    hide Feed;
    assert bits[..8] == bits;
    ReflectAll(bits);
  }

  lemma DividendTwice(refIn: bool, e: Octet)
    ensures Dividend(refIn, Dividend(refIn, e)) == e
  {
    ReflectAll(e);
  }

  /** Direct and reflected `crc_update`. */
  method CrcUpdate(c: Params, table: seq<Reg>, remainder: Reg, msg: seq<Octet>) returns (r: Reg)
    requires ValidParams(c) && IsTable(c, table) && |remainder| == |c.poly|
    ensures r == TableUpdate(c, remainder, msg)
  {
    hide Entry, Xor, TableUpdate, Index, Shl, Shr;
    r := remainder;
    var i := 0;
    assert msg[0..] == msg;
    while i < |msg|
      invariant 0 <= i <= |msg| && |r| == |c.poly|
      invariant TableUpdate(c, r, msg[i..]) == TableUpdate(c, remainder, msg)
    {
      NextByte(c, r, msg, i);
      if c.refIn {
        var index: Octet := Xor(r[..8], msg[i]);
        r := Shr(r, 8);
        r := Xor(r, table[Index(index)]);
      } else {
        var index: Octet := Xor(Shr(r, c.w - 8)[..8], msg[i]);
        TopByte(r, c.w);
        r := Shl(r, 8);
        r := Xor(r, table[Index(index)]);
      }
      i := i + 1;
    }
    assert msg[i..] == [];
    NoBytes(c, r);
  }

  lemma TopByte(r: Reg, w: nat)
    requires 8 <= w <= |r|
    ensures Shr(r, w - 8)[..8] == r[w - 8..w]
  {
  }

  lemma NextByte(c: Params, r: Reg, msg: seq<Octet>, i: nat)
    requires ValidParams(c) && |r| == |c.poly| && i < |msg|
    ensures TableUpdate(c, r, msg[i..]) == TableUpdate(c, ByteUpdate(c, r, msg[i]), msg[i + 1..])
  {
    hide ByteUpdate;
    assert msg[i..][1..] == msg[i + 1..];
  }

  lemma NoBytes(c: Params, r: Reg)
    requires ValidParams(c) && |r| == |c.poly|
    ensures TableUpdate(c, r, []) == r
  {
  }

  /** `augmented_crc`, with its own direct table. */
  method AugmentedCrc(w: nat, p: Reg, init: Reg, msg: seq<Octet>) returns (r: Reg)
    requires 8 <= w <= |init| == |p| && InRange(p, w)
    ensures r == Augmented(w, p, init, msg)
  {
    hide Entry, Xor, AugTable, Index, Shl, ShiftByte;
    var table := MakeTable(Plain(w, p));
    r := init;
    var i := 0;
    assert msg[0..] == msg;
    while i < |msg|
      invariant 0 <= i <= |msg| && |r| == |p|
      invariant AugTable(w, p, r, msg[i..]) == AugTable(w, p, init, msg)
    {
      NextAugmented(w, p, r, msg, i);
      var index: Octet := Shr(r, w - 8)[..8];
      TopByte(r, w);
      r := ShiftByte(r, msg[i]);
      r := Xor(r, table[Index(index)]);
      i := i + 1;
    }
    assert msg[i..] == [];
    NoAugmented(w, p, r);
    r := Low(r, w);
  }

  lemma NextAugmented(w: nat, p: Reg, r: Reg, msg: seq<Octet>, i: nat)
    requires 8 <= w <= |r| == |p| && InRange(p, w) && i < |msg|
    ensures AugTable(w, p, r, msg[i..]) == AugTable(w, p, AugByte(w, p, r, msg[i]), msg[i + 1..])
  {
    hide AugByte;
    assert msg[i..][1..] == msg[i + 1..];
  }

  lemma NoAugmented(w: nat, p: Reg, r: Reg)
    requires 8 <= w <= |r| == |p| && InRange(p, w)
    ensures AugTable(w, p, r, []) == r
  {
  }

  // ---------------------------------------------------------------- the computers

  /** `crc_basic`. */
  class CrcBasic {
    const c: Params
    var rem: Reg

    ghost predicate Valid()
      reads this
    {
      ValidParams(c) && |rem| == |c.poly|
    }

    constructor (c: Params)
      requires ValidParams(c)
      ensures Valid() && this.c == c && rem == c.init
    {
      this.c, rem := c, c.init;
    }

    method ProcessBit(bit: bool)
      requires Valid()
      modifies this
      ensures Valid() && rem == Step(c.w, c.poly, old(rem), bit)
    {
      hide Step, Feed;
      var r := ModuloWordUpdate(c.w, rem, [bit], c.poly, 1, false);
      assert Rev([bit][..1]) == [bit];
      FeedOne(c.w, c.poly, rem, bit);
      rem := r;
    }

    /** The lowest `n` bits of a byte, the highest of them first. */
    method ProcessBits(bits: Octet, n: nat)
      requires Valid() && 0 < n <= 8
      modifies this
      ensures Valid() && rem == Feed(c.w, c.poly, old(rem), Rev(bits[..n]))
    {
      hide Step, Feed;
      ghost var start, all := rem, Rev(bits[..n]);
      var b := Shl(bits, 8 - n);
      var i := n;
      NoBits(c.w, c.poly, rem);
      assert all[..0] == [];
      while i > 0
        invariant 0 <= i <= n && Valid() && b == Shl(bits, 8 - i)
        invariant rem == Feed(c.w, c.poly, start, all[..n - i])
      {
        assert b[7] == all[n - i];
        SnocBit(c.w, c.poly, start, all, n - i);
        ProcessBit(b[7]);
        ShlMore(bits, 8 - i);
        b := Shl(b, 1);
        i := i - 1;
      }
      assert all[..n] == all;
    }

    method ProcessByte(byte: Octet)
      requires Valid()
      modifies this
      ensures Valid() && rem == Feed(c.w, c.poly, old(rem), Order(c.refIn, byte))
    {
      hide Feed;
      var b := byte;
      if c.refIn {
        b := ReflectUnsigned(byte, 8);
      }
      ReflectAll(byte);
      assert b[..8] == b;
      ProcessBits(b, 8);
    }

    /** `process_bytes` and `process_block`. */
    method ProcessBytes(msg: seq<Octet>)
      requires Valid()
      modifies this
      ensures Valid() && rem == Feed(c.w, c.poly, old(rem), MsgBits(c.refIn, msg))
    {
      hide Feed, MsgBits;
      ghost var start := rem;
      var i := 0;
      assert msg[0..] == msg;
      while i < |msg|
        invariant 0 <= i <= |msg| && Valid()
        invariant Feed(c.w, c.poly, rem, MsgBits(c.refIn, msg[i..])) == Feed(c.w, c.poly, start, MsgBits(c.refIn, msg))
      {
        NextMsgBits(c.refIn, msg, i);
        FeedAppend(c.w, c.poly, rem, Order(c.refIn, msg[i]), MsgBits(c.refIn, msg[i + 1..]));
        ProcessByte(msg[i]);
        i := i + 1;
      }
      assert msg[i..] == [];
      NoMsgBits(c.refIn);
      NoBits(c.w, c.poly, rem);
    }

    method Checksum() returns (s: Reg)
      requires Valid()
      ensures s == Output(c.refOut, c.w, c.final, rem)
    {
      var r := rem;
      if c.refOut {
        r := ReflectUnsigned(rem, c.w);
      }
      s := Low(Xor(r, c.final), c.w);
    }
  }

  lemma SnocBit(w: nat, p: Reg, r: Reg, bits: seq<bool>, k: nat)
    requires 0 < w <= |r| == |p| && k < |bits|
    ensures Feed(w, p, r, bits[..k + 1]) == Step(w, p, Feed(w, p, r, bits[..k]), bits[k])
  {
    hide Feed, Step;
    assert bits[..k + 1] == bits[..k] + [bits[k]];
    FeedAppend(w, p, r, bits[..k], [bits[k]]);
    FeedOne(w, p, Feed(w, p, r, bits[..k]), bits[k]);
  }

  lemma ShlMore(r: Reg, k: nat)
    ensures Shl(Shl(r, k), 1) == Shl(r, k + 1)
  {
  }

  lemma NextMsgBits(refIn: bool, msg: seq<Octet>, i: nat)
    requires i < |msg|
    ensures MsgBits(refIn, msg[i..]) == Order(refIn, msg[i]) + MsgBits(refIn, msg[i + 1..])
  {
    hide Order;
    assert msg[i..][1..] == msg[i + 1..];
  }

  lemma NoMsgBits(refIn: bool)
    ensures MsgBits(refIn, []) == []
  {
  }

  /** `crc_optimal`: its register holds the remainder reflected when the input is. */
  class CrcOptimal {
    const c: Params
    const table: seq<Reg>
    var rem: Reg

    ghost predicate Valid()
      reads this
    {
      ValidParams(c) && IsTable(c, table) && |rem| == |c.poly|
    }

    constructor (c: Params)
      requires ValidParams(c)
      ensures Valid() && this.c == c && rem == Start(c)
    {
      hide IsTable, Reflect;
      var t := MakeTable(c);
      var r := c.init;
      if c.refIn {
        r := ReflectUnsigned(r, c.w);
      }
      this.c, table, rem := c, t, r;
    }

    method ProcessBytes(msg: seq<Octet>)
      requires Valid()
      modifies this
      ensures Valid() && rem == TableUpdate(c, old(rem), msg)
    {
      hide IsTable, TableUpdate;
      rem := CrcUpdate(c, table, rem, msg);
    }

    method Checksum() returns (s: Reg)
      requires Valid()
      ensures s == Output(c.refOut != c.refIn, c.w, c.final, rem)
    {
      hide IsTable;
      var r := rem;
      if c.refOut != c.refIn {
        r := ReflectUnsigned(rem, c.w);
      }
      s := Low(Xor(r, c.final), c.w);
    }
  }

  /** A whole run of the bit-wise computer. */
  method RunBasic(c: Params, msg: seq<Octet>) returns (s: Reg)
    requires ValidParams(c)
    ensures s == Basic(c, msg)
  {
    hide Feed, MsgBits, Output;
    var computer := new CrcBasic(c);
    computer.ProcessBytes(msg);
    s := computer.Checksum();
  }

  /** `crc`: a whole run of the table-driven computer, in exact registers equal to the bit-wise one. */
  method RunOptimal(c: Params, msg: seq<Octet>) returns (s: Reg)
    requires ValidParams(c)
    ensures s == Optimal(c, msg)
    ensures !c.refIn || |c.poly| == c.w ==> s == Basic(c, msg)
  {
    hide TableUpdate, Output, Basic, IsTable;
    var computer := new CrcOptimal(c);
    computer.ProcessBytes(msg);
    s := computer.Checksum();
    if !c.refIn || |c.poly| == c.w {
      TablesAgree(c, msg);
    }
  }
}
