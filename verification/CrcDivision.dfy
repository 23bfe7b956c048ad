/**
  What the checksums of public/bt/boost/include/boost/crc.hpp mean: the remainder of a division
  of polynomials over GF(2), reversed and combined with the final mask as the parameters say.
  Polynomials are written with the coefficient of the highest power first.
 */
module CrcDivision {
  import opened Crc

  // ---------------------------------------------------------------- multiplication

  /** The term of a product's coefficient `k` that factor coefficient `i` contributes. */
  predicate Term(q: seq<bool>, p: seq<bool>, k: int, i: nat)
    requires i < |q|
  {
    q[i] && 0 <= k - i < |p| && p[k - i]
  }

  /** The sum of the first `n` terms. */
  predicate Terms(q: seq<bool>, p: seq<bool>, k: int, n: nat)
    requires n <= |q|
  {
    n > 0 && Terms(q, p, k, n - 1) != Term(q, p, k, n - 1)
  }

  /** The product of two polynomials, by convolution. */
  function Mul(q: seq<bool>, p: seq<bool>): (r: seq<bool>)
    requires p != []
    ensures |r| == |q| + |p| - 1
  {
    seq(|q| + |p| - 1, k => Terms(q, p, k, |q|))
  }

  lemma {:induction false} TermsFront(c: bool, q: seq<bool>, p: seq<bool>, k: int, n: nat)
    requires n <= |q|
    ensures Terms([c] + q, p, k, n + 1) == ((c && 0 <= k < |p| && p[k]) != Terms(q, p, k - 1, n))
  {
    var cq := [c] + q;
    if n == 0 {
      assert Terms(cq, p, k, 0) == false;
      assert Term(cq, p, k, 0) == (c && 0 <= k < |p| && p[k]);
    } else {
      TermsFront(c, q, p, k, n - 1);
      assert Term(cq, p, k, n) == Term(q, p, k - 1, n - 1);
    }
  }

  /** One more leading coefficient adds a shifted copy of the other factor. */
  lemma MulFront(c: bool, q: seq<bool>, p: seq<bool>)
    requires p != []
    ensures Mul([c] + q, p) == Xor((if c then p else Zero(|p|)) + Zero(|q|), [false] + Mul(q, p))
  {
    hide Terms;
    var l := (if c then p else Zero(|p|)) + Zero(|q|);
    var m, r := Mul([c] + q, p), [false] + Mul(q, p);
    forall k | 0 <= k < |m| ensures m[k] == (l[k] != r[k]) {
      TermsFront(c, q, p, k, |q|);
      if k == 0 {
        NoTerms(q, p, k - 1, |q|);
      }
    }
  }

  lemma {:induction false} NoTerms(q: seq<bool>, p: seq<bool>, k: int, n: nat)
    requires n <= |q| && k < 0
    ensures !Terms(q, p, k, n)
  {
    if n > 0 {
      NoTerms(q, p, k, n - 1);
    }
  }

  // ---------------------------------------------------------------- division

  /** The polynomial with the leading one that the register leaves out. */
  function Divisor(p: Reg): (d: seq<bool>)
    ensures |d| == |p| + 1
  {
    [true] + Rev(p)
  }

  /** The input with a zero bit for every bit of the register behind it, the first bits combined with the register. */
  function Dividend(r: Reg, bits: seq<bool>): (d: seq<bool>)
    ensures |d| == |bits| + |r|
  {
    Xor(bits + Zero(|r|), Rev(r) + Zero(|bits|))
  }

  /** `rem` is what a division with quotient `q` leaves. */
  predicate Divides(d: seq<bool>, p: Reg, q: seq<bool>, rem: Reg) {
    |rem| == |p| && |d| == |q| + |p| && d == Xor(Mul(q, Divisor(p)), Zero(|q|) + Rev(rem))
  }

  ghost function Quotient(p: Reg, r: Reg, bits: seq<bool>): (q: seq<bool>)
    requires 0 < |r| == |p|
    ensures |q| == |bits|
    decreases |bits|
  {
    if bits == [] then []
    else [r[|r| - 1] != bits[0]] + Quotient(p, Step(|r|, p, r, bits[0]), bits[1..])
  }

  /** One step takes the divisor away under the leading bit. */
  lemma DividendStep(p: Reg, r: Reg, bits: seq<bool>)
    requires 0 < |r| == |p| && bits != []
    ensures var c, r' := r[|r| - 1] != bits[0], Step(|r|, p, r, bits[0]);
            Dividend(r, bits)
            == Xor((if c then Divisor(p) else Zero(|p| + 1)) + Zero(|bits| - 1), [false] + Dividend(r', bits[1..]))
  {
    hide Step, Dividend, Divisor;
    var w, n := |r|, |bits|;
    var c, r' := r[w - 1] != bits[0], Step(w, p, r, bits[0]);
    var l := (if c then Divisor(p) else Zero(w + 1)) + Zero(n - 1);
    var d, e := Dividend(r, bits), Dividend(r', bits[1..]);
    forall k | 0 <= k < |d| ensures d[k] == (l[k] != ([false] + e)[k]) {
      DividendStepAt(p, r, bits, k);
    }
  }

  lemma DividendStepAt(p: Reg, r: Reg, bits: seq<bool>, k: nat)
    requires 0 < |r| == |p| && bits != [] && k < |bits| + |r|
    ensures var c, r' := r[|r| - 1] != bits[0], Step(|r|, p, r, bits[0]);
            Dividend(r, bits)[k] ==
            (((if c then Divisor(p) else Zero(|p| + 1)) + Zero(|bits| - 1))[k]
             != (k > 0 && Dividend(r', bits[1..])[k - 1]))
  {
    hide Step, Dividend, Divisor;
    DividendAt(r, bits, k);
    UnderAt(p, r[|r| - 1] != bits[0], |bits| - 1, k);
    if k > 0 {
      DividendAt(Step(|r|, p, r, bits[0]), bits[1..], k - 1);
      if k <= |r| {
        StepAt(p, r, bits[0], |r| - k);
      }
    }
  }

  lemma UnderAt(p: Reg, c: bool, n: nat, k: nat)
    requires k < n + |p| + 1
    ensures ((if c then Divisor(p) else Zero(|p| + 1)) + Zero(n))[k] == (c && (k == 0 || (k <= |p| && p[|p| - k])))
  {
  }

  lemma DividendAt(r: Reg, bits: seq<bool>, k: nat)
    requires k < |bits| + |r|
    ensures Dividend(r, bits)[k] == ((k < |bits| && bits[k]) != (k < |r| && r[|r| - 1 - k]))
  {
  }

  lemma StepAt(p: Reg, r: Reg, b: bool, i: nat)
    requires 0 < |r| == |p| && i < |r|
    ensures Step(|r|, p, r, b)[i] == ((i > 0 && r[i - 1]) != ((r[|r| - 1] != b) && p[i]))
  {
  }

  lemma XorRegroup(a: seq<bool>, b: seq<bool>, c: seq<bool>)
    requires |a| == |b| == |c|
    ensures Xor(a, Xor(b, c)) == Xor(Xor(a, b), c)
  {
  }

  lemma XorShift(a: seq<bool>, b: seq<bool>)
    requires |a| == |b|
    ensures [false] + Xor(a, b) == Xor([false] + a, [false] + b)
  {
  }

  /** The register after the input is the remainder of the division. */
  lemma {:induction false} FeedDivides(p: Reg, r: Reg, bits: seq<bool>)
    requires 0 < |r| == |p|
    ensures Divides(Dividend(r, bits), p, Quotient(p, r, bits), Feed(|r|, p, r, bits))
    decreases |bits|
  {
    hide Step, Mul, Dividend, Divisor;
    if bits == [] {
      NothingFed(p, r);
    } else {
      var c, r', rest := r[|r| - 1] != bits[0], Step(|r|, p, r, bits[0]), bits[1..];
      var q, rem := Quotient(p, r', rest), Feed(|r|, p, r', rest);
      FeedDivides(p, r', rest);
      DividendStep(p, r, bits);
      DividesFront(Dividend(r', rest), p, c, q, rem);
    }
  }

  lemma NothingFed(p: Reg, r: Reg)
    requires 0 < |r| == |p|
    ensures Divides(Dividend(r, []), p, [], r)
  {
    assert Mul([], Divisor(p)) == Zero(|p|);
  }

  /** A division with one more leading bit. */
  lemma DividesFront(d: seq<bool>, p: Reg, c: bool, q: seq<bool>, rem: Reg)
    requires Divides(d, p, q, rem)
    ensures Divides(Xor((if c then Divisor(p) else Zero(|p| + 1)) + Zero(|q|), [false] + d), p, [c] + q, rem)
  {
    hide Mul, Divisor, Xor;
    var l := (if c then Divisor(p) else Zero(|p| + 1)) + Zero(|q|);
    var m, z := Mul(q, Divisor(p)), Zero(|q|) + Rev(rem);
    XorShift(m, z);
    XorRegroup(l, [false] + m, [false] + z);
    MulFront(c, q, Divisor(p));
    assert [false] + z == Zero(|q| + 1) + Rev(rem);
  }

  /** The division under the leading bit of the quotient. */
  lemma DividesBack(d: seq<bool>, p: Reg, q: seq<bool>, rem: Reg) returns (e: seq<bool>)
    requires Divides(d, p, q, rem) && q != []
    ensures Divides(e, p, q[1..], rem)
    ensures d == Xor((if q[0] then Divisor(p) else Zero(|p| + 1)) + Zero(|q| - 1), [false] + e)
  {
    hide Mul, Divisor, Xor;
    var l := (if q[0] then Divisor(p) else Zero(|p| + 1)) + Zero(|q| - 1);
    var m, z := Mul(q[1..], Divisor(p)), Zero(|q| - 1) + Rev(rem);
    e := Xor(m, z);
    XorShift(m, z);
    XorRegroup(l, [false] + m, [false] + z);
    MulFront(q[0], q[1..], Divisor(p));
    assert [q[0]] + q[1..] == q;
    assert [false] + z == Zero(|q|) + Rev(rem);
  }

  lemma SameBehind(p: Reg, a: bool, b: bool, n: nat, d: seq<bool>, e: seq<bool>)
    requires |d| == |e| == n + |p|
    requires Xor((if a then Divisor(p) else Zero(|p| + 1)) + Zero(n), [false] + d)
          == Xor((if b then Divisor(p) else Zero(|p| + 1)) + Zero(n), [false] + e)
    ensures a == b && d == e
  {
    var l := (if a then Divisor(p) else Zero(|p| + 1)) + Zero(n);
    var m := (if b then Divisor(p) else Zero(|p| + 1)) + Zero(n);
    assert (l[0] != ([false] + d)[0]) == a && (m[0] != ([false] + e)[0]) == b;
    forall k | 0 <= k < |d| ensures d[k] == e[k] {
      assert (l[k + 1] != ([false] + d)[k + 1]) == (m[k + 1] != ([false] + e)[k + 1]);
    }
  }

  /** A polynomial has only one quotient and one remainder. */
  lemma {:induction false} DivisionUnique(d: seq<bool>, p: Reg, q: seq<bool>, rem: Reg, q': seq<bool>, rem': Reg)
    requires Divides(d, p, q, rem) && Divides(d, p, q', rem')
    ensures q == q' && rem == rem'
    decreases |q|
  {
    hide Divisor, Mul;
    if q == [] {
      NoQuotient(d, p, rem);
      NoQuotient(d, p, rem');
      assert Rev(Rev(rem)) == rem && Rev(Rev(rem')) == rem';
    } else {
      var e := DividesBack(d, p, q, rem);
      var e' := DividesBack(d, p, q', rem');
      SameBehind(p, q[0], q'[0], |q| - 1, e, e');
      DivisionUnique(e, p, q[1..], rem, q'[1..], rem');
      assert q == [q[0]] + q[1..] && q' == [q'[0]] + q'[1..];
    }
  }

  lemma NoQuotient(d: seq<bool>, p: Reg, rem: Reg)
    requires Divides(d, p, [], rem)
    ensures d == Rev(rem)
  {
    assert Mul([], Divisor(p)) == Zero(|p|);
  }

  // ---------------------------------------------------------------- the checksum

  /** Bit `j` of byte `i` of a message, in the order of reading. */
  lemma {:induction false} MsgBitsAt(refIn: bool, msg: seq<Octet>, i: nat, j: nat)
    requires i < |msg| && j < 8
    ensures |MsgBits(refIn, msg)| == 8 * |msg|
    ensures MsgBits(refIn, msg)[8 * i + j] == if refIn then msg[i][j] else msg[i][7 - j]
  {
    hide MsgBits;
    MsgBitsSize(refIn, msg);
    MsgBitsSize(refIn, msg[1..]);
    MsgBitsFront(refIn, msg);
    if i > 0 {
      MsgBitsAt(refIn, msg[1..], i - 1, j);
      assert 8 * i + j == 8 + (8 * (i - 1) + j);
    }
  }

  lemma MsgBitsFront(refIn: bool, msg: seq<Octet>)
    requires msg != []
    ensures MsgBits(refIn, msg) == Order(refIn, msg[0]) + MsgBits(refIn, msg[1..])
  {
    hide Order;
  }

  lemma {:induction false} MsgBitsSize(refIn: bool, msg: seq<Octet>)
    ensures |MsgBits(refIn, msg)| == 8 * |msg|
  {
    if msg != [] {
      MsgBitsSize(refIn, msg[1..]);
    }
  }

  /**
    The checksum of the bit-wise computer. The message, with the initial remainder combined into
    its first bits and `w` zero bits behind it, has exactly one quotient and remainder by the full
    polynomial. The remainder, reversed when the output is, combined with the mask is the checksum;
    above the width it is zero.
   */
  lemma BasicMeans(c: Params, msg: seq<Octet>, q: seq<bool>, rem: Reg)
    requires ValidParams(c)
    ensures Divides(Dividend(c.init[..c.w], MsgBits(c.refIn, msg)), c.poly[..c.w], q, rem) ==>
              Basic(c, msg) == Xor(if c.refOut then Rev(rem) else rem, c.final[..c.w]) + Zero(|c.poly| - c.w)
    ensures exists q', rem' :: Divides(Dividend(c.init[..c.w], MsgBits(c.refIn, msg)), c.poly[..c.w], q', rem')
  {
    hide Feed, MsgBits, Divides, Dividend, Output, Quotient, Xor, Rev, Zero;
    var bits, p, r := MsgBits(c.refIn, msg), c.poly[..c.w], c.init[..c.w];
    FeedDivides(p, r, bits);
    if Divides(Dividend(r, bits), p, q, rem) {
      DivisionUnique(Dividend(r, bits), p, q, rem, Quotient(p, r, bits), Feed(c.w, p, r, bits));
      FeedLow(c.w, c.poly, c.init, bits);
      OutputMeans(c.refOut, c.w, c.final, Feed(c.w, c.poly, c.init, bits));
    }
  }

  lemma OutputMeans(reflect: bool, w: nat, final: Reg, r: Reg)
    requires w <= |r| == |final|
    ensures Output(reflect, w, final, r)
         == Xor(if reflect then Rev(r[..w]) else r[..w], final[..w]) + Zero(|r| - w)
  {
  }

  /** The final mask changes the checksum in exactly its own bits, in either computer. */
  lemma MaskChanges(c: Params, msg: seq<Octet>)
    requires ValidParams(c)
    ensures var plain := c.(final := Zero(|c.poly|));
            && Basic(c, msg) == Xor(Basic(plain, msg), Low(c.final, c.w))
            && Optimal(c, msg) == Xor(Optimal(plain, msg), Low(c.final, c.w))
  {
    hide Feed, MsgBits, TableUpdate, Output, Start;
    var plain := c.(final := Zero(|c.poly|));
    MaskedOutput(c.refOut, c.w, c.final, Feed(c.w, c.poly, c.init, MsgBits(c.refIn, msg)));
    SameUpdates(c, plain, Start(c), msg);
    SameStart(c, plain);
    MaskedOutput(c.refOut != c.refIn, c.w, c.final, TableUpdate(c, Start(c), msg));
  }

  lemma MaskedOutput(reflect: bool, w: nat, final: Reg, r: Reg)
    requires w <= |r| == |final|
    ensures Output(reflect, w, final, r) == Xor(Output(reflect, w, Zero(|r|), r), Low(final, w))
  {
  }

  /** Without a mask, reflecting the output reverses the low bits, in either computer. */
  lemma ReflectedOutput(c: Params, msg: seq<Octet>)
    requires ValidParams(c) && c.final == Zero(|c.poly|) && !c.refOut
    ensures var turned := c.(refOut := true);
            && Basic(turned, msg) == Reflect(Basic(c, msg), c.w)
            && Optimal(turned, msg) == Reflect(Optimal(c, msg), c.w)
  {
    hide Feed, MsgBits, TableUpdate, Output, Start;
    var turned := c.(refOut := true);
    TurnedOutput(c.w, Feed(c.w, c.poly, c.init, MsgBits(c.refIn, msg)));
    SameUpdates(c, turned, Start(c), msg);
    SameStart(c, turned);
    TurnedOutput(c.w, TableUpdate(c, Start(c), msg));
  }

  lemma TurnedOutput(w: nat, r: Reg)
    requires w <= |r|
    ensures Output(true, w, Zero(|r|), r) == Reflect(Output(false, w, Zero(|r|), r), w)
    ensures Output(false, w, Zero(|r|), r) == Reflect(Output(true, w, Zero(|r|), r), w)
  {
  }

  /** The byte updates use neither the mask nor the output reflection. */
  lemma {:induction false} SameUpdates(c: Params, e: Params, r: Reg, msg: seq<Octet>)
    requires ValidParams(c) && ValidParams(e) && |r| == |c.poly|
    requires c.w == e.w && c.poly == e.poly && c.refIn == e.refIn
    ensures TableUpdate(c, r, msg) == TableUpdate(e, r, msg)
    decreases |msg|
  {
    hide Feed;
    if msg != [] {
      assert ByteUpdate(c, r, msg[0]) == ByteUpdate(e, r, msg[0]);
      SameUpdates(c, e, ByteUpdate(c, r, msg[0]), msg[1..]);
    }
  }

  lemma SameStart(c: Params, e: Params)
    requires ValidParams(c) && ValidParams(e) && c.w == e.w && c.init == e.init && c.refIn == e.refIn
    ensures Start(c) == Start(e)
  {
  }
}
