/**
  The compression of public/sm/sm3.cpp: message expansion, sixty-four rounds and the combination
  with the old registers. The constants T are a parameter.
 */
module Sm3Compress {
  import opened Sm4Cipher
  import opened Sm4Standard
  import opened Sm3

  // ---------------------------------------------------------------- word functions

  function Add(a: word, b: word): (c: word) {
    a + b
  }

  function Sub(a: word, b: word): (c: word) {
    a - b
  }

  function P0(x: word): (y: word) {
    Xor32(Xor32(x, RotateLeft(x, 9)), RotateLeft(x, 17))
  }

  function P1(x: word): (y: word) {
    Xor32(Xor32(x, RotateLeft(x, 15)), RotateLeft(x, 23))
  }

  function FF(j: nat, x: word, y: word, z: word): (r: word) {
    if j < 16 then Xor32(Xor32(x, y), z) else (x & y) | (x & z) | (y & z)
  }

  function GG(j: nat, x: word, y: word, z: word): (r: word) {
    if j < 16 then Xor32(Xor32(x, y), z) else (x & y) | (!x & z)
  }

  lemma AddBack(a: word, b: word)
    ensures Sub(Add(a, b), b) == a && Sub(Add(b, a), b) == a
  {
  }

  lemma RotateBack(x: word)
    ensures RotateLeft(RotateLeft(x, 9), 23) == x && RotateLeft(RotateLeft(x, 19), 13) == x
  {
  }

  // ---------------------------------------------------------------- bit by bit

  lemma MajorityBits(f: word, x: word, y: word, z: word, i: bv5)
    requires f == FF(16, x, y, z)
    ensures Bit(f, i) == ((Bit(x, i) && Bit(y, i)) || (Bit(x, i) && Bit(z, i)) || (Bit(y, i) && Bit(z, i)))
  {
  }

  lemma ChoiceBits(f: word, x: word, y: word, z: word, i: bv5)
    requires f == GG(16, x, y, z)
    ensures Bit(f, i) == if Bit(x, i) then Bit(y, i) else Bit(z, i)
  {
  }

  lemma ParityBits(x: word, y: word, z: word, i: bv5)
    ensures Bit(Xor32(Xor32(x, y), z), i) == ((Bit(x, i) != Bit(y, i)) != Bit(z, i))
  {
    hide Bit, Xor32;
    XorBits(x, y, i);
    XorBits(Xor32(x, y), z, i);
  }

  lemma RotatedBy9(a: word, j: bv5)
    ensures Bit(RotateLeft(a, 9), j) == Bit(a, j - 9)
  {
  }

  lemma RotatedBy15(a: word, j: bv5)
    ensures Bit(RotateLeft(a, 15), j) == Bit(a, j - 15)
  {
  }

  lemma RotatedBy17(a: word, j: bv5)
    ensures Bit(RotateLeft(a, 17), j) == Bit(a, j - 17)
  {
  }

  lemma P0Bits(x: word, j: bv5)
    ensures Bit(P0(x), j) == ((Bit(x, j) != Bit(x, j - 9)) != Bit(x, j - 17))
  {
    hide Bit, Xor32, RotateLeft;
    ParityBits(x, RotateLeft(x, 9), RotateLeft(x, 17), j);
    RotatedBy9(x, j);
    RotatedBy17(x, j);
  }

  lemma P1Bits(x: word, j: bv5)
    ensures Bit(P1(x), j) == ((Bit(x, j) != Bit(x, j - 15)) != Bit(x, j - 23))
  {
    hide Bit, Xor32, RotateLeft;
    ParityBits(x, RotateLeft(x, 15), RotateLeft(x, 23), j);
    RotatedBy15(x, j);
    RotatedBy23(x, j);
  }

  lemma Indices(j: bv5)
    ensures j - 9 - 9 == j - 18 && j - 9 - 17 == j - 17 - 9 && j - 17 - 17 == j - 2
    ensures j - 18 - 18 == j - 2 - 2 && j - 18 - 2 == j - 2 - 18
    ensures j - 15 - 15 == j - 30 && j - 15 - 23 == j - 23 - 15 && j - 23 - 23 == j - 14
    ensures j - 30 - 30 == j - 14 - 14 && j - 30 - 14 == j - 14 - 30
  {
  }

  lemma P0Twice(x: word, j: bv5)
    ensures Bit(P0(P0(x)), j) == ((Bit(x, j) != Bit(x, j - 18)) != Bit(x, j - 2))
  {
    hide Bit, P0;
    Indices(j);
    P0Bits(P0(x), j);
    P0Bits(x, j);
    P0Bits(x, j - 9);
    P0Bits(x, j - 17);
  }

  lemma P0FourBits(x: word, j: bv5)
    ensures Bit(P0(P0(P0(P0(x)))), j) == Bit(x, j)
  {
    hide Bit, P0;
    Indices(j);
    var y := P0(P0(x));
    P0Twice(y, j);
    P0Twice(x, j);
    P0Twice(x, j - 18);
    P0Twice(x, j - 2);
  }

  lemma P1Twice(x: word, j: bv5)
    ensures Bit(P1(P1(x)), j) == ((Bit(x, j) != Bit(x, j - 30)) != Bit(x, j - 14))
  {
    hide Bit, P1;
    Indices(j);
    P1Bits(P1(x), j);
    P1Bits(x, j);
    P1Bits(x, j - 15);
    P1Bits(x, j - 23);
  }

  lemma P1FourBits(x: word, j: bv5)
    ensures Bit(P1(P1(P1(P1(x)))), j) == Bit(x, j)
  {
    hide Bit, P1;
    Indices(j);
    var y := P1(P1(x));
    P1Twice(y, j);
    P1Twice(x, j);
    P1Twice(x, j - 30);
    P1Twice(x, j - 14);
  }

  /** Words with the same bits are the same. */
  lemma SameBits(a: word, b: word)
    requires forall j: bv5 :: Bit(a, j) == Bit(b, j)
    ensures a == b
  {
    hide Bit;
    SameLow(a, b);
    SameHigh(a, b);
    SameHalves(a, b);
  }

  lemma SameHalves(a: word, b: word)
    requires a & 0xffff == b & 0xffff && a >> 16 == b >> 16
    ensures a == b
  {
  }

  lemma SameLow(a: word, b: word)
    requires Bit(a, 0) == Bit(b, 0) && Bit(a, 1) == Bit(b, 1) && Bit(a, 2) == Bit(b, 2)
    requires Bit(a, 3) == Bit(b, 3) && Bit(a, 4) == Bit(b, 4) && Bit(a, 5) == Bit(b, 5)
    requires Bit(a, 6) == Bit(b, 6) && Bit(a, 7) == Bit(b, 7) && Bit(a, 8) == Bit(b, 8)
    requires Bit(a, 9) == Bit(b, 9) && Bit(a, 10) == Bit(b, 10) && Bit(a, 11) == Bit(b, 11)
    requires Bit(a, 12) == Bit(b, 12) && Bit(a, 13) == Bit(b, 13) && Bit(a, 14) == Bit(b, 14)
    requires Bit(a, 15) == Bit(b, 15)
    ensures a & 0xffff == b & 0xffff
  {
  }

  lemma SameHigh(a: word, b: word)
    requires Bit(a, 16) == Bit(b, 16) && Bit(a, 17) == Bit(b, 17) && Bit(a, 18) == Bit(b, 18)
    requires Bit(a, 19) == Bit(b, 19) && Bit(a, 20) == Bit(b, 20) && Bit(a, 21) == Bit(b, 21)
    requires Bit(a, 22) == Bit(b, 22) && Bit(a, 23) == Bit(b, 23) && Bit(a, 24) == Bit(b, 24)
    requires Bit(a, 25) == Bit(b, 25) && Bit(a, 26) == Bit(b, 26) && Bit(a, 27) == Bit(b, 27)
    requires Bit(a, 28) == Bit(b, 28) && Bit(a, 29) == Bit(b, 29) && Bit(a, 30) == Bit(b, 30)
    requires Bit(a, 31) == Bit(b, 31)
    ensures a >> 16 == b >> 16
  {
  }

  /** Both permutations undo themselves when applied four times. */
  lemma P0Four(x: word)
    ensures P0(P0(P0(P0(x)))) == x
  {
    hide Bit, P0;
    forall j: bv5 ensures Bit(P0(P0(P0(P0(x)))), j) == Bit(x, j) {
      P0FourBits(x, j);
    }
    SameBits(P0(P0(P0(P0(x)))), x);
  }

  lemma P1Four(x: word)
    ensures P1(P1(P1(P1(x)))) == x
  {
    hide Bit, P1;
    forall j: bv5 ensures Bit(P1(P1(P1(P1(x)))), j) == Bit(x, j) {
      P1FourBits(x, j);
    }
    SameBits(P1(P1(P1(P1(x)))), x);
  }

  // ---------------------------------------------------------------- rounds

  datatype State = State(a: word, b: word, c: word, d: word, e: word, f: word, g: word, h: word)

  /** What one round takes in: its number, its constant, and the two message words. */
  datatype Turn = Turn(j: nat, t: word, w: word, wd: word)

  function Ss1(t: Turn, a: word, e: word): (r: word) {
    RotateLeft(Add(Add(RotateLeft(a, 12), e), t.t), 7)
  }

  function Ss2(t: Turn, a: word, e: word): (r: word) {
    Xor32(Ss1(t, a, e), RotateLeft(a, 12))
  }

  function Sum4(a: word, b: word, c: word, d: word): (r: word) {
    Add(Add(Add(a, b), c), d)
  }

  function Round(t: Turn, s: State): (s': State) {
    var tt1 := Sum4(FF(t.j, s.a, s.b, s.c), s.d, Ss2(t, s.a, s.e), t.wd);
    var tt2 := Sum4(GG(t.j, s.e, s.f, s.g), s.h, Ss1(t, s.a, s.e), t.w);
    State(tt1, s.a, RotateLeft(s.b, 9), s.c, P0(tt2), s.e, RotateLeft(s.f, 19), s.g)
  }

  function Rounds(ts: seq<Turn>, s: State): (s': State) {
    if ts == [] then s else Rounds(ts[1..], Round(ts[0], s))
  }

  /** The summand that is left when the others are taken away again. */
  function Minus3(r: word, a: word, c: word, d: word): (b: word) {
    Sub(Sub(Sub(r, d), c), a)
  }

  /** A round run backwards. */
  function Undo(t: Turn, s: State): (s': State) {
    var a, b, c := s.b, RotateLeft(s.c, 23), s.d;
    var e, f, g := s.f, RotateLeft(s.g, 13), s.h;
    var d := Minus3(s.a, FF(t.j, a, b, c), Ss2(t, a, e), t.wd);
    var h := Minus3(P0(P0(P0(s.e))), GG(t.j, e, f, g), Ss1(t, a, e), t.w);
    State(a, b, c, d, e, f, g, h)
  }

  function UndoAll(ts: seq<Turn>, s: State): (s': State) {
    if ts == [] then s else Undo(ts[0], UndoAll(ts[1..], s))
  }

  lemma SumBack(a: word, b: word, c: word, d: word)
    ensures Minus3(Sum4(a, b, c, d), a, c, d) == b
  {
    hide Add, Sub;
    AddBack(Add(Add(a, b), c), d);
    AddBack(Add(a, b), c);
    AddBack(b, a);
  }

  lemma RoundUndone(t: Turn, s: State)
    ensures Undo(t, Round(t, s)) == s
  {
    hide P0, RotateLeft, FF, GG, Ss1, Ss2, Sum4, Minus3;
    RotateBack(s.b);
    RotateBack(s.f);
    var gg, ss1 := GG(t.j, s.e, s.f, s.g), Ss1(t, s.a, s.e);
    SumBack(FF(t.j, s.a, s.b, s.c), s.d, Ss2(t, s.a, s.e), t.wd);
    SumBack(gg, s.h, ss1, t.w);
    P0Four(Sum4(gg, s.h, ss1, t.w));
  }

  /** For every message block the rounds can be run backwards: they lose nothing of the registers. */
  lemma {:induction false} RoundsUndone(ts: seq<Turn>, s: State)
    ensures UndoAll(ts, Rounds(ts, s)) == s
  {
    hide Round, Undo;
    if ts != [] {
      RoundsUndone(ts[1..], Round(ts[0], s));
      RoundUndone(ts[0], s);
    }
  }

  // ---------------------------------------------------------------- message expansion

  function NextW(w: seq<word>, j: nat): (r: word)
    requires 16 <= j <= |w|
  {
    var x := P1(Xor32(Xor32(w[j - 16], w[j - 9]), RotateLeft(w[j - 3], 15)));
    Xor32(Xor32(x, RotateLeft(w[j - 13], 7)), w[j - 6])
  }

  /** The first `n` expanded words. */
  function Expand(m: seq<word>, n: nat): (w: seq<word>)
    requires |m| == 16 <= n
    ensures |w| == n && m <= w
  {
    if n == 16 then m
    else
      var w := Expand(m, n - 1);
      w + [NextW(w, n - 1)]
  }

  /** Every further word follows from the sixteen before it. */
  lemma {:induction false} ExpandAt(m: seq<word>, n: nat, j: nat)
    requires |m| == 16 <= j < n
    ensures Expand(m, n)[j] == NextW(Expand(m, n), j)
    decreases n
  {
    hide NextW;
    var w := Expand(m, n - 1);
    if j < n - 1 {
      ExpandAt(m, n - 1, j);
    }
    NextWSame(w, [NextW(w, n - 1)], j);
  }

  lemma NextWSame(w: seq<word>, z: seq<word>, j: nat)
    requires 16 <= j <= |w|
    ensures NextW(w + z, j) == NextW(w, j)
  {
    hide P1, Xor32, RotateLeft;
  }

  /** The oldest of the sixteen words from the others and the next one. */
  lemma OldestBack(v: seq<word>, w: seq<word>, j: nat)
    requires 16 <= j < |v| == |w| && v[j] == NextW(v, j) && w[j] == NextW(w, j) && v[j - 15..] == w[j - 15..]
    ensures v[j - 16] == w[j - 16]
  {
    hide P1, Xor32, RotateLeft;
    forall k | j - 15 <= k <= j ensures v[k] == w[k] {
      assert v[j - 15..][k - (j - 15)] == w[j - 15..][k - (j - 15)];
    }
    var r, s, t := RotateLeft(v[j - 3], 15), RotateLeft(v[j - 13], 7), v[j - 6];
    var x, y := Xor32(Xor32(v[j - 16], v[j - 9]), r), Xor32(Xor32(w[j - 16], w[j - 9]), r);
    XorSelf(Xor32(P1(x), s), t);
    XorSelf(Xor32(P1(y), s), t);
    XorSelf(P1(x), s);
    XorSelf(P1(y), s);
    P1Four(x);
    P1Four(y);
    XorSelf(Xor32(v[j - 16], v[j - 9]), r);
    XorSelf(Xor32(w[j - 16], w[j - 9]), r);
    XorSelf(v[j - 16], v[j - 9]);
    XorSelf(w[j - 16], w[j - 9]);
  }

  lemma {:induction false} ExpandBack(a: seq<word>, b: seq<word>, n: nat, i: nat)
    requires |a| == |b| == 16 && i + 16 <= n && Expand(a, n)[n - 16..] == Expand(b, n)[n - 16..]
    ensures Expand(a, n)[i..] == Expand(b, n)[i..]
    decreases n - i
  {
    hide Expand, NextW;
    if i + 16 < n {
      var v, w := Expand(a, n), Expand(b, n);
      ExpandBack(a, b, n, i + 1);
      ExpandAt(a, n, i + 16);
      ExpandAt(b, n, i + 16);
      OldestBack(v, w, i + 16);
      assert v[i..] == [v[i]] + v[i + 1..] && w[i..] == [w[i]] + w[i + 1..];
    }
  }

  /** Different blocks stay different in any last sixteen words: expansion loses nothing. */
  lemma ExpandInjective(a: seq<word>, b: seq<word>, n: nat)
    requires |a| == |b| == 16 <= n && Expand(a, n)[n - 16..] == Expand(b, n)[n - 16..]
    ensures a == b
  {
    hide Expand;
    ExpandBack(a, b, n, 0);
    assert Expand(a, n)[0..] == Expand(a, n) && Expand(b, n)[0..] == Expand(b, n);
    assert a == Expand(a, n)[..16] && b == Expand(b, n)[..16];
  }

  // ---------------------------------------------------------------- the compression

  predicate ValidT(t: seq<word>) {
    |t| == 64
  }

  /** `ROL(T[j], j % 32)`; a rotation by zero leaves the word. */
  function RoundConstant(t: seq<word>, j: nat): (r: word)
    requires j < |t|
  {
    if j % 32 == 0 then t[j] else RotateLeft(t[j], (j % 32) as word)
  }

  function TurnAt(t: seq<word>, w: seq<word>, j: nat): (r: Turn)
    requires ValidT(t) && |w| == 68 && j < 64
  {
    Turn(j, RoundConstant(t, j), w[j], Xor32(w[j], w[j + 4]))
  }

  function Turns(t: seq<word>, w: seq<word>): (ts: seq<Turn>)
    requires ValidT(t) && |w| == 68
    ensures |ts| == 64 && forall j :: 0 <= j < 64 ==> ts[j] == TurnAt(t, w, j)
  {
    seq(64, j requires 0 <= j < 64 => TurnAt(t, w, j))
  }

  function StateOf(r: seq<word>): (s: State)
    requires |r| == 8
  {
    State(r[0], r[1], r[2], r[3], r[4], r[5], r[6], r[7])
  }

  function XorAll(r: seq<word>, s: State): (q: seq<word>)
    requires |r| == 8
    ensures |q| == 8
  {
    [Xor32(r[0], s.a), Xor32(r[1], s.b), Xor32(r[2], s.c), Xor32(r[3], s.d),
     Xor32(r[4], s.e), Xor32(r[5], s.f), Xor32(r[6], s.g), Xor32(r[7], s.h)]
  }

  /** The compression that the hash is built on. */
  function Compress(t: seq<word>, r: seq<word>, block: seq<word>): (q: seq<word>)
    requires ValidT(t) && |r| == 8 && |block| == 16
    ensures |q| == 8
  {
    XorAll(r, Rounds(Turns(t, Expand(block, 68)), StateOf(r)))
  }

  /** The same as the parameter that the streaming hash takes, which only ever passes whole blocks. */
  function CompressionOf(t: seq<word>): (cf: Compression)
    requires ValidT(t)
  {
    (r: Regs, block: seq<word>) => if |block| == 16 then Compress(t, r, block) else r
  }

  /** Section 5.3.2 of GB/T 32905-2016: the message words, and the recurrence of the further ones. */
  lemma ExpandIsStandard(m: seq<word>, j: nat)
    requires |m| == 16 <= j < 68
    ensures var w := Expand(m, 68);
            && w[..16] == m
            && w[j] == Xor32(Xor32(P1(Xor32(Xor32(w[j - 16], w[j - 9]), RotateLeft(w[j - 3], 15))),
                                   RotateLeft(w[j - 13], 7)), w[j - 6])
  {
    hide Expand, P1, Xor32, RotateLeft;
    ExpandAt(m, 68, j);
    assert Expand(m, 68)[..16] == m;
  }

  /** Section 5.3.3 of the standard: one round, with its four intermediate words. */
  lemma RoundIsStandard(t: seq<word>, w: seq<word>, j: nat, s: State)
    requires ValidT(t) && |w| == 68 && j < 64
    ensures var turn := Turns(t, w)[j];
            var ss1 := RotateLeft(Add(Add(RotateLeft(s.a, 12), s.e), RoundConstant(t, j)), 7);
            var ss2 := Xor32(ss1, RotateLeft(s.a, 12));
            var tt1 := Add(Add(Add(FF(j, s.a, s.b, s.c), s.d), ss2), Xor32(w[j], w[j + 4]));
            var tt2 := Add(Add(Add(GG(j, s.e, s.f, s.g), s.h), ss1), w[j]);
            Round(turn, s) == State(tt1, s.a, RotateLeft(s.b, 9), s.c, P0(tt2), s.e, RotateLeft(s.f, 19), s.g)
  {
    hide RotateLeft, Add, Xor32, FF, GG, P0, RoundConstant;
  }

  lemma RoundsStep(ts: seq<Turn>, j: nat, s: State)
    requires j < |ts|
    ensures Rounds(ts[j..], s) == Rounds(ts[j + 1..], Round(ts[j], s))
  {
    hide Round;
    assert ts[j..][1..] == ts[j + 1..];
  }

  lemma NoRounds(ts: seq<Turn>, s: State)
    ensures Rounds(ts[|ts|..], s) == s && ts[0..] == ts
  {
    assert ts[|ts|..] == [];
  }

  lemma ExpandMore(m: seq<word>, n: nat)
    requires |m| == 16 <= n
    ensures Expand(m, n + 1) == Expand(m, n) + [NextW(Expand(m, n), n)]
  {
    hide NextW;
  }

  /** The first loop: the message words are expanded in place behind the block. */
  method ExpandInPlace(w: array<word>)
    requires w.Length == 68
    modifies w
    ensures w[..] == Expand(old(w[..16]), 68)
  {
    hide NextW, Expand;
    ghost var m := w[..16];
    ExpandNone(m);
    var j := 16;
    while j < 68
      invariant 16 <= j <= 68 && w[..j] == Expand(m, j)
    {
      ExpandMore(m, j);
      var x := P1(Xor32(Xor32(w[j - 16], w[j - 9]), RotateLeft(w[j - 3], 15)));
      var next := Xor32(Xor32(x, RotateLeft(w[j - 13], 7)), w[j - 6]);
      NextIs(w[..j], j, next);
      w[j] := next;
      assert w[..j + 1] == w[..j] + [next];
      j := j + 1;
    }
    assert w[..68] == w[..];
  }

  lemma ExpandNone(m: seq<word>)
    requires |m| == 16
    ensures Expand(m, 16) == m
  {
  }

  lemma NextIs(w: seq<word>, j: nat, next: word)
    requires 16 <= j == |w|
    requires next == Xor32(Xor32(P1(Xor32(Xor32(w[j - 16], w[j - 9]), RotateLeft(w[j - 3], 15))),
                                 RotateLeft(w[j - 13], 7)), w[j - 6])
    ensures next == NextW(w, j)
  {
    hide P1, Xor32, RotateLeft;
  }

  lemma RoundIs(t: Turn, s: State, ss1: word, ss2: word, tt1: word, tt2: word)
    requires ss1 == RotateLeft(Add(Add(RotateLeft(s.a, 12), s.e), t.t), 7) && ss2 == Xor32(ss1, RotateLeft(s.a, 12))
    requires tt1 == Add(Add(Add(FF(t.j, s.a, s.b, s.c), s.d), ss2), t.wd)
    requires tt2 == Add(Add(Add(GG(t.j, s.e, s.f, s.g), s.h), ss1), t.w)
    ensures Round(t, s) == State(tt1, s.a, RotateLeft(s.b, 9), s.c, P0(tt2), s.e, RotateLeft(s.f, 19), s.g)
  {
    hide P0, RotateLeft, FF, GG, Add, Xor32;
  }

  /** One turn of the third loop, on the registers in place. */
  method RoundInPlace(turn: Turn, regs: array<word>)
    requires regs.Length == 8
    modifies regs
    ensures StateOf(regs[..]) == Round(turn, old(StateOf(regs[..])))
  {
    hide P0, RotateLeft, FF, GG, Add, Xor32, Round;
    var ss1 := RotateLeft(Add(Add(RotateLeft(regs[0], 12), regs[4]), turn.t), 7);
    var ss2 := Xor32(ss1, RotateLeft(regs[0], 12));
    var tt1 := Add(Add(Add(FF(turn.j, regs[0], regs[1], regs[2]), regs[3]), ss2), turn.wd);
    var tt2 := Add(Add(Add(GG(turn.j, regs[4], regs[5], regs[6]), regs[7]), ss1), turn.w);
    RoundIs(turn, StateOf(regs[..]), ss1, ss2, tt1, tt2);
    regs[3] := regs[2];
    regs[2] := RotateLeft(regs[1], 9);
    regs[1] := regs[0];
    regs[0] := tt1;
    regs[7] := regs[6];
    regs[6] := RotateLeft(regs[5], 19);
    regs[5] := regs[4];
    regs[4] := P0(tt2);
  }

  /** `SM3_Transform`: the registers are compressed with the sixteen words of the block. */
  method Transform(t: seq<word>, regs: array<word>, w: array<word>, wDot: array<word>)
    requires ValidT(t) && regs.Length == 8 && w.Length == 68 && wDot.Length == 64
    requires regs != w && regs != wDot && w != wDot
    modifies regs, w, wDot
    ensures regs[..] == Compress(t, old(regs[..]), old(w[..16])) == CompressionOf(t)(old(regs[..]), old(w[..16]))
  {
    hide Expand, Round, Rounds, Xor32, RoundConstant, StateOf;
    ghost var block, before := w[..16], regs[..];
    ExpandInPlace(w);
    ghost var ws := w[..];
    ghost var ts, start := Turns(t, ws), StateOf(before);
    for j := 0 to 64
      invariant w[..] == ws && regs[..] == before
      invariant forall k :: 0 <= k < j ==> wDot[k] == Xor32(ws[k], ws[k + 4])
    {
      wDot[j] := Xor32(w[j], w[j + 4]);
    }
    var local := new word[8](i requires 0 <= i < 8 reads regs => regs[i]);
    assert local[..] == before;
    NoRounds(ts, start);
    for j := 0 to 64
      invariant w[..] == ws && regs[..] == before
      invariant forall k :: 0 <= k < 64 ==> wDot[k] == Xor32(ws[k], ws[k + 4])
      invariant Rounds(ts[j..], StateOf(local[..])) == Rounds(ts, start)
    {
      RoundsStep(ts, j, StateOf(local[..]));
      assert ts[j] == TurnAt(t, ws, j);
      RoundInPlace(Turn(j, RoundConstant(t, j), w[j], wDot[j]), local);
    }
    NoRounds(ts, StateOf(local[..]));
    XorInto(regs, local, ts, start);
  }

  method XorInto(regs: array<word>, local: array<word>, ghost ts: seq<Turn>, ghost start: State)
    requires regs.Length == local.Length == 8 && regs != local && StateOf(local[..]) == Rounds(ts, start)
    modifies regs
    ensures regs[..] == XorAll(old(regs[..]), Rounds(ts, start))
  {
    hide Xor32, Rounds, XorAll, StateOf;
    ghost var before := regs[..];
    for j := 0 to 8
      invariant local[..] == old(local[..])
      invariant forall k :: 0 <= k < 8 ==> regs[k] == if k < j then Xor32(before[k], local[k]) else before[k]
    {
      regs[j] := Xor32(regs[j], local[j]);
    }
    XorAllIs(before, local[..], regs[..]);
  }

  lemma XorAllIs(r: seq<word>, s: seq<word>, q: seq<word>)
    requires |r| == |s| == |q| == 8 && forall k :: 0 <= k < 8 ==> q[k] == Xor32(r[k], s[k])
    ensures q == XorAll(r, StateOf(s))
  {
    hide Xor32;
  }
}
