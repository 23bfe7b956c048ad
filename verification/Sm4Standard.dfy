/**
  The block cipher of public/sm/sm4.cpp as GB/T 32907-2016 states it: words that follow a
  recurrence, linear transforms bit by bit, and the S-box on each byte.
 */
module Sm4Standard {
  import opened Common
  import opened Sm4Cipher

  // ---------------------------------------------------------------- bytes of a word

  /** The first byte of a word is its most significant one. */
  lemma BigEndian(d: seq<byte>)
    requires |d| == 4
    ensures GetBE32(d) == d[0] as word * 0x100_0000 + d[1] as word * 0x1_0000 + d[2] as word * 0x100 + d[3] as word
  {
  }

  /** Each byte of the substituted word is the S-box of the same byte. */
  lemma SubstituteBytes(t: Tables, a: word, i: nat)
    requires i < 4
    ensures PutBE32(Substitute(t, a))[i] == t.sbox(PutBE32(a)[i])
  {
    hide PutBE32, Substitute;
    SubstituteAll(t, a);
  }

  lemma SubstituteAll(t: Tables, a: word)
    ensures var b := PutBE32(a); PutBE32(Substitute(t, a)) == [t.sbox(b[0]), t.sbox(b[1]), t.sbox(b[2]), t.sbox(b[3])]
  {
  }

  // ---------------------------------------------------------------- bits of a word

  /** Bit `j` of a word, the lowest is bit 0. Differences of indices are modulo 32. */
  predicate Bit(a: word, j: bv5) {
    (a >> (j as word)) & 1 == 1
  }

  lemma XorBits(a: word, b: word, j: bv5)
    ensures Bit(Xor32(a, b), j) == (Bit(a, j) != Bit(b, j))
  {
    hide Bit, Xor32;
    XorBitsOf(Xor32(a, b), a, b, j);
  }

  lemma XorBitsOf(x: word, a: word, b: word, j: bv5)
    requires x == Xor32(a, b)
    ensures Bit(x, j) == (Bit(a, j) != Bit(b, j))
  {
  }

  lemma RotatedBy2(a: word, j: bv5)
    ensures Bit(RotateLeft(a, 2), j) == Bit(a, j - 2)
  {
  }

  lemma RotatedBy10(a: word, j: bv5)
    ensures Bit(RotateLeft(a, 10), j) == Bit(a, j - 10)
  {
  }

  lemma RotatedBy13(a: word, j: bv5)
    ensures Bit(RotateLeft(a, 13), j) == Bit(a, j - 13)
  {
  }

  lemma RotatedBy18(a: word, j: bv5)
    ensures Bit(RotateLeft(a, 18), j) == Bit(a, j - 18)
  {
  }

  lemma RotatedBy23(a: word, j: bv5)
    ensures Bit(RotateLeft(a, 23), j) == Bit(a, j - 23)
  {
  }

  lemma RotatedBy24(a: word, j: bv5)
    ensures Bit(RotateLeft(a, 24), j) == Bit(a, j - 24)
  {
  }

  /** The exclusive-or of an odd number of conditions. */
  predicate Odd(conditions: seq<bool>) {
    conditions != [] && conditions[0] != Odd(conditions[1..])
  }

  lemma Odd3(a: bool, b: bool, c: bool)
    ensures Odd([a, b, c]) == ((a != b) != c)
  {
    assert [a, b, c][1..] == [b, c] && [b, c][1..] == [c] && [c][1..] == [];
    assert Odd([c]) == c;
    assert Odd([b, c]) == (b != c);
  }

  lemma Odd5(a: bool, b: bool, c: bool, d: bool, e: bool)
    ensures Odd([a, b, c, d, e]) == ((((a != b) != c) != d) != e)
  {
    assert [a, b, c, d, e][1..] == [b, c, d, e] && [b, c, d, e][1..] == [c, d, e];
    Odd3(c, d, e);
    assert Odd([b, c, d, e]) == (b != Odd([c, d, e]));
  }

  /** The transform of the round function, bit by bit. */
  lemma LtBits(t: Tables, a: word, j: bv5)
    ensures var b := Substitute(t, a);
            Bit(Lt(t, a), j) == Odd([Bit(b, j), Bit(b, j - 2), Bit(b, j - 10), Bit(b, j - 18), Bit(b, j - 24)])
  {
    hide Substitute, Bit, RotateLeft, Odd, Xor32;
    var b := Substitute(t, a);
    RotatedBy2(b, j);
    RotatedBy10(b, j);
    RotatedBy18(b, j);
    RotatedBy24(b, j);
    var x := Xor32(b, RotateLeft(b, 2));
    var y := Xor32(x, RotateLeft(b, 10));
    var z := Xor32(y, RotateLeft(b, 18));
    XorBits(b, RotateLeft(b, 2), j);
    XorBits(x, RotateLeft(b, 10), j);
    XorBits(y, RotateLeft(b, 18), j);
    XorBits(z, RotateLeft(b, 24), j);
    Odd5(Bit(b, j), Bit(b, j - 2), Bit(b, j - 10), Bit(b, j - 18), Bit(b, j - 24));
  }

  /** The transform of the key schedule, bit by bit. */
  lemma CalciRKBits(t: Tables, a: word, j: bv5)
    ensures var b := Substitute(t, a); Bit(CalciRK(t, a), j) == Odd([Bit(b, j), Bit(b, j - 13), Bit(b, j - 23)])
  {
    hide Substitute, Bit, RotateLeft, Odd, Xor32;
    var b := Substitute(t, a);
    RotatedBy13(b, j);
    RotatedBy23(b, j);
    XorBits(b, RotateLeft(b, 13), j);
    XorBits(Xor32(b, RotateLeft(b, 13)), RotateLeft(b, 23), j);
    Odd3(Bit(b, j), Bit(b, j - 13), Bit(b, j - 23));
  }

  // ---------------------------------------------------------------- the recurrence

  predicate NextWord(f: word -> word, k: word, x0: word, x1: word, x2: word, x3: word, x4: word) {
    x4 == x0 ^ f(x1 ^ x2 ^ x3 ^ k)
  }

  /** Of five words, the last is the first combined with the transform of the others and a key. */
  predicate Next(f: word -> word, k: word, w: seq<word>) {
    |w| == 5 && NextWord(f, k, w[0], w[1], w[2], w[3], w[4])
  }

  ghost predicate Follows(x: seq<word>, f: word -> word, ks: seq<word>) {
    |x| == |ks| + 4 && forall i :: 0 <= i < |ks| ==> Next(f, ks[i], x[i..i + 5])
  }

  /** The words a run of the network goes through. */
  ghost function Words(f: word -> word, ks: seq<word>, b: Block): (x: seq<word>)
    ensures |x| == |ks| + 4
  {
    if ks == [] then [b.w0, b.w1, b.w2, b.w3] else [b.w0] + Words(f, ks[1..], Step(f, ks[0], b))
  }

  lemma {:induction false} WordsStart(f: word -> word, ks: seq<word>, b: Block)
    ensures Window(Words(f, ks, b), 0) == b
    decreases |ks|
  {
    hide Step, Next;
    if ks != [] {
      var c := Step(f, ks[0], b);
      WordsStart(f, ks[1..], c);
      StepShifts(f, ks[0], b);
    }
  }

  lemma StepShifts(f: word -> word, k: word, b: Block)
    ensures var c := Step(f, k, b);
            c.w0 == b.w1 && c.w1 == b.w2 && c.w2 == b.w3 && Next(f, k, [b.w0, b.w1, b.w2, b.w3, c.w3])
  {
    hide RoundF, NextWord;
    RoundIsNext(f, k, b.w0, b.w1, b.w2, b.w3);
  }

  lemma RoundIsNext(f: word -> word, k: word, x0: word, x1: word, x2: word, x3: word)
    ensures NextWord(f, k, x0, x1, x2, x3, RoundF(f, x0, x1, x2, x3, k))
  {
  }

  /** One more word in front. */
  lemma FollowsFront(f: word -> word, k: word, ks: seq<word>, w: word, y: seq<word>)
    requires Follows(y, f, ks) && |y| >= 4 && Next(f, k, [w] + y[..4])
    ensures Follows([w] + y, f, [k] + ks)
  {
    hide Next;
    var x, ls := [w] + y, [k] + ks;
    forall i | 0 <= i < |ls| ensures Next(f, ls[i], x[i..i + 5]) {
      if i > 0 {
        assert x[i..i + 5] == y[i - 1..i + 4];
      } else {
        assert x[..5] == [w] + y[..4];
      }
    }
  }

  lemma {:induction false} WordsFollow(f: word -> word, ks: seq<word>, b: Block)
    ensures Follows(Words(f, ks, b), f, ks)
  {
    hide Step, Next, Follows;
    if ks == [] {
      NothingFollows(f, b);
    } else {
      var c := Step(f, ks[0], b);
      WordsFollow(f, ks[1..], c);
      StepShifts(f, ks[0], b);
      WordsStart(f, ks[1..], c);
      var y := Words(f, ks[1..], c);
      WindowIsFront(y, c, b.w0);
      FollowsFront(f, ks[0], ks[1..], b.w0, y);
      assert [ks[0]] + ks[1..] == ks;
    }
  }

  lemma WindowIsFront(y: seq<word>, c: Block, w: word)
    requires |y| >= 4 && Window(y, 0) == c
    ensures [w] + y[..4] == [w, c.w0, c.w1, c.w2, c.w3]
  {
  }

  lemma NothingFollows(f: word -> word, b: Block)
    ensures Follows([b.w0, b.w1, b.w2, b.w3], f, [])
  {
  }

  lemma {:induction false} WordsEnd(f: word -> word, ks: seq<word>, b: Block)
    ensures Window(Words(f, ks, b), |ks|) == Steps(f, ks, b)
  {
    hide Step;
    if ks != [] {
      WordsEnd(f, ks[1..], Step(f, ks[0], b));
    }
  }

  /**
    Section 6.2: the first four words are the block, every further one follows the recurrence
    under the round keys, and the output is the last four words in reverse order.
   */
  lemma CryptIsStandard(t: Tables, rks: seq<word>, b: Block)
    ensures var x := Words(a => Lt(t, a), rks, b);
            && Follows(x, a => Lt(t, a), rks)
            && Block(x[0], x[1], x[2], x[3]) == b
            && Crypt(t, rks, b) == Block(x[|rks| + 3], x[|rks| + 2], x[|rks| + 1], x[|rks|])
  {
    hide Lt, Follows, Words, Steps, Next;
    var f := (a: word) => Lt(t, a);
    WordsFollow(f, rks, b);
    WordsStart(f, rks, b);
    WordsEnd(f, rks, b);
  }

  // ---------------------------------------------------------------- the key schedule

  ghost function KeyWords(t: Tables, key: seq<byte>): (k: seq<word>)
    requires ValidTables(t) && |key| == 16
    ensures |k| == 36
  {
    Words(a => CalciRK(t, a), t.ck, Xor(ToBlock(key), BlockOf(t.fk)))
  }

  lemma {:induction false} ScheduleIsWords(t: Tables, k: Block, i: nat)
    requires ValidTables(t) && i <= 32
    ensures Schedule(t, k, i) == Words(a => CalciRK(t, a), t.ck[i..], k)[4..]
    decreases 32 - i
  {
    hide CalciRK, Mix;
    if i < 32 {
      var f := (a: word) => CalciRK(t, a);
      var c := Step(f, t.ck[i], k);
      ScheduleIsWords(t, c, i + 1);
      assert t.ck[i..][1..] == t.ck[i + 1..];
      WordsStart(f, t.ck[i + 1..], c);
      assert Words(f, t.ck[i..], k)[4..] == Words(f, t.ck[i + 1..], c)[3..];
    }
  }

  /** The words of a key, combined with FK. */
  lemma FirstKeyWords(t: Tables, key: seq<byte>, i: nat)
    requires ValidTables(t) && |key| == 16 && i < 4
    ensures KeyWords(t, key)[i] == Xor32(GetBE32(key[4 * i..4 * i + 4]), t.fk[i])
  {
    hide CalciRK, Words, GetBE32, Xor32;
    var b := Xor(ToBlock(key), BlockOf(t.fk));
    WordsStart(a => CalciRK(t, a), t.ck, b);
  }

  /**
    Section 7.3: the first four key words are the words of the key combined with FK, every
    further one follows the recurrence under CK, and the round keys are the words from the fifth on.
   */
  lemma RoundKeysAreStandard(t: Tables, key: seq<byte>)
    requires ValidTables(t) && |key| == 16
    ensures var k := KeyWords(t, key);
            && Follows(k, a => CalciRK(t, a), t.ck)
            && (forall i :: 0 <= i < 4 ==> k[i] == Xor32(GetBE32(key[4 * i..4 * i + 4]), t.fk[i]))
            && RoundKeys(t, key) == k[4..]
  {
    hide CalciRK, Follows, Words, Schedule, GetBE32, Next, Xor, Xor32;
    var b := Xor(ToBlock(key), BlockOf(t.fk));
    WordsFollow(a => CalciRK(t, a), t.ck, b);
    forall i | 0 <= i < 4 ensures KeyWords(t, key)[i] == Xor32(GetBE32(key[4 * i..4 * i + 4]), t.fk[i]) {
      FirstKeyWords(t, key, i);
    }
    ScheduleIsWords(t, b, 0);
    assert t.ck[0..] == t.ck;
  }

  /** Four words in a row determine the one before them. */
  lemma BackOne(f: word -> word, k: word, a: word, b: word, rest: seq<word>)
    requires Next(f, k, [a] + rest) && Next(f, k, [b] + rest)
    ensures a == b
  {
    hide NextWord;
    BackWord(f, k, a, b, rest[0], rest[1], rest[2], rest[3]);
  }

  lemma BackWord(f: word -> word, k: word, x0: word, y0: word, x1: word, x2: word, x3: word, x4: word)
    requires NextWord(f, k, x0, x1, x2, x3, x4) && NextWord(f, k, y0, x1, x2, x3, x4)
    ensures x0 == y0
  {
  }

  /** Words that follow one recurrence and end alike are the same words. */
  lemma {:induction false} SameWords(f: word -> word, ks: seq<word>, x: seq<word>, y: seq<word>, i: nat)
    requires Follows(x, f, ks) && Follows(y, f, ks) && i <= |ks| && x[|ks|..] == y[|ks|..]
    ensures x[i..] == y[i..]
    decreases |ks| - i
  {
    hide Next;
    if i < |ks| {
      SameWords(f, ks, x, y, i + 1);
      assert x[i + 1..i + 5] == x[i + 1..][..4] == y[i + 1..i + 5];
      assert x[i..i + 5] == [x[i]] + x[i + 1..i + 5] && y[i..i + 5] == [y[i]] + y[i + 1..i + 5];
      BackOne(f, ks[i], x[i], y[i], x[i + 1..i + 5]);
      assert x[i..] == [x[i]] + x[i + 1..] && y[i..] == [y[i]] + y[i + 1..];
    }
  }

  /** A quarter of the key from its key word. */
  lemma QuarterBack(t: Tables, a: seq<byte>, b: seq<byte>, i: nat)
    requires ValidTables(t) && |a| == |b| == 16 && i < 4 && KeyWords(t, a)[i] == KeyWords(t, b)[i]
    ensures a[4 * i..4 * i + 4] == b[4 * i..4 * i + 4]
  {
    hide KeyWords, GetBE32, PutBE32, Xor32;
    FirstKeyWords(t, a, i);
    FirstKeyWords(t, b, i);
    XorSelf(GetBE32(a[4 * i..4 * i + 4]), t.fk[i]);
    XorSelf(GetBE32(b[4 * i..4 * i + 4]), t.fk[i]);
    PutGet(a[4 * i..4 * i + 4]);
    PutGet(b[4 * i..4 * i + 4]);
  }

  /** Different keys have different round keys: the schedule runs backwards to the key. */
  lemma KeyRecoverable(t: Tables, a: seq<byte>, b: seq<byte>)
    requires ValidTables(t) && |a| == |b| == 16 && RoundKeys(t, a) == RoundKeys(t, b)
    ensures a == b
  {
    hide CalciRK, KeyWords, RoundKeys, GetBE32, Follows;
    var f := (c: word) => CalciRK(t, c);
    var x, y := KeyWords(t, a), KeyWords(t, b);
    RoundKeysAreStandard(t, a);
    RoundKeysAreStandard(t, b);
    assert x[32..] == x[4..][28..] && y[32..] == y[4..][28..];
    SameWords(f, t.ck, x, y, 0);
    assert x[0..] == x && y[0..] == y;
    forall i | 0 <= i < 4 ensures a[4 * i..4 * i + 4] == b[4 * i..4 * i + 4] {
      QuarterBack(t, a, b, i);
    }
    SameQuarters(a, b);
  }

  lemma SameQuarters(a: seq<byte>, b: seq<byte>)
    requires |a| == |b| == 16 && forall i :: 0 <= i < 4 ==> a[4 * i..4 * i + 4] == b[4 * i..4 * i + 4]
    ensures a == b
  {
    forall n | 0 <= n < 16 ensures a[n] == b[n] {
      var i := n / 4;
      assert a[4 * i..4 * i + 4][n % 4] == a[n] && b[4 * i..4 * i + 4][n % 4] == b[n];
    }
  }
}
