/**
  What the padding of public/sm/sm3.cpp means: section 5.2 of GB/T 32905-2016 in numbers, and
  that the padded message determines the message.
 */
module Sm3Padding {
  import opened Common
  import opened Sm4Cipher
  import opened Sm3

  /** The number that bytes stand for, most significant first. */
  function Number(b: seq<byte>): (n: nat) {
    if b == [] then 0 else Number(b[..|b| - 1]) * 256 + b[|b| - 1] as int
  }

  lemma Number4(b: seq<byte>)
    requires |b| == 4
    ensures Number(b) == b[0] as int * 0x100_0000 + b[1] as int * 0x1_0000 + b[2] as int * 0x100 + b[3] as int
  {
    hide Number;
    NumberSnoc([], b[0]);
    NumberSnoc([b[0]], b[1]);
    NumberSnoc([b[0], b[1]], b[2]);
    NumberSnoc([b[0], b[1], b[2]], b[3]);
    assert [] + [b[0]] == [b[0]] && [b[0], b[1], b[2]] + [b[3]] == b;
    assert [b[0]] + [b[1]] == [b[0], b[1]] && [b[0], b[1]] + [b[2]] == [b[0], b[1], b[2]];
  }

  lemma NumberSnoc(b: seq<byte>, c: byte)
    ensures Number([]) == 0 && Number(b + [c]) == Number(b) * 256 + c as int
  {
    assert (b + [c])[..|b|] == b;
  }

  lemma {:induction false} NumberAppend4(a: seq<byte>, b: seq<byte>)
    requires |b| == 4
    ensures Number(a + b) == Number(a) * WORD_32 + Number(b)
  {
    hide Number;
    Number4(b);
    NumberSnoc(a, b[0]);
    NumberSnoc(a + [b[0]], b[1]);
    NumberSnoc(a + [b[0]] + [b[1]], b[2]);
    NumberSnoc(a + [b[0]] + [b[1]] + [b[2]], b[3]);
    assert a + [b[0]] + [b[1]] + [b[2]] + [b[3]] == a + b;
  }

  lemma WordNumber(n: nat)
    requires n < WORD_32
    ensures Number(PutBE32(W32(n))) == n
  {
    hide PutBE32, GetBE32, NumberBytes, Number;
    PutGet(NumberBytes(n));
    NumberBack(n);
    Number4(NumberBytes(n));
  }

  const DOUBLE_WORD: nat := 0x1_0000_0000_0000_0000

  /** The length field holds the number of bits modulo two to the 64. */
  lemma LengthNumber(n: nat)
    ensures Number(LengthBytes(n)) == 8 * n % DOUBLE_WORD
  {
    hide PutBE32, W32, Number;
    WordNumber(HighBits(n));
    WordNumber(LowBits(n));
    NumberAppend4(PutBE32(W32(HighBits(n))), PutBE32(W32(LowBits(n))));
    TwoWords(8 * n);
  }

  lemma TwoWords(n: nat)
    ensures n / WORD_32 % WORD_32 * WORD_32 + n % WORD_32 == n % DOUBLE_WORD
  {
    var q, r := n / WORD_32, n % WORD_32;
    var a, b := q / WORD_32, q % WORD_32;
    assert n == DOUBLE_WORD * a + (b * WORD_32 + r);
    UniqueRemainder(n, a, b * WORD_32 + r);
  }

  lemma UniqueRemainder(n: nat, a: nat, r: nat)
    requires n == DOUBLE_WORD * a + r && r < DOUBLE_WORD
    ensures n % DOUBLE_WORD == r
  {
  }

  /**
    The padded message: the message, a byte with only its top bit set, the fewest zeros that
    make room for the length, and eight bytes that hold the length in bits.
   */
  lemma PadMeans(m: seq<byte>)
    ensures var p := Pad(m);
            && |p| % 64 == 0 && |m| + 9 <= |p| < |m| + 73
            && p[..|m|] == m && p[|m|] == 0x80 && (forall i :: |m| < i < |p| - 8 ==> p[i] == 0)
            && Number(p[|p| - 8..]) == 8 * |m| % DOUBLE_WORD
  {
    hide Number, LengthBytes;
    LengthNumber(|m|);
    PadParts(m);
  }

  lemma PadParts(m: seq<byte>)
    ensures var p := Pad(m);
            && |m| + 9 <= |p| < |m| + 73 && p[..|m|] == m && p[|m|] == 0x80 && p[|p| - 8..] == LengthBytes(|m|)
            && forall i :: |m| < i < |p| - 8 ==> p[i] == 0
  {
    hide LengthBytes;
  }

  /** Different messages have different padded messages, however long they are. */
  lemma PadInjective(a: seq<byte>, b: seq<byte>)
    requires Pad(a) == Pad(b)
    ensures a == b
  {
    hide Pad, LengthBytes, Number;
    PadParts(a);
    PadParts(b);
    LengthNumber(|a|);
    LengthNumber(|b|);
    SameLength(|a|, |b|);
  }

  lemma SameLength(a: nat, b: nat)
    requires -64 < a - b < 64 && 8 * a % DOUBLE_WORD == 8 * b % DOUBLE_WORD
    ensures a == b
  {
    var x, y := 8 * a / DOUBLE_WORD, 8 * b / DOUBLE_WORD;
    assert 8 * (a - b) == DOUBLE_WORD * (x - y);
  }
}
