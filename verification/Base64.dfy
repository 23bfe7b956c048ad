/**
  The two base64 codecs of the repository: `astPackage::encode` and `astPackage::decode` in
  public/astPackage/astpackage.cpp, and `b64_encode` and `b64_decode_ex` in public/base64.
 */
module Base64 {
  import opened Common

  // ---------------------------------------------------------------- the alphabet

  /** The character at an index of the table (section 4 of RFC 4648). */
  function DigitAt(n: nat): (c: char)
    requires n < 64
  {
    if n < 26 then ('A' as int + n) as char
    else if n < 52 then ('a' as int + (n - 26)) as char
    else if n < 62 then ('0' as int + (n - 52)) as char
    else if n == 62 then '+' else '/'
  }

  /** The index of a character, 64 for one that is not in the table. */
  function CodeAt(c: char): (n: nat)
    ensures n <= 64
  {
    if 'A' <= c <= 'Z' then c as int - 'A' as int
    else if 'a' <= c <= 'z' then c as int - 'a' as int + 26
    else if '0' <= c <= '9' then c as int - '0' as int + 52
    else if c == '+' then 62 else if c == '/' then 63 else 64
  }

  function Index(v: byte): (n: nat) {
    v as int
  }

  lemma SmallIndex(n: nat)
    requires n <= 64
    ensures ToByte(n) < 64 <==> n < 64
  {
    hide ToByte;
    ToByteValue(n);
    IndexSmall(ToByte(n));
  }

  lemma IndexSmall(v: byte)
    ensures Index(v) < 256 && (v < 64 <==> Index(v) < 64)
  {
  }

  /** `b64_table[v]`. */
  function Digit(v: byte): (c: char)
    requires v < 64
  {
    IndexSmall(v);
    DigitAt(Index(v))
  }

  /** `BASE64DECODE[c]`; the table also has values above 64, which are treated alike. */
  function Code(c: char): (v: byte) {
    ToByte(CodeAt(c))
  }

  predicate InTable(c: char) {
    CodeAt(c) < 64
  }

  lemma DigitCode(v: byte)
    requires v < 64
    ensures Code(Digit(v)) == v && InTable(Digit(v))
  {
    hide Index, ToByte;
    IndexSmall(v);
    CodeOfDigit(Index(v));
    IndexBack(v);
  }

  lemma IndexBack(v: byte)
    requires Index(v) < 256
    ensures ToByte(Index(v)) == v
  {
    hide ToByte;
    ToByteValue(Index(v));
    SameValue(ToByte(Index(v)), v);
  }

  lemma CodeOfDigit(n: nat)
    requires n < 64
    ensures CodeAt(DigitAt(n)) == n
  {
  }

  const UPPER: string := "ABCDEFGHIJKLMNOPQRSTUVWXYZ"
  const LOWER: string := "abcdefghijklmnopqrstuvwxyz"
  const DECIMAL: string := "0123456789"

  /** Table 1 of RFC 4648. */
  const ALPHABET: string := UPPER + LOWER + DECIMAL + "+/"

  lemma UpperAt(n: nat)
    requires n < 26
    ensures |UPPER| == 26 && UPPER[n] as int == 'A' as int + n
  {
  }

  lemma LowerAt(n: nat)
    requires n < 26
    ensures |LOWER| == 26 && LOWER[n] as int == 'a' as int + n
  {
  }

  lemma DecimalAt(n: nat)
    requires n < 10
    ensures |DECIMAL| == 10 && DECIMAL[n] as int == '0' as int + n
  {
  }

  /** Both tables follow that alphabet, and no other character has an index. */
  lemma AlphabetIsStandard(n: nat, c: char)
    requires n < 64
    ensures |ALPHABET| == 64 && DigitAt(n) == ALPHABET[n] && (CodeAt(c) == n <==> c == ALPHABET[n])
  {
    hide UPPER, LOWER, DECIMAL;
    UpperAt(if n < 26 then n else 0);
    LowerAt(if 26 <= n < 52 then n - 26 else 0);
    DecimalAt(if 52 <= n < 62 then n - 52 else 0);
    CodeOfDigit(n);
    if CodeAt(c) < 64 {
      DigitOfCode(c);
    }
  }

  lemma CodeInTable(c: char)
    ensures Code(c) < 64 <==> InTable(c)
  {
    hide ToByte;
    SmallIndex(CodeAt(c));
  }

  // ---------------------------------------------------------------- sextets and bytes

  function S0(a: byte): (v: byte)
    ensures v < 64
  {
    a >> 2
  }

  function S1(a: byte, b: byte): (v: byte)
    ensures v < 64
  {
    ((a & 3) << 4) | (b >> 4)
  }

  function S2(b: byte, c: byte): (v: byte)
    ensures v < 64
  {
    ((b & 15) << 2) | (c >> 6)
  }

  function S3(c: byte): (v: byte)
    ensures v < 64
  {
    c & 63
  }

  function B0(x: byte, y: byte): (a: byte) {
    (x << 2) | (y >> 4)
  }

  function B1(y: byte, z: byte): (b: byte) {
    (y << 4) | (z >> 2)
  }

  function B2(z: byte, w: byte): (c: byte) {
    (z << 6) | w
  }

  /** The 24 bits of three bytes and of four indices, most significant first. */
  function Group3(a: byte, b: byte, c: byte): (g: bv24) {
    (a as bv24 << 16) | (b as bv24 << 8) | c as bv24
  }

  function Group4(x: byte, y: byte, z: byte, w: byte): (g: bv24) {
    (x as bv24 << 18) | (y as bv24 << 12) | (z as bv24 << 6) | w as bv24
  }

  /** The indices are the six-bit groups of the three bytes, and the bytes the groups of eight of four indices. */
  lemma GroupsAgree(a: byte, b: byte, c: byte, x: byte, y: byte, z: byte, w: byte)
    requires x < 64 && y < 64 && z < 64 && w < 64
    ensures Group4(S0(a), S1(a, b), S2(b, c), S3(c)) == Group3(a, b, c)
    ensures Group3(B0(x, y), B1(y, z), B2(z, w)) == Group4(x, y, z, w)
  {
  }

  lemma FirstBack(a: byte, b: byte)
    ensures B0(S0(a), S1(a, b)) == a
  {
  }

  lemma SecondBack(a: byte, b: byte, c: byte)
    ensures B1(S1(a, b), S2(b, c)) == b
  {
  }

  lemma ThirdBack(b: byte, c: byte)
    ensures B2(S2(b, c), S3(c)) == c
  {
  }

  // ---------------------------------------------------------------- what is encoded and decoded

  function Quad(a: byte, b: byte, c: byte): (t: string)
    ensures |t| == 4
  {
    [Digit(S0(a)), Digit(S1(a, b)), Digit(S2(b, c)), Digit(S3(c))]
  }

  /** Three bytes become four characters; a rest is filled up with equal signs. */
  function Encode(d: seq<byte>): (t: string)
    decreases |d|
  {
    if |d| >= 3 then Quad(d[0], d[1], d[2]) + Encode(d[3..])
    else if |d| == 2 then Quad(d[0], d[1], 0)[..3] + "="
    else if |d| == 1 then Quad(d[0], 0, 0)[..2] + "=="
    else ""
  }

  /** The indices of the characters before the first one outside the table. */
  function Codes(t: string): (cs: seq<byte>)
    ensures |cs| <= |t|
  {
    if t == "" || !InTable(t[0]) then [] else [Code(t[0])] + Codes(t[1..])
  }

  /** Four indices become three bytes; of a rest, only complete bytes are kept. */
  function Unpack(cs: seq<byte>): (d: seq<byte>)
    decreases |cs|
  {
    if |cs| >= 4 then [B0(cs[0], cs[1]), B1(cs[1], cs[2]), B2(cs[2], cs[3])] + Unpack(cs[4..])
    else if |cs| == 3 then [B0(cs[0], cs[1]), B1(cs[1], cs[2])]
    else if |cs| == 2 then [B0(cs[0], cs[1])]
    else []
  }

  function Decode(t: string): (d: seq<byte>) {
    Unpack(Codes(t))
  }

  lemma {:induction false} CodesAppend(a: string, b: string)
    requires forall i :: 0 <= i < |a| ==> InTable(a[i])
    ensures |Codes(a)| == |a| && Codes(a + b) == Codes(a) + Codes(b)
    decreases |a|
  {
    hide InTable, Code;
    if a == "" {
      assert a + b == b;
    } else {
      assert (a + b)[1..] == a[1..] + b;
      CodesAppend(a[1..], b);
    }
  }

  lemma CodesPad(n: nat)
    requires 0 < n <= 2
    ensures Codes(if n == 1 then "=" else "==") == []
  {
  }

  lemma QuadCodes(a: byte, b: byte, c: byte)
    ensures forall i :: 0 <= i < 4 ==> InTable(Quad(a, b, c)[i])
    ensures Codes(Quad(a, b, c)) == [S0(a), S1(a, b), S2(b, c), S3(c)]
    ensures Codes(Quad(a, b, c)[..3]) == [S0(a), S1(a, b), S2(b, c)]
    ensures Codes(Quad(a, b, c)[..2]) == [S0(a), S1(a, b)]
  {
    hide Digit, Code, InTable, S0, S1, S2, S3;
    DigitCode(S0(a));
    DigitCode(S1(a, b));
    DigitCode(S2(b, c));
    DigitCode(S3(c));
    var q := Quad(a, b, c);
    CodesOfSome(q);
    CodesOfSome(q[..3]);
    CodesOfSome(q[..2]);
  }

  lemma {:induction false} CodesOfSome(t: string)
    requires forall i :: 0 <= i < |t| ==> InTable(t[i])
    ensures |Codes(t)| == |t| && forall i :: 0 <= i < |t| ==> Codes(t)[i] == Code(t[i])
    decreases |t|
  {
    hide InTable, Code;
    if t != "" {
      CodesOfSome(t[1..]);
    }
  }

  /** Decoding undoes encoding, for every sequence of bytes. */
  lemma {:induction false} DecodeEncode(d: seq<byte>)
    ensures Decode(Encode(d)) == d
    decreases |d|
  {
    hide Digit, Code, InTable, S0, S1, S2, S3, B0, B1, B2, Codes, Quad;
    if |d| >= 3 {
      var q, rest := Quad(d[0], d[1], d[2]), Encode(d[3..]);
      QuadCodes(d[0], d[1], d[2]);
      CodesAppend(q, rest);
      ThreeBack(d[0], d[1], d[2]);
      UnpackHead(Codes(q), Codes(rest));
      DecodeEncode(d[3..]);
      assert d == [d[0], d[1], d[2]] + d[3..];
    } else if |d| == 2 {
      QuadCodes(d[0], d[1], 0);
      CodesAppend(Quad(d[0], d[1], 0)[..3], "=");
      CodesPad(1);
      ThreeBack(d[0], d[1], 0);
    } else if |d| == 1 {
      QuadCodes(d[0], 0, 0);
      CodesAppend(Quad(d[0], 0, 0)[..2], "==");
      CodesPad(2);
      ThreeBack(d[0], 0, 0);
    } else {
      NoCodes();
    }
  }

  lemma NoCodes()
    ensures Codes("") == []
  {
  }

  lemma ThreeBack(a: byte, b: byte, c: byte)
    ensures B0(S0(a), S1(a, b)) == a && B1(S1(a, b), S2(b, c)) == b && B2(S2(b, c), S3(c)) == c
  {
    hide S0, S1, S2, S3, B0, B1, B2;
    FirstBack(a, b);
    SecondBack(a, b, c);
    ThirdBack(b, c);
  }

  lemma UnpackHead(four: seq<byte>, rest: seq<byte>)
    requires |four| == 4
    ensures Unpack(four + rest)
         == [B0(four[0], four[1]), B1(four[1], four[2]), B2(four[2], four[3])] + Unpack(rest)
  {
    hide B0, B1, B2;
    assert (four + rest)[4..] == rest;
  }

  // ---------------------------------------------------------------- the encoders

  lemma AgentBits(a: byte, b: byte, c: byte)
    ensures ((a << 4) & 0x30) | (b >> 4) == S1(a, b)
    ensures ((b << 2) & 0x3c) | (c >> 6) == S2(b, c)
    ensures c & 0x3f == S3(c)
  {
  }

  lemma AgentLastBits(a: byte, b: byte)
    ensures (a << 4) & 0x30 == S1(a, 0)
    ensures (b << 2) & 0x3c == S2(b, 0)
  {
  }

  lemma {:induction false} EncodeAppend(a: seq<byte>, b: seq<byte>)
    requires |a| % 3 == 0
    ensures Encode(a + b) == Encode(a) + Encode(b)
    decreases |a|
  {
    hide Quad;
    if a == [] {
      assert a + b == b;
    } else {
      assert (a + b)[3..] == a[3..] + b;
      EncodeAppend(a[3..], b);
    }
  }

  lemma EncodeThree(a: byte, b: byte, c: byte)
    ensures Encode([a, b, c]) == Quad(a, b, c)
  {
    hide Quad;
    assert [a, b, c][3..] == [];
    assert Encode([a, b, c]) == Quad(a, b, c) + Encode([]);
  }

  lemma EncodeMore(d: seq<byte>, at: nat)
    requires at % 3 == 0 && at + 3 <= |d|
    ensures Encode(d[..at + 3]) == Encode(d[..at]) + Quad(d[at], d[at + 1], d[at + 2])
  {
    hide Encode, Quad;
    EncodeAppend(d[..at], d[at..at + 3]);
    EncodeThree(d[at], d[at + 1], d[at + 2]);
    assert d[..at + 3] == d[..at] + d[at..at + 3];
    assert d[at..at + 3] == [d[at], d[at + 1], d[at + 2]];
  }

  lemma EncodeRest(d: seq<byte>, at: nat)
    requires at % 3 == 0 && at <= |d| < at + 3
    ensures Encode(d) == Encode(d[..at]) + Encode(d[at..])
    ensures |d| == at ==> Encode(d[at..]) == ""
    ensures |d| == at + 1 ==> Encode(d[at..]) == Quad(d[at], 0, 0)[..2] + "=="
    ensures |d| == at + 2 ==> Encode(d[at..]) == Quad(d[at], d[at + 1], 0)[..3] + "="
  {
    hide Quad, Encode;
    EncodeAppend(d[..at], d[at..]);
    assert d == d[..at] + d[at..];
    EncodeShort(d[at..]);
  }

  lemma EncodeShort(r: seq<byte>)
    requires |r| < 3
    ensures |r| == 0 ==> Encode(r) == ""
    ensures |r| == 1 ==> Encode(r) == Quad(r[0], 0, 0)[..2] + "=="
    ensures |r| == 2 ==> Encode(r) == Quad(r[0], r[1], 0)[..3] + "="
  {
    hide Quad;
  }

  /** `astPackage::encode`. */
  method AgentEncode(input: seq<byte>) returns (out: string)
    ensures out == Encode(input)
  {
    hide Encode, Digit, S1, S2, S3;
    out := "";
    var at := 0;
    assert input[..0] == [];
    NoBytes();
    while |input| - at >= 3
      invariant 0 <= at <= |input| && at % 3 == 0 && out == Encode(input[..at])
    {
      var a, b, c := input[at], input[at + 1], input[at + 2];
      AgentBits(a, b, c);
      EncodeMore(input, at);
      out := out + [Digit(a >> 2)] + [Digit(((a << 4) & 0x30) | (b >> 4))]
                 + [Digit(((b << 2) & 0x3c) | (c >> 6))] + [Digit(c & 0x3f)];
      at := at + 3;
    }
    EncodeRest(input, at);
    if |input| - at > 0 {
      var a := input[at];
      var last := AgentTail(a, if |input| - at > 1 then [input[at + 1]] else []);
      out := out + last;
    }
  }

  /** The fragment at the end. */
  method AgentTail(a: byte, more: seq<byte>) returns (t: string)
    requires |more| <= 1
    ensures more == [] ==> t == Quad(a, 0, 0)[..2] + "=="
    ensures more != [] ==> t == Quad(a, more[0], 0)[..3] + "="
  {
    hide Digit, S1, S2, S3;
    AgentLastBits(a, 0);
    var fragment := (a << 4) & 0x30;
    t := [Digit(a >> 2)];
    if more != [] {
      AgentBits(a, more[0], 0);
      AgentLastBits(a, more[0]);
      fragment := fragment | (more[0] >> 4);
      t := t + [Digit(fragment)] + [Digit((more[0] << 2) & 0x3c)] + "=";
    } else {
      t := t + [Digit(fragment)] + "==";
    }
  }

  lemma NoBytes()
    ensures Encode([]) == ""
  {
  }

  lemma LibraryBits(a: byte, b: byte, c: byte)
    ensures (a & 0xfc) >> 2 == S0(a)
    ensures ((a & 0x03) << 4) + ((b & 0xf0) >> 4) == S1(a, b)
    ensures ((b & 0x0f) << 2) + ((c & 0xc0) >> 6) == S2(b, c)
    ensures c & 0x3f == S3(c)
  {
  }

  /** The codec on the three bytes read. */
  method LibraryQuad(tmp: seq<byte>) returns (buf: seq<byte>)
    requires |tmp| == 3
    ensures buf == [S0(tmp[0]), S1(tmp[0], tmp[1]), S2(tmp[1], tmp[2]), S3(tmp[2])]
  {
    LibraryBits(tmp[0], tmp[1], tmp[2]);
    hide S0, S1, S2, S3;
    buf := [(tmp[0] & 0xfc) >> 2, ((tmp[0] & 0x03) << 4) + ((tmp[1] & 0xf0) >> 4),
            ((tmp[1] & 0x0f) << 2) + ((tmp[2] & 0xc0) >> 6), tmp[2] & 0x3f];
  }

  /** The four characters of a group. */
  method LibraryGroup(tmp: seq<byte>) returns (t: string)
    requires |tmp| == 3
    ensures t == Quad(tmp[0], tmp[1], tmp[2])
  {
    hide Digit, S0, S1, S2, S3;
    var buf := LibraryQuad(tmp);
    t := [Digit(buf[0]), Digit(buf[1]), Digit(buf[2]), Digit(buf[3])];
  }

  /** `b64_encode`. */
  method LibraryEncode(src: seq<byte>) returns (enc: string)
    ensures enc == Encode(src)
  {
    hide Encode, Quad, Read3;
    enc := "";
    var tmp: seq<byte> := [];
    var at := 0;
    Read3Nothing(src);
    while at < |src|
      invariant |tmp| < 3 && 0 <= at <= |src| && Read3(src, at, tmp, enc)
      decreases |src| - at
    {
      if |tmp| < 2 {
        Read3More(src, at, tmp, enc);
      } else {
        Read3Full(src, at, tmp, enc);
      }
      tmp := tmp + [src[at]];
      at := at + 1;
      if |tmp| == 3 {
        var four := LibraryGroup(tmp);
        enc := enc + four;
        tmp := [];
      }
    }
    Read3Rest(src, tmp, enc);
    if |tmp| > 0 {
      var last := LibraryTail(tmp);
      enc := enc + last;
    }
  }

  /** After `at` bytes: whole groups are encoded, `tmp` holds the bytes of the open one. */
  ghost predicate Read3(src: seq<byte>, at: nat, tmp: seq<byte>, enc: string) {
    && |tmp| < 3 && |tmp| <= at <= |src| && (at - |tmp|) % 3 == 0
    && tmp == src[at - |tmp|..at] && enc == Encode(src[..at - |tmp|])
  }

  lemma Read3Nothing(src: seq<byte>)
    ensures Read3(src, 0, [], "")
  {
    assert src[..0] == [];
    NoBytes();
  }

  lemma Read3More(src: seq<byte>, at: nat, tmp: seq<byte>, enc: string)
    requires at < |src| && Read3(src, at, tmp, enc) && |tmp| < 2
    ensures Read3(src, at + 1, tmp + [src[at]], enc)
  {
    hide Encode;
    SliceSnoc(src, at - |tmp|, at);
  }

  lemma Read3Full(src: seq<byte>, at: nat, tmp: seq<byte>, enc: string)
    requires at < |src| && Read3(src, at, tmp, enc) && |tmp| == 2
    ensures Read3(src, at + 1, [], enc + Quad(tmp[0], tmp[1], src[at]))
  {
    hide Encode, Quad;
    NextThird(at - 2);
    EncodeMore(src, at - 2);
    assert tmp[0] == src[at - 2] && tmp[1] == src[at - 1];
    assert src[at + 1..at + 1] == [];
  }

  lemma NextThird(n: nat)
    requires n % 3 == 0
    ensures (n + 3) % 3 == 0
  {
  }

  lemma Read3Rest(src: seq<byte>, tmp: seq<byte>, enc: string)
    requires Read3(src, |src|, tmp, enc)
    ensures |tmp| == 0 ==> Encode(src) == enc
    ensures |tmp| == 1 ==> Encode(src) == enc + (Quad(tmp[0], 0, 0)[..2] + "==")
    ensures |tmp| == 2 ==> Encode(src) == enc + (Quad(tmp[0], tmp[1], 0)[..3] + "=")
  {
    hide Encode, Quad;
    EncodeRest(src, |src| - |tmp|);
    assert enc + "" == enc;
  }

  method LibraryTail(read: seq<byte>) returns (t: string)
    requires 0 < |read| < 3
    ensures |read| == 1 ==> t == Quad(read[0], 0, 0)[..2] + "=="
    ensures |read| == 2 ==> t == Quad(read[0], read[1], 0)[..3] + "="
  {
    hide Digit, S0, S1, S2, S3;
    var i := |read|;
    var tmp := read;
    while |tmp| < 3
      invariant i <= |tmp| <= 3 && tmp[..i] == read && forall j :: i <= j < |tmp| ==> tmp[j] == 0
    {
      tmp := tmp + [0];
    }
    assert tmp[0] == tmp[..i][0] && (i == 2 ==> tmp[1] == tmp[..i][1]);
    var buf := LibraryQuad(tmp);
    ghost var q := Quad(tmp[0], tmp[1], tmp[2]);
    t := "";
    var j := 0;
    while j < i + 1
      invariant 0 <= j <= i + 1 && t == q[..j]
    {
      assert q[..j + 1] == q[..j] + [q[j]];
      t := t + [Digit(buf[j])];
      j := j + 1;
    }
    t := t + (if i == 1 then "==" else "=");
  }

  // ---------------------------------------------------------------- the decoders

  lemma {:induction false} UnpackAppend(a: seq<byte>, b: seq<byte>)
    requires |a| % 4 == 0
    ensures Unpack(a + b) == Unpack(a) + Unpack(b)
    decreases |a|
  {
    hide B0, B1, B2;
    if a == [] {
      assert a + b == b;
    } else {
      assert (a + b)[4..] == a[4..] + b;
      UnpackAppend(a[4..], b);
    }
  }

  /** Byte `k` of the result, from the two indices it comes from. */
  function ByteAt(cs: seq<byte>, k: nat): (b: byte)
    requires k + k / 3 + 1 < |cs|
  {
    var i := k + k / 3;
    if k % 3 == 0 then B0(cs[i], cs[i + 1]) else if k % 3 == 1 then B1(cs[i], cs[i + 1]) else B2(cs[i], cs[i + 1])
  }

  lemma {:induction false} UnpackSize(cs: seq<byte>)
    ensures |Unpack(cs)| == |cs| * 3 / 4
    decreases |cs|
  {
    if |cs| >= 4 {
      UnpackSize(cs[4..]);
    }
  }

  lemma OneGroupOn(cs: seq<byte>, k: nat)
    requires |cs| >= 4 && k >= 3 && k - 3 + (k - 3) / 3 + 1 < |cs[4..]|
    ensures k + k / 3 + 1 < |cs| && ByteAt(cs, k) == ByteAt(cs[4..], k - 3)
  {
    hide B0, B1, B2;
    assert (k - 3) / 3 == k / 3 - 1 && (k - 3) % 3 == k % 3;
  }

  lemma {:induction false} UnpackAt(cs: seq<byte>, k: nat)
    requires k < |cs| * 3 / 4
    ensures k + k / 3 + 1 < |cs| && k < |Unpack(cs)| && Unpack(cs)[k] == ByteAt(cs, k)
    decreases |cs|
  {
    hide B0, B1, B2;
    UnpackSize(cs);
    if |cs| >= 4 && k >= 3 {
      UnpackAt(cs[4..], k - 3);
      UnpackSize(cs[4..]);
      OneGroupOn(cs, k);
    }
  }

  lemma LibraryBytes(x: byte, y: byte, z: byte, w: byte)
    requires x < 64 && y < 64 && z < 64 && w < 64
    ensures (x << 2) + ((y & 0x30) >> 4) == B0(x, y)
    ensures ((y & 0xf) << 4) + ((z & 0x3c) >> 2) == B1(y, z)
    ensures ((z & 0x3) << 6) + w == B2(z, w)
  {
  }

  /** The search for a character in the table. */
  method Translate(c: char) returns (v: byte)
    requires InTable(c) || c == '\0'
    ensures InTable(c) ==> v == Code(c)
    ensures c == '\0' ==> v == 0
  {
    hide ToByte;
    var l := 0;
    while l < 64
      invariant 0 <= l <= 64 && forall m :: 0 <= m < l ==> DigitAt(m) != c
    {
      CodeOfDigit(l);
      if c == DigitAt(l) {
        return ToByte(l);
      }
      l := l + 1;
    }
    NotFound(c);
    return 0;
  }

  lemma NotFound(c: char)
    requires forall m :: 0 <= m < 64 ==> DigitAt(m) != c
    ensures !InTable(c)
  {
    if InTable(c) {
      DigitOfCode(c);
    }
  }

  lemma DigitOfCode(c: char)
    requires InTable(c)
    ensures DigitAt(CodeAt(c)) == c
  {
  }

  predicate IsAlnum(c: char) {
    'A' <= c <= 'Z' || 'a' <= c <= 'z' || '0' <= c <= '9'
  }

  /** Translates four characters and joins them to three bytes; NUL stands for zero. */
  method LibraryBytesOf(tmp: string) returns (buf: seq<byte>)
    requires |tmp| == 4 && forall i :: 0 <= i < 4 ==> InTable(tmp[i]) || tmp[i] == '\0'
    ensures var v := Codes4(tmp);
            buf == [B0(v[0], v[1]), B1(v[1], v[2]), B2(v[2], v[3])]
  {
    hide B0, B1, B2, InTable, Code;
    var v: seq<byte> := [];
    var i := 0;
    while i < 4
      invariant 0 <= i <= 4 && v == Codes4(tmp)[..i]
    {
      var x := Translate(tmp[i]);
      v := v + [x];
      i := i + 1;
    }
    assert v == Codes4(tmp);
    Codes4Small(tmp);
    LibraryBytes(v[0], v[1], v[2], v[3]);
    buf := [(v[0] << 2) + ((v[1] & 0x30) >> 4), ((v[1] & 0xf) << 4) + ((v[2] & 0x3c) >> 2), ((v[2] & 0x3) << 6) + v[3]];
  }

  function CodeOrZero(c: char): (v: byte) {
    if InTable(c) then Code(c) else 0
  }

  function Codes4(tmp: string): (v: seq<byte>)
    requires |tmp| == 4
    ensures |v| == 4 && forall i :: 0 <= i < 4 ==> v[i] == CodeOrZero(tmp[i])
  {
    seq(4, i requires 0 <= i < 4 => CodeOrZero(tmp[i]))
  }

  lemma Codes4Small(tmp: string)
    requires |tmp| == 4
    ensures forall i :: 0 <= i < 4 ==> Codes4(tmp)[i] < 64
  {
    hide Code, InTable;
    CodeInTable(tmp[0]);
    CodeInTable(tmp[1]);
    CodeInTable(tmp[2]);
    CodeInTable(tmp[3]);
  }

  /** The characters read so far are in the table, and what is full has been unpacked. */
  lemma UnpackMore(t: string, at: nat, tmp: string)
    requires |tmp| == 4 && at % 4 == 0 && at + 4 <= |t| && tmp == t[at..at + 4]
    requires forall i :: 0 <= i < at + 4 ==> InTable(t[i])
    ensures var v := Codes4(tmp);
            Decode(t[..at + 4]) == Decode(t[..at]) + [B0(v[0], v[1]), B1(v[1], v[2]), B2(v[2], v[3])]
  {
    hide B0, B1, B2, InTable, Code, Codes, Unpack;
    CodesAppend(t[..at], tmp);
    CodesOfSome(tmp);
    CodesOfSome(t[..at]);
    assert t[..at + 4] == t[..at] + tmp;
    UnpackAppend(Codes(t[..at]), Codes(tmp));
    var v := Codes4(tmp);
    assert Codes(tmp) == v;
    UnpackHead(v, []);
    UnpackNothing();
    assert v + [] == v;
  }

  lemma UnpackNothing()
    ensures Unpack([]) == [] && Codes("") == [] && Decode("") == []
  {
  }

  lemma UnpackTail(t: string, at: nat, tmp: string)
    requires |tmp| == 4 && at % 4 == 0 && at <= |t| < at + 4
    requires forall i :: 0 <= i < |t| ==> InTable(t[i])
    requires tmp[..|t| - at] == t[at..] && forall i :: |t| - at <= i < 4 ==> tmp[i] == '\0'
    ensures var v := Codes4(tmp);
            Decode(t) == Decode(t[..at])
                + (if |t| <= at + 1 then [] else [B0(v[0], v[1]), B1(v[1], v[2]), B2(v[2], v[3])][..|t| - at - 1])
  {
    hide B0, B1, B2, InTable, Code, Codes, Unpack;
    var rest := t[at..];
    CodesAppend(t[..at], rest);
    CodesOfSome(rest);
    CodesOfSome(t[..at]);
    assert t == t[..at] + rest;
    UnpackAppend(Codes(t[..at]), Codes(rest));
    forall i | 0 <= i < |rest| ensures Codes(rest)[i] == Codes4(tmp)[i] {
      assert tmp[..|rest|][i] == tmp[i] && rest[i] == tmp[i];
    }
    UnpackFew(Codes(rest), Codes4(tmp));
  }

  lemma UnpackFew(cs: seq<byte>, v: seq<byte>)
    requires |cs| < 4 == |v| && forall i :: 0 <= i < |cs| ==> cs[i] == v[i]
    ensures Unpack(cs) == if |cs| <= 1 then [] else [B0(v[0], v[1]), B1(v[1], v[2]), B2(v[2], v[3])][..|cs| - 1]
  {
    hide B0, B1, B2;
  }

  lemma CodesStop(t: string, j: nat)
    requires j <= |t| && (forall i :: 0 <= i < j ==> InTable(t[i])) && (j < |t| ==> !InTable(t[j]))
    ensures Codes(t) == Codes(t[..j]) && |Codes(t)| == j && Decode(t) == Decode(t[..j])
  {
    hide InTable, Code;
    CodesAppend(t[..j], t[j..]);
    assert t == t[..j] + t[j..];
    CodesOfSome(t[..j]);
    assert Codes(t[j..]) == [];
  }

  lemma AlnumInTable(c: char)
    ensures InTable(c) <==> IsAlnum(c) || c == '+' || c == '/'
  {
  }

  /**
    The result of `b64_decode_ex`. A single character of the table makes it resize its empty result
    to zero bytes; `zeroAlloc` tells whether `realloc` gives a block for that or NULL, which the
    source takes for a failure.
   */
  function LibraryResult(t: string, zeroAlloc: bool): (r: Option<seq<byte>>) {
    if |Codes(t)| == 1 && !zeroAlloc then None else Some(Decode(t))
  }

  /** After `j` characters: whole groups are unpacked, `tmp` holds the characters of the open one. */
  ghost predicate Grouped(src: string, j: nat, tmp: string, dec: seq<byte>) {
    && |tmp| < 4 && |tmp| <= j <= |src| && (j - |tmp|) % 4 == 0
    && tmp == src[j - |tmp|..j] && dec == Decode(src[..j - |tmp|])
    && forall i :: 0 <= i < j ==> InTable(src[i])
  }

  lemma GroupedNothing(src: string)
    ensures Grouped(src, 0, "", [])
  {
    UnpackNothing();
    assert src[..0] == "";
  }

  lemma GroupedMore(src: string, j: nat, tmp: string, dec: seq<byte>)
    requires j < |src| && Grouped(src, j, tmp, dec) && InTable(src[j]) && |tmp| < 3
    ensures Grouped(src, j + 1, tmp + [src[j]], dec)
  {
    hide Decode, InTable;
    SliceSnoc(src, j - |tmp|, j);
  }

  lemma GroupedFull(src: string, j: nat, tmp: string, dec: seq<byte>)
    requires j < |src| && Grouped(src, j, tmp, dec) && InTable(src[j]) && |tmp| == 3
    ensures forall i :: 0 <= i < 4 ==> InTable((tmp + [src[j]])[i])
    ensures var v := Codes4(tmp + [src[j]]);
            Grouped(src, j + 1, "", dec + [B0(v[0], v[1]), B1(v[1], v[2]), B2(v[2], v[3])])
  {
    hide Decode, InTable, Codes4, B0, B1, B2;
    var four := tmp + [src[j]];
    SliceSnoc(src, j - 3, j);
    UnpackMore(src, j - 3, four);
  }

  /** `b64_decode_ex`. */
  method LibraryDecode(src: string, zeroAlloc: bool) returns (r: Option<seq<byte>>)
    ensures r == LibraryResult(src, zeroAlloc)
  {
    hide InTable, Code, Codes, Unpack, IsAlnum, B0, B1, B2, Decode, Codes4, Grouped;
    var dec: seq<byte> := [];
    var tmp := "";
    var j := 0;
    GroupedNothing(src);
    while j < |src|
      invariant |tmp| < 4 && 0 <= j <= |src| && Grouped(src, j, tmp, dec)
      decreases |src| - j
    {
      AlnumInTable(src[j]);
      if '=' == src[j] {
        EqualSign();
        break;
      }
      if !(IsAlnum(src[j]) || '+' == src[j] || '/' == src[j]) {
        break;
      }
      if |tmp| < 3 {
        GroupedMore(src, j, tmp, dec);
      } else {
        GroupedFull(src, j, tmp, dec);
      }
      tmp := tmp + [src[j]];
      j := j + 1;
      if |tmp| == 4 {
        var buf := LibraryBytesOf(tmp);
        dec := dec + buf;
        tmp := "";
      }
    }
    GroupedStop(src, j, tmp, dec);
    var last := LibraryRest(src[..j], tmp);
    if |tmp| > 0 && |dec| + (|tmp| - 1) == 0 && !zeroAlloc {
      return None;
    }
    return Some(dec + last);
  }

  /** The loop has stopped: nothing more is decoded, and the rest is what `tmp` holds. */
  lemma GroupedStop(src: string, j: nat, tmp: string, dec: seq<byte>)
    requires Grouped(src, j, tmp, dec) && (j < |src| ==> !InTable(src[j]))
    ensures |tmp| <= j && j <= |src| && |src[..j]| == j && (j - |tmp|) % 4 == 0
    ensures tmp == src[..j][j - |tmp|..] && dec == Decode(src[..j][..j - |tmp|])
    ensures forall i :: 0 <= i < j ==> InTable(src[..j][i])
    ensures Decode(src) == Decode(src[..j])
    ensures |tmp| > 0 && |dec| + (|tmp| - 1) == 0 <==> |Codes(src)| == 1
  {
    hide InTable, Code, Codes, Unpack, Decode;
    CodesStop(src, j);
    assert src[..j][..j - |tmp|] == src[..j - |tmp|] && src[..j][j - |tmp|..] == tmp;
    EmptyExactly(src[..j], |tmp|);
  }

  /** The size asked for is zero exactly when a single character was read. */
  lemma EmptyExactly(t: string, n: nat)
    requires n <= |t| && n < 4 && (|t| - n) % 4 == 0 && forall i :: 0 <= i < |t| ==> InTable(t[i])
    ensures n > 0 && |Decode(t[..|t| - n])| + (n - 1) == 0 <==> |t| == 1
  {
    hide InTable, Code, Codes, Unpack;
    CodesOfSome(t[..|t| - n]);
    UnpackSize(Codes(t[..|t| - n]));
  }

  /** What is left at the end: one byte less than characters. */
  method LibraryRest(src: string, tmp: string) returns (last: seq<byte>)
    requires |tmp| < 4 && |tmp| <= |src| && (|src| - |tmp|) % 4 == 0 && tmp == src[|src| - |tmp|..]
    requires forall i :: 0 <= i < |src| ==> InTable(src[i])
    ensures Decode(src) == Decode(src[..|src| - |tmp|]) + last
  {
    hide InTable, Code, Codes, Unpack, B0, B1, B2, Decode, Codes4;
    var i := |tmp|;
    if i == 0 {
      assert src[..|src|] == src && Decode(src) + [] == Decode(src);
      return [];
    }
    var filled := FillUp(tmp);
    assert forall m :: 0 <= m < i ==> tmp[m] == src[|src| - i + m];
    UnpackTail(src, |src| - i, filled);
    var buf := LibraryBytesOf(filled);
    last := buf[..i - 1];
  }

  lemma EqualSign()
    ensures !InTable('=')
  {
  }

  method FillUp(read: string) returns (tmp: string)
    requires |read| <= 4
    ensures |tmp| == 4 && tmp[..|read|] == read && forall i :: |read| <= i < 4 ==> tmp[i] == '\0'
    ensures forall i :: 0 <= i < |read| ==> tmp[i] == read[i]
  {
    tmp := read;
    while |tmp| < 4
      invariant |read| <= |tmp| <= 4 && tmp[..|read|] == read
      invariant forall i :: |read| <= i < |tmp| ==> tmp[i] == '\0'
      decreases 4 - |tmp|
    {
      tmp := tmp + ['\0'];
    }
    assert forall i :: 0 <= i < |read| ==> tmp[i] == tmp[..|read|][i];
  }

  lemma {:induction false} CodesPrefix(t: string, n: nat)
    requires n <= |t| && forall i :: 0 <= i < n ==> InTable(t[i])
    ensures |Codes(t)| >= n && forall i :: 0 <= i < n ==> Codes(t)[i] == Code(t[i])
    decreases n
  {
    hide InTable, Code;
    if n > 0 {
      CodesPrefix(t[1..], n - 1);
    }
  }

  /** The part of a byte that the last character read has already put in place. */
  function Partial(v: byte, i: nat): (p: byte)
    requires i % 4 != 0
  {
    if i % 4 == 1 then v << 2 else if i % 4 == 2 then v << 4 else v << 6
  }

  function ByteOrZero(cs: seq<byte>, k: nat): (b: byte) {
    if k + k / 3 + 1 < |cs| then ByteAt(cs, k) else 0
  }

  /** After `i` characters: the complete bytes, and the beginning of the next one. */
  ghost predicate Filled(cs: seq<byte>, i: nat, mem: seq<byte>, o: nat, capacity: nat) {
    && i <= |cs| && o == i * 3 / 4 <= capacity <= |mem|
    && (forall k :: 0 <= k < o ==> mem[k] == ByteOrZero(cs, k))
    && (o < capacity && i % 4 != 0 ==> mem[o] == Partial(cs[i - 1], i))
  }

  /** The switch in the loop of `astPackage::decode`. */
  method AgentStep(v: byte, i: nat, out: array<byte>, o: nat, capacity: nat) returns (o': nat)
    requires o < capacity <= out.Length
    modifies out
    ensures o' == if i % 4 == 0 then o else o + 1
    ensures i % 4 == 0 ==> out[..] == old(out[..])[o := v << 2]
    ensures i % 4 == 1 ==> out[o] == old(out[o]) | (v >> 4)
    ensures i % 4 == 2 ==> out[o] == old(out[o]) | (v >> 2)
    ensures i % 4 == 3 ==> out[o] == old(out[o]) | v
    ensures i % 4 != 0 && o + 1 < capacity ==>
              out[o + 1] == if i % 4 == 1 then v << 4 else if i % 4 == 2 then v << 6 else old(out[o + 1])
    ensures forall k :: 0 <= k < out.Length && k != o && (k != o + 1 || k >= capacity) ==> out[k] == old(out[k])
  {
    o' := o;
    match i % 4
    case 0 =>
      out[o] := v << 2;
    case 1 =>
      out[o] := out[o] | (v >> 4);
      o' := o + 1;
      if o' < capacity {
        out[o'] := v << 4;
      }
    case 2 =>
      out[o] := out[o] | (v >> 2);
      o' := o + 1;
      if o' < capacity {
        out[o'] := v << 6;
      }
    case _ =>
      out[o] := out[o] | v;
      o' := o + 1;
  }

  lemma FilledMore(cs: seq<byte>, i: nat, before: seq<byte>, o: nat, capacity: nat, after: seq<byte>, o': nat)
    requires Filled(cs, i, before, o, capacity) && o < capacity && i < |cs| && |after| == |before|
    requires o' == if i % 4 == 0 then o else o + 1
    requires i % 4 == 0 ==> after[o] == cs[i] << 2
    requires i % 4 == 1 ==> after[o] == before[o] | (cs[i] >> 4)
    requires i % 4 == 2 ==> after[o] == before[o] | (cs[i] >> 2)
    requires i % 4 == 3 ==> after[o] == before[o] | cs[i]
    requires i % 4 != 0 && o + 1 < capacity ==>
               after[o + 1] == if i % 4 == 1 then cs[i] << 4 else if i % 4 == 2 then cs[i] << 6 else before[o + 1]
    requires forall k :: 0 <= k < o ==> after[k] == before[k]
    ensures Filled(cs, i + 1, after, o', capacity)
  {
    hide B0, B1, B2, Partial, ByteOrZero;
    BytePlace(i, o);
    if i % 4 == 0 {
      FirstPart(cs[i], i);
    } else {
      CompletedByte(cs, i, before[o], after[o], o);
      NextPart(cs[i], i);
    }
  }

  /** The character completes the byte that the one before it began. */
  lemma CompletedByte(cs: seq<byte>, i: nat, begun: byte, done: byte, o: nat)
    requires i < |cs| && i % 4 != 0 && o + o / 3 + 1 == i && o % 3 == i % 4 - 1 && begun == Partial(cs[i - 1], i)
    requires i % 4 == 1 ==> done == begun | (cs[i] >> 4)
    requires i % 4 == 2 ==> done == begun | (cs[i] >> 2)
    requires i % 4 == 3 ==> done == begun | cs[i]
    ensures done == ByteOrZero(cs, o)
  {
    hide B0, B1, B2, Partial, ByteOrZero;
    PartialJoins(cs[i - 1], cs[i], i);
    JoinedByte(cs, i, o);
  }

  lemma FirstPart(v: byte, i: nat)
    requires i % 4 == 0
    ensures Partial(v, i + 1) == v << 2
  {
  }

  lemma NextPart(v: byte, i: nat)
    requires i % 4 != 0
    ensures i % 4 == 1 ==> Partial(v, i + 1) == v << 4
    ensures i % 4 == 2 ==> Partial(v, i + 1) == v << 6
  {
  }

  lemma JoinedByte(cs: seq<byte>, i: nat, o: nat)
    requires i < |cs| && i % 4 != 0 && o + o / 3 + 1 == i && o % 3 == i % 4 - 1
    ensures ByteOrZero(cs, o) ==
            (if i % 4 == 1 then B0(cs[i - 1], cs[i]) else if i % 4 == 2 then B1(cs[i - 1], cs[i])
                else B2(cs[i - 1], cs[i]))
  {
    hide B0, B1, B2;
  }

  /** Which byte the character `i` works on. */
  lemma BytePlace(i: nat, o: nat)
    requires o == i * 3 / 4
    ensures i % 4 == 0 ==> (i + 1) * 3 / 4 == o
    ensures i % 4 != 0 ==> (i + 1) * 3 / 4 == o + 1 && o / 3 == i / 4 && o % 3 == i % 4 - 1 && o + o / 3 + 1 == i
  {
    var q, r := i / 4, i % 4;
    assert i == 4 * q + r && o == 3 * q + (if r == 0 then 0 else r - 1);
  }

  lemma PartialJoins(x: byte, y: byte, i: nat)
    requires i % 4 != 0
    ensures i % 4 == 1 ==> Partial(x, i) | (y >> 4) == B0(x, y)
    ensures i % 4 == 2 ==> Partial(x, i) | (y >> 2) == B1(x, y)
    ensures i % 4 == 3 ==> Partial(x, i) | y == B2(x, y)
  {
  }

  /** `astPackage::decode`: the first bytes of the decoded text, as many as the capacity allows. */
  method AgentDecode(text: string, out: array<byte>, capacity: nat) returns (outlen: nat)
    requires capacity <= out.Length
    modifies out
    ensures outlen == if capacity < |Decode(text)| then capacity else |Decode(text)|
    ensures forall k :: 0 <= k < outlen ==> out[k] == Decode(text)[k]
    ensures forall k :: capacity <= k < out.Length ==> out[k] == old(out[k])
  {
    hide InTable, Code, Codes, Unpack, Filled, Partial, Decode;
    ghost var cs := Codes(text);
    outlen := 0;
    var i := 0;
    NothingFilled(cs, out[..], capacity);
    while i < |text| && outlen < capacity
      invariant 0 <= i <= |text| && outlen <= capacity
      invariant forall m :: 0 <= m < i ==> InTable(text[m])
      invariant Filled(cs, i, out[..], outlen, capacity)
      invariant forall k :: capacity <= k < out.Length ==> out[k] == old(out[k])
      decreases |text| - i
    {
      var uCode := Code(text[i]);
      CodeInTable(text[i]);
      if uCode >= 64 {
        break;
      }
      CodesPrefix(text, i + 1);
      ghost var before, o := out[..], outlen;
      outlen := AgentStep(uCode, i, out, outlen, capacity);
      FilledMore(cs, i, before, o, capacity, out[..], outlen);
      FilledSize(cs, i + 1, out[..], outlen, capacity);
      i := i + 1;
    }
    if outlen < capacity {
      CodesStop(text, i);
    }
    AllFilled(text, i, out[..], outlen, capacity);
  }

  lemma NothingFilled(cs: seq<byte>, mem: seq<byte>, capacity: nat)
    requires capacity <= |mem|
    ensures Filled(cs, 0, mem, 0, capacity)
  {
  }

  lemma FilledSize(cs: seq<byte>, i: nat, mem: seq<byte>, o: nat, capacity: nat)
    requires Filled(cs, i, mem, o, capacity)
    ensures o <= capacity
  {
  }

  lemma AllFilled(t: string, i: nat, mem: seq<byte>, o: nat, capacity: nat)
    requires Filled(Codes(t), i, mem, o, capacity) && (o < capacity ==> i == |Codes(t)|)
    ensures o == if capacity < |Decode(t)| then capacity else |Decode(t)|
    ensures forall k :: 0 <= k < o ==> mem[k] == Decode(t)[k]
  {
    hide Codes, Unpack, ByteAt;
    var cs := Codes(t);
    UnpackSize(cs);
    forall k | 0 <= k < o ensures mem[k] == Unpack(cs)[k] {
      UnpackAt(cs, k);
    }
  }

  // ---------------------------------------------------------------- both decoders

  /** Both decoders on one text: they agree if and only if it does not come down to resizing to zero bytes. */
  method DecodeBoth(t: string, zeroAlloc: bool) returns (library: Option<seq<byte>>, agent: seq<byte>)
    ensures agent == Decode(t)
    ensures library == Some(agent) <==> |Codes(t)| != 1 || zeroAlloc
    ensures |Codes(t)| == 1 ==> agent == []
  {
    hide Codes, Unpack, Decode;
    library := LibraryDecode(t, zeroAlloc);
    var out := new byte[|t|](_ => 0);
    DecodedSize(t);
    var n := AgentDecode(t, out, |t|);
    agent := out[..n];
  }

  lemma DecodedSize(t: string)
    ensures |Decode(t)| <= |t| && (|Codes(t)| == 1 ==> Decode(t) == [])
  {
    hide Codes, Unpack;
    UnpackSize(Codes(t));
  }

  /** They do disagree, on the text "A". */
  lemma LoneCharacter()
    ensures LibraryResult("A", false) == None && Decode("A") == []
  {
    assert "A"[1..] == "";
    assert Codes("A") == [Code('A')];
    DecodedSize("A");
  }

  /** Encoded text never comes down to that, so the library decodes it in any case. */
  lemma LibraryRoundTrip(d: seq<byte>, zeroAlloc: bool)
    ensures LibraryResult(Encode(d), zeroAlloc) == Some(d)
  {
    hide Codes, Unpack, Encode;
    DecodeEncode(d);
    UnpackSize(Codes(Encode(d)));
    NoBytes();
    NoCodes();
  }
}
