/**
  What the strings of a document mean: public/json/json_reader.cpp against the UTF-8 of section 3
  of RFC 3629 and the escapes of section 7 of RFC 8259. A text is a sequence of bytes, each held
  in one character.
 */
module JsonUnicode {
  import opened Common
  import opened JsonValue
  import opened JsonGrammar

  // ---------------------------------------------------------------- UTF-8

  const LAST_CODE_POINT: nat := 0x10FFFF

  datatype Rune = Rune(cp: nat, size: nat)

  predicate Continues(s: string, i: nat) {
    i < |s| && 0x80 <= s[i] as int < 0xC0
  }

  /** The six bits of a continuation byte. */
  function Tail(s: string, i: nat): (n: nat)
    requires Continues(s, i)
    ensures n < 64
  {
    s[i] as int - 0x80
  }

  /** The character at the front of a text: its shortest form only, and no further than the last code point. */
  function FirstRune(s: string): (r: Option<Rune>)
    ensures r.Some? ==> 0 < r.value.size <= |s|
  {
    if s == [] then None
    else
      var lead := s[0] as int;
      if lead < 0x80 then Some(Rune(lead, 1))
      else if 0xC0 <= lead < 0xE0 && Continues(s, 1) then
        Shortest((lead - 0xC0) * 64 + Tail(s, 1), 2, 0x80)
      else if 0xE0 <= lead < 0xF0 && Continues(s, 1) && Continues(s, 2) then
        Shortest(((lead - 0xE0) * 64 + Tail(s, 1)) * 64 + Tail(s, 2), 3, 0x800)
      else if 0xF0 <= lead < 0xF8 && Continues(s, 1) && Continues(s, 2) && Continues(s, 3) then
        Shortest((((lead - 0xF0) * 64 + Tail(s, 1)) * 64 + Tail(s, 2)) * 64 + Tail(s, 3), 4, 0x10000)
      else None
  }

  function Shortest(cp: nat, size: nat, least: nat): (r: Option<Rune>) {
    if least <= cp <= LAST_CODE_POINT then Some(Rune(cp, size)) else None
  }

  /** All the characters of a text. */
  function Runes(s: string): (r: Option<seq<nat>>) {
    if s == [] then Some([])
    else
      var first := FirstRune(s);
      if first.None? then None
      else
        var rest := Runes(s[first.value.size..]);
        if rest.None? then None else Some([first.value.cp] + rest.value)
  }

  /** What the parser writes for a code point is that code point's UTF-8, in one to four bytes. */
  lemma Utf8Reads(cp: nat, rest: string)
    requires cp <= LAST_CODE_POINT
    ensures FirstRune(Utf8(cp) + rest) == Some(Rune(cp, |Utf8(cp)|))
    ensures |Utf8(cp)| == if cp < 0x80 then 1 else if cp < 0x800 then 2 else if cp < 0x10000 then 3 else 4
  {
    var s := Utf8(cp) + rest;
    assert forall i :: 0 <= i < |Utf8(cp)| ==> s[i] == Utf8(cp)[i];
    Base64Digits(cp);
  }

  lemma Base64Digits(cp: nat)
    ensures cp == cp / 64 * 64 + cp % 64
    ensures cp / 64 == cp / 4096 * 64 + cp / 64 % 64
    ensures cp / 4096 == cp / 262144 * 64 + cp / 4096 % 64
  {
    assert cp / 64 / 64 == cp / 4096 && cp / 4096 / 64 == cp / 262144;
  }

  lemma SixBits(a: nat, b: nat)
    requires b < 64
    ensures (a * 64 + b) / 64 == a && (a * 64 + b) % 64 == b
  {
  }

  lemma OneByte(a: nat)
    requires a < 0x80
    ensures Utf8(a) == [Byte(a)]
  {
  }

  lemma TwoBytes(a: nat, b: nat)
    requires a < 32 && b < 64 && 0x80 <= a * 64 + b
    ensures Utf8(a * 64 + b) == [Byte(0xC0 + a), Byte(0x80 + b)]
  {
    SixBits(a, b);
  }

  lemma ThreeBytes(a: nat, b: nat, c: nat)
    requires a < 16 && b < 64 && c < 64 && 0x800 <= (a * 64 + b) * 64 + c
    ensures Utf8((a * 64 + b) * 64 + c) == [Byte(0xE0 + a), Byte(0x80 + b), Byte(0x80 + c)]
  {
    SixBits(a, b);
    SixBits(a * 64 + b, c);
    Base64Digits((a * 64 + b) * 64 + c);
  }

  lemma FourBytes(a: nat, b: nat, c: nat, d: nat)
    requires a < 8 && b < 64 && c < 64 && d < 64 && 0x10000 <= ((a * 64 + b) * 64 + c) * 64 + d <= LAST_CODE_POINT
    ensures Utf8(((a * 64 + b) * 64 + c) * 64 + d)
         == [Byte(0xF0 + a), Byte(0x80 + b), Byte(0x80 + c), Byte(0x80 + d)]
  {
    SixBits(a, b);
    SixBits(a * 64 + b, c);
    SixBits((a * 64 + b) * 64 + c, d);
    Base64Digits(((a * 64 + b) * 64 + c) * 64 + d);
  }

  /** Nothing else is read as that code point. */
  lemma Utf8Only(s: string)
    ensures FirstRune(s).Some? ==> s[..FirstRune(s).value.size] == Utf8(FirstRune(s).value.cp)
  {
    hide Utf8;
    if FirstRune(s).Some? {
      var Rune(cp, size) := FirstRune(s).value;
      if size == 1 {
        OneByte(cp);
      } else if size == 2 {
        TwoBytes(s[0] as int - 0xC0, Tail(s, 1));
      } else if size == 3 {
        ThreeBytes(s[0] as int - 0xE0, Tail(s, 1), Tail(s, 2));
      } else if size == 4 {
        FourBytes(s[0] as int - 0xF0, Tail(s, 1), Tail(s, 2), Tail(s, 3));
      }
    }
  }

  /** Above the last code point nothing is written. */
  lemma NothingAbove(cp: nat)
    ensures Utf8(cp) == [] <==> cp > LAST_CODE_POINT
  {
  }

  // ---------------------------------------------------------------- how a character may be written

  /** The digit `d`, in either case. */
  predicate IsHex(c: char, d: nat) {
    d < 16 && (c == "0123456789abcdef"[d] || c == "0123456789ABCDEF"[d])
  }

  /** Four hexadecimal digits of the number `n`. */
  predicate Quad(q: string, n: nat) {
    && |q| == 4 && n < 0x10000
    && IsHex(q[0], n / 4096) && IsHex(q[1], n / 256 % 16) && IsHex(q[2], n / 16 % 16) && IsHex(q[3], n % 16)
  }

  predicate HighSurrogate(n: nat) {
    0xD800 <= n <= 0xDBFF
  }

  const SHORT_ESCAPES: seq<(char, nat)> :=
    [('"', 0x22), ('\\', 0x5C), ('/', 0x2F), ('b', 0x08), ('f', 0x0C), ('n', 0x0A), ('r', 0x0D), ('t', 0x09)]

  predicate WritesPlain(e: string, cp: nat) {
    FirstRune(e) == Some(Rune(cp, |e|)) && e != "\"" && e != "\\"
  }

  predicate WritesShort(e: string, cp: nat) {
    |e| == 2 && e[0] == '\\' && (e[1], cp) in SHORT_ESCAPES
  }

  predicate WritesQuad(e: string, cp: nat) {
    |e| == 6 && e[0] == '\\' && e[1] == 'u' && Quad(e[2..], cp)
  }

  /** Two escapes: the lower ten bits of the second complete the first, whatever its upper six. */
  ghost predicate WritesPair(e: string, cp: nat) {
    exists high: nat, low: nat ::
      && |e| == 12 && WritesQuad(e[..6], high) && WritesQuad(e[6..], low)
      && HighSurrogate(high) && cp == 0x10000 + (high - 0xD800) * 0x400 + low % 0x400
  }

  /** The escapes of a code point: one letter, four digits, or two surrogates. */
  ghost predicate Escapes(e: string, cp: nat) {
    WritesShort(e, cp) || (WritesQuad(e, cp) && !HighSurrogate(cp)) || WritesPair(e, cp)
  }

  /** The ways to write one code point between the quotes. */
  ghost predicate Writes(e: string, cp: nat) {
    WritesPlain(e, cp) || Escapes(e, cp)
  }

  /** Every code point but a lone high surrogate can be written as one escape or as its two surrogates. */
  lemma CanBeWritten(cp: nat, e: string)
    ensures WritesQuad(e, cp) && !HighSurrogate(cp) ==> Writes(e, cp)
    ensures 0x10000 <= cp <= LAST_CODE_POINT && |e| == 12
            && WritesQuad(e[..6], 0xD800 + (cp - 0x10000) / 0x400) && WritesQuad(e[6..], 0xDC00 + cp % 0x400)
            ==> Writes(e, cp)
  {
    hide WritesQuad, WritesPlain, WritesShort;
    if 0x10000 <= cp <= LAST_CODE_POINT && |e| == 12
       && WritesQuad(e[..6], 0xD800 + (cp - 0x10000) / 0x400) && WritesQuad(e[6..], 0xDC00 + cp % 0x400) {
      Surrogates(cp);
      assert WritesPair(e, cp);
    }
  }

  lemma Surrogates(cp: nat)
    requires 0x10000 <= cp <= LAST_CODE_POINT
    ensures var high, low := 0xD800 + (cp - 0x10000) / 0x400, 0xDC00 + cp % 0x400;
            HighSurrogate(high) && cp == 0x10000 + (high - 0xD800) * 0x400 + low % 0x400
  {
    assert (cp - 0x10000) % 0x400 == cp % 0x400;
  }

  // ---------------------------------------------------------------- reading one character

  /** `e` stands in the document at `p`. */
  predicate Stands(doc: string, p: nat, e: string) {
    p + |e| <= |doc| && forall i :: 0 <= i < |e| ==> doc[p + i] == e[i]
  }

  lemma StandsParts(doc: string, p: nat, e: string, k: nat)
    requires Stands(doc, p, e) && k <= |e|
    ensures Stands(doc, p, e[..k]) && Stands(doc, p + k, e[k..])
  {
  }

  lemma HexValue(c: char, d: nat)
    requires IsHex(c, d)
    ensures Hex(c) == d && c != '"' && c != '\\'
  {
  }

  lemma HexDigitsStep(doc: string, start: nat, k: nat, acc: nat, d: nat)
    requires k < 4 && start + 4 <= |doc| && IsHex(doc[start + k], d)
    requires acc < (if k == 0 then 1 else if k == 1 then 16 else if k == 2 then 256 else 4096)
    ensures HexDigits(doc, start, start + k, acc) == HexDigits(doc, start, start + k + 1, acc * 16 + d)
  {
    HexValue(doc[start + k], d);
  }

  lemma HexDigitsEnd(doc: string, start: nat, acc: nat)
    requires start + 4 <= |doc| && acc < 0x10000
    ensures HexDigits(doc, start, start + 4, acc) == Good(acc, start + 4)
  {
  }

  lemma SixteenDigits(n: nat)
    ensures n / 4096 * 16 + n / 256 % 16 == n / 256
    ensures n / 256 * 16 + n / 16 % 16 == n / 16
    ensures n / 16 * 16 + n % 16 == n
  {
    assert n / 256 / 16 == n / 4096 && n / 16 / 16 == n / 256;
  }

  lemma QuadReads(doc: string, p: nat, end: nat, q: string, n: nat)
    requires Stands(doc, p, q) && Quad(q, n) && p + 4 <= end <= |doc|
    ensures HexQuad(doc, p, end) == Good(n, p + 4)
  {
    hide HexDigits, IsHex;
    SixteenDigits(n);
    HexDigitsStep(doc, p, 0, 0, n / 4096);
    HexDigitsStep(doc, p, 1, n / 4096, n / 256 % 16);
    HexDigitsStep(doc, p, 2, n / 256, n / 16 % 16);
    HexDigitsStep(doc, p, 3, n / 16, n % 16);
    HexDigitsEnd(doc, p, n);
  }

  predicate Ordinary(s: string) {
    forall i :: 0 <= i < |s| ==> s[i] != '"' && s[i] != '\\'
  }

  /** Characters without a special meaning are taken over. */
  lemma {:induction false} PassOver(doc: string, p: nat, end: nat, s: string, acc: string)
    requires Stands(doc, p, s) && p + |s| <= end <= |doc| && Ordinary(s)
    ensures DecodeChars(doc, p, end, acc) == DecodeChars(doc, p + |s|, end, acc + s)
    ensures ScanString(doc, p) == ScanString(doc, p + |s|)
    decreases |s|
  {
    hide DecodeChars, ScanString;
    if s == [] {
      assert acc + s == acc;
    } else {
      assert doc[p] == s[0];
      PassOne(doc, p, end, acc);
      PassOver(doc, p + 1, end, s[1..], acc + [s[0]]);
      assert acc + [s[0]] + s[1..] == acc + s;
    }
  }

  lemma PassOne(doc: string, p: nat, end: nat, acc: string)
    requires p < end <= |doc| && doc[p] != '"' && doc[p] != '\\'
    ensures DecodeChars(doc, p, end, acc) == DecodeChars(doc, p + 1, end, acc + [doc[p]])
    ensures ScanString(doc, p) == ScanString(doc, p + 1)
  {
  }

  /** What reading a part of a string does: the decoder appends its text, the scanner passes it. */
  ghost predicate Reads(doc: string, p: nat, end: nat, e: string, t: string, acc: string)
    requires p + |e| <= end <= |doc|
  {
    && DecodeChars(doc, p, end, acc) == DecodeChars(doc, p + |e|, end, acc + t)
    && ScanString(doc, p) == ScanString(doc, p + |e|)
  }

  lemma ShortReads(doc: string, p: nat, end: nat, e: string, cp: nat, acc: string)
    requires Stands(doc, p, e) && p + |e| <= end <= |doc| && WritesShort(e, cp)
    ensures Reads(doc, p, end, e, Utf8(cp), acc)
  {
    hide Utf8;
    assert e[1] != 'u' && cp < 0x80 && SimpleEscape(e[1]) == Some(cp as char);
    OneByte(cp);
    assert doc[p] == e[0] && doc[p + 1] == e[1];
  }

  /** The scanner passes six characters of an escape. */
  lemma ScanQuad(doc: string, p: nat, e: string, n: nat)
    requires Stands(doc, p, e) && WritesQuad(e, n)
    ensures ScanString(doc, p) == ScanString(doc, p + 6)
  {
    hide DecodeChars, IsHex;
    var q := e[2..];
    HexValue(q[0], n / 4096);
    HexValue(q[1], n / 256 % 16);
    HexValue(q[2], n / 16 % 16);
    HexValue(q[3], n % 16);
    StandsParts(doc, p, e, 2);
    PassOver(doc, p + 2, |doc|, q, "");
    assert doc[p] == e[0];
  }

  /** The decoder at an escape that gives a code point. */
  lemma DecodeCodePoint(doc: string, p: nat, end: nat, acc: string)
    requires p + 2 <= end <= |doc| && doc[p] == '\\' && doc[p + 1] == 'u'
    ensures var u := CodePoint(doc, p + 2, end);
            DecodeChars(doc, p, end, acc) ==
            if u.Good? then DecodeChars(doc, u.next, end, acc + Utf8(u.cp)) else Failed(u.kind, u.extra)
  {
    hide CodePoint, Utf8;
  }

  lemma QuadDecodes(doc: string, p: nat, end: nat, e: string, cp: nat, acc: string)
    requires Stands(doc, p, e) && p + |e| <= end <= |doc| && WritesQuad(e, cp) && !HighSurrogate(cp)
    ensures Reads(doc, p, end, e, Utf8(cp), acc)
  {
    hide DecodeChars, ScanString, HexQuad, Quad, Utf8;
    StandsParts(doc, p, e, 2);
    QuadReads(doc, p + 2, end, e[2..], cp);
    assert doc[p] == e[0] && doc[p + 1] == e[1];
    DecodeCodePoint(doc, p, end, acc);
    ScanQuad(doc, p, e, cp);
  }

  lemma PairDecodes(doc: string, p: nat, end: nat, e: string, cp: nat, acc: string)
    requires Stands(doc, p, e) && p + |e| <= end <= |doc| && WritesPair(e, cp)
    ensures Reads(doc, p, end, e, Utf8(cp), acc)
  {
    hide DecodeChars, ScanString, HexQuad, Quad, Utf8;
    var high: nat, low: nat :| |e| == 12 && WritesQuad(e[..6], high) && WritesQuad(e[6..], low)
      && HighSurrogate(high) && cp == 0x10000 + (high - 0xD800) * 0x400 + low % 0x400;
    var a, b := e[..6], e[6..];
    StandsParts(doc, p, e, 6);
    StandsParts(doc, p, a, 2);
    StandsParts(doc, p + 6, b, 2);
    QuadReads(doc, p + 2, end, a[2..], high);
    QuadReads(doc, p + 8, end, b[2..], low);
    assert doc[p] == a[0] && doc[p + 1] == a[1] && doc[p + 6] == b[0] && doc[p + 7] == b[1];
    assert high % 0x400 == high - 0xD800;
    assert CodePoint(doc, p + 2, end) == Good(cp, p + 12);
    DecodeCodePoint(doc, p, end, acc);
    ScanQuad(doc, p, a, high);
    ScanQuad(doc, p + 6, b, low);
  }

  /** A part of a string and the bytes it stands for: ordinary bytes themselves, or one escape. */
  ghost predicate Spells(e: string, t: string) {
    (Ordinary(e) && t == e) || exists cp: nat :: Escapes(e, cp) && t == Utf8(cp)
  }

  lemma SpelledReads(doc: string, p: nat, end: nat, e: string, t: string, acc: string)
    requires Stands(doc, p, e) && p + |e| <= end <= |doc| && Spells(e, t)
    ensures Reads(doc, p, end, e, t, acc)
  {
    hide Reads, Ordinary, WritesShort, WritesQuad, WritesPair, HighSurrogate, Stands, Utf8;
    if Ordinary(e) && t == e {
      PlainReads(doc, p, end, e, acc);
    } else {
      var cp: nat :| Escapes(e, cp) && t == Utf8(cp);
      if WritesShort(e, cp) {
        ShortReads(doc, p, end, e, cp, acc);
      } else if WritesPair(e, cp) {
        PairDecodes(doc, p, end, e, cp, acc);
      } else {
        QuadDecodes(doc, p, end, e, cp, acc);
      }
    }
  }

  lemma PlainReads(doc: string, p: nat, end: nat, e: string, acc: string)
    requires Stands(doc, p, e) && p + |e| <= end <= |doc| && Ordinary(e)
    ensures Reads(doc, p, end, e, e, acc)
  {
    hide DecodeChars, ScanString;
    PassOver(doc, p, end, e, acc);
  }

  // ---------------------------------------------------------------- what is accepted

  ghost predicate AllSpelled(parts: seq<string>, texts: seq<string>) {
    |parts| == |texts| && forall i :: 0 <= i < |texts| ==> Spells(parts[i], texts[i])
  }

  /** Decoder and scanner over all the parts up to the closing quote. */
  lemma {:induction false} TextReads(doc: string, p: nat, end: nat, parts: seq<string>, texts: seq<string>, acc: string)
    requires AllSpelled(parts, texts) && Stands(doc, p, Concat(parts)) && p + |Concat(parts)| == end
    requires end < |doc| && doc[end] == '"'
    ensures DecodeChars(doc, p, end, acc) == Text(acc + Concat(texts))
    ensures ScanString(doc, p) == Scan(true, end + 1)
    decreases |parts|
  {
    hide AllSpelled, Stands, DecodeChars, ScanString, Concat;
    if parts == [] {
      NoText(doc, end, acc, parts, texts);
    } else {
      TextHead(doc, p, end, parts, texts, acc);
      TextReads(doc, p + |parts[0]|, end, parts[1..], texts[1..], acc + texts[0]);
      ConcatHead(texts, acc);
    }
  }

  lemma NoText(doc: string, p: nat, acc: string, parts: seq<string>, texts: seq<string>)
    requires p < |doc| && doc[p] == '"' && parts == [] && AllSpelled(parts, texts)
    ensures Concat(parts) == [] && acc + Concat(texts) == acc
    ensures DecodeChars(doc, p, p, acc) == Text(acc) && ScanString(doc, p) == Scan(true, p + 1)
  {
  }

  lemma ConcatHead(texts: seq<string>, acc: string)
    requires texts != []
    ensures acc + texts[0] + Concat(texts[1..]) == acc + Concat(texts)
  {
  }

  /** The first of the parts is read and the others stand behind it. */
  lemma TextHead(doc: string, p: nat, end: nat, parts: seq<string>, texts: seq<string>, acc: string)
    requires parts != [] && AllSpelled(parts, texts) && Stands(doc, p, Concat(parts))
    requires p + |Concat(parts)| == end <= |doc|
    ensures texts != [] && AllSpelled(parts[1..], texts[1..])
    ensures p + |parts[0]| + |Concat(parts[1..])| == end && Stands(doc, p + |parts[0]|, Concat(parts[1..]))
    ensures Reads(doc, p, end, parts[0], texts[0], acc)
  {
    hide Spells, Reads, Stands;
    var e, rest := parts[0], Concat(parts[1..]);
    assert Concat(parts) == e + rest;
    StandsParts(doc, p, e + rest, |e|);
    assert (e + rest)[..|e|] == e && (e + rest)[|e|..] == rest;
    SpelledReads(doc, p, end, e, texts[0], acc);
  }

  /** The digits found at an accepted escape. */
  lemma QuadFound(doc: string, p: nat, end: nat)
    requires p + 2 <= end <= |doc| && doc[p] == '\\' && doc[p + 1] == 'u' && HexQuad(doc, p + 2, end).Good?
    ensures p + 6 <= end && WritesQuad(doc[p..p + 6], HexQuad(doc, p + 2, end).cp)
  {
    hide HexDigits, Quad;
    DigitsFound(doc, p + 2);
    assert doc[p..p + 6][2..] == [doc[p + 2], doc[p + 3], doc[p + 4], doc[p + 5]];
  }

  lemma DigitsFound(doc: string, q: nat)
    requires q + 4 <= |doc| && HexDigits(doc, q, q, 0).Good?
    ensures Quad([doc[q], doc[q + 1], doc[q + 2], doc[q + 3]], HexDigits(doc, q, q, 0).cp)
  {
    hide HexDigits, IsHex, Hex, Quad;
    FirstTwoFound(doc, q);
    var a, b := Hex(doc[q]), Hex(doc[q + 1]);
    LastTwoFound(doc, q, a * 16 + b);
    QuadOf([doc[q], doc[q + 1], doc[q + 2], doc[q + 3]], a, b, Hex(doc[q + 2]), Hex(doc[q + 3]));
  }

  predicate HexChar(c: char) {
    0 <= Hex(c) < 16 && IsHex(c, Hex(c))
  }

  lemma FirstTwoFound(doc: string, q: nat)
    requires q + 4 <= |doc| && HexDigits(doc, q, q, 0).Good?
    ensures HexChar(doc[q]) && HexChar(doc[q + 1])
    ensures HexDigits(doc, q, q, 0) == HexDigits(doc, q, q + 2, Hex(doc[q]) * 16 + Hex(doc[q + 1]))
  {
    hide HexDigits, IsHex, Hex;
    HexUnfold(doc, q, 0, 0);
    HexUnfold(doc, q, 1, Hex(doc[q]));
  }

  lemma LastTwoFound(doc: string, q: nat, acc: nat)
    requires q + 4 <= |doc| && acc < 256 && HexDigits(doc, q, q + 2, acc).Good?
    ensures HexChar(doc[q + 2]) && HexChar(doc[q + 3])
    ensures HexDigits(doc, q, q + 2, acc) == Good((acc * 16 + Hex(doc[q + 2])) * 16 + Hex(doc[q + 3]), q + 4)
  {
    hide HexDigits, IsHex, Hex;
    HexUnfold(doc, q, 2, acc);
    HexUnfold(doc, q, 3, acc * 16 + Hex(doc[q + 2]));
    HexDigitsEnd(doc, q, (acc * 16 + Hex(doc[q + 2])) * 16 + Hex(doc[q + 3]));
  }

  /** A digit is taken, or refused. */
  lemma HexUnfold(doc: string, start: nat, k: nat, acc: nat)
    requires k < 4 && start + 4 <= |doc|
    requires acc < (if k == 0 then 1 else if k == 1 then 16 else if k == 2 then 256 else 4096)
    ensures HexDigits(doc, start, start + k, acc).Good? ==>
              && HexChar(doc[start + k])
              && HexDigits(doc, start, start + k, acc)
                 == HexDigits(doc, start, start + k + 1, acc * 16 + Hex(doc[start + k]))
  {
  }

  lemma QuadOf(s: string, a: nat, b: nat, c: nat, d: nat)
    requires |s| == 4 && IsHex(s[0], a) && IsHex(s[1], b) && IsHex(s[2], c) && IsHex(s[3], d)
    ensures Quad(s, ((a * 16 + b) * 16 + c) * 16 + d)
  {
    hide IsHex;
    HexBelow(s[0], a);
    HexBelow(s[1], b);
    HexBelow(s[2], c);
    HexBelow(s[3], d);
    SixteenDigits(((a * 16 + b) * 16 + c) * 16 + d);
  }

  lemma HexBelow(c: char, d: nat)
    requires IsHex(c, d)
    ensures d < 16
  {
  }

  /** What an accepted code point was written as. */
  lemma EscapeFound(doc: string, p: nat, end: nat)
    requires p + 2 <= end <= |doc| && doc[p] == '\\' && doc[p + 1] == 'u' && CodePoint(doc, p + 2, end).Good?
    ensures var u := CodePoint(doc, p + 2, end); p < u.next <= end && Escapes(doc[p..u.next], u.cp)
  {
    hide HexQuad, WritesQuad;
    QuadFound(doc, p, end);
    var u := HexQuad(doc, p + 2, end);
    if HighSurrogate(u.cp) {
      QuadFound(doc, p + 6, end);
      var e := doc[p..p + 12];
      assert e[..6] == doc[p..p + 6] && e[6..] == doc[p + 6..p + 12];
      assert WritesPair(e, CodePoint(doc, p + 2, end).cp);
    }
  }

  lemma ShortFound(c: char)
    requires SimpleEscape(c).Some?
    ensures var cp := SimpleEscape(c).value as int; WritesShort(['\\', c], cp) && Utf8(cp) == [SimpleEscape(c).value]
  {
    var e := SimpleEscape(c).value as int;
    var k := if c == '"' then 0 else if c == '\\' then 1 else if c == '/' then 2 else if c == 'b' then 3
             else if c == 'f' then 4 else if c == 'n' then 5 else if c == 'r' then 6 else 7;
    assert SHORT_ESCAPES[k] == (c, e);
  }

  /** The first part of a string that is accepted: what it spells, and what is left. */
  lemma FirstPart(doc: string, p: nat, end: nat, acc: string) returns (e: string, t: string)
    requires p < end <= |doc| && doc[p] != '"' && DecodeChars(doc, p, end, acc).Text?
    ensures 0 < |e| <= end - p && doc[p..p + |e|] == e && Spells(e, t)
  {
    hide Utf8, CodePoint;
    if doc[p] != '\\' {
      e, t := [doc[p]], [doc[p]];
      assert Ordinary(e);
    } else if doc[p + 1] == 'u' {
      DecodeCodePoint(doc, p, end, acc);
      EscapeFound(doc, p, end);
      var u := CodePoint(doc, p + 2, end);
      e, t := doc[p..u.next], Utf8(u.cp);
    } else {
      ShortFound(doc[p + 1]);
      e := ['\\', doc[p + 1]];
      t := Utf8(SimpleEscape(doc[p + 1]).value as int);
      assert Escapes(e, SimpleEscape(doc[p + 1]).value as int);
    }
  }

  lemma StandsSlice(doc: string, p: nat, e: string)
    requires p + |e| <= |doc| && doc[p..p + |e|] == e
    ensures Stands(doc, p, e)
  {
    forall i | 0 <= i < |e| ensures doc[p + i] == e[i] {
      assert doc[p..p + |e|][i] == doc[p + i];
    }
  }

  /** A string that is accepted is made of such parts. */
  lemma {:induction false} PartsFound(doc: string, p: nat, end: nat, acc: string)
    returns (parts: seq<string>, texts: seq<string>)
    requires p <= end < |doc| && ScanString(doc, p) == Scan(true, end + 1) && DecodeChars(doc, p, end, acc).Text?
    ensures AllSpelled(parts, texts) && Concat(parts) == doc[p..end]
    decreases end - p
  {
    hide Spells, DecodeChars, ScanString;
    if p == end {
      parts, texts := [], [];
    } else {
      assert doc[p] != '"' by {
        ScanAtQuote(doc, p);
      }
      var e, t := FirstPart(doc, p, end, acc);
      StandsSlice(doc, p, e);
      SpelledReads(doc, p, end, e, t, acc);
      var parts', texts' := PartsFound(doc, p + |e|, end, acc + t);
      parts, texts := [e] + parts', [t] + texts';
      SliceJoin(doc, p, p + |e|, end);
    }
  }

  lemma ScanAtQuote(doc: string, p: nat)
    requires p < |doc|
    ensures doc[p] == '"' ==> ScanString(doc, p) == Scan(true, p + 1)
  {
  }

  /**
    Exactly which strings the parser accepts, and as what: up to the first closing quote the
    string is a sequence of ordinary bytes and of escapes, and its text is what they stand for.
   */
  lemma StringsExactly(doc: string, p: nat, end: nat, t: string)
    requires p <= end < |doc| && doc[end] == '"'
    ensures ScanString(doc, p) == Scan(true, end + 1) && DecodeChars(doc, p, end, "") == Text(t) <==>
            exists parts, texts :: AllSpelled(parts, texts) && Concat(parts) == doc[p..end] && Concat(texts) == t
  {
    hide AllSpelled, DecodeChars, ScanString, Concat;
    if ScanString(doc, p) == Scan(true, end + 1) && DecodeChars(doc, p, end, "").Text? {
      var parts, texts := PartsFound(doc, p, end, "");
      SpelledText(doc, p, end, parts, texts);
    }
    forall parts, texts | AllSpelled(parts, texts) && Concat(parts) == doc[p..end]
      ensures ScanString(doc, p) == Scan(true, end + 1) && DecodeChars(doc, p, end, "") == Text(Concat(texts))
    {
      SpelledText(doc, p, end, parts, texts);
    }
  }

  lemma SpelledText(doc: string, p: nat, end: nat, parts: seq<string>, texts: seq<string>)
    requires p <= end < |doc| && doc[end] == '"' && AllSpelled(parts, texts) && Concat(parts) == doc[p..end]
    ensures ScanString(doc, p) == Scan(true, end + 1) && DecodeChars(doc, p, end, "") == Text(Concat(texts))
  {
    hide AllSpelled, DecodeChars, ScanString, Concat;
    StandsSlice(doc, p, Concat(parts));
    TextReads(doc, p, end, parts, texts, "");
    assert "" + Concat(texts) == Concat(texts);
  }

  // ---------------------------------------------------------------- whole documents

  ghost predicate AllWritten(parts: seq<string>, cps: seq<nat>) {
    |parts| == |cps| && forall i :: 0 <= i < |cps| ==> Writes(parts[i], cps[i])
  }

  lemma WrittenSpells(e: string, cp: nat)
    requires Writes(e, cp)
    ensures cp <= LAST_CODE_POINT && Spells(e, Utf8(cp))
  {
    hide Utf8, Quad;
    if WritesPlain(e, cp) {
      Utf8Only(e);
      assert e[..|e|] == e;
      if |e| == 1 {
        assert e == [e[0]];
      }
      assert Ordinary(e);
    } else if WritesPair(e, cp) {
      var high: nat, low: nat :| HighSurrogate(high) && cp == 0x10000 + (high - 0xD800) * 0x400 + low % 0x400;
    } else if WritesQuad(e, cp) {
      QuadInRange(e[2..], cp);
    }
  }

  lemma QuadInRange(q: string, n: nat)
    requires Quad(q, n)
    ensures n < 0x10000
  {
  }

  function Texts(cps: seq<nat>): (texts: seq<string>)
    ensures |texts| == |cps| && forall i :: 0 <= i < |cps| ==> texts[i] == Utf8(cps[i])
  {
    seq(|cps|, i requires 0 <= i < |cps| => Utf8(cps[i]))
  }

  lemma {:induction false} TextsRead(cps: seq<nat>)
    requires forall i :: 0 <= i < |cps| ==> cps[i] <= LAST_CODE_POINT
    ensures Runes(Concat(Texts(cps))) == Some(cps)
    decreases |cps|
  {
    hide Utf8, FirstRune;
    if cps != [] {
      var rest := Concat(Texts(cps[1..]));
      assert Texts(cps)[1..] == Texts(cps[1..]);
      assert Concat(Texts(cps)) == Utf8(cps[0]) + rest;
      TextsRead(cps[1..]);
      Utf8Reads(cps[0], rest);
      assert (Utf8(cps[0]) + rest)[|Utf8(cps[0])|..] == rest;
      assert [cps[0]] + cps[1..] == cps;
    }
  }

  /** A document with one string in it. */
  function Document(parts: seq<string>): (doc: string) {
    "[\"" + Concat(parts) + "\"]"
  }

  /** The parser on such a document. */
  lemma DocumentParses(cfg: Config, doc: string, t: string, root: Value)
    requires |doc| >= 4 && doc[0] == '[' && doc[1] == '"' && doc[|doc| - 1] == ']'
    requires ScanString(doc, 2) == Scan(true, |doc| - 1) && DecodeChars(doc, 2, |doc| - 2, "") == Text(t)
    ensures Parse(cfg, doc, root) == Outcome(true, |doc|, [], Array([Elem(0, Str(t))]))
  {
    hide ScanString, DecodeChars, ReadToken, TokenOf, ReadValue, ReadArray, Recover;
    DocumentTokens(doc);
    StringRead(cfg, doc, t);
    ArrayRead(cfg, doc, t);
    EndRead(cfg, doc, t, root);
  }

  /** The four tokens of such a document. */
  lemma DocumentTokens(doc: string)
    requires |doc| >= 4 && doc[0] == '[' && doc[1] == '"' && doc[|doc| - 1] == ']'
    requires ScanString(doc, 2) == Scan(true, |doc| - 1)
    ensures ReadToken(doc, 0) == Token(ArrayBegin, 0, 1) && SkipSpaces(doc, 1) == 1
    ensures ReadToken(doc, 1) == Token(StringToken, 1, |doc| - 1)
    ensures ReadToken(doc, |doc| - 1) == Token(ArrayEnd, |doc| - 1, |doc|)
    ensures ReadToken(doc, |doc|) == Token(EndOfStream, |doc|, |doc|)
  {
    hide ScanString, ScanNumber, ScanComment, Keyword;
  }

  lemma StringRead(cfg: Config, doc: string, t: string)
    requires |doc| >= 4 && ReadToken(doc, 1) == Token(StringToken, 1, |doc| - 1)
    requires DecodeChars(doc, 2, |doc| - 2, "") == Text(t)
    ensures ReadValue(cfg, doc, 1, [], Null) == Outcome(true, |doc| - 1, [], Str(t))
  {
    hide DecodeChars, ReadToken, TokenOf, ReadObject, ReadArray;
  }

  lemma ArrayRead(cfg: Config, doc: string, t: string)
    requires |doc| >= 4 && ReadToken(doc, |doc| - 1) == Token(ArrayEnd, |doc| - 1, |doc|)
    requires ReadValue(cfg, doc, 1, [], Null) == Outcome(true, |doc| - 1, [], Str(t))
    ensures ReadArray(cfg, doc, 1, [], []) == Outcome(true, |doc|, [], Array([Elem(0, Str(t))]))
  {
    hide ReadValue, ReadArray, ReadToken, TokenOf, Recover;
    assert ReadNonComment(doc, |doc| - 1) == Token(ArrayEnd, |doc| - 1, |doc|);
    ArrayStep(cfg, doc, 1, [], []);
    assert [] + [Elem(0, Str(t))] == [Elem(0, Str(t))];
  }

  lemma EndRead(cfg: Config, doc: string, t: string, root: Value)
    requires |doc| >= 4 && doc[1] == '"' && ReadToken(doc, 0) == Token(ArrayBegin, 0, 1) && SkipSpaces(doc, 1) == 1
    requires ReadToken(doc, |doc|) == Token(EndOfStream, |doc|, |doc|)
    requires ReadArray(cfg, doc, 1, [], []) == Outcome(true, |doc|, [], Array([Elem(0, Str(t))]))
    ensures Parse(cfg, doc, root) == Outcome(true, |doc|, [], Array([Elem(0, Str(t))]))
  {
    hide ReadArray, ReadObject, ReadToken, TokenOf;
    assert ReadValue(cfg, doc, 0, [], root) == Outcome(true, |doc|, [], Array([Elem(0, Str(t))]));
    hide ReadValue;
  }

  /**
    However the characters of a string are written (as themselves, as short escapes, as four
    hexadecimal digits in either case, as two surrogates), the document parses and the string it
    holds is the UTF-8 of exactly those characters.
   */
  lemma StringMeans(cfg: Config, parts: seq<string>, cps: seq<nat>, root: Value)
    requires AllWritten(parts, cps)
    ensures var r := Parse(cfg, Document(parts), root);
            && r.ok && r.value.Array? && |r.value.elems| == 1
            && r.value.elems[0].index == 0 && r.value.elems[0].item.Str?
            && Runes(r.value.elems[0].item.s) == Some(cps)
  {
    hide Writes, Spells, Utf8, DecodeChars, ScanString, Parse, Runes, Concat;
    var doc, text, t := Document(parts), Concat(parts), Concat(Texts(cps));
    forall i | 0 <= i < |cps| ensures cps[i] <= LAST_CODE_POINT && Spells(parts[i], Utf8(cps[i])) {
      WrittenSpells(parts[i], cps[i]);
    }
    assert doc[0] == '[' && doc[1] == '"' && doc[|doc| - 2] == '"' && doc[|doc| - 1] == ']';
    assert doc[2..|doc| - 2] == text;
    SpelledText(doc, 2, |doc| - 2, parts, Texts(cps));
    TextsRead(cps);
    DocumentParses(cfg, doc, t, root);
  }
}
