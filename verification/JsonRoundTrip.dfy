/**
  Reading back what was printed. Any layout of a value's tokens is read without error, and gives
  the value in a normal form that says exactly what printing loses.
 */
module JsonRoundTrip {
  import opened Common
  import opened JsonValue
  import opened JsonGrammar
  import opened JsonWriter
  import opened JsonLayout

  // ---------------------------------------------------------------- the normal form

  function NormalInt(i: int, scan: string -> Option<real>): (v: Value)
    requires i <= -2147483640 ==> scan(IntText(i)).Some?
  {
    if i <= -2147483640 then Real(scan(IntText(i)).value) else Int(i)
  }

  function NormalUInt(u: nat, scan: string -> Option<real>): (v: Value)
    requires u >= 4294967290 ==> scan(UIntText(u)).Some?
  {
    if u >= 4294967290 then Real(scan(UIntText(u)).value) else if u <= MAX_INT then Int(u) else UInt(u)
  }

  /**
    What reading gives: gaps of arrays become nulls, strings end at their first NUL, unsigned
    integers that fit become signed, integers beyond the reader's thresholds become real.
   */
  function Normal(v: Value, pr: real -> string, scan: string -> Option<real>): (n: Value)
    requires Wf(v) && Readable(v, pr, scan)
    decreases Weight(v), 0, 0
  {
    match v
    case Null => Null
    case Int(i) => NormalInt(i, scan)
    case UInt(u) => NormalUInt(u, scan)
    case Real(r) => Real(scan(pr(r)).value)
    case Str(s) => Str(CStr(s))
    case Bool(b) => Bool(b)
    case Array(es) => Array(NormalItems(es, ArraySize(v), pr, scan))
    case Object(ms) => Object(NormalMembers(ms, |ms|, pr, scan))
  }

  function NormalItems(es: seq<Elem>, k: nat, pr: real -> string, scan: string -> Option<real>): (r: seq<Elem>)
    requires WfElems(es) && ReadableElems(es, pr, scan)
    ensures |r| == k && forall j :: 0 <= j < k ==> r[j].index == j
    decreases ElemsWeight(es), 1, k
  {
    if k == 0 then []
    else
      ReadableItem(es, k - 1, pr, scan);
      NormalItems(es, k - 1, pr, scan) + [Elem(k - 1, Normal(ItemAt(es, k - 1), pr, scan))]
  }

  function NormalMembers(ms: seq<Member>, k: nat, pr: real -> string, scan: string -> Option<real>): (r: seq<Member>)
    requires WfMembers(ms) && k <= |ms| && ReadableMembers(ms, pr, scan)
    ensures |r| == k && forall j :: 0 <= j < k ==> r[j].name == ms[j].name
    decreases MembersWeight(ms), 1, k
  {
    if k == 0 then []
    else
      MemberFacts(ms, k - 1);
      ReadableMember(ms, k - 1, pr, scan);
      NormalMembers(ms, k - 1, pr, scan) + [Member(ms[k - 1].name, Normal(ms[k - 1].item, pr, scan))]
  }

  // ---------------------------------------------------------------- strings

  /** The three shapes of an escape: the character, a backslash and a letter, or a code. */
  lemma EscapeShape(c: char)
    ensures var e := EscapeChar(c);
            || (e == [c] && c != '\\' && c != '"')
            || (|e| == 2 && e[0] == '\\' && e[1] != 'u' && SimpleEscape(e[1]) == Some(c))
            || (IsControl(c) && e == ['\\', 'u', '0', '0', HexDigit(c as int / 16), HexDigit(c as int % 16)])
  {
  }

  /** A printed string starts with its first character's escape and goes on with the rest. */
  lemma EscapeHead(doc: string, p: nat, s: string)
    requires s != [] && p + |Escape(s)| <= |doc| && doc[p..p + |Escape(s)|] == Escape(s)
    ensures var e := EscapeChar(s[0]);
            && |Escape(s)| == |e| + |Escape(s[1..])|
            && doc[p..p + |e|] == e
            && doc[p + |e|..p + |e| + |Escape(s[1..])|] == Escape(s[1..])
  {
    hide EscapeChar;
    var e, t := EscapeChar(s[0]), Escape(s[1..]);
    assert Escape(s) == e + t;
    SplitSlice(doc, p, e, t);
  }

  lemma SplitSlice(doc: string, p: nat, e: string, t: string)
    requires p + |e| + |t| <= |doc| && doc[p..p + |e| + |t|] == e + t
    ensures doc[p..p + |e|] == e && doc[p + |e|..p + |e| + |t|] == t
  {
    var d := doc[p..p + |e| + |t|];
    assert doc[p..p + |e|] == d[..|e|];
    assert doc[p + |e|..p + |e| + |t|] == d[|e|..];
  }

  lemma HexDigitBack(d: nat)
    requires d < 16
    ensures Hex(HexDigit(d)) == d && HexDigit(d) != '\\' && HexDigit(d) != '"'
  {
  }

  /** Scanning passes over one escape. */
  lemma ScanOver(doc: string, p: nat, c: char)
    requires p + |EscapeChar(c)| < |doc| && doc[p..p + |EscapeChar(c)|] == EscapeChar(c)
    ensures ScanString(doc, p) == ScanString(doc, p + |EscapeChar(c)|)
  {
    var e := EscapeChar(c);
    EscapeShape(c);
    hide EscapeChar;
    var d := doc[p..p + |e|];
    assert forall i :: 0 <= i < |d| ==> d[i] == doc[p + i];
    if |e| == 6 {
      HexDigitBack(c as int / 16);
      HexDigitBack(c as int % 16);
      assert d[0] == '\\' && d[2] == '0' && d[3] == '0';
      assert doc[p + 2] == d[2] && doc[p + 3] == d[3] && doc[p + 4] == d[4] && doc[p + 5] == d[5];
      assert ScanString(doc, p) == ScanString(doc, p + 2);
      assert ScanString(doc, p + 2) == ScanString(doc, p + 3);
      assert ScanString(doc, p + 3) == ScanString(doc, p + 4);
      assert ScanString(doc, p + 4) == ScanString(doc, p + 5);
      assert ScanString(doc, p + 5) == ScanString(doc, p + 6);
    }
  }

  lemma ScanQuote(doc: string, p: nat)
    requires p < |doc| && (doc[p] == '"' || |Escape("")| > 0)
    ensures Escape("") == "" && ScanString(doc, p) == Scan(true, p + 1)
  {
  }

  /** The reader's scan of a printed string ends at its closing quote. */
  lemma {:induction false} ScanEscaped(doc: string, p: nat, s: string)
    requires p + |Escape(s)| < |doc| && doc[p..p + |Escape(s)|] == Escape(s) && doc[p + |Escape(s)|] == '"'
    ensures ScanString(doc, p) == Scan(true, p + |Escape(s)| + 1)
    decreases |s|
  {
    hide Escape, EscapeChar, ScanString;
    if s == [] {
      ScanQuote(doc, p);
    } else {
      EscapeHead(doc, p, s);
      ScanOver(doc, p, s[0]);
      ScanEscaped(doc, p + |EscapeChar(s[0])|, s[1..]);
    }
  }

  /** Decoding one escape gives the character back. */
  lemma DecodeOver(doc: string, p: nat, c: char, end: nat, acc: string)
    requires c != '\0' && p + |EscapeChar(c)| <= end <= |doc| && doc[p..p + |EscapeChar(c)|] == EscapeChar(c)
    ensures DecodeChars(doc, p, end, acc) == DecodeChars(doc, p + |EscapeChar(c)|, end, acc + [c])
  {
    var e := EscapeChar(c);
    EscapeShape(c);
    hide EscapeChar;
    var d := doc[p..p + |e|];
    assert forall i :: 0 <= i < |d| ==> d[i] == doc[p + i];
    if |e| == 6 {
      assert d[0] == '\\' && d[1] == 'u' && d[2] == '0' && d[3] == '0';
      assert doc[p + 2] == d[2] && doc[p + 3] == d[3] && doc[p + 4] == d[4] && doc[p + 5] == d[5];
      HexBack(doc, p + 2, c as int);
      assert doc[p] == '\\' && doc[p + 1] == 'u';
      assert CodePoint(doc, p + 2, end) == Good(c as int, p + 6);
      assert Utf8(c as int) == [c];
    } else if |e| == 2 {
      assert doc[p + 1] == e[1];
    }
  }

  lemma HexBack(doc: string, p: nat, h: int)
    requires 0 <= h < 32 && p + 4 <= |doc|
    requires doc[p] == '0' && doc[p + 1] == '0' && doc[p + 2] == HexDigit(h / 16) && doc[p + 3] == HexDigit(h % 16)
    ensures HexDigits(doc, p, p, 0) == Good(h, p + 4)
  {
    HexDigitBack(h / 16);
    HexDigitBack(h % 16);
    assert HexDigits(doc, p, p + 4, h / 16 * 16 + h % 16) == Good(h, p + 4);
    assert HexDigits(doc, p, p + 3, h / 16) == Good(h, p + 4);
    assert HexDigits(doc, p, p + 2, 0) == Good(h, p + 4);
    assert HexDigits(doc, p, p + 1, 0) == Good(h, p + 4);
  }

  /** Decoding undoes escaping, for every string without NUL. */
  lemma {:induction false} DecodeEscaped(doc: string, p: nat, s: string, acc: string)
    requires p + |Escape(s)| <= |doc| && doc[p..p + |Escape(s)|] == Escape(s) && NulFree(s)
    ensures DecodeChars(doc, p, p + |Escape(s)|, acc) == Text(acc + s)
    decreases |s|
  {
    hide DecodeChars, Escape, EscapeChar;
    if s == [] {
      DecodeNone(doc, p, acc);
      assert acc + s == acc;
    } else {
      DecodeHead(doc, p, s, acc);
      DecodeEscaped(doc, p + |EscapeChar(s[0])|, s[1..], acc + [s[0]]);
      assert acc + [s[0]] + s[1..] == acc + s;
    }
  }

  lemma DecodeNone(doc: string, p: nat, acc: string)
    requires p <= |doc|
    ensures Escape("") == "" && DecodeChars(doc, p, p, acc) == Text(acc)
  {
  }

  lemma DecodeHead(doc: string, p: nat, s: string, acc: string)
    requires s != [] && s[0] != '\0' && p + |Escape(s)| <= |doc| && doc[p..p + |Escape(s)|] == Escape(s)
    ensures var e := |EscapeChar(s[0])|;
            && |Escape(s)| == e + |Escape(s[1..])|
            && doc[p + e..p + e + |Escape(s[1..])|] == Escape(s[1..])
            && DecodeChars(doc, p, p + |Escape(s)|, acc) == DecodeChars(doc, p + e, p + |Escape(s)|, acc + [s[0]])
  {
    hide DecodeChars, EscapeChar, Escape;
    EscapeHead(doc, p, s);
    DecodeOver(doc, p, s[0], p + |Escape(s)|, acc);
  }

  // ---------------------------------------------------------------- numbers

  lemma {:induction false} ScanNumberTo(doc: string, p: nat, e: nat)
    requires p <= e <= |doc| && (forall i :: p <= i < e ==> IsNumberChar(doc[i]))
    requires e == |doc| || !IsNumberChar(doc[e])
    ensures ScanNumber(doc, p) == e
    decreases e - p
  {
    if p < e { ScanNumberTo(doc, p + 1, e); }
  }

  /** Reading the digits of `n` gives `n`, unless all but its last digit reach the threshold. */
  lemma {:induction false} DigitsBack(n: nat, tail: string, threshold: nat)
    requires threshold > 0 && AllDigits(tail)
    ensures AllDigits(UIntText(n) + tail)
    ensures DecodeDigits(UIntText(n) + tail, 0, threshold)
         == if n / 10 >= threshold then None else DecodeDigits(tail, n, threshold)
    decreases n
  {
    if n < 10 {
      assert UIntText(n) + tail == [Digit(n)] + tail;
      assert (UIntText(n) + tail)[1..] == tail;
    } else {
      var last := [Digit(n % 10)] + tail;
      assert UIntText(n) + tail == UIntText(n / 10) + last;
      DigitsBack(n / 10, last, threshold);
      assert last[1..] == tail;
    }
  }

  lemma NotReal(t: string)
    requires forall i :: 0 <= i < |t| ==> IsDigit(t[i]) || (i == 0 && t[i] == '-')
    ensures !LooksReal(t)
  {
  }

  lemma UIntShape(u: nat)
    ensures var t := UIntText(u); IsNumberText(t) && !LooksReal(t) && IsDigit(t[0])
  {
    var t := UIntText(u);
    NotReal(t);
  }

  lemma DigitsValue(u: nat, threshold: nat)
    requires threshold > 0
    ensures AllDigits(UIntText(u))
    ensures DecodeDigits(UIntText(u), 0, threshold) == if u / 10 >= threshold then None else Some(u)
  {
    DigitsBack(u, "", threshold);
    assert UIntText(u) + "" == UIntText(u);
  }

  lemma UIntBack(u: nat, scan: string -> Option<real>)
    requires u >= 4294967290 ==> scan(UIntText(u)).Some?
    ensures IsNumberText(UIntText(u)) && DecodeNumber(UIntText(u), scan) == Some(NormalUInt(u, scan))
  {
    hide UIntText, LooksReal, IsNumberText, DecodeDigits, AllDigits;
    UIntShape(u);
    DigitsValue(u, POSITIVE_THRESHOLD);
    var t := UIntText(u);
    assert DecodeNumber(t, scan) == if u / 10 >= POSITIVE_THRESHOLD then DecodeReal(t, scan)
                                    else if u <= MAX_INT then Some(Int(u)) else Some(UInt(u));
  }

  lemma IntBack(i: int, scan: string -> Option<real>)
    requires MIN_INT <= i <= MAX_INT
    requires i <= -2147483640 ==> scan(IntText(i)).Some?
    ensures IsNumberText(IntText(i)) && DecodeNumber(IntText(i), scan) == Some(NormalInt(i, scan))
  {
    if i >= 0 {
      UIntBack(i, scan);
    } else {
      NegativeBack(i, scan);
    }
  }

  lemma NegativeBack(i: int, scan: string -> Option<real>)
    requires i < 0 && (i <= -2147483640 ==> scan(IntText(i)).Some?)
    ensures IsNumberText(IntText(i)) && DecodeNumber(IntText(i), scan) == Some(NormalInt(i, scan))
  {
    hide UIntText, IntText, LooksReal, IsNumberText, DecodeDigits, AllDigits;
    NegativeShape(i);
    DigitsValue(-i, NEGATIVE_THRESHOLD);
    var t := IntText(i);
    assert DecodeNumber(t, scan) == if -i / 10 >= NEGATIVE_THRESHOLD then DecodeReal(t, scan) else Some(Int(i));
  }

  lemma NegativeShape(i: int)
    requires i < 0
    ensures var t := IntText(i); IsNumberText(t) && !LooksReal(t) && t[0] == '-' && t[1..] == UIntText(-i)
  {
    var t, d := IntText(i), UIntText(-i);
    assert t[1..] == d;
    assert forall k :: 1 <= k < |t| ==> t[k] == d[k - 1];
    NotReal(t);
  }

  // ---------------------------------------------------------------- tokens

  lemma LexesHead(doc: string, p: nat, t: string, rest: seq<string>)
    requires p <= |doc| && Lexes(doc, p, [t] + rest)
    ensures var s := SkipSpaces(doc, p);
            s + |t| <= |doc| && doc[s..s + |t|] == t && Lexes(doc, s + |t|, rest)
  {
    hide SkipSpaces;
    assert ([t] + rest)[0] == t && ([t] + rest)[1..] == rest;
  }

  /** Where a value may end: at the end of the document or before one of these tokens. */
  predicate Closes(rest: seq<string>) {
    rest == [] || rest[0] == "," || rest[0] == "]" || rest[0] == "}"
  }

  lemma NextNotNumber(doc: string, e: nat, rest: seq<string>)
    requires e <= |doc| && Lexes(doc, e, rest) && Closes(rest)
    ensures e == |doc| || !IsNumberChar(doc[e])
  {
    var s := SkipSpaces(doc, e);
    if rest != [] && s == e {
      assert doc[s..s + |rest[0]|][0] == rest[0][0];
    }
  }

  lemma PunctuationBack(doc: string, p: nat, c: char, rest: seq<string>)
    requires p <= |doc| && Lexes(doc, p, [[c]] + rest) && Punctuation(c).Some?
    ensures var k := ReadToken(doc, p);
            && k == Token(Punctuation(c).value, SkipSpaces(doc, p), SkipSpaces(doc, p) + 1)
            && ReadNonComment(doc, p) == k && k.end <= |doc| && Lexes(doc, k.end, rest)
            && doc[k.start] == c
  {
    LexesHead(doc, p, [c], rest);
    var s := SkipSpaces(doc, p);
    assert doc[s] == doc[s..s + 1][0];
  }

  lemma NumberTokenBack(doc: string, p: nat, t: string, rest: seq<string>)
    requires p <= |doc| && Lexes(doc, p, [t] + rest) && IsNumberText(t) && Closes(rest)
    ensures var k := ReadToken(doc, p);
            && k.kind == NumberToken && doc[k.start..k.end] == t && k.end == k.start + |t|
            && ReadNonComment(doc, p) == k && Lexes(doc, k.end, rest)
  {
    hide Lexes, IsNumberChar, IsDigit, SkipSpaces, ScanNumber, TokenAt;
    LexesHead(doc, p, t, rest);
    var s := SkipSpaces(doc, p);
    var d := doc[s..s + |t|];
    NextNotNumber(doc, s + |t|, rest);
    NumberChars(doc, s, t);
    ScanNumberTo(doc, s + 1, s + |t|);
    assert doc[s] == d[0];
    NumberStart(doc, s);
  }

  lemma NumberChars(doc: string, s: nat, t: string)
    requires s + |t| <= |doc| && doc[s..s + |t|] == t && IsNumberText(t)
    ensures forall i :: s + 1 <= i < s + |t| ==> IsNumberChar(doc[i])
  {
    hide IsNumberChar, IsDigit;
    forall i | s + 1 <= i < s + |t| ensures IsNumberChar(doc[i]) {
      assert t[i - s] == doc[s..s + |t|][i - s] == doc[i];
    }
  }

  lemma NumberStart(doc: string, s: nat)
    requires s < |doc| && (IsDigit(doc[s]) || doc[s] == '-')
    ensures TokenAt(doc, s) == Token(NumberToken, s, ScanNumber(doc, s + 1))
  {
  }

  lemma StringTokenBack(doc: string, p: nat, str: string, rest: seq<string>)
    requires p <= |doc| && Lexes(doc, p, [Quoted(str)] + rest)
    ensures var k := ReadToken(doc, p);
            && k.kind == StringToken && DecodeChars(doc, k.start + 1, k.end - 1, "") == Text(CStr(str))
            && k.end == k.start + |Quoted(str)|
            && ReadNonComment(doc, p) == k && Lexes(doc, k.end, rest)
  {
    hide Lexes, Escape, DecodeChars, CStr, ScanString, SkipSpaces, TokenAt;
    var t := CStr(str);
    var e := Escape(t);
    LexesHead(doc, p, Quoted(str), rest);
    var s := SkipSpaces(doc, p);
    SplitQuoted(doc, s, e);
    ScanEscaped(doc, s + 1, t);
    DecodeEscaped(doc, s + 1, t, "");
    assert "" + t == t;
    StringStart(doc, s);
  }

  lemma StringStart(doc: string, s: nat)
    requires s < |doc| && doc[s] == '"'
    ensures var r := ScanString(doc, s + 1);
            TokenAt(doc, s) == Token(if r.ok then StringToken else ErrorToken, s, r.end)
  {
  }

  lemma SplitQuoted(doc: string, s: nat, e: string)
    requires s + |e| + 2 <= |doc| && doc[s..s + |e| + 2] == "\"" + e + "\""
    ensures doc[s] == '"' && doc[s + 1..s + 1 + |e|] == e && doc[s + 1 + |e|] == '"'
  {
    var d := doc[s..s + |e| + 2];
    assert doc[s] == d[0] && doc[s + 1 + |e|] == d[1 + |e|];
    forall i | 0 <= i < |e| ensures doc[s + 1 + i] == e[i] {
      assert doc[s + 1 + i] == d[1 + i];
    }
  }

  lemma KeywordBack(doc: string, p: nat, word: string, rest: seq<string>)
    requires p <= |doc| && Lexes(doc, p, [word] + rest) && (word == "null" || word == "true" || word == "false")
    ensures var k := ReadToken(doc, p);
            && k.kind == (if word == "null" then NullToken else if word == "true" then TrueToken else FalseToken)
            && k.end == k.start + |word|
            && ReadNonComment(doc, p) == k && Lexes(doc, k.end, rest)
  {
    hide Lexes, SkipSpaces, TokenAt;
    LexesHead(doc, p, word, rest);
    var s := SkipSpaces(doc, p);
    KeywordStart(doc, s, word);
  }

  lemma KeywordStart(doc: string, s: nat, word: string)
    requires s + |word| <= |doc| && doc[s..s + |word|] == word && (word == "null" || word == "true" || word == "false")
    ensures TokenAt(doc, s)
         == Token(if word == "null" then NullToken else if word == "true" then TrueToken else FalseToken, s, s + |word|)
  {
    var d := doc[s..s + |word|];
    assert doc[s] == d[0];
    assert doc[s + 1..s + |word|] == d[1..];
    assert "null"[1..] == "ull" && "true"[1..] == "rue" && "false"[1..] == "alse";
  }

  // ---------------------------------------------------------------- values

  /** A scalar token at a position is read as this value. */
  ghost predicate ScalarReads(cfg: Config, doc: string, p: nat, v: Value, rest: seq<string>, errors: seq<ErrorInfo>,
      cur: Value)
    requires p <= |doc|
  {
    var t := ValueToken(cfg, doc, p);
    && t.kind != ObjectBegin && t.kind != ArrayBegin && Lexes(doc, t.end, rest)
    && ScalarAt(cfg, doc, t, errors, cur) == Outcome(true, t.end, errors, v)
  }

  lemma NumberReads(cfg: Config, doc: string, p: nat, text: string, v: Value, rest: seq<string>, errors: seq<ErrorInfo>,
      cur: Value)
    requires p <= |doc| && IsNumberText(text) && DecodeNumber(text, cfg.scanReal) == Some(v)
    requires Lexes(doc, p, [text] + rest) && Closes(rest)
    ensures ScalarReads(cfg, doc, p, v, rest, errors, cur)
  {
    hide Lexes, ReadToken, ReadNonComment, DecodeNumber, IsNumberText, Closes;
    NumberTokenBack(doc, p, text, rest);
  }

  lemma StringReads(cfg: Config, doc: string, p: nat, s: string, rest: seq<string>, errors: seq<ErrorInfo>, cur: Value)
    requires p <= |doc| && Lexes(doc, p, [Quoted(s)] + rest)
    ensures ScalarReads(cfg, doc, p, Str(CStr(s)), rest, errors, cur)
  {
    hide Lexes, ReadToken, ReadNonComment, DecodeChars, Quoted, CStr;
    StringTokenBack(doc, p, s, rest);
  }

  lemma KeywordReads(cfg: Config, doc: string, p: nat, word: string, rest: seq<string>, errors: seq<ErrorInfo>,
      cur: Value)
    requires p <= |doc| && Lexes(doc, p, [word] + rest) && (word == "null" || word == "true" || word == "false")
    ensures ScalarReads(cfg, doc, p, if word == "null" then Null else Bool(word == "true"), rest, errors, cur)
  {
    hide Lexes, ReadToken, ReadNonComment;
    KeywordBack(doc, p, word, rest);
  }

  lemma ScalarBack(cfg: Config, doc: string, p: nat, v: Value, pr: real -> string, rest: seq<string>,
      errors: seq<ErrorInfo>, cur: Value)
    requires p <= |doc| && Wf(v) && Readable(v, pr, cfg.scanReal) && !v.Array? && !v.Object?
    requires Lexes(doc, p, [ScalarText(v, pr)] + rest) && Closes(rest)
    ensures ScalarReads(cfg, doc, p, Normal(v, pr, cfg.scanReal), rest, errors, cur)
  {
    hide Lexes, DecodeNumber, Quoted, IntText, UIntText, IsNumberText, CStr, ScalarReads, Closes, LooksReal;
    match v
    case Str(s) => StringReads(cfg, doc, p, s, rest, errors, cur);
    case Null => KeywordReads(cfg, doc, p, "null", rest, errors, cur);
    case Bool(b) => KeywordReads(cfg, doc, p, BoolText(b), rest, errors, cur);
    case Int(i) =>
      IntBack(i, cfg.scanReal);
      NumberReads(cfg, doc, p, IntText(i), NormalInt(i, cfg.scanReal), rest, errors, cur);
    case UInt(u) =>
      UIntBack(u, cfg.scanReal);
      NumberReads(cfg, doc, p, UIntText(u), NormalUInt(u, cfg.scanReal), rest, errors, cur);
    case Real(r) =>
      RealBack(pr(r), cfg.scanReal);
      NumberReads(cfg, doc, p, pr(r), Real(cfg.scanReal(pr(r)).value), rest, errors, cur);
  }

  lemma RealBack(t: string, scan: string -> Option<real>)
    requires IsNumberText(t) && LooksReal(t) && scan(t).Some?
    ensures DecodeNumber(t, scan) == Some(Real(scan(t).value))
  {
  }

  /** The tokens of the slots from `k` on. */
  function ItemsFrom(es: seq<Elem>, k: nat, n: nat, pr: real -> string): (ts: seq<string>)
    requires WfElems(es) && k <= n
    ensures k < n ==> ts != []
    decreases n - k
  {
    if k == n then [] else ItemPiece(es, k, pr) + ItemsFrom(es, k + 1, n, pr)
  }

  lemma {:induction false} ItemsSplit(es: seq<Elem>, k: nat, n: nat, pr: real -> string)
    requires WfElems(es) && k <= n
    ensures ItemToks(es, n, pr) == ItemToks(es, k, pr) + ItemsFrom(es, k, n, pr)
    decreases n - k
  {
    hide ItemPiece;
    if k < n {
      ItemsSplit(es, k + 1, n, pr);
      var a, b, c := ItemToks(es, k, pr), ItemPiece(es, k, pr), ItemsFrom(es, k + 1, n, pr);
      assert ItemToks(es, k + 1, pr) == a + b;
      assert a + b + c == a + (b + c);
    }
  }

  function MembersFrom(ms: seq<Member>, k: nat, pr: real -> string): (ts: seq<string>)
    requires WfMembers(ms) && k <= |ms|
    decreases |ms| - k
  {
    if k == |ms| then [] else MemberPiece(ms, k, pr) + MembersFrom(ms, k + 1, pr)
  }

  lemma {:induction false} MembersSplit(ms: seq<Member>, k: nat, pr: real -> string)
    requires WfMembers(ms) && k <= |ms|
    ensures MemberToks(ms, |ms|, pr) == MemberToks(ms, k, pr) + MembersFrom(ms, k, pr)
    decreases |ms| - k
  {
    hide MemberPiece;
    if k < |ms| {
      MembersSplit(ms, k + 1, pr);
      var a, b, c := MemberToks(ms, k, pr), MemberPiece(ms, k, pr), MembersFrom(ms, k + 1, pr);
      assert MemberToks(ms, k + 1, pr) == a + b;
      assert a + b + c == a + (b + c);
    }
  }

  ghost predicate ReadsAs(r: Outcome, doc: string, errors: seq<ErrorInfo>, v: Value, rest: seq<string>) {
    r.ok && r.errors == errors && r.value == v && r.pos <= |doc| && Lexes(doc, r.pos, rest)
  }

  lemma OpenBack(cfg: Config, doc: string, p: nat, c: char, inner: seq<string>)
    requires p <= |doc| && (c == '[' || c == '{') && Lexes(doc, p, [[c]] + inner)
    ensures var t := ValueToken(cfg, doc, p);
            t.kind == (if c == '[' then ArrayBegin else ObjectBegin) && Lexes(doc, t.end, inner)
  {
    hide Lexes, ReadToken, ReadNonComment;
    PunctuationBack(doc, p, c, inner);
  }

  lemma UnfoldValue(cfg: Config, doc: string, p: nat, errors: seq<ErrorInfo>, cur: Value)
    requires p <= |doc|
    ensures var t := ValueToken(cfg, doc, p);
            var q := SkipSpaces(doc, t.end);
            ReadValue(cfg, doc, p, errors, cur) ==
            (if t.kind == ObjectBegin then ReadObject(cfg, doc, t.end, errors, [], "")
             else if t.kind == ArrayBegin then
               if Peek(doc, q) == ']' then Outcome(true, q + 1, errors, Array([]))
                   else ReadArray(cfg, doc, q, errors, [])
             else ScalarAt(cfg, doc, t, errors, cur))
  {
    hide ValueToken, SkipSpaces, ScalarAt, ReadObject, ReadArray;
  }

  lemma LexesFirstChar(doc: string, p: nat, ts: seq<string>)
    requires p <= |doc| && ts != [] && ts[0] != [] && Lexes(doc, p, ts)
    ensures var q := SkipSpaces(doc, p); q < |doc| && doc[q] == ts[0][0] && Lexes(doc, q, ts)
  {
    var q := SkipSpaces(doc, p);
    assert doc[q] == doc[q..q + |ts[0]|][0];
    LexesFromBlank(doc, p, q, ts);
  }

  lemma NoNormalItems(es: seq<Elem>, pr: real -> string, scan: string -> Option<real>)
    requires WfElems(es) && ReadableElems(es, pr, scan)
    ensures NormalItems(es, 0, pr, scan) == []
  {
  }

  lemma FirstToken(v: Value, pr: real -> string, scan: string -> Option<real>)
    requires Wf(v) && Readable(v, pr, scan)
    ensures Toks(v, pr)[0] != [] && Toks(v, pr)[0][0] != ']'
  {
    if !v.Array? && !v.Object? {
      ScalarTextGood(v, pr, scan);
      match v
      case Int(i) => assert '0' <= UIntText(if i < 0 then -i else i)[0] <= '9';
      case UInt(u) => assert '0' <= UIntText(u)[0] <= '9';
      case _ =>
    }
  }

  lemma FirstItems(es: seq<Elem>, n: nat, pr: real -> string, rest: seq<string>)
    requires WfElems(es) && n > 0
    ensures ItemToks(es, n, pr) + rest == Toks(ItemAt(es, 0), pr) + (ItemsFrom(es, 1, n, pr) + rest)
  {
    hide Toks, ItemToks;
    ItemsSplit(es, 0, n, pr);
    NoItems(es, pr);
    var a, b := Toks(ItemAt(es, 0), pr), ItemsFrom(es, 1, n, pr);
    assert ItemPiece(es, 0, pr) == a;
    assert ItemToks(es, n, pr) == [] + (a + b);
    assert a + b + rest == a + (b + rest);
  }

  lemma NoItems(es: seq<Elem>, pr: real -> string)
    requires WfElems(es)
    ensures ItemToks(es, 0, pr) == []
  {
  }

  /** Reading a layout of a value's tokens succeeds, gives its normal form and stops right after. */
  lemma {:induction false} ReadBack(cfg: Config, doc: string, p: nat, v: Value, pr: real -> string, rest: seq<string>,
      errors: seq<ErrorInfo>, cur: Value)
    requires p <= |doc| && Wf(v) && Readable(v, pr, cfg.scanReal)
    requires Lexes(doc, p, Toks(v, pr) + rest) && Closes(rest)
    ensures ReadsAs(ReadValue(cfg, doc, p, errors, cur), doc, errors, Normal(v, pr, cfg.scanReal), rest)
    decreases Weight(v), 0, 0
  {
    hide Lexes, Normal, ReadValue, ValueToken, ScalarAt, ScalarText;
    UnfoldValue(cfg, doc, p, errors, cur);
    match v
    case Array(es) => ReadArrayBack(cfg, doc, p, v, pr, rest, errors, cur);
    case Object(ms) => ReadObjectBack(cfg, doc, p, v, pr, rest, errors, cur);
    case _ => ScalarBack(cfg, doc, p, v, pr, rest, errors, cur);
  }

  /** A container's tokens, bracket by bracket. */
  lemma ContainerToks(v: Value, pr: real -> string, rest: seq<string>)
    requires Wf(v)
    ensures v.Array? ==> Toks(v, pr) + rest == ["["] + (ItemToks(v.elems, ArraySize(v), pr) + (["]"] + rest))
    ensures v.Object? ==> Toks(v, pr) + rest == ["{"] + (MemberToks(v.members, |v.members|, pr) + (["}"] + rest))
  {
    hide ItemToks, MemberToks, WfElems, WfMembers;
  }

  lemma {:induction false} ReadArrayBack(cfg: Config, doc: string, p: nat, v: Value, pr: real -> string,
      rest: seq<string>, errors: seq<ErrorInfo>, cur: Value)
    requires p <= |doc| && Wf(v) && v.Array? && Readable(v, pr, cfg.scanReal)
    requires Lexes(doc, p, Toks(v, pr) + rest) && Closes(rest)
    ensures ReadsAs(ReadValue(cfg, doc, p, errors, cur), doc, errors, Normal(v, pr, cfg.scanReal), rest)
    decreases ElemsWeight(v.elems), 3, 0
  {
    hide Lexes, NormalItems, ItemToks, ReadArray, ReadValue, ValueToken, ReadableElems, WfElems, SkipSpaces, Toks;
    var es, n := v.elems, ArraySize(v);
    var inner := ItemToks(es, n, pr) + (["]"] + rest);
    ContainerToks(v, pr, rest);
    OpenBack(cfg, doc, p, '[', inner);
    UnfoldValue(cfg, doc, p, errors, cur);
    var t := ValueToken(cfg, doc, p);
    NoItems(es, pr);
    NoNormalItems(es, pr, cfg.scanReal);
    if n == 0 {
      assert inner == [[']']] + rest;
      PunctuationBack(doc, t.end, ']', rest);
    } else {
      FirstItems(es, n, pr, ["]"] + rest);
      ReadableItem(es, 0, pr, cfg.scanReal);
      FirstToken(ItemAt(es, 0), pr, cfg.scanReal);
      LexesFirstChar(doc, t.end, inner);
      ReadItems(cfg, doc, SkipSpaces(doc, t.end), es, 0, n, pr, rest, errors);
    }
  }

  lemma NormalItemsStep(es: seq<Elem>, k: nat, pr: real -> string, scan: string -> Option<real>)
    requires WfElems(es) && ReadableElems(es, pr, scan) && Readable(ItemAt(es, k), pr, scan)
    ensures NormalItems(es, k + 1, pr, scan)
            == NormalItems(es, k, pr, scan) + [Elem(k, Normal(ItemAt(es, k), pr, scan))]
  {
    hide Normal;
  }

  /** The array loop, from an item on. */
  lemma {:induction false} ReadItems(cfg: Config, doc: string, p: nat, es: seq<Elem>, k: nat, n: nat,
      pr: real -> string, rest: seq<string>, errors: seq<ErrorInfo>)
    requires p <= |doc| && WfElems(es) && ReadableElems(es, pr, cfg.scanReal) && k < n
    requires Lexes(doc, p, Toks(ItemAt(es, k), pr) + (ItemsFrom(es, k + 1, n, pr) + (["]"] + rest)))
    ensures ReadsAs(ReadArray(cfg, doc, p, errors, NormalItems(es, k, pr, cfg.scanReal)), doc, errors,
                    Array(NormalItems(es, n, pr, cfg.scanReal)), rest)
    decreases ElemsWeight(es), 2, n - k
  {
    hide Lexes, Toks, ItemPiece, ItemsFrom, Normal, NormalItems, ReadValue, ReadArray, ReadNonComment, ReadToken,
         WfElems, ReadableElems, ItemAt, Readable, Wf;
    var after := ItemsFrom(es, k + 1, n, pr) + (["]"] + rest);
    ReadableItem(es, k, pr, cfg.scanReal);
    NormalItemsStep(es, k, pr, cfg.scanReal);
    ClosesAfterItem(es, k + 1, n, pr, rest);
    ReadBack(cfg, doc, p, ItemAt(es, k), pr, after, errors, Null);
    var items := NormalItems(es, k, pr, cfg.scanReal);
    ArrayStep(cfg, doc, p, errors, items);
    var v := ReadValue(cfg, doc, p, errors, Null);
    SeparatorBack(doc, v.pos, es, k + 1, n, pr, rest);
    if k + 1 < n {
      ReadItems(cfg, doc, ReadNonComment(doc, v.pos).end, es, k + 1, n, pr, rest, errors);
    }
  }

  /** What follows an item: a closing bracket, or a comma and the next item. */
  lemma ItemsFromStep(es: seq<Elem>, k: nat, n: nat, pr: real -> string)
    requires WfElems(es) && 0 < k <= n
    ensures k == n ==> ItemsFrom(es, k, n, pr) == []
    ensures k < n ==>
              && Wf(ItemAt(es, k))
              && ItemsFrom(es, k, n, pr) == [","] + Toks(ItemAt(es, k), pr) + ItemsFrom(es, k + 1, n, pr)
  {
    hide Toks, WfElems;
  }

  lemma Grouping(a: seq<string>, b: seq<string>, c: seq<string>)
    ensures [","] + a + b + c == [[',']] + (a + (b + c))
  {
    assert [","] == [[',']];
  }

  lemma ClosesAfterItem(es: seq<Elem>, k: nat, n: nat, pr: real -> string, rest: seq<string>)
    requires WfElems(es) && 0 < k <= n
    ensures Closes(ItemsFrom(es, k, n, pr) + (["]"] + rest))
  {
    hide Toks, ItemsFrom, WfElems;
    AfterItem(es, k, n, pr, rest);
  }

  /** Behind an item the reader finds the closing bracket, or a comma and the next item. */
  lemma SeparatorBack(doc: string, p: nat, es: seq<Elem>, k: nat, n: nat, pr: real -> string, rest: seq<string>)
    requires p <= |doc| && WfElems(es) && 0 < k <= n && Lexes(doc, p, ItemsFrom(es, k, n, pr) + (["]"] + rest))
    ensures var t := ReadNonComment(doc, p);
            && t.end <= |doc|
            && (k == n ==> t.kind == ArrayEnd && Lexes(doc, t.end, rest))
            && (k < n ==> t.kind == ArraySeparator
                          && Wf(ItemAt(es, k))
                          && Lexes(doc, t.end, Toks(ItemAt(es, k), pr)
                              + (ItemsFrom(es, k + 1, n, pr) + (["]"] + rest))))
  {
    hide Lexes, Toks, ItemsFrom, WfElems, ReadToken, ReadNonComment, SkipSpaces, Closes;
    AfterItem(es, k, n, pr, rest);
    if k == n {
      PunctuationBack(doc, p, ']', rest);
    } else {
      PunctuationBack(doc, p, ',', Toks(ItemAt(es, k), pr) + (ItemsFrom(es, k + 1, n, pr) + (["]"] + rest)));
    }
  }

  lemma AfterItem(es: seq<Elem>, k: nat, n: nat, pr: real -> string, rest: seq<string>)
    requires WfElems(es) && 0 < k <= n
    ensures var after := ItemsFrom(es, k, n, pr) + (["]"] + rest);
            && Closes(after)
            && (k == n ==> after == [[']']] + rest)
            && (k < n ==> after == [[',']] + (Toks(ItemAt(es, k), pr) + (ItemsFrom(es, k + 1, n, pr) + (["]"] + rest))))
  {
    hide Toks, ItemsFrom, WfElems;
    ItemsFromStep(es, k, n, pr);
    if k < n {
      Grouping(Toks(ItemAt(es, k), pr), ItemsFrom(es, k + 1, n, pr), ["]"] + rest);
    } else {
      assert [] + (["]"] + rest) == [[']']] + rest;
    }
  }

  lemma NameBack(doc: string, p: nat, errors: seq<ErrorInfo>, acc: seq<Member>, prev: string, name: string,
      rest: seq<string>)
    requires p <= |doc| && Lexes(doc, p, [Quoted(name)] + ([":"] + rest))
    ensures var s := MemberName(doc, p, errors, acc, prev);
            s.Named? && s.text == CStr(name) && Lexes(doc, s.pos, rest)
  {
    hide Lexes, Quoted, CStr, DecodeChars, ReadToken, ReadNonComment, MemberName, SkipSpaces;
    StringTokenBack(doc, p, name, [":"] + rest);
    var k := ReadNonComment(doc, p);
    assert [":"] == [[':']];
    PunctuationBack(doc, k.end, ':', rest);
    NamedIs(doc, p, errors, acc, prev, CStr(name));
  }

  lemma NamedIs(doc: string, p: nat, errors: seq<ErrorInfo>, ms: seq<Member>, prev: string, name: string)
    requires p <= |doc|
    requires var k := ReadNonComment(doc, p);
             && k.kind == StringToken && k.start + 1 <= k.end - 1 && k.end <= |doc|
             && DecodeChars(doc, k.start + 1, k.end - 1, "") == Text(name)
                 && ReadToken(doc, k.end).kind == MemberSeparator
    ensures MemberName(doc, p, errors, ms, prev) == Named(name, ReadToken(doc, ReadNonComment(doc, p).end).end)
  {
    hide DecodeChars, ReadToken, ReadNonComment, Recover;
  }

  lemma MemberEndBack(doc: string, p: nat, errors: seq<ErrorInfo>, ms: seq<Member>, c: char, rest: seq<string>)
    requires p <= |doc| && (c == ',' || c == '}') && Lexes(doc, p, [[c]] + rest)
    ensures var s := MemberEnd(doc, p, errors, ms);
            && (c == ',' ==> s.Stored? && Lexes(doc, s.pos, rest))
            && (c == '}' ==> s.Ended? && ReadsAs(s.r, doc, errors, Object(ms), rest))
  {
    hide Lexes, ReadToken, ReadNonComment;
    PunctuationBack(doc, p, c, rest);
  }

  lemma UnfoldObject(cfg: Config, doc: string, p: nat, errors: seq<ErrorInfo>, ms: seq<Member>, prev: string)
    requires p <= |doc| && MemberName(doc, p, errors, ms, prev).Named?
    ensures var n := MemberName(doc, p, errors, ms, prev);
            var v := ReadValue(cfg, doc, n.pos, errors, Lookup(ms, CStr(n.text)));
            var ms' := Put(ms, CStr(n.text), v.value);
            v.ok ==>
              (var e := MemberEnd(doc, v.pos, v.errors, ms');
               ReadObject(cfg, doc, p, errors, ms, prev) ==
               (if e.Ended? then e.r else ReadObject(cfg, doc, e.pos, v.errors, ms', n.text)))
  {
    hide ReadValue, MemberName, MemberEnd, Put, Lookup, CStr;
  }

  lemma NormalMembersStep(ms: seq<Member>, k: nat, pr: real -> string, scan: string -> Option<real>)
    requires WfMembers(ms) && ReadableMembers(ms, pr, scan) && k < |ms| && AscendingNames(ms)
    requires Wf(ms[k].item) && Readable(ms[k].item, pr, scan)
    ensures NormalMembers(ms, k + 1, pr, scan)
         == Put(NormalMembers(ms, k, pr, scan), ms[k].name, Normal(ms[k].item, pr, scan))
  {
    hide Normal, Put;
    var acc := NormalMembers(ms, k, pr, scan);
    forall m <- acc ensures StrLess(m.name, ms[k].name) {
      var j :| 0 <= j < k && acc[j] == m;
      assert ms[j].name == m.name;
    }
    PutAtEnd(acc, ms[k].name, Normal(ms[k].item, pr, scan));
  }

  lemma Shift(s: seq<string>, q: seq<string>, d: seq<string>, a: seq<string>, b: seq<string>, c: seq<string>)
    ensures s + (q + (d + a)) + b + c == s + (q + (d + (a + (b + c))))
  {
    assert d + a + (b + c) == d + (a + (b + c));
    assert q + (d + a) + (b + c) == q + (d + a + (b + c));
    assert s + (q + (d + a)) + b + c == s + (q + (d + a)) + (b + c);
    assert s + (q + (d + a)) + (b + c) == s + (q + (d + a) + (b + c));
  }

  lemma FirstMember(ms: seq<Member>, pr: real -> string, rest: seq<string>)
    requires WfMembers(ms) && ms != []
    ensures MemberToks(ms, |ms|, pr) + rest
         == [Quoted(ms[0].name)] + ([":"] + (MemberValue(ms, 0, pr) + (MembersFrom(ms, 1, pr) + rest)))
  {
    hide MemberToks, MemberValue, Quoted;
    MembersSplit(ms, 0, pr);
    NoMembers(ms, pr);
    MemberPieceShape(ms, 0, pr);
    var a, b := MemberValue(ms, 0, pr), MembersFrom(ms, 1, pr);
    hide MembersFrom, MemberPiece;
    var q := [Quoted(ms[0].name)];
    assert MembersFrom(ms, 0, pr) == MemberPiece(ms, 0, pr) + b by { MembersHead(ms, 0, pr); }
    assert MemberToks(ms, |ms|, pr) == MembersFrom(ms, 0, pr);
    Shift([], q, [":"], a, b, rest);
    assert [] + (q + ([":"] + (a + (b + rest)))) == q + ([":"] + (a + (b + rest)));
  }

  function MemberValue(ms: seq<Member>, k: nat, pr: real -> string): (ts: seq<string>)
    requires WfMembers(ms) && k < |ms|
  {
    MemberFacts(ms, k);
    Toks(ms[k].item, pr)
  }

  lemma MembersHead(ms: seq<Member>, k: nat, pr: real -> string)
    requires WfMembers(ms) && k < |ms|
    ensures MembersFrom(ms, k, pr) == MemberPiece(ms, k, pr) + MembersFrom(ms, k + 1, pr)
  {
    hide MemberPiece;
  }

  lemma NoMembers(ms: seq<Member>, pr: real -> string)
    requires WfMembers(ms)
    ensures MemberToks(ms, 0, pr) == []
  {
  }

  lemma MemberPieceShape(ms: seq<Member>, k: nat, pr: real -> string)
    requires WfMembers(ms) && k < |ms|
    ensures MemberPiece(ms, k, pr)
         == (if k > 0 then [","] else []) + ([Quoted(ms[k].name)] + ([":"] + MemberValue(ms, k, pr)))
  {
    hide Toks, Quoted;
    MemberFacts(ms, k);
  }

  /** What follows a member: a closing brace, or a comma and the next member. */
  lemma AfterMember(ms: seq<Member>, k: nat, pr: real -> string, rest: seq<string>)
    requires WfMembers(ms) && 0 < k <= |ms|
    ensures var after := MembersFrom(ms, k, pr) + (["}"] + rest);
            && Closes(after)
            && (k == |ms| ==> after == [['}']] + rest)
            && (k < |ms| ==>
                  after == [[',']]
                           + ([Quoted(ms[k].name)]
                              + ([":"] + (MemberValue(ms, k, pr) + (MembersFrom(ms, k + 1, pr) + (["}"] + rest))))))
  {
    hide MemberPiece, MemberValue, Quoted;
    if k < |ms| {
      MemberPieceShape(ms, k, pr);
      MembersHead(ms, k, pr);
      Shift([","], [Quoted(ms[k].name)], [":"], MemberValue(ms, k, pr), MembersFrom(ms, k + 1, pr), ["}"] + rest);
    }
  }

  lemma {:induction false} ReadObjectBack(cfg: Config, doc: string, p: nat, v: Value, pr: real -> string,
      rest: seq<string>, errors: seq<ErrorInfo>, cur: Value)
    requires p <= |doc| && Wf(v) && v.Object? && Readable(v, pr, cfg.scanReal)
    requires Lexes(doc, p, Toks(v, pr) + rest) && Closes(rest)
    ensures ReadsAs(ReadValue(cfg, doc, p, errors, cur), doc, errors, Normal(v, pr, cfg.scanReal), rest)
    decreases MembersWeight(v.members), 3, 0
  {
    hide Lexes, MemberToks, ReadValue, ReadObject, ValueToken, ReadableMembers, WfMembers, SkipSpaces, MembersFrom,
         MemberValue, NormalMembers;
    var ms := v.members;
    var inner := MemberToks(ms, |ms|, pr) + (["}"] + rest);
    ContainerToks(v, pr, rest);
    OpenBack(cfg, doc, p, '{', inner);
    UnfoldValue(cfg, doc, p, errors, cur);
    var t := ValueToken(cfg, doc, p);
    NoMembers(ms, pr);
    NoNormalMembers(ms, pr, cfg.scanReal);
    if ms == [] {
      assert inner == [['}']] + rest;
      EmptyObjectBack(cfg, doc, t.end, errors, rest);
    } else {
      FirstMember(ms, pr, ["}"] + rest);
      ReadMembers(cfg, doc, t.end, ms, 0, pr, rest, errors, "");
    }
  }

  lemma NoNormalMembers(ms: seq<Member>, pr: real -> string, scan: string -> Option<real>)
    requires WfMembers(ms) && ReadableMembers(ms, pr, scan)
    ensures NormalMembers(ms, 0, pr, scan) == []
  {
  }

  lemma EmptyObjectBack(cfg: Config, doc: string, p: nat, errors: seq<ErrorInfo>, rest: seq<string>)
    requires p <= |doc| && Lexes(doc, p, [['}']] + rest)
    ensures ReadsAs(ReadObject(cfg, doc, p, errors, [], ""), doc, errors, Object([]), rest)
  {
    hide Lexes, ReadToken, ReadNonComment;
    PunctuationBack(doc, p, '}', rest);
    assert MemberName(doc, p, errors, [], "").Ended?;
  }

  /** The object loop, from a member on. */
  lemma {:induction false} ReadMembers(cfg: Config, doc: string, p: nat, ms: seq<Member>, k: nat, pr: real -> string,
      rest: seq<string>, errors: seq<ErrorInfo>, prev: string)
    requires p <= |doc| && WfMembers(ms) && AscendingNames(ms) && ReadableMembers(ms, pr, cfg.scanReal) && k < |ms|
    requires Lexes(doc, p,
             [Quoted(ms[k].name)] + ([":"] + (MemberValue(ms, k, pr) + (MembersFrom(ms, k + 1, pr) + (["}"] + rest)))))
    ensures ReadsAs(ReadObject(cfg, doc, p, errors, NormalMembers(ms, k, pr, cfg.scanReal), prev), doc, errors,
                    Object(NormalMembers(ms, |ms|, pr, cfg.scanReal)), rest)
    decreases MembersWeight(ms), 2, |ms| - k
  {
    hide Lexes, Toks, Quoted, CStr, MembersFrom, Normal, NormalMembers, ReadValue, ReadObject, MemberName, MemberEnd,
         WfMembers, ReadableMembers, AscendingNames, Put, Lookup, Readable, Wf;
    MemberFacts(ms, k);
    ReadableMember(ms, k, pr, cfg.scanReal);
    NormalMembersStep(ms, k, pr, cfg.scanReal);
    AfterMember(ms, k + 1, pr, rest);
    var acc, after := NormalMembers(ms, k, pr, cfg.scanReal), MembersFrom(ms, k + 1, pr) + (["}"] + rest);
    NameBack(doc, p, errors, acc, prev, ms[k].name, MemberValue(ms, k, pr) + after);
    var n := MemberName(doc, p, errors, acc, prev);
    CStrWhole(ms[k].name);
    ReadBack(cfg, doc, n.pos, ms[k].item, pr, after, errors, Lookup(acc, ms[k].name));
    var v := ReadValue(cfg, doc, n.pos, errors, Lookup(acc, ms[k].name));
    UnfoldObject(cfg, doc, p, errors, acc, prev);
    var acc' := NormalMembers(ms, k + 1, pr, cfg.scanReal);
    if k + 1 == |ms| {
      MemberEndBack(doc, v.pos, errors, acc', '}', rest);
    } else {
      MemberEndBack(doc, v.pos, errors, acc', ',',
          [Quoted(ms[k + 1].name)]
              + ([":"] + (MemberValue(ms, k + 1, pr) + (MembersFrom(ms, k + 2, pr) + (["}"] + rest)))));
      ReadMembers(cfg, doc, MemberEnd(doc, v.pos, errors, acc').pos, ms, k + 1, pr, rest, errors, n.text);
    }
  }

  lemma CStrWhole(s: string)
    requires NulFree(s)
    ensures CStr(s) == s && CStr(CStr(s)) == s
  {
  }

  // ---------------------------------------------------------------- the round trip

  /**
    Parsing any layout of a value's tokens gives its normal form. It succeeds except that a
    strict reader refuses a root that is neither null nor a container.
   */
  lemma ParseLayout(cfg: Config, doc: string, v: Value, pr: real -> string, root: Value)
    requires Wf(v) && Readable(v, pr, cfg.scanReal) && Lexes(doc, 0, Toks(v, pr))
    ensures var r := Parse(cfg, doc, root);
            && r.value == Normal(v, pr, cfg.scanReal)
            && (r.ok <==> !cfg.strictRoot || v.Null? || v.Array? || v.Object?)
  {
    hide Lexes, Toks, ReadValue, ValueToken, Readable, NormalInt, NormalUInt;
    assert Toks(v, pr) + [] == Toks(v, pr);
    ReadBack(cfg, doc, 0, v, pr, [], [], root);
    NormalKind(v, pr, cfg.scanReal);
  }

  lemma NormalKind(v: Value, pr: real -> string, scan: string -> Option<real>)
    requires Wf(v) && Readable(v, pr, scan)
    ensures var n := Normal(v, pr, scan);
            (n.Null? <==> v.Null?) && (n.Array? <==> v.Array?) && (n.Object? <==> v.Object?)
  {
  }

  /** Parsing what the fast writer wrote. */
  lemma FastRoundTrip(cfg: Config, v: Value, colon: string, pr: real -> string, root: Value)
    requires Wf(v) && Readable(v, pr, cfg.scanReal) && IsColon(colon)
    ensures var r := Parse(cfg, FastText(v, colon, pr) + "\n", root);
            && r.value == Normal(v, pr, cfg.scanReal)
            && (r.ok <==> !cfg.strictRoot || v.Null? || v.Array? || v.Object?)
  {
    hide Lexes, Toks, FastText, Parse, Normal, Readable, Wf;
    FastLexes(v, colon, pr, cfg.scanReal);
    GoodToks(v, pr, cfg.scanReal);
    LexesAddBlank(FastText(v, colon, pr), Toks(v, pr), "\n");
    ParseLayout(cfg, FastText(v, colon, pr) + "\n", v, pr, root);
  }

  /** Parsing what the styled writer wrote. */
  lemma StyledRoundTrip(cfg: Config, v: Value, pr: real -> string, root: Value)
    requires Wf(v) && Readable(v, pr, cfg.scanReal)
    ensures var r := Parse(cfg, StyledText(v, "", "", pr) + "\n", root);
            && r.value == Normal(v, pr, cfg.scanReal)
            && (r.ok <==> !cfg.strictRoot || v.Null? || v.Array? || v.Object?)
  {
    hide Lexes, Toks, StyledText, Parse, Normal, Readable, Wf;
    StyledLayout(v, pr, cfg.scanReal);
    ParseLayout(cfg, StyledText(v, "", "", pr) + "\n", v, pr, root);
  }

  lemma StyledLayout(v: Value, pr: real -> string, scan: string -> Option<real>)
    requires Wf(v) && Readable(v, pr, scan)
    ensures Lexes(StyledText(v, "", "", pr) + "\n", 0, Toks(v, pr))
  {
    hide Toks, StyledText, Readable, Wf;
    LexesBlank("");
    StyledLaid(v, "", "", [], pr, scan);
    assert [] + Toks(v, pr) == Toks(v, pr);
    LexesAddBlank(StyledText(v, "", "", pr), Toks(v, pr), "\n");
  }

  // ---------------------------------------------------------------- what comes back equal

  /** What survives printing and reading, in the sense of the value's own `operator==`. */
  predicate Canonical(v: Value, pr: real -> string, scan: string -> Option<real>) {
    match v
    case Int(i) => i > -2147483640
    case UInt(u) => MAX_INT < u < 4294967290
    case Real(r) => scan(pr(r)) == Some(r)
    case Array(es) => (forall i :: 0 <= i < |es| ==> es[i].index == i) && CanonicalElems(es, pr, scan)
    case Object(ms) => CanonicalMembers(ms, pr, scan)
    case _ => true
  }

  predicate CanonicalElems(es: seq<Elem>, pr: real -> string, scan: string -> Option<real>) {
    es == [] || (assert es[0].item < es[0]; Canonical(es[0].item, pr, scan) && CanonicalElems(es[1..], pr, scan))
  }

  predicate CanonicalMembers(ms: seq<Member>, pr: real -> string, scan: string -> Option<real>) {
    ms == [] || (Canonical(ms[0].item, pr, scan) && CanonicalMembers(ms[1..], pr, scan))
  }

  lemma ScalarEqualIffCanonical(v: Value, pr: real -> string, scan: string -> Option<real>)
    requires Wf(v) && Readable(v, pr, scan) && !v.Array? && !v.Object?
    ensures Eq(Normal(v, pr, scan), v) <==> Canonical(v, pr, scan)
  {
    match v
    case Str(s) => CStrTwice(s);
    case _ =>
  }

  lemma {:induction false} CStrTwice(s: string)
    ensures CStr(CStr(s)) == CStr(s)
  {
  }

  /** Reading back gives an equal value exactly when the value is canonical. */
  lemma {:induction false} EqualIffCanonical(v: Value, pr: real -> string, scan: string -> Option<real>)
    requires Wf(v) && Readable(v, pr, scan)
    ensures Eq(Normal(v, pr, scan), v) <==> Canonical(v, pr, scan)
    decreases Weight(v), 0, 0
  {
    match v
    case Array(es) =>
      var n := ArraySize(v);
      var ns := NormalItems(es, n, pr, scan);
      assert Normal(v, pr, scan) == Array(ns);
      hide Normal, NormalItems;
      if n == |es| {
        DenseWhenFull(es, n);
        ItemsEqual(es, 0, pr, scan);
        assert es[0..] == es && ns[0..] == ns;
      } else {
        assert es != [] && es[|es| - 1].index != |es| - 1;
      }
    case Object(ms) =>
      var ns := NormalMembers(ms, |ms|, pr, scan);
      assert Normal(v, pr, scan) == Object(ns);
      hide Normal, NormalMembers;
      MembersEqual(ms, 0, pr, scan);
      assert ms[0..] == ms && ns[0..] == ns;
    case _ => ScalarEqualIffCanonical(v, pr, scan);
  }

  /** An array whose highest index is its length minus one has no gap. */
  lemma {:induction false} DenseWhenFull(es: seq<Elem>, n: nat)
    requires AscendingIndices(es) && n == |es| && (es != [] ==> es[|es| - 1].index == n - 1)
    ensures forall i :: 0 <= i < n ==> es[i].index == i
  {
    if n > 0 {
      forall i | 0 <= i < n ensures es[i].index >= i {
        IndexAtLeast(es, i);
      }
      forall i | 0 <= i < n ensures es[i].index <= i {
        IndexAtMost(es, i, n);
      }
    }
  }

  lemma {:induction false} IndexAtLeast(es: seq<Elem>, i: nat)
    requires AscendingIndices(es) && i < |es|
    ensures es[i].index >= i
  {
    if i > 0 {
      IndexAtLeast(es, i - 1);
      assert es[i - 1].index < es[i].index;
    }
  }

  lemma {:induction false} IndexAtMost(es: seq<Elem>, i: nat, n: nat)
    requires AscendingIndices(es) && i < |es| == n && es[n - 1].index == n - 1
    ensures es[i].index <= i
    decreases n - i
  {
    if i < n - 1 {
      IndexAtMost(es, i + 1, n);
      assert es[i].index < es[i + 1].index;
    }
  }

  lemma {:induction false} NormalItemAt(es: seq<Elem>, k: nat, j: nat, pr: real -> string, scan: string -> Option<real>)
    requires WfElems(es) && ReadableElems(es, pr, scan) && j < k && Readable(ItemAt(es, j), pr, scan)
    ensures NormalItems(es, k, pr, scan)[j] == Elem(j, Normal(ItemAt(es, j), pr, scan))
    decreases k
  {
    hide Normal;
    if j < k - 1 {
      NormalItemAt(es, k - 1, j, pr, scan);
    }
  }

  lemma {:induction false} ItemsEqual(es: seq<Elem>, k: nat, pr: real -> string, scan: string -> Option<real>)
    requires WfElems(es) && AscendingIndices(es) && ReadableElems(es, pr, scan) && k <= |es|
    requires forall i :: 0 <= i < |es| ==> es[i].index == i
    ensures ElemsEq(NormalItems(es, |es|, pr, scan)[k..], es[k..]) <==> CanonicalElems(es[k..], pr, scan)
    decreases ElemsWeight(es), 1, |es| - k
  {
    hide Normal, NormalItems, ItemAt, Readable;
    if k < |es| {
      var ns := NormalItems(es, |es|, pr, scan);
      ItemAtFinds(es, k);
      ElemFacts(es, k);
      ReadableItem(es, k, pr, scan);
      NormalItemAt(es, |es|, k, pr, scan);
      EqualIffCanonical(es[k].item, pr, scan);
      ItemsEqual(es, k + 1, pr, scan);
      assert ns[k..][1..] == ns[k + 1..] && es[k..][1..] == es[k + 1..];
    }
  }

  lemma {:induction false} ElemFacts(es: seq<Elem>, k: nat)
    requires k < |es|
    ensures Weight(es[k].item) < ElemsWeight(es) && (WfElems(es) ==> Wf(es[k].item))
  {
    if k > 0 { ElemFacts(es[1..], k - 1); }
  }

  lemma {:induction false} NormalMemberAt(ms: seq<Member>, k: nat, j: nat, pr: real -> string,
      scan: string -> Option<real>)
    requires WfMembers(ms) && ReadableMembers(ms, pr, scan) && j < k <= |ms|
    requires Wf(ms[j].item) && Readable(ms[j].item, pr, scan)
    ensures NormalMembers(ms, k, pr, scan)[j] == Member(ms[j].name, Normal(ms[j].item, pr, scan))
    decreases k
  {
    hide Normal;
    if j < k - 1 {
      NormalMemberAt(ms, k - 1, j, pr, scan);
    }
  }

  lemma {:induction false} MembersEqual(ms: seq<Member>, k: nat, pr: real -> string, scan: string -> Option<real>)
    requires WfMembers(ms) && ReadableMembers(ms, pr, scan) && k <= |ms|
    ensures MembersEq(NormalMembers(ms, |ms|, pr, scan)[k..], ms[k..]) <==> CanonicalMembers(ms[k..], pr, scan)
    decreases MembersWeight(ms), 1, |ms| - k
  {
    hide Normal, NormalMembers, Readable;
    if k < |ms| {
      var ns := NormalMembers(ms, |ms|, pr, scan);
      MemberFacts(ms, k);
      ReadableMember(ms, k, pr, scan);
      NormalMemberAt(ms, |ms|, k, pr, scan);
      EqualIffCanonical(ms[k].item, pr, scan);
      MembersEqual(ms, k + 1, pr, scan);
      assert ns[k..][1..] == ns[k + 1..] && ms[k..][1..] == ms[k + 1..];
    }
  }

  /** Both round trips, with the reader that `FastWriter` and `StyledWriter` are written for. */
  lemma RoundTrip(cfg: Config, v: Value, pr: real -> string)
    requires Wf(v) && Readable(v, pr, cfg.scanReal) && !cfg.strictRoot
    ensures var fast := Parse(cfg, FastText(v, ":", pr) + "\n", Null);
            var styled := Parse(cfg, StyledText(v, "", "", pr) + "\n", Null);
            && fast.ok && styled.ok && fast.value == styled.value
            && (Eq(fast.value, v) <==> Canonical(v, pr, cfg.scanReal))
  {
    hide FastText, StyledText, Parse, Normal, Readable, Wf, Eq, Canonical;
    FastRoundTrip(cfg, v, ":", pr, Null);
    StyledRoundTrip(cfg, v, pr, Null);
    EqualIffCanonical(v, pr, cfg.scanReal);
  }

  // ---------------------------------------------------------------- the two printers

  /** The texts of the tokens the reader's own tokenizer finds. */
  function Lexemes(doc: string, p: nat): (ts: seq<string>)
    requires p <= |doc|
    decreases |doc| - p
  {
    var t := ReadToken(doc, p);
    if t.kind == EndOfStream then [] else [doc[t.start..t.end]] + Lexemes(doc, t.end)
  }

  ghost predicate IsToken(t: string) {
    || (|t| == 1 && Punctuation(t[0]).Some? && t[0] != '\0')
    || t == "null" || t == "true" || t == "false"
    || IsNumberText(t)
    || exists s :: t == Quoted(s)
  }

  /** Tokens that stay apart however little space is between them. */
  ghost predicate Separable(ts: seq<string>) {
    ts == [] || (IsToken(ts[0]) && (IsNumberText(ts[0]) ==> Closes(ts[1..])) && Separable(ts[1..]))
  }

  lemma TokenBack(doc: string, p: nat, t: string, rest: seq<string>)
    requires p <= |doc| && IsToken(t) && (IsNumberText(t) ==> Closes(rest)) && Lexes(doc, p, [t] + rest)
    ensures var k := ReadToken(doc, p);
            k.kind != EndOfStream && doc[k.start..k.end] == t && Lexes(doc, k.end, rest)
  {
    hide Lexes, ReadToken, ReadNonComment, IsNumberText, Closes, Quoted, DecodeChars, SkipSpaces;
    LexesHead(doc, p, t, rest);
    if IsNumberText(t) {
      NumberTokenBack(doc, p, t, rest);
    } else if t == "null" || t == "true" || t == "false" {
      KeywordBack(doc, p, t, rest);
    } else if |t| == 1 && Punctuation(t[0]).Some? && t[0] != '\0' {
      assert t == [t[0]];
      PunctuationBack(doc, p, t[0], rest);
    } else {
      var s :| t == Quoted(s);
      StringTokenBack(doc, p, s, rest);
    }
  }

  lemma {:induction false} LexemesOfLayout(doc: string, p: nat, ts: seq<string>)
    requires p <= |doc| && Lexes(doc, p, ts) && Separable(ts)
    ensures Lexemes(doc, p) == ts
    decreases |ts|
  {
    if ts != [] {
      hide Lexes, ReadToken, IsToken, IsNumberText;
      assert ts == [ts[0]] + ts[1..];
      TokenBack(doc, p, ts[0], ts[1..]);
      LexemesOfLayout(doc, ReadToken(doc, p).end, ts[1..]);
    }
  }

  lemma SeparableCons(t: string, rest: seq<string>)
    requires IsToken(t) && (IsNumberText(t) ==> Closes(rest)) && Separable(rest)
    ensures Separable([t] + rest)
  {
    assert ([t] + rest)[1..] == rest;
  }

  lemma PunctuationIsToken(c: char)
    requires Punctuation(c).Some? && c != '\0'
    ensures IsToken([c]) && !IsNumberText([c])
  {
  }

  lemma ScalarIsToken(v: Value, pr: real -> string, scan: string -> Option<real>)
    requires Wf(v) && Readable(v, pr, scan) && !v.Array? && !v.Object?
    ensures IsToken(ScalarText(v, pr))
  {
    match v
    case Int(i) => IntBack(i, scan);
    case UInt(u) => UIntBack(u, scan);
    case _ =>
  }

  lemma {:induction false} SeparableToks(v: Value, pr: real -> string, scan: string -> Option<real>, rest: seq<string>)
    requires Wf(v) && Readable(v, pr, scan) && Separable(rest) && Closes(rest)
    ensures Separable(Toks(v, pr) + rest)
    decreases Weight(v), 0, 0
  {
    hide Separable, IsToken, IsNumberText, ScalarText, ItemToks, MemberToks;
    ContainerToks(v, pr, rest);
    if v.Array? {
      var es, n := v.elems, ArraySize(v);
      PunctuationIsToken(']');
      SeparableCons("]", rest);
      SeparableItems(es, n, pr, scan, ["]"] + rest);
      PunctuationIsToken('[');
      SeparableCons("[", ItemToks(es, n, pr) + (["]"] + rest));
    } else if v.Object? {
      var ms := v.members;
      PunctuationIsToken('}');
      SeparableCons("}", rest);
      SeparableMembers(ms, |ms|, pr, scan, ["}"] + rest);
      PunctuationIsToken('{');
      SeparableCons("{", MemberToks(ms, |ms|, pr) + (["}"] + rest));
    } else {
      ScalarIsToken(v, pr, scan);
      SeparableCons(ScalarText(v, pr), rest);
    }
  }

  lemma {:induction false} SeparableItems(es: seq<Elem>, k: nat, pr: real -> string, scan: string -> Option<real>,
      rest: seq<string>)
    requires WfElems(es) && ReadableElems(es, pr, scan) && Separable(rest) && Closes(rest)
    ensures Separable(ItemToks(es, k, pr) + rest)
    decreases ElemsWeight(es), 1, k
  {
    hide Separable, Toks, WfElems, ReadableElems, ItemAt;
    if k == 0 {
      assert [] + rest == rest;
    } else {
      ReadableItem(es, k - 1, pr, scan);
      var item := Toks(ItemAt(es, k - 1), pr);
      SeparableToks(ItemAt(es, k - 1), pr, scan, rest);
      if k == 1 {
        assert ItemToks(es, k, pr) + rest == item + rest;
      } else {
        PunctuationIsToken(',');
        SeparableCons(",", item + rest);
        SeparableItems(es, k - 1, pr, scan, [","] + (item + rest));
        assert ItemToks(es, k - 1, pr) + ([","] + item) + rest == ItemToks(es, k - 1, pr) + ([","] + (item + rest));
      }
    }
  }

  lemma {:induction false} SeparableMembers(ms: seq<Member>, k: nat, pr: real -> string, scan: string -> Option<real>,
      rest: seq<string>)
    requires WfMembers(ms) && k <= |ms| && ReadableMembers(ms, pr, scan) && Separable(rest) && Closes(rest)
    ensures Separable(MemberToks(ms, k, pr) + rest)
    decreases MembersWeight(ms), 1, k
  {
    hide Separable, Toks, WfMembers, ReadableMembers, Quoted, IsToken, IsNumberText, MemberPiece, MemberValue,
         MemberToks;
    if k == 0 {
      NoMembers(ms, pr);
      assert [] + rest == rest;
    } else {
      LastMember(ms, k, pr);
      MemberFacts(ms, k - 1);
      ReadableMember(ms, k - 1, pr, scan);
      var item, q := MemberValue(ms, k - 1, pr), Quoted(ms[k - 1].name);
      ValueOfMember(ms, k - 1, pr);
      SeparableToks(ms[k - 1].item, pr, scan, rest);
      SeparableNamed(ms[k - 1].name, item + rest);
      MemberPieceShape(ms, k - 1, pr);
      if k == 1 {
        NoMembers(ms, pr);
        MemberRegroup([], [], [q], [":"], item, rest);
        NothingBefore([q] + ([":"] + (item + rest)));
      } else {
        SeparableMembers(ms, k - 1, pr, scan, [","] + ([q] + ([":"] + (item + rest))));
        MemberRegroup(MemberToks(ms, k - 1, pr), [","], [q], [":"], item, rest);
      }
    }
  }

  lemma NothingBefore(tail: seq<string>)
    ensures [] + ([] + tail) == tail
  {
  }

  lemma SeparableNamed(name: string, value: seq<string>)
    requires Separable(value)
    ensures var tail := [Quoted(name)] + ([":"] + value);
            Separable(tail) && Separable([","] + tail) && Closes([","] + tail)
  {
    hide Separable, Quoted, IsToken, IsNumberText;
    PunctuationIsToken(':');
    SeparableCons(":", value);
    QuotedIsToken(name);
    SeparableCons(Quoted(name), [":"] + value);
    PunctuationIsToken(',');
    SeparableCons(",", [Quoted(name)] + ([":"] + value));
  }

  lemma LastMember(ms: seq<Member>, k: nat, pr: real -> string)
    requires WfMembers(ms) && 0 < k <= |ms|
    ensures MemberToks(ms, k, pr) == MemberToks(ms, k - 1, pr) + MemberPiece(ms, k - 1, pr)
  {
    hide MemberPiece;
  }

  lemma MemberRegroup(m: seq<string>, s: seq<string>, q: seq<string>, d: seq<string>, a: seq<string>, r: seq<string>)
    ensures m + (s + (q + (d + a))) + r == m + (s + (q + (d + (a + r))))
  {
    assert d + a + r == d + (a + r);
    assert q + (d + a) + r == q + (d + a + r);
    assert s + (q + (d + a)) + r == s + (q + (d + a) + r);
    assert m + (s + (q + (d + a))) + r == m + (s + (q + (d + a)) + r);
  }

  lemma ValueOfMember(ms: seq<Member>, k: nat, pr: real -> string)
    requires WfMembers(ms) && k < |ms| && Wf(ms[k].item)
    ensures MemberValue(ms, k, pr) == Toks(ms[k].item, pr)
  {
    hide Toks;
  }

  lemma QuotedIsToken(s: string)
    ensures IsToken(Quoted(s)) && !IsNumberText(Quoted(s))
  {
  }

  /**
    The reader's tokenizer finds the same tokens in both printers' output: whatever the styled
    writer decides about lines, it differs from the fast writer in blanks between tokens only.
   */
  lemma PrintersAgree(v: Value, colon: string, pr: real -> string, scan: string -> Option<real>)
    requires Wf(v) && Readable(v, pr, scan) && IsColon(colon)
    ensures Lexemes(FastText(v, colon, pr) + "\n", 0) == Lexemes(StyledText(v, "", "", pr) + "\n", 0) == Toks(v, pr)
  {
    hide Lexes, Toks, FastText, StyledText, Readable, Wf, Lexemes, Separable, GoodToken;
    FastLexes(v, colon, pr, scan);
    GoodToks(v, pr, scan);
    LexesAddBlank(FastText(v, colon, pr), Toks(v, pr), "\n");
    StyledLayout(v, pr, scan);
    NothingSeparable();
    SeparableToks(v, pr, scan, []);
    assert Toks(v, pr) + [] == Toks(v, pr);
    LexemesOfLayout(FastText(v, colon, pr) + "\n", 0, Toks(v, pr));
    LexemesOfLayout(StyledText(v, "", "", pr) + "\n", 0, Toks(v, pr));
  }

  lemma NothingSeparable()
    ensures Separable([])
  {
  }
}
