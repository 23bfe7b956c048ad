/**
  What public/json/json_reader.cpp computes, as functions of a document and a position in it.
  Module `JsonReader` holds the imperative reader and proves that it computes these functions.

  A document is NUL-terminated: looking at the position `|doc|` shows the terminator.
 */
module JsonGrammar {
  import opened Common
  import opened JsonValue

  datatype TokenKind =
    | EndOfStream | ObjectBegin | ObjectEnd | ArrayBegin | ArrayEnd
    | StringToken | NumberToken | TrueToken | FalseToken | NullToken
    | ArraySeparator | MemberSeparator | CommentToken | ErrorToken

  datatype Token = Token(kind: TokenKind, start: nat, end: nat)

  datatype ErrorKind =
    | ValueExpected | MissingColon | MissingCommaInObject | MissingMemberName
    | NotANumber | EmptyEscape | BadEscape | FourDigitsExpected | HexDigitExpected
    | SurrogateTooShort | SurrogateExpected | RootNotContainer

  datatype ErrorInfo = ErrorInfo(kind: ErrorKind, token: Token, extra: Option<nat>)

  /** `Features`, with `sscanf("%lf")` as a parameter. */
  datatype Config = Config(allowComments: bool, strictRoot: bool, scanReal: string -> Option<real>)

  // ---------------------------------------------------------------- characters

  function Peek(doc: string, p: nat): char
    requires p <= |doc|
  {
    if p < |doc| then doc[p] else '\0'
  }

  predicate IsSpace(c: char) {
    c == ' ' || c == '\t' || c == '\r' || c == '\n'
  }

  predicate IsNumberChar(c: char) {
    IsDigit(c) || c == '.' || c == 'e' || c == 'E' || c == '+' || c == '-'
  }

  // ---------------------------------------------------------------- scanning

  function SkipSpaces(doc: string, p: nat): (q: nat)
    requires p <= |doc|
    ensures p <= q <= |doc|
    ensures forall i :: p <= i < q ==> IsSpace(doc[i])
    ensures q < |doc| ==> !IsSpace(doc[q])
    decreases |doc| - p
  {
    if p < |doc| && IsSpace(doc[p]) then SkipSpaces(doc, p + 1) else p
  }

  function ScanNumber(doc: string, p: nat): (q: nat)
    requires p <= |doc|
    ensures p <= q <= |doc|
    ensures forall i :: p <= i < q ==> IsNumberChar(doc[i])
    ensures q < |doc| ==> !IsNumberChar(doc[q])
    decreases |doc| - p
  {
    if p < |doc| && IsNumberChar(doc[p]) then ScanNumber(doc, p + 1) else p
  }

  datatype Scan = Scan(ok: bool, end: nat)

  /** `readString`, after the opening quote: up to the first quote that no backslash escapes. */
  function ScanString(doc: string, p: nat): (r: Scan)
    requires p <= |doc|
    ensures p <= r.end <= |doc|
    ensures r.ok ==> p < r.end && doc[r.end - 1] == '"'
    decreases |doc| - p
  {
    if p == |doc| then Scan(false, p)
    else if doc[p] == '\\' then ScanString(doc, if p + 1 < |doc| then p + 2 else p + 1)
    else if doc[p] == '"' then Scan(true, p + 1)
    else ScanString(doc, p + 1)
  }

  /** `readCStyleComment`, after the opening slash and star. */
  function ScanCComment(doc: string, p: nat): (r: Scan)
    requires p <= |doc|
    ensures p <= r.end <= |doc|
    decreases |doc| - p
  {
    if p == |doc| then Scan(false, p)
    else if doc[p] == '*' && Peek(doc, p + 1) == '/' then Scan(true, p + 2)
    else ScanCComment(doc, p + 1)
  }

  /** `readCppStyleComment`, after the two slashes: through the end of the line. */
  function ScanLine(doc: string, p: nat): (q: nat)
    requires p <= |doc|
    ensures p <= q <= |doc|
    decreases |doc| - p
  {
    if p == |doc| then p
    else if doc[p] == '\r' || doc[p] == '\n' then p + 1
    else ScanLine(doc, p + 1)
  }

  function ScanComment(doc: string, p: nat): (r: Scan)
    requires p <= |doc|
    ensures p <= r.end <= |doc|
  {
    if p == |doc| then Scan(false, p)
    else if doc[p] == '*' then ScanCComment(doc, p + 1)
    else if doc[p] == '/' then Scan(true, ScanLine(doc, p + 1))
    else Scan(false, p + 1)
  }

  predicate Matches(doc: string, p: nat, pattern: string)
    requires p <= |doc|
  {
    p + |pattern| <= |doc| && doc[p..p + |pattern|] == pattern
  }

  function Keyword(doc: string, s: nat, rest: string, kind: TokenKind): (t: Token)
    requires s < |doc|
    ensures t.start == s < t.end <= |doc| && (t.kind == kind || t.kind == ErrorToken)
  {
    if Matches(doc, s + 1, rest) then Token(kind, s, s + 1 + |rest|) else Token(ErrorToken, s, s + 1)
  }

  /** What a token of its kind guarantees about the document. */
  ghost predicate TokenOf(doc: string, t: Token) {
    && t.start <= t.end <= |doc|
    && (t.kind == StringToken ==>
          t.start + 2 <= t.end && ScanString(doc, t.start + 1) == Scan(true, t.end))
    && (t.kind == NumberToken ==>
          && t.start < t.end == ScanNumber(doc, t.start + 1)
          && (IsDigit(doc[t.start]) || doc[t.start] == '-'))
  }

  /** The tokens that are one character, the terminator among them. */
  function Punctuation(c: char): (k: Option<TokenKind>)
    ensures k.Some? ==> k.value != StringToken && k.value != NumberToken && k.value != CommentToken
  {
    if c == '{' then Some(ObjectBegin)
    else if c == '}' then Some(ObjectEnd)
    else if c == '[' then Some(ArrayBegin)
    else if c == ']' then Some(ArrayEnd)
    else if c == ',' then Some(ArraySeparator)
    else if c == ':' then Some(MemberSeparator)
    else if c == '\0' then Some(EndOfStream)
    else None
  }

  function TokenAt(doc: string, s: nat): (t: Token)
    requires s < |doc|
    ensures t.start == s < t.end && TokenOf(doc, t)
  {
    var c := doc[s];
    if Punctuation(c).Some? then Token(Punctuation(c).value, s, s + 1)
    else if c == '"' then
      var r := ScanString(doc, s + 1);
      Token(if r.ok then StringToken else ErrorToken, s, r.end)
    else if c == '/' then
      var r := ScanComment(doc, s + 1);
      Token(if r.ok then CommentToken else ErrorToken, s, r.end)
    else if IsDigit(c) || c == '-' then Token(NumberToken, s, ScanNumber(doc, s + 1))
    else if c == 't' then Keyword(doc, s, "rue", TrueToken)
    else if c == 'f' then Keyword(doc, s, "alse", FalseToken)
    else if c == 'n' then Keyword(doc, s, "ull", NullToken)
    else Token(ErrorToken, s, s + 1)
  }

  /** `readToken`. The end of the token is the position the reader moves to. */
  function ReadToken(doc: string, p: nat): (t: Token)
    requires p <= |doc|
    ensures t.start == SkipSpaces(doc, p) && TokenOf(doc, t)
    ensures t.end == p ==> t.kind == EndOfStream
    ensures t.kind != EndOfStream ==> t.start < t.end
  {
    var s := SkipSpaces(doc, p);
    if s == |doc| then Token(EndOfStream, s, s) else TokenAt(doc, s)
  }

  /** The first token that is not a comment. */
  function ReadNonComment(doc: string, p: nat): (t: Token)
    requires p <= |doc|
    ensures p <= t.start && TokenOf(doc, t)
    ensures t.kind != CommentToken
    ensures t.end == p ==> t.kind == EndOfStream
    ensures t.kind != EndOfStream ==> t.start < t.end
    decreases |doc| - p
  {
    var t := ReadToken(doc, p);
    if t.kind == CommentToken then ReadNonComment(doc, t.end) else t
  }

  /** `recoverFromError`: skip through the first closing token of that kind, or to the end. */
  function Recover(doc: string, p: nat, until: TokenKind): (q: nat)
    requires p <= |doc|
    ensures p <= q <= |doc|
    decreases |doc| - p
  {
    var t := ReadToken(doc, p);
    if t.kind == until || t.kind == EndOfStream then t.end else Recover(doc, t.end, until)
  }

  // ---------------------------------------------------------------- decoding strings

  function Hex(c: char): (h: int)
    ensures -1 <= h < 16
  {
    if '0' <= c <= '9' then c as int - '0' as int
    else if 'a' <= c <= 'f' then c as int - 'a' as int + 10
    else if 'A' <= c <= 'F' then c as int - 'A' as int + 10
    else -1
  }

  /** `codePointToUTF8`; nothing is produced above the last code point. */
  function Utf8(cp: nat): (s: string) {
    if cp <= 0x7F then [cp as char]
    else if cp <= 0x7FF then [Byte(0xC0 + cp / 64), Byte(0x80 + cp % 64)]
    else if cp <= 0xFFFF then [Byte(0xE0 + cp / 4096), Byte(0x80 + cp / 64 % 64), Byte(0x80 + cp % 64)]
    else if cp <= 0x10FFFF then
      [Byte(0xF0 + cp / 262144), Byte(0x80 + cp / 4096 % 64), Byte(0x80 + cp / 64 % 64), Byte(0x80 + cp % 64)]
    else []
  }

  function Byte(n: nat): (c: char)
    requires n < 256
  {
    n as char
  }

  /** A decoding step: the code point, or the error and where it points. */
  datatype Unit = Good(cp: nat, next: nat) | Bad(kind: ErrorKind, extra: nat)

  /** `decodeUnicodeEscapeSequence`: four hexadecimal digits. */
  function HexQuad(doc: string, p: nat, end: nat): (u: Unit)
    requires p <= end <= |doc|
    ensures u.Good? ==> u.next == p + 4 <= end && u.cp < 0x10000
  {
    if end - p < 4 then Bad(FourDigitsExpected, p)
    else HexDigits(doc, p, p, 0)
  }

  function HexDigits(doc: string, start: nat, p: nat, acc: nat): (u: Unit)
    requires start <= p <= start + 4 <= |doc|
    requires acc < (if p == start then 1 else if p == start + 1 then 16 else if p == start + 2 then 256
                    else if p == start + 3 then 4096 else 65536)
    ensures u.Good? ==> u.next == start + 4 && u.cp < 0x10000
    decreases start + 4 - p
  {
    if p == start + 4 then Good(acc, p)
    else if Hex(doc[p]) < 0 then Bad(HexDigitExpected, p + 1)
    else HexDigits(doc, start, p + 1, acc * 16 + Hex(doc[p]))
  }

  /** `decodeUnicodeCodePoint`: one escape, or a surrogate pair written as two. */
  function CodePoint(doc: string, p: nat, end: nat): (u: Unit)
    requires p <= end <= |doc|
    ensures u.Good? ==> p < u.next <= end
  {
    var u := HexQuad(doc, p, end);
    if u.Bad? || !(0xD800 <= u.cp <= 0xDBFF) then u
    else if end - u.next < 6 then Bad(SurrogateTooShort, u.next)
    else if doc[u.next] != '\\' then Bad(SurrogateExpected, u.next + 1)
    else if doc[u.next + 1] != 'u' then Bad(SurrogateExpected, u.next + 2)
    else
      var w := HexQuad(doc, u.next + 2, end);
      if w.Bad? then w
      else Good(0x10000 + (u.cp % 0x400) * 0x400 + w.cp % 0x400, w.next)
  }

  function SimpleEscape(c: char): (r: Option<char>) {
    if c == '"' then Some('"')
    else if c == '/' then Some('/')
    else if c == '\\' then Some('\\')
    else if c == 'b' then Some(0x08 as char)
    else if c == 'f' then Some(0x0C as char)
    else if c == 'n' then Some('\n')
    else if c == 'r' then Some('\r')
    else if c == 't' then Some('\t')
    else None
  }

  datatype Decoded = Text(text: string) | Failed(kind: ErrorKind, extra: nat)

  /** `decodeString` between the quotes. */
  function DecodeChars(doc: string, p: nat, end: nat, acc: string): (r: Decoded)
    requires p <= end <= |doc|
    decreases end - p
  {
    if p == end || doc[p] == '"' then Text(acc)
    else if doc[p] != '\\' then DecodeChars(doc, p + 1, end, acc + [doc[p]])
    else if p + 1 == end then Failed(EmptyEscape, p + 1)
    else if doc[p + 1] == 'u' then
      var u := CodePoint(doc, p + 2, end);
      if u.Bad? then Failed(u.kind, u.extra) else DecodeChars(doc, u.next, end, acc + Utf8(u.cp))
    else if SimpleEscape(doc[p + 1]).None? then Failed(BadEscape, p + 2)
    else DecodeChars(doc, p + 2, end, acc + [SimpleEscape(doc[p + 1]).value])
  }

  // ---------------------------------------------------------------- decoding numbers

  predicate MarksReal(c: char) {
    c == '.' || c == 'e' || c == 'E' || c == '+'
  }

  /** Whether the text of a number token goes to the floating point decoder at once. */
  predicate LooksReal(text: string) {
    exists i :: 0 <= i < |text| && (MarksReal(text[i]) || (text[i] == '-' && i != 0))
  }

  predicate AllDigits(text: string) {
    forall i :: 0 <= i < |text| ==> IsDigit(text[i])
  }

  /** Digit by digit; none when a further digit comes at or above the threshold. */
  function DecodeDigits(text: string, acc: nat, threshold: nat): (n: Option<nat>)
    requires AllDigits(text)
  {
    if text == [] then Some(acc)
    else if acc >= threshold then None
    else
      assert IsDigit(text[0]);
      DecodeDigits(text[1..], acc * 10 + (text[0] as int - '0' as int), threshold)
  }

  const NEGATIVE_THRESHOLD := 0x8000_0000 / 10
  const POSITIVE_THRESHOLD := 0xFFFF_FFFF / 10

  predicate IsNumberText(text: string) {
    text != [] && (IsDigit(text[0]) || text[0] == '-') && forall i :: 0 <= i < |text| ==> IsNumberChar(text[i])
  }

  function DecodeReal(text: string, scanReal: string -> Option<real>): (v: Option<Value>) {
    var r := scanReal(text);
    if r.None? then None else Some(Real(r.value))
  }

  lemma DigitsAfterSign(text: string)
    requires IsNumberText(text) && !LooksReal(text)
    ensures AllDigits(text[1..])
    ensures text[0] != '-' ==> AllDigits(text)
  {
    forall i | 1 <= i < |text| ensures IsDigit(text[i]) {
      assert IsNumberChar(text[i]);
    }
  }

  /** `decodeNumber`: none when the text is not a number. */
  function DecodeNumber(text: string, scanReal: string -> Option<real>): (v: Option<Value>)
    requires IsNumberText(text)
  {
    if LooksReal(text) then DecodeReal(text, scanReal)
    else
      DigitsAfterSign(text);
      var digits := if text[0] == '-' then text[1..] else text;
      var n := DecodeDigits(digits, 0, if text[0] == '-' then NEGATIVE_THRESHOLD else POSITIVE_THRESHOLD);
      if n.None? then DecodeReal(text, scanReal)
      else if text[0] == '-' then Some(Int(0 - n.value))
      else if n.value <= MAX_INT then Some(Int(n.value))
      else Some(UInt(n.value))
  }

  // ---------------------------------------------------------------- values

  datatype Outcome = Outcome(ok: bool, pos: nat, errors: seq<ErrorInfo>, value: Value)

  /** What every reading function keeps: it moves forward, and fails exactly when it reports. */
  ghost predicate Sound(doc: string, p: nat, errors: seq<ErrorInfo>, r: Outcome) {
    && p <= r.pos <= |doc|
    && errors <= r.errors
    && (r.ok <==> r.errors == errors)
  }

  function Fail(doc: string, p: nat, errors: seq<ErrorInfo>, e: ErrorInfo, until: TokenKind, v: Value): (r: Outcome)
    requires p <= |doc|
    ensures Sound(doc, p, errors, r) && !r.ok
  {
    assert |errors + [e]| > |errors|;
    Outcome(false, Recover(doc, p, until), errors + [e], v)
  }

  function Report(t: Token, errors: seq<ErrorInfo>, e: ErrorInfo, cur: Value): (r: Outcome)
    ensures !r.ok && r.errors == errors + [e] && errors < r.errors && r.pos == t.end
  {
    assert |errors + [e]| > |errors|;
    Outcome(false, t.end, errors + [e], cur)
  }

  function NumberAt(cfg: Config, doc: string, t: Token): (v: Option<Value>)
    requires t.start < t.end <= |doc|
    requires t.end == ScanNumber(doc, t.start + 1) && (IsDigit(doc[t.start]) || doc[t.start] == '-')
  {
    assert IsNumberText(doc[t.start..t.end]);
    DecodeNumber(doc[t.start..t.end], cfg.scanReal)
  }

  /** The cases of `readValue` that end with their token. */
  function ScalarAt(cfg: Config, doc: string, t: Token, errors: seq<ErrorInfo>, cur: Value): (r: Outcome)
    requires TokenOf(doc, t)
    ensures r.pos == t.end && errors <= r.errors && (r.ok <==> r.errors == errors)
    ensures t.kind == EndOfStream ==> !r.ok
  {
    match t.kind
    case NumberToken =>
      var v := NumberAt(cfg, doc, t);
      if v.Some? then Outcome(true, t.end, errors, v.value)
      else Report(t, errors, ErrorInfo(NotANumber, t, None), cur)
    case StringToken =>
      var d := DecodeChars(doc, t.start + 1, t.end - 1, "");
      if d.Text? then Outcome(true, t.end, errors, Str(d.text))
      else Report(t, errors, ErrorInfo(d.kind, t, Some(d.extra)), cur)
    case TrueToken => Outcome(true, t.end, errors, Bool(true))
    case FalseToken => Outcome(true, t.end, errors, Bool(false))
    case NullToken => Outcome(true, t.end, errors, Null)
    case _ => Report(t, errors, ErrorInfo(ValueExpected, t, None), cur)
  }

  /** The token `readValue` starts from. */
  function ValueToken(cfg: Config, doc: string, p: nat): (t: Token)
    requires p <= |doc|
    ensures TokenOf(doc, t) && p <= t.start
    ensures t.end == p ==> t.kind == EndOfStream
  {
    if cfg.allowComments then ReadNonComment(doc, p) else ReadToken(doc, p)
  }

  /** `readValue`, where `cur` is what the current node holds beforehand. */
  function ReadValue(cfg: Config, doc: string, p: nat, errors: seq<ErrorInfo>, cur: Value): (r: Outcome)
    requires p <= |doc|
    ensures Sound(doc, p, errors, r)
    ensures r.ok ==> p < r.pos
    decreases |doc| - p, 1
  {
    var t := ValueToken(cfg, doc, p);
    if t.kind == ObjectBegin then ReadObject(cfg, doc, t.end, errors, [], "")
    else if t.kind == ArrayBegin then
      var q := SkipSpaces(doc, t.end);
      if Peek(doc, q) == ']' then Outcome(true, q + 1, errors, Array([]))
      else ReadArray(cfg, doc, q, errors, [])
    else ScalarAt(cfg, doc, t, errors, cur)
  }

  /** `readArray` from an item on. Any token but the closing bracket separates two items. */
  function ReadArray(cfg: Config, doc: string, p: nat, errors: seq<ErrorInfo>, items: seq<Elem>): (r: Outcome)
    requires p <= |doc|
    ensures Sound(doc, p, errors, r)
    ensures r.ok ==> p < r.pos
    decreases |doc| - p, 2
  {
    var v := ReadValue(cfg, doc, p, errors, Null);
    var items' := items + [Elem(|items|, v.value)];
    if !v.ok then Outcome(false, Recover(doc, v.pos, ArrayEnd), v.errors, Array(items'))
    else
      var t := ReadNonComment(doc, v.pos);
      if t.kind == ArrayEnd then Outcome(true, t.end, v.errors, Array(items'))
      else ReadArray(cfg, doc, t.end, v.errors, items')
  }

  /** One item of `readArray`. */
  lemma ArrayStep(cfg: Config, doc: string, p: nat, errors: seq<ErrorInfo>, items: seq<Elem>)
    requires p <= |doc|
    ensures var v := ReadValue(cfg, doc, p, errors, Null);
            var items' := items + [Elem(|items|, v.value)];
            var t := ReadNonComment(doc, v.pos);
            ReadArray(cfg, doc, p, errors, items) ==
            (if !v.ok then Outcome(false, Recover(doc, v.pos, ArrayEnd), v.errors, Array(items'))
             else if t.kind == ArrayEnd then Outcome(true, t.end, v.errors, Array(items'))
             else ReadArray(cfg, doc, t.end, v.errors, items'))
  {
    hide ReadValue, ReadNonComment, Recover;
  }

  /** How far into an object: ended, or a name read, or a member stored and another to come. */
  datatype ObjectStep =
    | Ended(r: Outcome)
    | Named(text: string, pos: nat)
    | Stored(pos: nat)

  /** The name a string token gives, and the colon behind it. */
  function NamedBy(doc: string, t: Token, errors: seq<ErrorInfo>, ms: seq<Member>): (s: ObjectStep)
    requires t.start + 2 <= t.end <= |doc|
    ensures !s.Stored?
    ensures s.Ended? ==> Sound(doc, t.end, errors, s.r) && !s.r.ok && s.r.value == Object(ms)
    ensures s.Named? ==> t.end < s.pos <= |doc|
  {
    var d := DecodeChars(doc, t.start + 1, t.end - 1, "");
    if d.Failed? then Ended(Fail(doc, t.end, errors, ErrorInfo(d.kind, t, Some(d.extra)), ObjectEnd, Object(ms)))
    else
      var colon := ReadToken(doc, t.end);
      if colon.kind != MemberSeparator then
        Ended(Fail(doc, colon.end, errors, ErrorInfo(MissingColon, colon, None), ObjectEnd, Object(ms)))
      else Named(d.text, colon.end)
  }

  /**
    The name and colon of a member. `name` is the previous member's name: a closing brace is
    accepted here only while it is empty.
   */
  function MemberName(doc: string, p: nat, errors: seq<ErrorInfo>, ms: seq<Member>, name: string): (s: ObjectStep)
    requires p <= |doc|
    ensures !s.Stored?
    ensures s.Ended? ==> Sound(doc, p, errors, s.r) && (s.r.ok ==> p < s.r.pos) && s.r.value == Object(ms)
    ensures s.Named? ==> p < s.pos <= |doc|
  {
    var t := ReadNonComment(doc, p);
    if t.kind == ObjectEnd && name == "" then Ended(Outcome(true, t.end, errors, Object(ms)))
    else if t.kind != StringToken then
      Ended(Fail(doc, t.end, errors, ErrorInfo(MissingMemberName, t, None), ObjectEnd, Object(ms)))
    else NamedBy(doc, t, errors, ms)
  }

  /** What follows a member's value. A comment there makes any next token a separator. */
  function MemberEnd(doc: string, p: nat, errors: seq<ErrorInfo>, ms: seq<Member>): (s: ObjectStep)
    requires p <= |doc|
    ensures !s.Named?
    ensures s.Ended? ==> Sound(doc, p, errors, s.r) && s.r.value == Object(ms)
    ensures s.Stored? ==> p <= s.pos <= |doc|
  {
    var comma := ReadToken(doc, p);
    if comma.kind != ObjectEnd && comma.kind != ArraySeparator && comma.kind != CommentToken then
      Ended(Fail(doc, comma.end, errors, ErrorInfo(MissingCommaInObject, comma, None), ObjectEnd, Object(ms)))
    else
      var last := if comma.kind == CommentToken then ReadNonComment(doc, comma.end) else comma;
      if last.kind == ObjectEnd then Ended(Outcome(true, last.end, errors, Object(ms)))
      else Stored(last.end)
  }

  /** `readObject` from a member on. */
  function ReadObject(cfg: Config, doc: string, p: nat, errors: seq<ErrorInfo>, ms: seq<Member>,
      name: string): (r: Outcome)
    requires p <= |doc|
    ensures Sound(doc, p, errors, r)
    ensures r.ok ==> p < r.pos
    decreases |doc| - p, 2
  {
    var n := MemberName(doc, p, errors, ms, name);
    if n.Ended? then n.r
    else
      var key := CStr(n.text);
      var v := ReadValue(cfg, doc, n.pos, errors, Lookup(ms, key));
      var ms' := Put(ms, key, v.value);
      if !v.ok then Outcome(false, Recover(doc, v.pos, ObjectEnd), v.errors, Object(ms'))
      else
        var e := MemberEnd(doc, v.pos, v.errors, ms');
        if e.Ended? then e.r else ReadObject(cfg, doc, e.pos, v.errors, ms', n.text)
  }

  /** `Reader::parse` into a root that holds some value; comments are not collected. */
  function Parse(cfg: Config, doc: string, root: Value): (r: Outcome)
    ensures r.ok <==> r.errors == []
    ensures r.pos <= |doc|
    ensures r.ok && cfg.strictRoot ==> r.value.Null? || r.value.Array? || r.value.Object?
  {
    var v := ReadValue(cfg, doc, 0, [], root);
    var t := ValueToken(cfg, doc, v.pos);
    if cfg.strictRoot && !(v.value.Null? || v.value.Array? || v.value.Object?) then
      var e := ErrorInfo(RootNotContainer, Token(ErrorToken, 0, |doc|), None);
      assert |v.errors + [e]| > 0;
      Outcome(false, t.end, v.errors + [e], v.value)
    else v.(pos := t.end)
  }
}
