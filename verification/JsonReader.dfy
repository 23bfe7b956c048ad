/**
  The reader of public/json/json_reader.cpp: a position, an error list and a stack of nodes,
  updated in place. The source's stack holds pointers into the tree under construction, and only
  the top one is written through; here the stack holds the values themselves, and popping a node
  stores it into the one below.
 */
module JsonReader {
  import opened Common
  import opened JsonValue
  import opened JsonGrammar

  class Reader {
    const cfg: Config
    var document: string
    var current: nat
    var errors: seq<ErrorInfo>
    var nodes: seq<Value>

    constructor (cfg: Config)
      ensures this.cfg == cfg
    {
      this.cfg := cfg;
      document, current, errors, nodes := "", 0, [], [];
    }

    ghost predicate Valid()
      reads this
    {
      current <= |document|
    }

    /** The depth of the node stack and everything below its top. */
    function Below(): (s: seq<Value>)
      requires nodes != []
      reads this
      ensures |s| + 1 == |nodes|
    {
      nodes[..|nodes| - 1]
    }

    function CurrentValue(): (v: Value)
      requires nodes != []
      reads this
    {
      nodes[|nodes| - 1]
    }

    method SetCurrent(v: Value)
      requires nodes != []
      modifies `nodes
      ensures nodes == old(Below()) + [v]
    {
      nodes := nodes[..|nodes| - 1] + [v];
    }

    // -------------------------------------------------------------- characters and tokens

    method GetNextChar() returns (c: char)
      requires Valid()
      modifies `current
      ensures Valid() && c == Peek(document, old(current))
      ensures current == if old(current) < |document| then old(current) + 1 else old(current)
    {
      if current == |document| {
        return '\0';
      }
      c := document[current];
      current := current + 1;
    }

    method SkipBlanks()
      requires Valid()
      modifies `current
      ensures Valid() && current == SkipSpaces(document, old(current))
    {
      while current != |document|
        invariant Valid()
        invariant SkipSpaces(document, current) == SkipSpaces(document, old(current))
        decreases |document| - current
      {
        var c := document[current];
        if c == ' ' || c == '\t' || c == '\r' || c == '\n' {
          current := current + 1;
        } else {
          break;
        }
      }
    }

    method Match(pattern: string) returns (ok: bool)
      requires Valid()
      modifies `current
      ensures Valid() && ok == Matches(document, old(current), pattern)
      ensures current == if ok then old(current) + |pattern| else old(current)
    {
      if |document| - current < |pattern| {
        return false;
      }
      var index := |pattern|;
      while index != 0
        invariant 0 <= index <= |pattern|
        invariant current == old(current)
        invariant forall i :: index <= i < |pattern| ==> document[current + i] == pattern[i]
      {
        index := index - 1;
        if document[current + index] != pattern[index] {
          assert document[current..current + |pattern|][index] != pattern[index];
          return false;
        }
      }
      current := current + |pattern|;
      return true;
    }

    method ReadString() returns (ok: bool)
      requires Valid()
      modifies `current
      ensures Valid() && Scan(ok, current) == ScanString(document, old(current))
    {
      var c := '\0';
      while current != |document|
        invariant Valid() && c != '"'
        invariant ScanString(document, current) == ScanString(document, old(current))
        decreases |document| - current
      {
        c := GetNextChar();
        if c == '\\' {
          var _ := GetNextChar();
        } else if c == '"' {
          break;
        }
      }
      return c == '"';
    }

    method ReadNumber()
      requires Valid()
      modifies `current
      ensures Valid() && current == ScanNumber(document, old(current))
    {
      while current != |document|
        invariant Valid()
        invariant ScanNumber(document, current) == ScanNumber(document, old(current))
        decreases |document| - current
      {
        if !IsNumberChar(document[current]) {
          break;
        }
        current := current + 1;
      }
    }

    method ReadCStyleComment() returns (ok: bool)
      requires Valid()
      modifies `current
      ensures Valid() && Scan(ok, current) == ScanCComment(document, old(current))
    {
      while current != |document|
        invariant Valid()
        invariant ScanCComment(document, current) == ScanCComment(document, old(current))
        decreases |document| - current
      {
        var c := GetNextChar();
        if c == '*' && Peek(document, current) == '/' {
          break;
        }
      }
      var c := GetNextChar();
      return c == '/';
    }

    method ReadCppStyleComment() returns (ok: bool)
      requires Valid()
      modifies `current
      ensures Valid() && ok && current == ScanLine(document, old(current))
    {
      while current != |document|
        invariant Valid()
        invariant ScanLine(document, current) == ScanLine(document, old(current))
        decreases |document| - current
      {
        var c := GetNextChar();
        if c == '\r' || c == '\n' {
          break;
        }
      }
      return true;
    }

    method ReadComment() returns (ok: bool)
      requires Valid()
      modifies `current
      ensures Valid() && Scan(ok, current) == ScanComment(document, old(current))
    {
      var c := GetNextChar();
      ok := false;
      if c == '*' {
        ok := ReadCStyleComment();
      } else if c == '/' {
        ok := ReadCppStyleComment();
      }
    }

    method NextToken() returns (token: Token)
      requires Valid()
      modifies `current
      ensures Valid() && token == ReadToken(document, old(current)) && current == token.end
    {
      hide SkipSpaces, ScanString, ScanComment, ScanNumber, TokenOf;
      SkipBlanks();
      var start := current;
      var c := GetNextChar();
      var ok := true;
      var kind := ErrorToken;
      if Punctuation(c).Some? {
        kind := Punctuation(c).value;
      } else if c == '"' {
        kind := StringToken;
        ok := ReadString();
      } else if c == '/' {
        kind := CommentToken;
        ok := ReadComment();
      } else if IsDigit(c) || c == '-' {
        kind := NumberToken;
        ReadNumber();
      } else if c == 't' {
        kind := TrueToken;
        ok := Match("rue");
      } else if c == 'f' {
        kind := FalseToken;
        ok := Match("alse");
      } else if c == 'n' {
        kind := NullToken;
        ok := Match("ull");
      } else {
        ok := false;
      }
      if !ok {
        kind := ErrorToken;
      }
      token := Token(kind, start, current);
    }

    /** A token that is not a comment; how objects and arrays pass over comments. */
    method NextNonComment() returns (token: Token)
      requires Valid()
      modifies `current
      ensures Valid() && token == ReadNonComment(document, old(current)) && current == token.end
    {
      token := NextToken();
      while token.kind == CommentToken
        invariant Valid() && current == token.end
        invariant ReadNonComment(document, old(current))
               == if token.kind == CommentToken then ReadNonComment(document, token.end) else token
        decreases |document| - current, if token.kind == CommentToken then 1 else 0
      {
        token := NextToken();
      }
    }

    method SkipCommentTokens() returns (token: Token)
      requires Valid()
      modifies `current
      ensures Valid() && current == token.end
      ensures token == ValueToken(cfg, document, old(current))
    {
      if cfg.allowComments {
        token := NextNonComment();
      } else {
        token := NextToken();
      }
    }

    // -------------------------------------------------------------- errors

    method AddError(kind: ErrorKind, token: Token, extra: Option<nat>) returns (ok: bool)
      modifies `errors
      ensures !ok && errors == old(errors) + [ErrorInfo(kind, token, extra)]
    {
      errors := errors + [ErrorInfo(kind, token, extra)];
      return false;
    }

    method RecoverFromError(until: TokenKind) returns (ok: bool)
      requires Valid()
      modifies `current, `errors
      ensures Valid() && !ok && current == Recover(document, old(current), until)
      ensures errors == old(errors)
    {
      var errorCount := |errors|;
      var more := true;
      while more
        invariant Valid() && errors == old(errors)
        invariant more ==> Recover(document, current, until) == Recover(document, old(current), until)
        invariant !more ==> current == Recover(document, old(current), until)
        decreases |document| - current, if more then 1 else 0
      {
        var skip := NextToken();
        more := skip.kind != until && skip.kind != EndOfStream;
      }
      errors := errors[..errorCount];
      return false;
    }

    /** `addErrorAndRecover`, once the error is recorded: the object ends with what it has. */
    method EndRecovering(ghost base: seq<ErrorInfo>, ghost e: ErrorInfo, ghost ms: seq<Member>)
        returns (step: ObjectStep)
      requires Valid() && nodes != [] && CurrentValue() == Object(ms) && errors == base + [e]
      modifies `current, `errors
      ensures Valid() && step == Ended(Fail(document, old(current), base, e, ObjectEnd, Object(ms)))
      ensures current == step.r.pos && errors == step.r.errors
    {
      hide Recover;
      var ok := RecoverFromError(ObjectEnd);
      return Ended(Outcome(ok, current, errors, CurrentValue()));
    }

    // -------------------------------------------------------------- scalars

    method DecodeDouble(token: Token) returns (ok: bool)
      requires token.start <= token.end <= |document| && nodes != []
      modifies `errors, `nodes
      ensures var v := DecodeReal(document[token.start..token.end], cfg.scanReal);
              && ok == v.Some?
              && errors == (if ok then old(errors) else old(errors) + [ErrorInfo(NotANumber, token, None)])
              && nodes == (if ok then old(Below()) + [v.value] else old(nodes))
    {
      var value := cfg.scanReal(document[token.start..token.end]);
      if value.None? {
        ok := AddError(NotANumber, token, None);
        return;
      }
      SetCurrent(Real(value.value));
      return true;
    }

    method DecodeNumberToken(token: Token) returns (ok: bool)
      requires token.start < token.end <= |document| && nodes != []
      requires token.end == ScanNumber(document, token.start + 1)
      requires IsDigit(document[token.start]) || document[token.start] == '-'
      modifies `errors, `nodes
      ensures var v := NumberAt(cfg, document, token);
              && ok == v.Some?
              && errors == (if ok then old(errors) else old(errors) + [ErrorInfo(NotANumber, token, None)])
              && nodes == (if ok then old(Below()) + [v.value] else old(nodes))
    {
      ghost var text := document[token.start..token.end];
      var isDouble := false;
      for inspect := token.start to token.end
        invariant isDouble <==>
                    exists i :: 0 <= i < inspect - token.start && (MarksReal(text[i]) || (text[i] == '-' && i != 0))
      {
        assert text[inspect - token.start] == document[inspect];
        isDouble := isDouble || MarksReal(document[inspect]) || (document[inspect] == '-' && inspect != token.start);
      }
      if isDouble {
        assert LooksReal(text);
        ok := DecodeDouble(token);
        return;
      }
      assert !LooksReal(text);
      assert IsNumberText(text);
      DigitsAfterSign(text);
      ok := DecodeInteger(token);
    }

    /** The digit loop of `decodeNumber`, for a token without a mark of a real number. */
    method DecodeInteger(token: Token) returns (ok: bool)
      requires token.start < token.end <= |document| && nodes != []
      requires IsNumberText(document[token.start..token.end]) && !LooksReal(document[token.start..token.end])
      modifies `errors, `nodes
      ensures var v := DecodeNumber(document[token.start..token.end], cfg.scanReal);
              && ok == v.Some?
              && errors == (if ok then old(errors) else old(errors) + [ErrorInfo(NotANumber, token, None)])
              && nodes == (if ok then old(Below()) + [v.value] else old(nodes))
    {
      ghost var text := document[token.start..token.end];
      DigitsAfterSign(text);
      var at := token.start;
      var isNegative := document[at] == '-';
      if isNegative {
        at := at + 1;
      }
      var threshold := (if isNegative then 0x8000_0000 else 0xFFFF_FFFF) / 10;
      var value := 0;
      ghost var digits := document[at..token.end];
      assert digits == if isNegative then text[1..] else text;
      while at < token.end
        invariant token.start <= at <= token.end
        invariant 0 <= value <= MAX_UINT
        invariant AllDigits(document[at..token.end])
        invariant DecodeDigits(document[at..token.end], value, threshold) == DecodeDigits(digits, 0, threshold)
        invariant errors == old(errors) && nodes == old(nodes)
      {
        ghost var rest := document[at..token.end];
        assert rest[0] == document[at] && rest[1..] == document[at + 1..token.end] && IsDigit(rest[0]);
        var c := document[at];
        at := at + 1;
        if value >= threshold {
          ok := DecodeDouble(token);
          return;
        }
        value := value * 10 + (c as int - '0' as int);
      }
      assert document[at..token.end] == [];
      if isNegative {
        SetCurrent(Int(-value));
      } else if value <= MAX_INT {
        SetCurrent(Int(value));
      } else {
        SetCurrent(UInt(value));
      }
      return true;
    }

    method DecodeUnicodeEscapeSequence(token: Token, at: nat, end: nat) returns (ok: bool, next: nat, unicode: nat)
      requires at <= end <= |document|
      modifies `errors
      ensures var u := HexQuad(document, at, end);
              && ok == u.Good?
              && (ok ==> u == Good(unicode, next) && errors == old(errors))
              && (!ok ==> errors == old(errors) + [ErrorInfo(u.kind, token, Some(u.extra))])
    {
      next, unicode := at, 0;
      if end - at < 4 {
        ok := AddError(FourDigitsExpected, token, Some(at));
        return;
      }
      for index := 0 to 4
        invariant next == at + index && errors == old(errors)
        invariant unicode < (if index == 0 then 1 else if index == 1 then 16 else if index == 2 then 256
                             else if index == 3 then 4096 else 65536)
        invariant HexDigits(document, at, next, unicode) == HexDigits(document, at, at, 0)
      {
        var c := document[next];
        next := next + 1;
        if Hex(c) < 0 {
          ok := AddError(HexDigitExpected, token, Some(next));
          return;
        }
        unicode := unicode * 16 + Hex(c);
      }
      ok := true;
    }

    method DecodeUnicodeCodePoint(token: Token, at: nat, end: nat) returns (ok: bool, next: nat, unicode: nat)
      requires at <= end <= |document|
      modifies `errors
      ensures var u := CodePoint(document, at, end);
              && ok == u.Good?
              && (ok ==> u == Good(unicode, next) && errors == old(errors))
              && (!ok ==> errors == old(errors) + [ErrorInfo(u.kind, token, Some(u.extra))])
    {
      ok, next, unicode := DecodeUnicodeEscapeSequence(token, at, end);
      if ok && 0xD800 <= unicode <= 0xDBFF {
        if end - next < 6 {
          ok := AddError(SurrogateTooShort, token, Some(next));
          return;
        }
        if document[next] != '\\' {
          ok := AddError(SurrogateExpected, token, Some(next + 1));
          return;
        }
        if document[next + 1] != 'u' {
          ok := AddError(SurrogateExpected, token, Some(next + 2));
          return;
        }
        var high, low := unicode, 0;
        ok, next, low := DecodeUnicodeEscapeSequence(token, next + 2, end);
        unicode := 0x10000 + (high % 0x400) * 0x400 + low % 0x400;
      }
    }

    /** `decodeString(token, decoded)`. */
    method DecodeText(token: Token) returns (ok: bool, decoded: string)
      requires token.start + 2 <= token.end <= |document|
      modifies `errors
      ensures var d := DecodeChars(document, token.start + 1, token.end - 1, "");
              && ok == d.Text?
              && (ok ==> d == Text(decoded) && errors == old(errors))
              && (!ok ==> errors == old(errors) + [ErrorInfo(d.kind, token, Some(d.extra))])
    {
      decoded := "";
      var at, end := token.start + 1, token.end - 1;
      while at != end
        invariant at <= end && errors == old(errors)
        invariant DecodeChars(document, at, end, decoded) == DecodeChars(document, token.start + 1, end, "")
        decreases end - at
      {
        var c := document[at];
        at := at + 1;
        if c == '"' {
          break;
        } else if c == '\\' {
          if at == end {
            ok := AddError(EmptyEscape, token, Some(at));
            return;
          }
          var escape := document[at];
          at := at + 1;
          if escape == 'u' {
            var unicode;
            ok, at, unicode := DecodeUnicodeCodePoint(token, at, end);
            if !ok {
              return;
            }
            decoded := decoded + Utf8(unicode);
          } else {
            var plain := SimpleEscape(escape);
            if plain.None? {
              ok := AddError(BadEscape, token, Some(at));
              return;
            }
            decoded := decoded + [plain.value];
          }
        } else {
          decoded := decoded + [c];
        }
      }
      ok := true;
    }

    // -------------------------------------------------------------- values

    /** The reader's whole effect on position, errors and the node stack. */
    twostate predicate Did(r: Outcome, ok: bool)
      requires old(nodes) != []
      reads this
    {
      && ok == r.ok && current == r.pos && errors == r.errors
      && nodes == old(Below()) + [r.value]
    }

    /** A member's name and colon; on failure the object is left as it is. */
    method ReadName(ghost ms: seq<Member>, name: string) returns (step: ObjectStep)
      requires Valid() && nodes != [] && CurrentValue() == Object(ms)
      modifies `current, `errors
      ensures Valid() && step == MemberName(document, old(current), old(errors), ms, name)
      ensures step.Named? ==> current == step.pos && errors == old(errors)
      ensures step.Ended? ==> current == step.r.pos && errors == step.r.errors
    {
      hide ReadToken, ReadNonComment, Recover, Fail, NamedBy;
      var token := NextNonComment();
      if token.kind == ObjectEnd && name == "" {
        return Ended(Outcome(true, current, errors, CurrentValue()));
      }
      if token.kind != StringToken {
        ghost var base := errors;
        var ok := AddError(MissingMemberName, token, None);
        step := EndRecovering(base, ErrorInfo(MissingMemberName, token, None), ms);
        return;
      }
      step := ReadNamed(token, ms);
    }

    /** The name is a string: decode it and expect the colon. */
    method ReadNamed(token: Token, ghost ms: seq<Member>) returns (step: ObjectStep)
      requires Valid() && nodes != [] && CurrentValue() == Object(ms)
      requires token.start + 2 <= token.end == current
      modifies `current, `errors
      ensures Valid() && step == NamedBy(document, token, old(errors), ms)
      ensures step.Named? ==> current == step.pos && errors == old(errors)
      ensures step.Ended? ==> current == step.r.pos && errors == step.r.errors
    {
      hide ReadToken, DecodeChars, Recover, Fail;
      ghost var base, d := errors, DecodeChars(document, token.start + 1, token.end - 1, "");
      var ok, decoded := DecodeText(token);
      if !ok {
        step := EndRecovering(base, ErrorInfo(d.kind, token, Some(d.extra)), ms);
        return;
      }
      var colon := NextToken();
      if colon.kind != MemberSeparator {
        ok := AddError(MissingColon, colon, None);
        step := EndRecovering(base, ErrorInfo(MissingColon, colon, None), ms);
        return;
      }
      return Named(decoded, current);
    }

    method ReadMemberEnd(ghost ms: seq<Member>) returns (step: ObjectStep)
      requires Valid() && nodes != [] && CurrentValue() == Object(ms)
      modifies `current, `errors
      ensures Valid() && step == MemberEnd(document, old(current), old(errors), ms)
      ensures step.Stored? ==> current == step.pos && errors == old(errors)
      ensures step.Ended? ==> current == step.r.pos && errors == step.r.errors
    {
      hide ReadToken, ReadNonComment, Recover, Fail;
      var comma := NextToken();
      if comma.kind != ObjectEnd && comma.kind != ArraySeparator && comma.kind != CommentToken {
        ghost var base := errors;
        var ok := AddError(MissingCommaInObject, comma, None);
        step := EndRecovering(base, ErrorInfo(MissingCommaInObject, comma, None), ms);
        return;
      }
      if comma.kind == CommentToken {
        comma := NextNonComment();
      }
      if comma.kind == ObjectEnd {
        return Ended(Outcome(true, current, errors, CurrentValue()));
      }
      return Stored(current);
    }

    method ReadObjectFrom() returns (ok: bool)
      requires Valid() && nodes != []
      modifies `current, `errors, `nodes
      ensures Valid() && Did(ReadObject(cfg, document, old(current), old(errors), [], ""), ok)
      decreases |document| - current, 2
    {
      hide MemberName, MemberEnd, ReadValue, Lookup, Put, CStr, Recover;
      ghost var goal := ReadObject(cfg, document, current, errors, [], "");
      var name := "";
      var ms: seq<Member> := [];
      SetCurrent(Object([]));
      while true
        invariant Valid() && nodes == old(Below()) + [Object(ms)]
        invariant old(current) <= current
        invariant ReadObject(cfg, document, current, errors, ms, name) == goal
        decreases |document| - current
      {
        var step := ReadName(ms, name);
        if step.Ended? {
          return step.r.ok;
        }
        name := step.text;
        var key := CStr(name);
        nodes := nodes + [Lookup(ms, key)];
        assert Below() == old(Below()) + [Object(ms)];
        ok := ReadNode();
        ms := Put(ms, key, CurrentValue());
        nodes := nodes[..|nodes| - 1];
        SetCurrent(Object(ms));
        assert nodes == old(Below()) + [Object(ms)];
        if !ok {
          ok := RecoverFromError(ObjectEnd);
          return;
        }
        step := ReadMemberEnd(ms);
        if step.Ended? {
          return step.r.ok;
        }
      }
    }

    method ReadArrayFrom() returns (ok: bool)
      requires Valid() && nodes != []
      modifies `current, `errors, `nodes
      ensures Valid()
      ensures var q := SkipSpaces(document, old(current));
              Did(if Peek(document, q) == ']' then Outcome(true, q + 1, old(errors), Array([]))
                  else ReadArray(cfg, document, q, old(errors), []), ok)
      decreases |document| - current, 3
    {
      hide ReadToken, ReadNonComment, ReadValue, ReadArray, Recover, SkipSpaces;
      SetCurrent(Array([]));
      SkipBlanks();
      if Peek(document, current) == ']' {
        ClosingToken(document, current);
        var endArray := NextToken();
        return true;
      }
      ghost var goal := ReadArray(cfg, document, current, errors, []);
      var items: seq<Elem> := [];
      while true
        invariant Valid() && nodes == old(Below()) + [Array(items)]
        invariant old(current) <= current
        invariant ReadArray(cfg, document, current, errors, items) == goal
        decreases |document| - current
      {
        ArrayStep(cfg, document, current, errors, items);
        ok, items := ReadItem(items);
        if !ok {
          ok := RecoverFromError(ArrayEnd);
          return;
        }
        var token := NextNonComment();
        if token.kind == ArrayEnd {
          break;
        }
      }
      return true;
    }

    /** One item: a new node is pushed, read, popped and stored into the array. */
    method ReadItem(items: seq<Elem>) returns (ok: bool, items': seq<Elem>)
      requires Valid() && nodes != [] && CurrentValue() == Array(items)
      modifies `current, `errors, `nodes
      ensures Valid()
      ensures var r := ReadValue(cfg, document, old(current), old(errors), Null);
              && items' == items + [Elem(|items|, r.value)]
              && Did(Outcome(r.ok, r.pos, r.errors, Array(items')), ok)
      decreases |document| - current, 2
    {
      hide ReadValue;
      ghost var below := Below();
      nodes := nodes + [Null];
      assert Below() == below + [Array(items)];
      ok := ReadNode();
      items' := items + [Elem(|items|, CurrentValue())];
      nodes := nodes[..|nodes| - 1];
      SetCurrent(Array(items'));
    }

    method ReadScalar(token: Token) returns (ok: bool)
      requires Valid() && nodes != [] && TokenOf(document, token) && current == token.end
      modifies `errors, `nodes
      ensures Did(ScalarAt(cfg, document, token, old(errors), old(CurrentValue())), ok)
    {
      assert nodes == Below() + [CurrentValue()];
      ok := true;
      match token.kind {
        case NumberToken => ok := DecodeNumberToken(token);
        case StringToken =>
          var decoded;
          ok, decoded := DecodeText(token);
          if ok {
            SetCurrent(Str(decoded));
          }
        case TrueToken => SetCurrent(Bool(true));
        case FalseToken => SetCurrent(Bool(false));
        case NullToken => SetCurrent(Null);
        case _ => ok := AddError(ValueExpected, token, None);
      }
    }

    /** `readValue`: the node stack comes back at its entry depth with only its top replaced. */
    method ReadNode() returns (ok: bool)
      requires Valid() && nodes != []
      modifies `current, `errors, `nodes
      ensures Valid() && |nodes| == old(|nodes|)
      ensures Did(ReadValue(cfg, document, old(current), old(errors), old(CurrentValue())), ok)
      decreases |document| - current, 1
    {
      hide ReadObject, ReadArray, ScalarAt, SkipSpaces, ValueToken;
      var token := SkipCommentTokens();
      if token.kind == ObjectBegin {
        ok := ReadObjectFrom();
      } else if token.kind == ArrayBegin {
        ok := ReadArrayFrom();
      } else {
        ok := ReadScalar(token);
      }
    }

    /**
      `Reader::parse`. It ends on every document, never leaves it, empties the node stack down to
      the root, and returns true exactly when it has recorded no error.
     */
    method ParseDocument(doc: string, root: Value) returns (ok: bool, value: Value)
      modifies this
      ensures Valid() && document == doc
      ensures Parse(cfg, doc, root) == Outcome(ok, current, errors, value)
      ensures nodes == [value]
      ensures ok <==> errors == []
    {
      document := doc;
      current := 0;
      errors := [];
      while nodes != []
        invariant document == doc && current == 0 && errors == []
      {
        nodes := nodes[..|nodes| - 1];
      }
      nodes := nodes + [root];
      ok := ReadNode();
      value := CurrentValue();
      var token := SkipCommentTokens();
      if cfg.strictRoot && !(value.Null? || value.Array? || value.Object?) {
        ok := AddError(RootNotContainer, Token(ErrorToken, 0, |doc|), None);
      }
    }
  }

  lemma ClosingToken(doc: string, p: nat)
    requires p <= |doc| && Peek(doc, p) == ']'
    ensures ReadToken(doc, p).end == p + 1
  {
  }
}
