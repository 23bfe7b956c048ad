/**
  Where the reader of public/json/json_reader.cpp differs from the JSON of RFC 8259, exactly: what
  becomes of trailing commas, repeated names, odd separators, comments and text behind the root.
 */
module JsonQuirks {
  import opened Common
  import opened JsonValue
  import opened JsonGrammar
  import opened JsonWriter
  import opened JsonLayout
  import opened JsonRoundTrip

  /** Section 2 of RFC 8259: space, tab, line feed and carriage return are blank, nothing else is. */
  lemma BlanksAreStandard(c: char)
    ensures IsSpace(c) <==> c as int in {0x20, 0x09, 0x0A, 0x0D}
  {
  }

  // ---------------------------------------------------------------- behind the root

  /** Only the first value of a document is read: closing tokens behind it are not looked at. */
  lemma RestIgnored(cfg: Config, doc: string, v: Value, pr: real -> string, rest: seq<string>, root: Value)
    requires Wf(v) && Readable(v, pr, cfg.scanReal) && Lexes(doc, 0, Toks(v, pr) + rest) && Closes(rest)
    ensures var r := Parse(cfg, doc, root);
            && r.value == Normal(v, pr, cfg.scanReal)
            && (r.ok <==> !cfg.strictRoot || v.Null? || v.Array? || v.Object?)
  {
    hide Lexes, Toks, ReadValue, ValueToken, Readable, NormalInt, NormalUInt;
    ReadBack(cfg, doc, 0, v, pr, rest, [], root);
    NormalKind(v, pr, cfg.scanReal);
  }

  // ---------------------------------------------------------------- arrays

  /** The tokens of `[a x b]`. */
  function PairToks(a: Value, x: string, b: Value, pr: real -> string): (ts: seq<string>)
    requires Wf(a) && Wf(b)
  {
    ["["] + (Toks(a, pr) + ([x] + (Toks(b, pr) + ["]"])))
  }

  /** Whatever punctuation stands between two items of an array, a closing brace too, it separates them. */
  lemma AnySeparator(cfg: Config, doc: string, a: Value, x: char, b: Value, pr: real -> string, root: Value)
    requires Wf(a) && Wf(b) && Readable(a, pr, cfg.scanReal) && Readable(b, pr, cfg.scanReal)
    requires x == ',' || x == '}'
    requires Lexes(doc, 0, PairToks(a, [x], b, pr))
    ensures var r := Parse(cfg, doc, root);
            r.ok && r.value == Array([Elem(0, Normal(a, pr, cfg.scanReal)), Elem(1, Normal(b, pr, cfg.scanReal))])
  {
    hide Lexes, Toks, ReadValue, ReadArray, Readable, Normal, Wf, SkipSpaces, ValueToken;
    var after := Toks(b, pr) + ([[']']] + []);
    assert [[']']] + [] == ["]"];
    OpenBack(cfg, doc, 0, '[', Toks(a, pr) + ([[x]] + after));
    var t := ValueToken(cfg, doc, 0);
    ItemsFollow(cfg, doc, t.end, a, [[x]] + after, pr);
    var p := SkipSpaces(doc, t.end);
    var items := [Elem(0, Normal(a, pr, cfg.scanReal))];
    ItemRead(cfg, doc, p, [], a, pr, x, after);
    assert [] + [Elem(0, Normal(a, pr, cfg.scanReal))] == items;
    var q: nat :| q <= |doc| && Lexes(doc, q, after)
      && ReadArray(cfg, doc, p, [], []) == ReadArray(cfg, doc, q, [], items);
    ItemRead(cfg, doc, q, items, b, pr, ']', []);
    assert items + [Elem(1, Normal(b, pr, cfg.scanReal))] == [items[0], Elem(1, Normal(b, pr, cfg.scanReal))];
    UnfoldValue(cfg, doc, 0, [], root);
    ParseOk(cfg, doc, root);
  }

  /** An item and the punctuation behind it: a closing bracket ends the array, anything else does not. */
  lemma ItemRead(cfg: Config, doc: string, p: nat, items: seq<Elem>, v: Value, pr: real -> string, c: char,
      rest: seq<string>)
    requires p <= |doc| && Wf(v) && Readable(v, pr, cfg.scanReal) && (c == ',' || c == '}' || c == ']')
    requires Lexes(doc, p, Toks(v, pr) + ([[c]] + rest))
    ensures var items' := items + [Elem(|items|, Normal(v, pr, cfg.scanReal))];
            var r := ReadArray(cfg, doc, p, [], items);
            && (c == ']' ==> ReadsAs(r, doc, [], Array(items'), rest))
            && (c != ']' ==>
                  exists q: nat :: q <= |doc| && Lexes(doc, q, rest) && r == ReadArray(cfg, doc, q, [], items'))
  {
    hide Lexes, Toks, ReadValue, ReadArray, ReadNonComment, ReadToken, Readable, Normal, Wf, SkipSpaces, Recover;
    ReadBack(cfg, doc, p, v, pr, [[c]] + rest, [], Null);
    ArrayStep(cfg, doc, p, [], items);
    var r := ReadValue(cfg, doc, p, [], Null);
    PunctuationBack(doc, r.pos, c, rest);
    var t := ReadNonComment(doc, r.pos);
    assert t.end <= |doc| && Lexes(doc, t.end, rest);
    assert t.kind == ArrayEnd <==> c == ']';
  }

  /** The first item of an array begins behind the bracket, and is not the closing one. */
  lemma ItemsFollow(cfg: Config, doc: string, p: nat, a: Value, rest: seq<string>, pr: real -> string)
    requires p <= |doc| && Wf(a) && Readable(a, pr, cfg.scanReal) && Lexes(doc, p, Toks(a, pr) + rest)
    ensures var q := SkipSpaces(doc, p); Peek(doc, q) != ']' && Lexes(doc, q, Toks(a, pr) + rest)
  {
    hide Lexes, Toks, Readable, SkipSpaces;
    FirstToken(a, pr, cfg.scanReal);
    LexesFirstChar(doc, p, Toks(a, pr) + rest);
  }

  lemma ParseOk(cfg: Config, doc: string, root: Value)
    requires var v := ReadValue(cfg, doc, 0, [], root); v.ok && (v.value.Array? || v.value.Object?)
    ensures Parse(cfg, doc, root).ok && Parse(cfg, doc, root).value == ReadValue(cfg, doc, 0, [], root).value
  {
    hide ReadValue, ValueToken;
  }

  /** A comma before the closing bracket of an array is refused: a value is expected there. */
  lemma TrailingCommaInArray(cfg: Config, doc: string, a: Value, pr: real -> string, root: Value)
    requires Wf(a) && Readable(a, pr, cfg.scanReal)
    requires Lexes(doc, 0, ["["] + (Toks(a, pr) + ([","] + ["]"])))
    ensures var r := Parse(cfg, doc, root); !r.ok && |r.errors| == 1 && r.errors[0].kind == ValueExpected
  {
    hide Lexes, Toks, ReadValue, ReadArray, Readable, Normal, Wf, SkipSpaces, ValueToken, Recover;
    assert [","] + ["]"] == [[',']] + [[']']];
    OpenBack(cfg, doc, 0, '[', Toks(a, pr) + ([[',']] + [[']']]));
    var t := ValueToken(cfg, doc, 0);
    ItemsFollow(cfg, doc, t.end, a, [[',']] + [[']']], pr);
    var p, items := SkipSpaces(doc, t.end), [] + [Elem(0, Normal(a, pr, cfg.scanReal))];
    ItemRead(cfg, doc, p, [], a, pr, ',', [[']']]);
    var q: nat :| q <= |doc| && Lexes(doc, q, [[']']])
      && ReadArray(cfg, doc, p, [], []) == ReadArray(cfg, doc, q, [], items);
    NoValueHere(cfg, doc, q, ']', [], Null);
    ArrayStep(cfg, doc, q, [], items);
    UnfoldValue(cfg, doc, 0, [], root);
    ParseFails(cfg, doc, root);
  }

  /** A closing token where a value should be. */
  lemma NoValueHere(cfg: Config, doc: string, p: nat, c: char, errors: seq<ErrorInfo>, cur: Value)
    requires p <= |doc| && (c == ']' || c == '}' || c == ',') && Lexes(doc, p, [[c]])
    ensures var r := ReadValue(cfg, doc, p, errors, cur);
            !r.ok && |r.errors| == |errors| + 1 && r.errors[|errors|].kind == ValueExpected
  {
    hide Lexes, ReadToken, ReadNonComment, SkipSpaces, ReadValue;
    assert [[c]] + [] == [[c]];
    PunctuationBack(doc, p, c, []);
    UnfoldValue(cfg, doc, p, errors, cur);
  }

  lemma ParseFails(cfg: Config, doc: string, root: Value)
    requires var v := ReadValue(cfg, doc, 0, [], root); !v.ok && (v.value.Array? || v.value.Object?)
    ensures var v := ReadValue(cfg, doc, 0, [], root);
            !Parse(cfg, doc, root).ok && Parse(cfg, doc, root).errors == v.errors
  {
    hide ReadValue, ValueToken;
  }

  // ---------------------------------------------------------------- objects

  /** The tokens of a member and what follows it. */
  function MemberThen(name: string, v: Value, pr: real -> string, rest: seq<string>): (ts: seq<string>)
    requires Wf(v)
  {
    [Quoted(name)] + ([":"] + (Toks(v, pr) + rest))
  }

  /** A member and the comma behind it are read and stored. */
  lemma MemberRead(cfg: Config, doc: string, p: nat, ms: seq<Member>, prev: string, name: string, v: Value,
      pr: real -> string, c: char, rest: seq<string>)
    requires p <= |doc| && NulFree(name) && Wf(v) && Readable(v, pr, cfg.scanReal) && (c == ',' || c == '}')
    requires Lexes(doc, p, MemberThen(name, v, pr, [[c]] + rest))
    ensures var ms' := Put(ms, name, Normal(v, pr, cfg.scanReal));
            var r := ReadObject(cfg, doc, p, [], ms, prev);
            && (c == '}' ==> ReadsAs(r, doc, [], Object(ms'), rest))
            && (c == ',' ==>
                  exists q: nat :: q <= |doc| && Lexes(doc, q, rest) && r == ReadObject(cfg, doc, q, [], ms', name))
  {
    hide Lexes, Toks, Quoted, CStr, Normal, ReadValue, ReadObject, MemberName, MemberEnd, Put, Lookup, Readable, Wf;
    NameBack(doc, p, [], ms, prev, name, Toks(v, pr) + ([[c]] + rest));
    var n := MemberName(doc, p, [], ms, prev);
    CStrWhole(name);
    ReadBack(cfg, doc, n.pos, v, pr, [[c]] + rest, [], Lookup(ms, name));
    var r := ReadValue(cfg, doc, n.pos, [], Lookup(ms, name));
    UnfoldObject(cfg, doc, p, [], ms, prev);
    MemberEndBack(doc, r.pos, [], Put(ms, name, r.value), c, rest);
  }

  /**
    A comma before the closing brace of an object is refused, a name is expected there; but after
    a member whose name is empty it is accepted.
   */
  lemma TrailingCommaInObject(cfg: Config, doc: string, name: string, v: Value, pr: real -> string, root: Value)
    requires NulFree(name) && Wf(v) && Readable(v, pr, cfg.scanReal)
    requires Lexes(doc, 0, ["{"] + MemberThen(name, v, pr, [[',']] + ["}"]))
    ensures var r := Parse(cfg, doc, root);
            && (r.ok <==> name == "")
            && r.value == Object([Member(name, Normal(v, pr, cfg.scanReal))])
            && (name != "" ==> |r.errors| == 1 && r.errors[0].kind == MissingMemberName)
  {
    hide Lexes, ReadValue, ReadObject, Readable, Normal, Wf, MemberThen, ValueToken;
    OpenBack(cfg, doc, 0, '{', MemberThen(name, v, pr, [[',']] + ["}"]));
    var t := ValueToken(cfg, doc, 0);
    MemberRead(cfg, doc, t.end, [], "", name, v, pr, ',', ["}"]);
    var ms := [Member(name, Normal(v, pr, cfg.scanReal))];
    assert Put([], name, Normal(v, pr, cfg.scanReal)) == ms;
    var q: nat :| q <= |doc| && Lexes(doc, q, ["}"])
      && ReadObject(cfg, doc, t.end, [], [], "") == ReadObject(cfg, doc, q, [], ms, name);
    BraceHere(cfg, doc, q, ms, name);
    UnfoldValue(cfg, doc, 0, [], root);
    if name == "" {
      ParseOk(cfg, doc, root);
    } else {
      ParseFails(cfg, doc, root);
      ParseKeeps(cfg, doc, root);
    }
  }

  /** A closing brace where a name should be. */
  lemma BraceHere(cfg: Config, doc: string, p: nat, ms: seq<Member>, name: string)
    requires p <= |doc| && Lexes(doc, p, ["}"])
    ensures var r := ReadObject(cfg, doc, p, [], ms, name);
            && r.value == Object(ms) && (r.ok <==> name == "")
            && (name != "" ==> |r.errors| == 1 && r.errors[0].kind == MissingMemberName)
  {
    hide Lexes, ReadToken, ReadNonComment, Recover, SkipSpaces;
    assert ["}"] == [['}']] + [];
    PunctuationBack(doc, p, '}', []);
  }

  lemma ParseKeeps(cfg: Config, doc: string, root: Value)
    requires var v := ReadValue(cfg, doc, 0, [], root); v.value.Array? || v.value.Object?
    ensures Parse(cfg, doc, root).value == ReadValue(cfg, doc, 0, [], root).value
  {
    hide ReadValue, ValueToken;
  }

  /** Of two members with one name the second replaces the first, and nothing is reported. */
  lemma RepeatedName(cfg: Config, doc: string, name: string, v: Value, w: Value, pr: real -> string, root: Value)
    requires NulFree(name) && Wf(v) && Readable(v, pr, cfg.scanReal) && Wf(w) && Readable(w, pr, cfg.scanReal)
    requires Lexes(doc, 0, ["{"] + MemberThen(name, v, pr, [[',']] + MemberThen(name, w, pr, [['}']] + [])))
    ensures var r := Parse(cfg, doc, root); r.ok && r.value == Object([Member(name, Normal(w, pr, cfg.scanReal))])
  {
    hide Lexes, ReadValue, ReadObject, Readable, Normal, Wf, MemberThen, ValueToken;
    var last := MemberThen(name, w, pr, [['}']] + []);
    OpenBack(cfg, doc, 0, '{', MemberThen(name, v, pr, [[',']] + last));
    var t := ValueToken(cfg, doc, 0);
    MemberRead(cfg, doc, t.end, [], "", name, v, pr, ',', last);
    var ms := Put([], name, Normal(v, pr, cfg.scanReal));
    var q: nat :| q <= |doc| && Lexes(doc, q, last)
      && ReadObject(cfg, doc, t.end, [], [], "") == ReadObject(cfg, doc, q, [], ms, name);
    MemberRead(cfg, doc, q, ms, name, name, w, pr, '}', []);
    PutTwice(name, Normal(v, pr, cfg.scanReal), Normal(w, pr, cfg.scanReal));
    UnfoldValue(cfg, doc, 0, [], root);
    ParseOk(cfg, doc, root);
  }

  lemma PutTwice(name: string, a: Value, b: Value)
    ensures Put(Put([], name, a), name, b) == [Member(name, b)]
  {
    assert Put([], name, a) == [Member(name, a)];
  }

  /** Any other punctuation than a colon behind a name is reported as a missing colon. */
  lemma MissingColonReported(cfg: Config, doc: string, name: string, c: char, rest: seq<string>, root: Value)
    requires c == ',' || c == '}' || c == ']' || c == '[' || c == '{'
    requires Lexes(doc, 0, ["{"] + ([Quoted(name)] + ([[c]] + rest)))
    ensures var r := Parse(cfg, doc, root);
            !r.ok && |r.errors| == 1 && r.errors[0].kind == MissingColon && r.value == Object([])
  {
    hide Lexes, ReadValue, ReadObject, ValueToken, SkipSpaces, Quoted;
    OpenBack(cfg, doc, 0, '{', [Quoted(name)] + ([[c]] + rest));
    NoColonHere(cfg, doc, ValueToken(cfg, doc, 0).end, name, c, rest);
    UnfoldValue(cfg, doc, 0, [], root);
    ParseFails(cfg, doc, root);
    ParseKeeps(cfg, doc, root);
  }

  lemma NoColonHere(cfg: Config, doc: string, p: nat, name: string, c: char, rest: seq<string>)
    requires p <= |doc| && (c == ',' || c == '}' || c == ']' || c == '[' || c == '{')
    requires Lexes(doc, p, [Quoted(name)] + ([[c]] + rest))
    ensures var r := ReadObject(cfg, doc, p, [], [], "");
            !r.ok && |r.errors| == 1 && r.errors[0].kind == MissingColon && r.value == Object([])
  {
    hide Lexes, ReadObject, MemberName, ReadToken, ReadNonComment, SkipSpaces, DecodeChars, Quoted, CStr;
    StringTokenBack(doc, p, name, [[c]] + rest);
    PunctuationBack(doc, ReadToken(doc, p).end, c, rest);
    NoColonIs(doc, p, CStr(name));
    EndedObject(cfg, doc, p, [], "");
  }

  lemma NoColonIs(doc: string, p: nat, name: string)
    requires p <= |doc|
    requires var k := ReadNonComment(doc, p);
             && k.kind == StringToken && k.start + 1 <= k.end - 1 && k.end <= |doc|
             && DecodeChars(doc, k.start + 1, k.end - 1, "") == Text(name)
             && ReadToken(doc, k.end).kind != MemberSeparator
    ensures var s := MemberName(doc, p, [], [], "");
            && s.Ended? && !s.r.ok && |s.r.errors| == 1 && s.r.errors[0].kind == MissingColon
            && s.r.value == Object([])
  {
    hide DecodeChars, ReadToken, ReadNonComment, Recover;
  }

  lemma EndedObject(cfg: Config, doc: string, p: nat, ms: seq<Member>, prev: string)
    requires p <= |doc| && MemberName(doc, p, [], ms, prev).Ended?
    ensures ReadObject(cfg, doc, p, [], ms, prev) == MemberName(doc, p, [], ms, prev).r
  {
    hide MemberName, MemberEnd, ReadValue;
  }

  /** Behind a member a closing bracket is reported as a missing comma or brace. */
  lemma MissingCommaReported(cfg: Config, doc: string, name: string, v: Value, pr: real -> string, rest: seq<string>,
      root: Value)
    requires NulFree(name) && Wf(v) && Readable(v, pr, cfg.scanReal)
    requires Lexes(doc, 0, ["{"] + MemberThen(name, v, pr, [[']']] + rest))
    ensures var r := Parse(cfg, doc, root);
            && !r.ok && |r.errors| == 1 && r.errors[0].kind == MissingCommaInObject
            && r.value == Object([Member(name, Normal(v, pr, cfg.scanReal))])
  {
    hide Lexes, Toks, Quoted, CStr, Normal, ReadValue, ReadObject, MemberName, MemberEnd, Lookup, Readable, Wf,
         ValueToken;
    OpenBack(cfg, doc, 0, '{', MemberThen(name, v, pr, [[']']] + rest));
    var t := ValueToken(cfg, doc, 0);
    NameBack(doc, t.end, [], [], "", name, Toks(v, pr) + ([[']']] + rest));
    var n := MemberName(doc, t.end, [], [], "");
    CStrWhole(name);
    ReadBack(cfg, doc, n.pos, v, pr, [[']']] + rest, [], Lookup([], name));
    var r := ReadValue(cfg, doc, n.pos, [], Lookup([], name));
    UnfoldObject(cfg, doc, t.end, [], [], "");
    BracketBehind(doc, r.pos, Put([], name, r.value), rest);
    assert Put([], name, r.value) == [Member(name, r.value)];
    UnfoldValue(cfg, doc, 0, [], root);
    ParseFails(cfg, doc, root);
    ParseKeeps(cfg, doc, root);
  }

  lemma BracketBehind(doc: string, p: nat, ms: seq<Member>, rest: seq<string>)
    requires p <= |doc| && Lexes(doc, p, [[']']] + rest)
    ensures var s := MemberEnd(doc, p, [], ms);
            && s.Ended? && !s.r.ok && |s.r.errors| == 1 && s.r.errors[0].kind == MissingCommaInObject
            && s.r.value == Object(ms)
  {
    hide Lexes, ReadToken, ReadNonComment, Recover, SkipSpaces;
    PunctuationBack(doc, p, ']', rest);
  }

  /** A minus sign alone is read as zero. */
  lemma LoneMinus(scan: string -> Option<real>)
    ensures IsNumberText("-") && DecodeNumber("-", scan) == Some(Int(0))
  {
    NotReal("-");
    assert "-"[1..] == "";
  }

  // ---------------------------------------------------------------- comments

  /** A text without the two characters that would end a comment. */
  predicate Commented(text: string) {
    forall i :: 0 <= i < |text| - 1 ==> !(text[i] == '*' && text[i + 1] == '/')
  }

  lemma {:induction false} CommentScanned(doc: string, p: nat, e: nat)
    requires p <= e && e + 2 <= |doc| && doc[e] == '*' && doc[e + 1] == '/'
    requires forall i :: p <= i < e ==> !(doc[i] == '*' && doc[i + 1] == '/')
    ensures ScanCComment(doc, p) == Scan(true, e + 2)
    decreases e - p
  {
    if p < e {
      CommentScanned(doc, p + 1, e);
    }
  }

  lemma CommentToken(doc: string, text: string, z: string)
    requires doc == "/*" + text + "*/" + z && Commented(text) && (text == "" || text[|text| - 1] != '*')
    ensures ReadToken(doc, 0) == Token(TokenKind.CommentToken, 0, |text| + 4)
  {
    var e := |text| + 2;
    assert doc[0] == '/' && doc[1] == '*' && doc[e] == '*' && doc[e + 1] == '/';
    forall i | 2 <= i < e ensures !(doc[i] == '*' && doc[i + 1] == '/') {
      assert doc[i] == text[i - 2];
      if i + 1 < e {
        assert doc[i + 1] == text[i - 1];
      }
    }
    CommentScanned(doc, 2, e);
    assert ScanComment(doc, 1) == Scan(true, e + 2);
    assert SkipSpaces(doc, 0) == 0;
  }

  /** A comment before the value is passed over when comments are allowed, and refused otherwise. */
  lemma CommentFirst(cfg: Config, text: string, z: string, root: Value)
    requires Commented(text) && (text == "" || text[|text| - 1] != '*')
    ensures var doc := "/*" + text + "*/" + z;
            && (cfg.allowComments ==>
                  ReadValue(cfg, doc, 0, [], root) == ReadValue(cfg, doc, |text| + 4, [], root))
            && (!cfg.allowComments ==>
                  !Parse(cfg, doc, root).ok && |Parse(cfg, doc, root).errors| > 0
                  && Parse(cfg, doc, root).errors[0].kind == ValueExpected)
  {
    hide ReadToken, ReadValue, ReadArray, ReadObject, SkipSpaces, ScalarAt, ValueToken;
    var doc := "/*" + text + "*/" + z;
    CommentToken(doc, text, z);
    UnfoldValue(cfg, doc, 0, [], root);
    UnfoldValue(cfg, doc, |text| + 4, [], root);
    AtComment(cfg, doc, |text| + 4, root);
  }

  lemma AtComment(cfg: Config, doc: string, n: nat, root: Value)
    requires n <= |doc| && ReadToken(doc, 0) == Token(TokenKind.CommentToken, 0, n)
    ensures cfg.allowComments ==> ValueToken(cfg, doc, 0) == ValueToken(cfg, doc, n)
    ensures !cfg.allowComments ==> !Parse(cfg, doc, root).ok && |Parse(cfg, doc, root).errors| > 0
                                   && Parse(cfg, doc, root).errors[0].kind == ValueExpected
  {
    hide ReadToken, TokenOf, ReadObject, ReadArray, SkipSpaces, NumberAt, DecodeChars;
  }
}
