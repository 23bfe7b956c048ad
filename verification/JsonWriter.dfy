/**
  The two printers of public/json/json_writer.cpp, for values without comments. The functions say
  which text a value becomes; the classes append it to a document in place.
 */
module JsonWriter {
  import opened Common
  import opened JsonValue

  // ---------------------------------------------------------------- scalars

  function Digit(d: nat): (c: char)
    requires d < 10
    ensures '0' <= c <= '9' && c as int - '0' as int == d
  {
    (d + 48) as char
  }

  function UIntText(n: nat): (s: string)
    ensures s != [] && forall i :: 0 <= i < |s| ==> '0' <= s[i] <= '9'
  {
    if n < 10 then [Digit(n)] else UIntText(n / 10) + [Digit(n % 10)]
  }

  function IntText(i: int): (s: string) {
    if i < 0 then "-" + UIntText(-i) else UIntText(i)
  }

  function BoolText(b: bool): (s: string) {
    if b then "true" else "false"
  }

  predicate IsControl(c: char) {
    0 < c as int <= 0x1F
  }

  function HexDigit(d: nat): (c: char)
    requires d < 16
  {
    if d < 10 then (d + 48) as char else (d + 55) as char
  }

  function EscapeChar(c: char): (s: string) {
    if c == '"' then "\\\""
    else if c == '\\' then "\\\\"
    else if c as int == 0x08 then "\\b"
    else if c as int == 0x0C then "\\f"
    else if c == '\n' then "\\n"
    else if c == '\r' then "\\r"
    else if c == '\t' then "\\t"
    else if IsControl(c) then "\\u00" + [HexDigit(c as int / 16), HexDigit(c as int % 16)]
    else [c]
  }

  function Escape(s: string): (t: string) {
    if s == [] then [] else EscapeChar(s[0]) + Escape(s[1..])
  }

  /** `valueToQuotedString`, which sees its argument up to the first NUL. */
  function Quoted(s: string): (t: string) {
    "\"" + Escape(CStr(s)) + "\""
  }

  predicate NeedsEscape(c: char) {
    c == '"' || c == '\\' || IsControl(c)
  }

  /** The shortcut of `valueToQuotedString`: without special characters nothing changes. */
  lemma PlainChar(c: char)
    requires !NeedsEscape(c)
    ensures EscapeChar(c) == [c]
  {
  }

  lemma {:induction false} EscapePlain(s: string)
    requires forall c <- s :: !NeedsEscape(c)
    ensures Escape(s) == s
  {
    hide NeedsEscape, EscapeChar;
    if s != [] {
      assert s[0] in s;
      PlainChar(s[0]);
      EscapePlain(s[1..]);
      assert s == [s[0]] + s[1..];
    }
  }

  lemma {:induction false} EscapeSnoc(s: string, c: char)
    ensures Escape(s + [c]) == Escape(s) + EscapeChar(c)
  {
    if s == [] {
      assert Escape([c]) == EscapeChar(c) + Escape([]);
    } else {
      assert (s + [c])[1..] == s[1..] + [c];
      EscapeSnoc(s[1..], c);
    }
  }

  function Pow10(k: nat): (p: nat)
    ensures p > 0
  {
    if k == 0 then 1 else 10 * Pow10(k - 1)
  }

  lemma TenDigits(rest: nat)
    requires rest <= MAX_UINT / 10
    ensures rest < Pow10(9)
  {
    assert Pow10(3) == 1000 && Pow10(6) == 1000 * Pow10(3) && Pow10(9) == 1000 * Pow10(6);
  }

  lemma UIntStep(n: nat)
    ensures UIntText(n) == (if n / 10 == 0 then [] else UIntText(n / 10)) + [Digit(n % 10)]
  {
  }

  lemma OneDigitLess(rest: nat, k: nat)
    requires 0 < rest < Pow10(k)
    ensures k > 0 && rest / 10 < Pow10(k - 1)
  {
  }

  /** The do-while loop of `uintToString`, filling a buffer from its end. */
  method UIntToString(value: nat, buffer: array<char>) returns (current: nat)
    requires value <= MAX_UINT && buffer.Length == 32
    modifies buffer
    ensures 21 <= current <= 30 && buffer[31] == '\0' && buffer[current..31] == UIntText(value)
  {
    hide UIntText, Pow10, Digit;
    UIntStep(value);
    buffer[31] := '\0';
    buffer[30] := Digit(value % 10);
    current := 30;
    var rest := value / 10;
    assert buffer[30..31] == [Digit(value % 10)];
    TenDigits(rest);
    while rest != 0
      invariant 21 <= current <= 30 && buffer[31] == '\0' && 0 <= rest < Pow10(current - 21)
      invariant UIntText(value) == (if rest == 0 then [] else UIntText(rest)) + buffer[current..31]
      decreases rest
    {
      OneDigitLess(rest, current - 21);
      UIntStep(rest);
      ghost var done := buffer[current..31];
      Assoc(if rest / 10 == 0 then [] else UIntText(rest / 10), [Digit(rest % 10)], done);
      current := current - 1;
      buffer[current] := Digit(rest % 10);
      assert buffer[current..31] == [Digit(rest % 10)] + done;
      rest := rest / 10;
    }
  }

  /** `valueToString(Int)`. The most negative value negates to itself and prints as unsigned. */
  method ValueToStringInt(value: int) returns (s: string)
    requires MIN_INT <= value <= MAX_INT
    ensures s == IntText(value)
  {
    var buffer := new char[32](_ => '\0');
    var isNegative := value < 0;
    var current := UIntToString(if isNegative then -value else value, buffer);
    if isNegative {
      ghost var digits := buffer[current..31];
      current := current - 1;
      buffer[current] := '-';
      assert buffer[current..31] == "-" + digits;
    }
    return buffer[current..31];
  }

  method ValueToStringUInt(value: nat) returns (s: string)
    requires value <= MAX_UINT
    ensures s == UIntText(value)
  {
    var buffer := new char[32](_ => '\0');
    var current := UIntToString(value, buffer);
    return buffer[current..31];
  }

  /** `valueToQuotedString`: a plain string is copied, any other is escaped character by character. */
  method ValueToQuotedString(value: string) returns (result: string)
    ensures result == Quoted(value)
  {
    var text := CStr(value);
    hide EscapeChar, NeedsEscape, CStr;
    var plain := true;
    for i := 0 to |text|
      invariant plain <==> forall c <- text[..i] :: !NeedsEscape(c)
    {
      assert text[..i + 1] == text[..i] + [text[i]];
      plain := plain && !NeedsEscape(text[i]);
    }
    assert text[..|text|] == text;
    if plain {
      EscapePlain(text);
      return "\"" + text + "\"";
    }
    result := "\"";
    for i := 0 to |text|
      invariant result == "\"" + Escape(text[..i])
    {
      assert text[..i + 1] == text[..i] + [text[i]];
      EscapeSnoc(text[..i], text[i]);
      result := result + EscapeChar(text[i]);
    }
    result := result + "\"";
  }

  // ---------------------------------------------------------------- the fast writer

  /** The text of a value that is neither an array nor an object. */
  function ScalarText(v: Value, printReal: real -> string): (s: string)
    requires !v.Array? && !v.Object?
  {
    match v
    case Null => "null"
    case Int(i) => IntText(i)
    case UInt(u) => UIntText(u)
    case Real(r) => printReal(r)
    case NullStr => ""
    case Str(s) => Quoted(s)
    case Bool(b) => BoolText(b)
  }

  method ScalarToString(v: Value, printReal: real -> string) returns (s: string)
    requires Wf(v) && !v.Array? && !v.Object?
    ensures s == ScalarText(v, printReal)
  {
    match v {
      case Null => s := "null";
      case Int(i) => s := ValueToStringInt(i);
      case UInt(u) => s := ValueToStringUInt(u);
      case Real(r) => s := printReal(r);
      case NullStr => s := "";
      case Str(text) => s := ValueToQuotedString(text);
      case Bool(b) => s := BoolText(b);
    }
  }

  /** The number of slots of an array, as a loop bound. */
  function ArraySize(v: Value): (n: nat)
    requires Wf(v) && v.Array?
    ensures n == Size(v) && WfElems(v.elems) && Weight(v) == 1 + ElemsWeight(v.elems)
  {
    Size(v)
  }

  function FastText(v: Value, colon: string, printReal: real -> string): (s: string)
    requires Wf(v)
    decreases Weight(v), 0, 0
  {
    match v
    case Array(es) => "[" + FastItems(es, Size(v), colon, printReal) + "]"
    case Object(ms) => "{" + FastMembers(ms, |ms|, colon, printReal) + "}"
    case _ => ScalarText(v, printReal)
  }

  /** The first `k` slots of an array, gaps printed as null. */
  function FastItems(es: seq<Elem>, k: nat, colon: string, printReal: real -> string): (s: string)
    requires WfElems(es)
    decreases ElemsWeight(es), 1, k
  {
    if k == 0 then ""
    else FastItems(es, k - 1, colon, printReal)
         + ((if k > 1 then "," else "") + FastText(ItemAt(es, k - 1), colon, printReal))
  }

  /** A member with the comma before it. */
  function FastMember(ms: seq<Member>, k: nat, colon: string, printReal: real -> string): (s: string)
    requires WfMembers(ms) && k < |ms|
    decreases MembersWeight(ms), 0, 1
  {
    MemberFacts(ms, k);
    (if k > 0 then "," else "") + (Quoted(ms[k].name) + colon + FastText(ms[k].item, colon, printReal))
  }

  /** The first `k` members of an object. */
  function FastMembers(ms: seq<Member>, k: nat, colon: string, printReal: real -> string): (s: string)
    requires WfMembers(ms) && k <= |ms|
    decreases MembersWeight(ms), 1, k
  {
    if k == 0 then ""
    else FastMembers(ms, k - 1, colon, printReal) + FastMember(ms, k - 1, colon, printReal)
  }

  lemma FastArrayIs(v: Value, colon: string, printReal: real -> string)
    requires Wf(v) && v.Array?
    ensures WfElems(v.elems)
    ensures FastText(v, colon, printReal) == "[" + FastItems(v.elems, ArraySize(v), colon, printReal) + "]"
    ensures FastItems(v.elems, 0, colon, printReal) == ""
  {
    hide WfElems;
  }

  lemma FastItemsStep(v: Value, k: nat, colon: string, printReal: real -> string)
    requires Wf(v) && v.Array? && WfElems(v.elems)
    ensures Wf(ItemAt(v.elems, k)) && Weight(ItemAt(v.elems, k)) < Weight(v)
    ensures FastItems(v.elems, k + 1, colon, printReal)
         == FastItems(v.elems, k, colon, printReal)
             + ((if k > 0 then "," else "") + FastText(ItemAt(v.elems, k), colon, printReal))
  {
    hide FastText, WfElems;
  }

  lemma ObjectFacts(v: Value)
    requires Wf(v) && v.Object?
    ensures WfMembers(v.members) && AscendingNames(v.members) && Weight(v) == 1 + MembersWeight(v.members)
  {
    hide WfMembers, AscendingNames, MembersWeight;
  }

  lemma FastObjectIs(v: Value, colon: string, printReal: real -> string)
    requires Wf(v) && v.Object? && WfMembers(v.members)
    ensures FastText(v, colon, printReal) == "{" + FastMembers(v.members, |v.members|, colon, printReal) + "}"
    ensures FastMembers(v.members, 0, colon, printReal) == ""
  {
    hide WfMembers, AscendingNames;
  }

  lemma FastMembersStep(ms: seq<Member>, k: nat, colon: string, printReal: real -> string)
    requires WfMembers(ms) && k < |ms|
    ensures FastMembers(ms, k + 1, colon, printReal)
         == FastMembers(ms, k, colon, printReal) + FastMember(ms, k, colon, printReal)
  {
    hide FastMember, WfMembers;
  }

  lemma Assoc(a: string, b: string, c: string)
    ensures a + b + c == a + (b + c)
  {
  }

  lemma Associate(d: string, a: string, b: string, c: string, e: string)
    ensures d + a + b + c + e == d + (a + (b + c + e))
  {
    assert b + c + e == b + (c + e);
  }

  class FastWriter {
    const printReal: real -> string
    var document: string
    var yamlCompatibility: bool

    constructor (printReal: real -> string)
      ensures this.printReal == printReal && !yamlCompatibility && document == ""
    {
      this.printReal := printReal;
      document, yamlCompatibility := "", false;
    }

    function Colon(): string
      reads this
    {
      if yamlCompatibility then ": " else ":"
    }

    method Write(root: Value) returns (text: string)
      requires Wf(root)
      modifies `document
      ensures text == document == FastText(root, Colon(), printReal) + "\n"
    {
      document := "";
      WriteValue(root);
      document := document + "\n";
      return document;
    }

    method WriteValue(value: Value)
      requires Wf(value)
      modifies `document
      ensures document == old(document) + FastText(value, Colon(), printReal)
      decreases Weight(value), 1
    {
      if value.Array? {
        WriteArray(value);
      } else if value.Object? {
        WriteObject(value);
      } else {
        var text := ScalarToString(value, printReal);
        document := document + text;
      }
    }

    method WriteArray(value: Value)
      requires Wf(value) && value.Array?
      modifies `document
      ensures document == old(document) + FastText(value, Colon(), printReal)
      decreases Weight(value), 0
    {
      hide Wf, WfElems, Weight, FastText, FastItems, ItemAt, ArraySize;
      ghost var colon := Colon();
      var es, size := value.elems, ArraySize(value);
      FastArrayIs(value, colon, printReal);
      document := document + "[";
      ghost var start := document;
      for index := 0 to size
        invariant document == start + FastItems(es, index, colon, printReal)
      {
        FastItemsStep(value, index, colon, printReal);
        ghost var sep, before := if index > 0 then "," else "", FastItems(es, index, colon, printReal);
        if index > 0 {
          document := document + ",";
        }
        assert document == start + before + sep;
        WriteValue(ItemAt(es, index));
        Assoc(start + before, sep, FastText(ItemAt(es, index), colon, printReal));
        Assoc(start, before, sep + FastText(ItemAt(es, index), colon, printReal));
      }
      document := document + "]";
      Associate(old(document), "", "[", FastItems(es, size, colon, printReal), "]");
    }

    method WriteObject(value: Value)
      requires Wf(value) && value.Object?
      modifies `document
      ensures document == old(document) + FastText(value, Colon(), printReal)
      decreases Weight(value), 0
    {
      hide Wf, WfMembers, AscendingNames, Weight, MembersWeight, FastMember, FastMembers, FastText;
      ghost var colon := Colon();
      var ms := value.members;
      ObjectFacts(value);
      FastObjectIs(value, colon, printReal);
      document := document + "{";
      ghost var start := document;
      for k := 0 to |ms|
        invariant document == start + FastMembers(ms, k, colon, printReal)
      {
        FastMembersStep(ms, k, colon, printReal);
        WriteMember(ms, k);
        Assoc(start, FastMembers(ms, k, colon, printReal), FastMember(ms, k, colon, printReal));
      }
      document := document + "}";
      Associate(old(document), "", "{", FastMembers(ms, |ms|, colon, printReal), "}");
    }

    method WriteMember(ms: seq<Member>, k: nat)
      requires WfMembers(ms) && AscendingNames(ms) && k < |ms|
      modifies `document
      ensures document == old(document) + FastMember(ms, k, Colon(), printReal)
      decreases MembersWeight(ms), 2
    {
      LookupMember(ms, k);
      MemberFacts(ms, k);
      ghost var sep, colon := if k > 0 then "," else "", Colon();
      Associate(document, sep, Quoted(ms[k].name), colon, FastText(ms[k].item, colon, printReal));
      hide FastText, Quoted, Lookup, WfMembers, AscendingNames;
      if k > 0 {
        document := document + ",";
      }
      assert document == old(document) + sep;
      var text := ValueToQuotedString(ms[k].name);
      document := document + text;
      document := document + Colon();
      WriteValue(Lookup(ms, ms[k].name));
    }
  }

  // ---------------------------------------------------------------- the styled writer

  const RIGHT_MARGIN := 74
  const INDENT := "   "

  /** `writeIndent`: a new line and the indentation, unless the document already ends in a blank. */
  function Indented(doc: string, ind: string): (s: string)
    ensures doc <= s
  {
    if doc == "" then ind
    else if doc[|doc| - 1] == ' ' then doc
    else if doc[|doc| - 1] == '\n' then doc + ind
    else doc + "\n" + ind
  }

  /** Scalars and empty containers, which are written without a line break. */
  predicate IsLeaf(v: Value) {
    (v.Array? ==> v.elems == []) && (v.Object? ==> v.members == [])
  }

  function LeafText(v: Value, printReal: real -> string): (s: string)
    requires IsLeaf(v)
  {
    if v.Array? then "[]" else if v.Object? then "{}" else ScalarText(v, printReal)
  }

  predicate AllLeaves(es: seq<Elem>, n: nat) {
    forall k :: 0 <= k < n ==> IsLeaf(ItemAt(es, k))
  }

  function LineLength(es: seq<Elem>, k: nat, printReal: real -> string): (n: int)
    requires AllLeaves(es, k)
  {
    if k == 0 then 0 else LineLength(es, k - 1, printReal) + |LeafText(ItemAt(es, k - 1), printReal)|
  }

  /** `isMultineArray`. */
  predicate MultiLine(es: seq<Elem>, n: nat, printReal: real -> string) {
    n * 3 >= RIGHT_MARGIN || !AllLeaves(es, n) || 4 + (n - 1) * 2 + LineLength(es, n, printReal) >= RIGHT_MARGIN
  }

  function LineItems(es: seq<Elem>, k: nat, printReal: real -> string): (s: string)
    requires AllLeaves(es, k)
  {
    if k == 0 then ""
    else LineItems(es, k - 1, printReal) + ((if k > 1 then ", " else "") + LeafText(ItemAt(es, k - 1), printReal))
  }

  /** The document after `writeValue` on a document and an indentation. */
  function StyledText(v: Value, doc: string, ind: string, printReal: real -> string): (s: string)
    requires Wf(v)
    decreases Weight(v), 0, 0
  {
    if IsLeaf(v) then doc + LeafText(v, printReal)
    else if v.Array? then StyledArray(v, doc, ind, printReal)
    else
      var open := Indented(doc, ind) + "{";
      Indented(StyledMembers(v.members, |v.members|, open, ind + INDENT, printReal), ind) + "}"
  }

  function StyledArray(v: Value, doc: string, ind: string, printReal: real -> string): (s: string)
    requires Wf(v) && v.Array?
    decreases ElemsWeight(v.elems), 2, 0
  {
    var n := ArraySize(v);
    if MultiLine(v.elems, n, printReal) then
      var open := Indented(doc, ind) + "[";
      Indented(StyledItems(v.elems, n, open, ind + INDENT, printReal), ind) + "]"
    else doc + ("[ " + LineItems(v.elems, n, printReal) + " ]")
  }

  function StyledItems(es: seq<Elem>, k: nat, doc: string, ind: string, printReal: real -> string): (s: string)
    requires WfElems(es)
    decreases ElemsWeight(es), 1, k
  {
    if k == 0 then doc
    else
      var before := StyledItems(es, k - 1, doc, ind, printReal) + (if k > 1 then "," else "");
      StyledText(ItemAt(es, k - 1), Indented(before, ind), ind, printReal)
  }

  function StyledMembers(ms: seq<Member>, k: nat, doc: string, ind: string, printReal: real -> string): (s: string)
    requires WfMembers(ms) && k <= |ms|
    decreases MembersWeight(ms), 1, k
  {
    if k == 0 then doc
    else
      StyledMember(ms, k - 1, StyledMembers(ms, k - 1, doc, ind, printReal) + (if k > 1 then "," else ""), ind,
          printReal)
  }

  /** A member on a line of its own. */
  function StyledMember(ms: seq<Member>, k: nat, before: string, ind: string, printReal: real -> string): (s: string)
    requires WfMembers(ms) && k < |ms|
    decreases MembersWeight(ms), 0, 1
  {
    MemberFacts(ms, k);
    StyledText(ms[k].item, Indented(before, ind) + Quoted(ms[k].name) + " : ", ind, printReal)
  }

  lemma SizeFacts(v: Value)
    requires Wf(v) && v.Array?
    ensures WfElems(v.elems) && (!IsLeaf(v) ==> ArraySize(v) > 0)
  {
  }

  lemma StyledArrayIs(v: Value, doc: string, ind: string, printReal: real -> string)
    requires Wf(v) && v.Array? && !IsLeaf(v) && MultiLine(v.elems, ArraySize(v), printReal)
    ensures WfElems(v.elems)
    ensures StyledText(v, doc, ind, printReal)
         == Indented(StyledItems(v.elems, ArraySize(v), Indented(doc, ind) + "[", ind + INDENT, printReal), ind) + "]"
  {
    hide StyledItems, Indented, WfElems, MultiLine;
  }

  lemma StyledItemsNone(es: seq<Elem>, doc: string, ind: string, printReal: real -> string)
    requires WfElems(es)
    ensures StyledItems(es, 0, doc, ind, printReal) == doc
  {
    hide WfElems;
  }

  lemma StyledItemsStep(es: seq<Elem>, k: nat, doc: string, ind: string, printReal: real -> string)
    requires WfElems(es) && Wf(ItemAt(es, k))
    ensures StyledItems(es, k + 1, doc, ind, printReal)
         == StyledText(ItemAt(es, k),
             Indented(StyledItems(es, k, doc, ind, printReal) + (if k > 0 then "," else ""), ind), ind, printReal)
  {
    hide StyledText, Indented, WfElems, Wf;
  }

  lemma StyledObjectIs(v: Value, doc: string, ind: string, printReal: real -> string)
    requires Wf(v) && v.Object? && v.members != [] && WfMembers(v.members)
    ensures StyledText(v, doc, ind, printReal)
         == Indented(StyledMembers(v.members, |v.members|, Indented(doc, ind) + "{", ind + INDENT, printReal), ind)
             + "}"
    ensures StyledMembers(v.members, 0, Indented(doc, ind) + "{", ind + INDENT, printReal) == Indented(doc, ind) + "{"
  {
    hide Indented, WfMembers;
  }

  lemma StyledMembersStep(ms: seq<Member>, k: nat, doc: string, ind: string, printReal: real -> string)
    requires WfMembers(ms) && k < |ms| && Wf(ms[k].item)
    ensures StyledMembers(ms, k + 1, doc, ind, printReal)
         == StyledText(ms[k].item,
                       Indented(StyledMembers(ms, k, doc, ind, printReal) + (if k > 0 then "," else ""), ind)
                           + Quoted(ms[k].name) + " : ",
                       ind, printReal)
  {
    hide StyledText, Indented, WfMembers, Wf, Quoted;
  }

  class StyledWriter {
    const printReal: real -> string
    var document: string
    var indentString: string
    var childValues: seq<string>
    var addChildValues: bool

    constructor (printReal: real -> string)
      ensures this.printReal == printReal
    {
      this.printReal := printReal;
      document, indentString, childValues, addChildValues := "", "", [], false;
    }

    method Write(root: Value) returns (text: string)
      requires Wf(root)
      modifies this
      ensures text == document == StyledText(root, "", "", printReal) + "\n"
    {
      document := "";
      addChildValues := false;
      indentString := "";
      WriteValue(root);
      document := document + "\n";
      return document;
    }

    method PushValue(value: string)
      modifies `document, `childValues
      ensures addChildValues ==> childValues == old(childValues) + [value] && document == old(document)
      ensures !addChildValues ==> document == old(document) + value && childValues == old(childValues)
    {
      if addChildValues {
        childValues := childValues + [value];
      } else {
        document := document + value;
      }
    }

    method WriteIndent()
      modifies `document
      ensures document == Indented(old(document), indentString)
    {
      if document != "" {
        var last := document[|document| - 1];
        if last == ' ' {
          return;
        }
        if last != '\n' {
          document := document + "\n";
        }
      }
      document := document + indentString;
    }

    method WriteWithIndent(value: string)
      modifies `document
      ensures document == Indented(old(document), indentString) + value
    {
      WriteIndent();
      document := document + value;
    }

    method Indent()
      modifies `indentString
      ensures indentString == old(indentString) + INDENT
    {
      indentString := indentString + INDENT;
    }

    method Unindent()
      requires |indentString| >= |INDENT|
      modifies `indentString
      ensures indentString == old(indentString)[..|old(indentString)| - |INDENT|]
    {
      indentString := indentString[..|indentString| - |INDENT|];
    }

    /** A leaf goes where `addChildValues` says; anything else is written into the document. */
    method WriteValue(value: Value)
      requires Wf(value) && (addChildValues ==> IsLeaf(value))
      modifies this
      ensures addChildValues == old(addChildValues) && indentString == old(indentString)
      ensures !addChildValues ==> document == StyledText(value, old(document), indentString, printReal)
      ensures addChildValues ==>
                document == old(document) && childValues == old(childValues) + [LeafText(value, printReal)]
      decreases Weight(value), 3
    {
      if value.Array? {
        WriteArrayValue(value);
      } else if value.Object? && value.members == [] {
        PushValue("{}");
      } else if value.Object? {
        WriteObjectValue(value);
      } else {
        var text := ScalarToString(value, printReal);
        PushValue(text);
      }
    }

    method WriteObjectValue(value: Value)
      requires Wf(value) && value.Object? && value.members != [] && !addChildValues
      modifies this
      ensures addChildValues == old(addChildValues) && indentString == old(indentString)
      ensures document == StyledText(value, old(document), indentString, printReal)
      decreases Weight(value), 0
    {
      hide StyledText, StyledMembers, Indented, Quoted, Lookup, Wf, WfMembers, AscendingNames, Weight, MembersWeight;
      ObjectFacts(value);
      var ms := value.members;
      ghost var outer := indentString;
      StyledObjectIs(value, document, outer, printReal);
      WriteWithIndent("{");
      ghost var open := document;
      Indent();
      var k := 0;
      while true
        invariant 0 <= k < |ms| && !addChildValues && indentString == outer + INDENT
        invariant document == StyledMembers(ms, k, open, indentString, printReal) + (if k > 0 then "," else "")
        decreases |ms| - k
      {
        LookupMember(ms, k);
        MemberFacts(ms, k);
        StyledMembersStep(ms, k, open, outer + INDENT, printReal);
        var name := ValueToQuotedString(ms[k].name);
        WriteWithIndent(name);
        document := document + " : ";
        WriteValue(Lookup(ms, ms[k].name));
        k := k + 1;
        if k == |ms| {
          break;
        }
        document := document + ",";
      }
      Unindent();
      WriteWithIndent("}");
    }

    method WriteArrayValue(value: Value)
      requires Wf(value) && value.Array? && (addChildValues ==> IsLeaf(value))
      modifies this
      ensures addChildValues == old(addChildValues) && indentString == old(indentString)
      ensures !addChildValues ==> document == StyledText(value, old(document), indentString, printReal)
      ensures addChildValues ==>
                document == old(document) && childValues == old(childValues) + [LeafText(value, printReal)]
      decreases Weight(value), 2
    {
      var size := ArraySize(value);
      if size == 0 {
        PushValue("[]");
        return;
      }
      var isMultiLine := IsMultilineArray(value);
      if isMultiLine {
        WriteItemsOnLines(value);
      } else {
        WriteItemsOnOneLine(value.elems, size);
      }
    }

    /** Pre-renders the children of an array that may fit on one line. */
    method IsMultilineArray(value: Value) returns (isMultiLine: bool)
      requires Wf(value) && value.Array? && !addChildValues
      modifies this
      ensures addChildValues == old(addChildValues) && indentString == old(indentString)
      ensures document == old(document)
      ensures isMultiLine == MultiLine(value.elems, ArraySize(value), printReal)
      ensures childValues != [] || !isMultiLine ==> Rendered(value.elems, ArraySize(value))
      decreases Weight(value), 1
    {
      var es, size := value.elems, ArraySize(value);
      isMultiLine := size * 3 >= RIGHT_MARGIN;
      childValues := [];
      var index := 0;
      while index < size && !isMultiLine
        invariant 0 <= index <= size
        invariant isMultiLine <==> size * 3 >= RIGHT_MARGIN || !AllLeaves(es, index)
      {
        var child := ItemAt(es, index);
        isMultiLine := (child.Array? && child.elems != []) || (child.Object? && child.members != []);
        index := index + 1;
      }
      if !isMultiLine {
        var lineLength := RenderChildren(es, size);
        isMultiLine := lineLength >= RIGHT_MARGIN;
      }
    }

    method RenderChildren(es: seq<Elem>, size: nat) returns (lineLength: int)
      requires WfElems(es) && AllLeaves(es, size) && !addChildValues && childValues == []
      modifies this
      ensures !addChildValues && indentString == old(indentString) && document == old(document)
      ensures Rendered(es, size)
      ensures lineLength == 4 + (size - 1) * 2 + LineLength(es, size, printReal)
      decreases ElemsWeight(es), 4
    {
      hide LeafText, ItemAt, WfElems, IsLeaf;
      addChildValues := true;
      lineLength := 4 + (size - 1) * 2;
      for i := 0 to size
        invariant addChildValues && indentString == old(indentString) && document == old(document)
        invariant |childValues| == i
        invariant forall j :: 0 <= j < i ==> childValues[j] == LeafText(ItemAt(es, j), printReal)
        invariant lineLength == 4 + (size - 1) * 2 + LineLength(es, i, printReal)
      {
        WriteValue(ItemAt(es, i));
        lineLength := lineLength + |childValues[i]|;
      }
      addChildValues := false;
    }

    ghost predicate Rendered(es: seq<Elem>, size: nat)
      reads this
    {
      && |childValues| == size && AllLeaves(es, size)
      && forall j :: 0 <= j < size ==> childValues[j] == LeafText(ItemAt(es, j), printReal)
    }

    method WriteItemOnLine(value: Value, index: nat, hasChildValue: bool)
      requires Wf(value) && value.Array? && index < ArraySize(value) && !addChildValues
      requires hasChildValue ==> Rendered(value.elems, ArraySize(value))
      modifies this
      ensures !addChildValues && indentString == old(indentString)
      ensures hasChildValue ==> childValues == old(childValues)
      ensures document == StyledText(ItemAt(value.elems, index), Indented(old(document), indentString), indentString,
              printReal)
      decreases Weight(value), 0
    {
      if hasChildValue {
        assert IsLeaf(ItemAt(value.elems, index));
        WriteWithIndent(childValues[index]);
      } else {
        WriteIndent();
        WriteValue(ItemAt(value.elems, index));
      }
    }

    method WriteItemsOnLines(value: Value)
      requires Wf(value) && value.Array? && !IsLeaf(value) && !addChildValues
      requires MultiLine(value.elems, ArraySize(value), printReal)
      requires childValues != [] ==> Rendered(value.elems, ArraySize(value))
      modifies this
      ensures addChildValues == old(addChildValues) && indentString == old(indentString)
      ensures document == StyledText(value, old(document), indentString, printReal)
      decreases Weight(value), 1
    {
      hide StyledText, StyledArray, StyledItems, Indented, ItemAt, LeafText, Wf, WfElems, Weight, MultiLine, IsLeaf,
           ArraySize;
      SizeFacts(value);
      var size := ArraySize(value);
      ghost var es, outer := value.elems, indentString;
      StyledItemsNone(es, Indented(document, outer) + "[", outer + INDENT, printReal);
      WriteWithIndent("[");
      ghost var open := document;
      StyledArrayIs(value, old(document), outer, printReal);
      Indent();
      var hasChildValue := childValues != [];
      var index := 0;
      while true
        invariant 0 <= index < size && !addChildValues && indentString == outer + INDENT
        invariant hasChildValue ==> Rendered(value.elems, ArraySize(value))
        invariant document == StyledItems(es, index, open, outer + INDENT, printReal) + (if index > 0 then "," else "")
        decreases size - index
      {
        StyledItemsStep(es, index, open, outer + INDENT, printReal);
        WriteItemOnLine(value, index, hasChildValue);
        index := index + 1;
        if index == size {
          break;
        }
        document := document + ",";
      }
      Unindent();
      WriteWithIndent("]");
    }

    method WriteItemsOnOneLine(es: seq<Elem>, size: nat)
      requires Rendered(es, size)
      modifies `document
      ensures document == old(document) + ("[ " + LineItems(es, size, printReal) + " ]")
    {
      hide LeafText, ItemAt, IsLeaf;
      document := document + "[ ";
      ghost var start := document;
      for index := 0 to size
        invariant document == start + LineItems(es, index, printReal)
      {
        ghost var sep, before := if index > 0 then ", " else "", LineItems(es, index, printReal);
        if index > 0 {
          document := document + ", ";
        }
        assert document == start + before + sep;
        document := document + childValues[index];
        Assoc(start + before, sep, childValues[index]);
        Assoc(start, before, sep + childValues[index]);
        assert LineItems(es, index + 1, printReal) == before + (sep + childValues[index]);
      }
      document := document + " ]";
      Assoc(old(document), "[ ", LineItems(es, size, printReal));
      Assoc(old(document), "[ " + LineItems(es, size, printReal), " ]");
    }
  }
}
