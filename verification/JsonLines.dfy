/**
  The documents of public/json/json_writer.cpp character by character. The indented one is a list
  of lines, while the printer decides from the last character it wrote whether to break the line;
  the compact one is the tokens with nothing between them.
 */
module JsonLines {
  import opened Common
  import opened JsonValue
  import opened JsonWriter
  import opened JsonLayout

  // ---------------------------------------------------------------- lines

  /** Three blanks for every level. */
  function Blanks(depth: nat): (s: string)
    ensures |s| == 3 * depth && forall i :: 0 <= i < |s| ==> s[i] == ' '
  {
    seq(3 * depth, _ => ' ')
  }

  /** Lines that each begin with a line break. */
  function Broken(ls: seq<string>): (s: string) {
    if ls == [] then "" else "\n" + ls[0] + Broken(ls[1..])
  }

  /** Lines with breaks between them. */
  function Text(ls: seq<string>): (s: string)
    requires ls != []
  {
    ls[0] + Broken(ls[1..])
  }

  function FirstAfter(prefix: string, ls: seq<string>): (r: seq<string>)
    requires ls != []
    ensures r != []
  {
    [prefix + ls[0]] + ls[1..]
  }

  /** A comma behind the last line. */
  function Comma(ls: seq<string>): (r: seq<string>) {
    if ls == [] then [] else ls[..|ls| - 1] + [ls[|ls| - 1] + ","]
  }

  /** The texts of the first `k` slots with separators between them. */
  function Separated(es: seq<Elem>, k: nat, pr: real -> string): (s: string)
    requires AllLeaves(es, k)
  {
    if k == 0 then "" else if k == 1 then LeafText(ItemAt(es, 0), pr)
    else Separated(es, k - 1, pr) + ", " + LeafText(ItemAt(es, k - 1), pr)
  }

  /** Whether an array goes on one line: few slots, no filled container in them, and shorter than 74 characters. */
  predicate OneLine(es: seq<Elem>, n: nat, pr: real -> string) {
    n <= 24 && AllLeaves(es, n) && |"[ " + Separated(es, n, pr) + " ]"| < 74
  }

  /** The lines of a value at a depth; the first one follows whatever stands before the value. */
  function Lines(v: Value, depth: nat, pr: real -> string): (ls: seq<string>)
    requires Wf(v)
    ensures ls != []
    decreases Weight(v), 0, 0
  {
    if IsLeaf(v) then [LeafText(v, pr)]
    else if v.Array? then
      if OneLine(v.elems, ArraySize(v), pr) then ["[ " + Separated(v.elems, ArraySize(v), pr) + " ]"]
      else ["["] + ItemLines(v.elems, ArraySize(v), depth + 1, pr) + [Blanks(depth) + "]"]
    else ["{"] + MemberLines(v.members, |v.members|, depth + 1, pr) + [Blanks(depth) + "}"]
  }

  function ItemLines(es: seq<Elem>, k: nat, depth: nat, pr: real -> string): (ls: seq<string>)
    requires WfElems(es)
    ensures k > 0 ==> ls != []
    decreases ElemsWeight(es), 1, k
  {
    if k == 0 then []
    else Comma(ItemLines(es, k - 1, depth, pr)) + FirstAfter(Blanks(depth), Lines(ItemAt(es, k - 1), depth, pr))
  }

  function MemberLines(ms: seq<Member>, k: nat, depth: nat, pr: real -> string): (ls: seq<string>)
    requires WfMembers(ms) && k <= |ms|
    ensures k > 0 ==> ls != []
    decreases MembersWeight(ms), 1, k
  {
    if k == 0 then []
    else
      MemberFacts(ms, k - 1);
      Comma(MemberLines(ms, k - 1, depth, pr))
      + FirstAfter(Blanks(depth) + Quoted(ms[k - 1].name) + " : ", Lines(ms[k - 1].item, depth, pr))
  }

  // ---------------------------------------------------------------- line breaks

  lemma {:induction false} BrokenAppend(a: seq<string>, b: seq<string>)
    ensures Broken(a + b) == Broken(a) + Broken(b)
  {
    if a == [] {
      assert a + b == b;
    } else {
      assert (a + b)[1..] == a[1..] + b;
      BrokenAppend(a[1..], b);
    }
  }

  lemma BrokenOne(l: string)
    ensures Broken([l]) == "\n" + l
  {
    assert [l][1..] == [];
    assert Broken([]) == "";
  }

  lemma BrokenFirst(prefix: string, ls: seq<string>)
    requires ls != []
    ensures Broken(FirstAfter(prefix, ls)) == "\n" + prefix + Text(ls)
  {
    assert FirstAfter(prefix, ls)[1..] == ls[1..];
  }

  lemma BrokenComma(ls: seq<string>)
    requires ls != []
    ensures Broken(Comma(ls)) == Broken(ls) + ","
  {
    hide Broken;
    var n := |ls| - 1;
    assert ls == ls[..n] + [ls[n]];
    BrokenAppend(ls[..n], [ls[n]]);
    BrokenAppend(ls[..n], [ls[n] + ","]);
    BrokenOne(ls[n]);
    BrokenOne(ls[n] + ",");
  }

  /** The text ends in neither a blank nor a line break, so the printer breaks the line behind it. */
  predicate Ink(s: string) {
    s != "" && s[|s| - 1] != ' ' && s[|s| - 1] != '\n'
  }

  /** Numbers are printed as some text that ends in neither. */
  ghost predicate Inked(pr: real -> string) {
    forall r :: Ink(pr(r))
  }

  lemma ScalarInk(v: Value, pr: real -> string)
    requires Wf(v) && IsLeaf(v) && Inked(pr)
    ensures Ink(LeafText(v, pr))
  {
    hide Escape, UIntText;
    match v
    case Int(i) => if i < 0 { UIntInk(-i); } else { UIntInk(i); }
    case UInt(u) => UIntInk(u);
    case _ =>
  }

  lemma UIntInk(n: nat)
    ensures Ink(UIntText(n))
  {
    var s := UIntText(n);
    assert '0' <= s[|s| - 1] <= '9';
  }

  // ---------------------------------------------------------------- arrays on one line

  lemma {:induction false} SeparatedIs(es: seq<Elem>, k: nat, pr: real -> string)
    requires AllLeaves(es, k)
    ensures Separated(es, k, pr) == LineItems(es, k, pr)
    ensures k > 0 ==> |Separated(es, k, pr)| == (k - 1) * 2 + LineLength(es, k, pr)
  {
    hide LeafText, ItemAt, IsLeaf;
    if k > 0 {
      SeparatedIs(es, k - 1, pr);
      if k == 1 {
        OneItem(es, pr);
      }
    }
  }

  lemma OneItem(es: seq<Elem>, pr: real -> string)
    requires AllLeaves(es, 1)
    ensures LineItems(es, 1, pr) == LeafText(ItemAt(es, 0), pr)
    ensures LineLength(es, 1, pr) == |LeafText(ItemAt(es, 0), pr)|
  {
    hide LeafText, ItemAt, IsLeaf;
    assert LineItems(es, 0, pr) == "" && LineLength(es, 0, pr) == 0;
  }

  /** The printer's decision is whether the line would be too long, or too full. */
  lemma OneLineIs(es: seq<Elem>, n: nat, pr: real -> string)
    requires n > 0
    ensures OneLine(es, n, pr) <==> !MultiLine(es, n, pr)
  {
    hide Separated, LineLength, AllLeaves;
    if AllLeaves(es, n) {
      SeparatedIs(es, n, pr);
    }
  }

  // ---------------------------------------------------------------- the printed document

  /** A place where the printer does not break the line. */
  predicate Ready(doc: string, depth: nat) {
    if doc == "" then depth == 0 else doc[|doc| - 1] == ' '
  }

  lemma ReadyStays(doc: string, depth: nat)
    requires Ready(doc, depth)
    ensures Indented(doc, Blanks(depth)) == doc
  {
  }

  lemma InkBreaks(doc: string, ind: string)
    requires Ink(doc)
    ensures Indented(doc, ind) == doc + "\n" + ind
  {
  }

  lemma InkBehind(a: string, b: string)
    requires Ink(b)
    ensures Ink(a + b)
  {
  }

  lemma DeeperBlanks(depth: nat)
    ensures Blanks(depth) + INDENT == Blanks(depth + 1) && (Blanks(0) == "")
  {
  }

  /** The last line of a value ends in ink. */
  lemma LinesInk(v: Value, depth: nat, pr: real -> string)
    requires Wf(v) && Inked(pr)
    ensures Ink(Text(Lines(v, depth, pr)))
  {
    hide LeafText, ItemLines, MemberLines, Broken, Separated, Blanks, OneLine, Inked;
    if IsLeaf(v) {
      ScalarInk(v, pr);
      OneLineText(LeafText(v, pr));
    } else if v.Array? {
      if OneLine(v.elems, ArraySize(v), pr) {
        OneLineLeaves(v.elems, ArraySize(v), pr);
        OneLineText("[ " + Separated(v.elems, ArraySize(v), pr) + " ]");
      } else {
        LastLine("[", ItemLines(v.elems, ArraySize(v), depth + 1, pr), Blanks(depth), "]");
      }
    } else {
      LastLine("{", MemberLines(v.members, |v.members|, depth + 1, pr), Blanks(depth), "}");
    }
  }

  lemma OneLineText(l: string)
    ensures Text([l]) == l
  {
    assert [l][1..] == [] && Broken([]) == "";
  }

  /** The text of a container on several lines. */
  lemma LastLine(open: string, ls: seq<string>, ind: string, close: string)
    ensures Text([open] + ls + [ind + close]) == open + Broken(ls) + "\n" + ind + close
  {
    hide Broken;
    assert ([open] + ls + [ind + close])[1..] == ls + [ind + close];
    BrokenAppend(ls, [ind + close]);
    BrokenOne(ind + close);
  }

  /** `writeValue` appends the lines of the value. */
  lemma {:induction false} StyledIsLines(v: Value, doc: string, depth: nat, pr: real -> string)
    requires Wf(v) && Inked(pr) && Ready(doc, depth)
    ensures StyledText(v, doc, Blanks(depth), pr) == doc + Text(Lines(v, depth, pr))
    decreases Weight(v), 2, 0
  {
    hide Wf, Weight, LeafText, StyledText, Lines, Inked;
    if IsLeaf(v) {
      LeafLines(v, doc, depth, pr);
    } else if v.Array? {
      ArrayLines(v, doc, depth, pr);
    } else {
      ObjectLines(v, doc, depth, pr);
    }
  }

  lemma LeafLines(v: Value, doc: string, depth: nat, pr: real -> string)
    requires Wf(v) && IsLeaf(v)
    ensures StyledText(v, doc, Blanks(depth), pr) == doc + Text(Lines(v, depth, pr))
  {
    hide LeafText, Wf;
    OneLineText(LeafText(v, pr));
  }

  /** Closing a container whose inner lines have been written. */
  lemma Closed(doc: string, open: string, ls: seq<string>, depth: nat, close: string)
    requires Ink(doc + open + Broken(ls))
    ensures Indented(doc + open + Broken(ls), Blanks(depth)) + close
         == doc + Text([open] + ls + [Blanks(depth) + close])
  {
    hide Broken, Blanks, Indented, Text;
    InkBreaks(doc + open + Broken(ls), Blanks(depth));
    LastLine(open, ls, Blanks(depth), close);
  }

  lemma ArrayLines(v: Value, doc: string, depth: nat, pr: real -> string)
    requires Wf(v) && Inked(pr) && Ready(doc, depth) && v.Array? && !IsLeaf(v)
    ensures StyledText(v, doc, Blanks(depth), pr) == doc + Text(Lines(v, depth, pr))
    decreases Weight(v), 1, 0
  {
    hide Indented, Blanks, MultiLine, OneLine, LineItems, Separated, StyledItems, ItemLines, Text, Inked, WfElems,
         Broken, ElemsWeight, IsLeaf;
    SizeFacts(v);
    var es, n := v.elems, ArraySize(v);
    OneLineIs(es, n, pr);
    if OneLine(es, n, pr) {
      OneLineLeaves(es, n, pr);
      SeparatedIs(es, n, pr);
      OneLineText("[ " + Separated(es, n, pr) + " ]");
      SingleLine(v, doc, depth, pr);
    } else {
      ReadyStays(doc, depth);
      DeeperBlanks(depth);
      StyledArrayIs(v, doc, Blanks(depth), pr);
      ItemsAreLines(es, n, doc + "[", depth + 1, pr);
      Closed(doc, "[", ItemLines(es, n, depth + 1, pr), depth, "]");
      SeveralLines(v, depth, pr);
    }
  }

  lemma OneLineLeaves(es: seq<Elem>, n: nat, pr: real -> string)
    requires OneLine(es, n, pr)
    ensures AllLeaves(es, n)
  {
  }

  lemma SingleLine(v: Value, doc: string, depth: nat, pr: real -> string)
    requires Wf(v) && v.Array? && !IsLeaf(v) && OneLine(v.elems, ArraySize(v), pr) && AllLeaves(v.elems, ArraySize(v))
    requires !MultiLine(v.elems, ArraySize(v), pr)
    ensures StyledText(v, doc, Blanks(depth), pr) == doc + ("[ " + LineItems(v.elems, ArraySize(v), pr) + " ]")
    ensures Lines(v, depth, pr) == ["[ " + Separated(v.elems, ArraySize(v), pr) + " ]"]
  {
    hide MultiLine, OneLine, LineItems, Separated, WfElems, AllLeaves;
  }

  lemma SeveralLines(v: Value, depth: nat, pr: real -> string)
    requires Wf(v) && v.Array? && !IsLeaf(v) && !OneLine(v.elems, ArraySize(v), pr)
    ensures WfElems(v.elems)
    ensures Lines(v, depth, pr) == ["["] + ItemLines(v.elems, ArraySize(v), depth + 1, pr) + [Blanks(depth) + "]"]
  {
    hide OneLine, WfElems, ItemLines, Blanks;
  }

  /** The items on lines of their own. */
  lemma {:induction false} ItemsAreLines(es: seq<Elem>, k: nat, doc: string, depth: nat, pr: real -> string)
    requires WfElems(es) && Inked(pr) && Ink(doc) && depth > 0
    ensures StyledItems(es, k, doc, Blanks(depth), pr) == doc + Broken(ItemLines(es, k, depth, pr))
    ensures Ink(StyledItems(es, k, doc, Blanks(depth), pr))
    decreases ElemsWeight(es), 3, k
  {
    hide Indented, Blanks, StyledItems, ItemLines, Text, Inked, WfElems, Broken, Ink, StyledText, Lines, Wf, ItemAt;
    if k == 0 {
      NoItems(es, doc, depth, pr);
    } else {
      ItemsAreLines(es, k - 1, doc, depth, pr);
      ItemFacts(es, k - 1);
      var item, before := ItemAt(es, k - 1), StyledItems(es, k - 1, doc, Blanks(depth), pr);
      var sep, inner := if k > 1 then "," else "", ItemLines(es, k - 1, depth, pr);
      CommaInk(before, k > 1);
      InkBreaks(before + sep, Blanks(depth));
      BlankReady(before + sep + "\n", depth);
      StyledIsLines(item, before + sep + "\n" + Blanks(depth), depth, pr);
      StyledItemsStep(es, k - 1, doc, Blanks(depth), pr);
      ItemLinesStep(es, k, depth, pr);
      JoinItem(doc, inner, Blanks(depth), Lines(item, depth, pr), k > 1);
      LinesInk(item, depth, pr);
      InkBehind(before + sep + "\n" + Blanks(depth), Text(Lines(item, depth, pr)));
    }
  }

  lemma NoItems(es: seq<Elem>, doc: string, depth: nat, pr: real -> string)
    requires WfElems(es)
    ensures StyledItems(es, 0, doc, Blanks(depth), pr) == doc + Broken(ItemLines(es, 0, depth, pr)) == doc
    ensures ItemLines(es, 0, depth, pr) == []
  {
    hide WfElems;
  }

  lemma ItemFacts(es: seq<Elem>, k: nat)
    requires WfElems(es)
    ensures Wf(ItemAt(es, k)) && Weight(ItemAt(es, k)) <= ElemsWeight(es)
  {
  }

  lemma ItemLinesStep(es: seq<Elem>, k: nat, depth: nat, pr: real -> string)
    requires WfElems(es) && k > 0 && Wf(ItemAt(es, k - 1))
    ensures ItemLines(es, k, depth, pr)
         == Comma(ItemLines(es, k - 1, depth, pr)) + FirstAfter(Blanks(depth), Lines(ItemAt(es, k - 1), depth, pr))
    ensures k == 1 ==> ItemLines(es, k - 1, depth, pr) == []
  {
    hide WfElems, Wf, Lines, Blanks, Comma, FirstAfter;
  }

  lemma CommaInk(before: string, more: bool)
    requires Ink(before)
    ensures Ink(before + if more then "," else "")
  {
    if !more {
      assert before + "" == before;
    }
  }

  lemma BlankReady(doc: string, depth: nat)
    requires depth > 0
    ensures Ready(doc + Blanks(depth), depth)
  {
  }

  /** One more part behind a comma. */
  lemma JoinItem(doc: string, inner: seq<string>, prefix: string, ls: seq<string>, more: bool)
    requires ls != [] && (inner == [] <==> !more)
    ensures doc + Broken(inner) + (if more then "," else "") + "\n" + prefix + Text(ls)
         == doc + Broken(Comma(inner) + FirstAfter(prefix, ls))
  {
    hide Broken, Text, FirstAfter;
    BrokenAppend(Comma(inner), FirstAfter(prefix, ls));
    BrokenFirst(prefix, ls);
    if more {
      BrokenComma(inner);
    } else {
      NoLines();
    }
  }

  lemma NoLines()
    ensures Broken([]) == ""
  {
  }

  lemma ObjectLines(v: Value, doc: string, depth: nat, pr: real -> string)
    requires Wf(v) && Inked(pr) && Ready(doc, depth) && v.Object? && !IsLeaf(v)
    ensures StyledText(v, doc, Blanks(depth), pr) == doc + Text(Lines(v, depth, pr))
    decreases Weight(v), 1, 0
  {
    hide Indented, Blanks, StyledMembers, MemberLines, Text, Inked, WfMembers, Broken, MembersWeight;
    ObjectFacts(v);
    var ms := v.members;
    ReadyStays(doc, depth);
    DeeperBlanks(depth);
    StyledObjectIs(v, doc, Blanks(depth), pr);
    MembersAreLines(ms, |ms|, doc + "{", depth + 1, pr);
    Closed(doc, "{", MemberLines(ms, |ms|, depth + 1, pr), depth, "}");
  }

  /** The members on lines of their own. */
  lemma {:induction false} MembersAreLines(ms: seq<Member>, k: nat, doc: string, depth: nat, pr: real -> string)
    requires WfMembers(ms) && k <= |ms| && Inked(pr) && Ink(doc) && depth > 0
    ensures StyledMembers(ms, k, doc, Blanks(depth), pr) == doc + Broken(MemberLines(ms, k, depth, pr))
    ensures Ink(StyledMembers(ms, k, doc, Blanks(depth), pr))
    decreases MembersWeight(ms), 3, k
  {
    hide Indented, Blanks, StyledMembers, MemberLines, Text, Inked, WfMembers, Broken, Ink, StyledText, Lines, Wf,
         Quoted;
    if k == 0 {
      NoMembers(ms, doc, depth, pr);
    } else {
      MembersAreLines(ms, k - 1, doc, depth, pr);
      MemberFacts(ms, k - 1);
      var m, before := ms[k - 1], StyledMembers(ms, k - 1, doc, Blanks(depth), pr);
      var sep, inner := if k > 1 then "," else "", MemberLines(ms, k - 1, depth, pr);
      var name := Blanks(depth) + Quoted(m.name) + " : ";
      CommaInk(before, k > 1);
      InkBreaks(before + sep, Blanks(depth));
      ColonReady(before + sep + "\n", Blanks(depth) + Quoted(m.name), depth);
      StyledIsLines(m.item, before + sep + "\n" + name, depth, pr);
      StyledMembersStep(ms, k - 1, doc, Blanks(depth), pr);
      NameJoins(before + sep + "\n", Blanks(depth), Quoted(m.name));
      MemberLinesStep(ms, k, depth, pr);
      JoinItem(doc, inner, name, Lines(m.item, depth, pr), k > 1);
      LinesInk(m.item, depth, pr);
      InkBehind(before + sep + "\n" + name, Text(Lines(m.item, depth, pr)));
    }
  }

  lemma NoMembers(ms: seq<Member>, doc: string, depth: nat, pr: real -> string)
    requires WfMembers(ms)
    ensures StyledMembers(ms, 0, doc, Blanks(depth), pr) == doc + Broken(MemberLines(ms, 0, depth, pr)) == doc
    ensures MemberLines(ms, 0, depth, pr) == []
  {
    hide WfMembers;
  }

  lemma ColonReady(doc: string, name: string, depth: nat)
    ensures Ready(doc + (name + " : "), depth)
  {
  }

  lemma NameJoins(doc: string, ind: string, name: string)
    ensures doc + ind + name + " : " == doc + (ind + name + " : ")
  {
  }

  lemma MemberLinesStep(ms: seq<Member>, k: nat, depth: nat, pr: real -> string)
    requires WfMembers(ms) && 0 < k <= |ms| && Wf(ms[k - 1].item)
    ensures MemberLines(ms, k, depth, pr)
         == Comma(MemberLines(ms, k - 1, depth, pr))
            + FirstAfter(Blanks(depth) + Quoted(ms[k - 1].name) + " : ", Lines(ms[k - 1].item, depth, pr))
    ensures k == 1 ==> MemberLines(ms, k - 1, depth, pr) == []
  {
    hide WfMembers, Wf, Lines, Blanks, Comma, FirstAfter, Quoted;
  }

  /** The indented document is the lines of the value and a line break. */
  lemma StyledDocument(v: Value, pr: real -> string)
    requires Wf(v) && Inked(pr)
    ensures StyledText(v, "", "", pr) == Text(Lines(v, 0, pr))
  {
    hide StyledText, Lines, Text;
    DeeperBlanks(0);
    StyledIsLines(v, "", 0, pr);
    assert "" + Text(Lines(v, 0, pr)) == Text(Lines(v, 0, pr));
  }

  // ---------------------------------------------------------------- the compact document

  lemma {:induction false} ConcatAppend(a: seq<string>, b: seq<string>)
    ensures Concat(a + b) == Concat(a) + Concat(b)
  {
    if a == [] {
      assert a + b == b;
    } else {
      assert (a + b)[1..] == a[1..] + b;
      ConcatAppend(a[1..], b);
    }
  }

  lemma ConcatOne(t: string)
    ensures Concat([t]) == t
  {
    assert Concat([t]) == t + Concat([]);
  }

  lemma ConcatAround(open: string, ts: seq<string>, close: string)
    ensures Concat([open] + ts + [close]) == open + Concat(ts) + close
  {
    hide Concat;
    ConcatAppend([open] + ts, [close]);
    ConcatAppend([open], ts);
    ConcatOne(open);
    ConcatOne(close);
  }

  /** The compact text is the tokens of the value, back to back. */
  lemma {:induction false} FastIsTokens(v: Value, pr: real -> string)
    requires Wf(v)
    ensures FastText(v, ":", pr) == Concat(Toks(v, pr))
    decreases Weight(v), 2, 0
  {
    hide Concat, FastItems, FastMembers, ItemToks, MemberToks, ScalarText;
    if v.Array? {
      ItemsAreTokens(v.elems, ArraySize(v), pr);
      ConcatAround("[", ItemToks(v.elems, ArraySize(v), pr), "]");
    } else if v.Object? {
      MembersAreTokens(v.members, |v.members|, pr);
      ConcatAround("{", MemberToks(v.members, |v.members|, pr), "}");
    } else {
      ConcatOne(ScalarText(v, pr));
    }
  }

  lemma {:induction false} ItemsAreTokens(es: seq<Elem>, k: nat, pr: real -> string)
    requires WfElems(es)
    ensures FastItems(es, k, ":", pr) == Concat(ItemToks(es, k, pr))
    decreases ElemsWeight(es), 3, k
  {
    hide FastText, Toks;
    if k > 0 {
      ItemsAreTokens(es, k - 1, pr);
      ItemFacts(es, k - 1);
      FastIsTokens(ItemAt(es, k - 1), pr);
      ConcatAppend(ItemToks(es, k - 1, pr), ItemPiece(es, k - 1, pr));
      SeparatorFirst(k > 1, Toks(ItemAt(es, k - 1), pr));
    }
  }

  lemma SeparatorFirst(more: bool, ts: seq<string>)
    ensures Concat((if more then [","] else []) + ts) == (if more then "," else "") + Concat(ts)
  {
    hide Concat;
    ConcatAppend([","], ts);
    ConcatOne(",");
    assert [] + ts == ts && "" + Concat(ts) == Concat(ts);
  }

  lemma {:induction false} MembersAreTokens(ms: seq<Member>, k: nat, pr: real -> string)
    requires WfMembers(ms) && k <= |ms|
    ensures FastMembers(ms, k, ":", pr) == Concat(MemberToks(ms, k, pr))
    decreases MembersWeight(ms), 3, k
  {
    hide FastText, Toks, Quoted;
    if k > 0 {
      MembersAreTokens(ms, k - 1, pr);
      MemberFacts(ms, k - 1);
      var m := ms[k - 1];
      FastIsTokens(m.item, pr);
      ConcatAppend(MemberToks(ms, k - 1, pr), MemberPiece(ms, k - 1, pr));
      SeparatorFirst(k > 1, [Quoted(m.name), ":"] + Toks(m.item, pr));
      NameFirst(Quoted(m.name), Toks(m.item, pr));
    }
  }

  lemma NameFirst(name: string, ts: seq<string>)
    ensures Concat([name, ":"] + ts) == name + ":" + Concat(ts)
  {
    hide Concat;
    assert [name, ":"] + ts == [name] + ([":"] + ts);
    ConcatAppend([name], [":"] + ts);
    ConcatAppend([":"], ts);
    ConcatOne(name);
    ConcatOne(":");
  }
}
