/**
  Both printers of `JsonWriter` lay out the same tokens: a document is a layout of a token
  sequence when it is those tokens in order with any blanks around them.
 */
module JsonLayout {
  import opened Common
  import opened JsonValue
  import opened JsonGrammar
  import opened JsonWriter

  // ---------------------------------------------------------------- the tokens of a value

  function Toks(v: Value, pr: real -> string): (ts: seq<string>)
    requires Wf(v)
    ensures ts != []
    decreases Weight(v), 0, 0
  {
    match v
    case Array(es) => ["["] + ItemToks(es, ArraySize(v), pr) + ["]"]
    case Object(ms) => ["{"] + MemberToks(ms, |ms|, pr) + ["}"]
    case _ => [ScalarText(v, pr)]
  }

  function ItemPiece(es: seq<Elem>, k: nat, pr: real -> string): (ts: seq<string>)
    requires WfElems(es)
    ensures ts != []
    decreases ElemsWeight(es), 1, 0
  {
    (if k > 0 then [","] else []) + Toks(ItemAt(es, k), pr)
  }

  /** The tokens of the first `k` slots. */
  function ItemToks(es: seq<Elem>, k: nat, pr: real -> string): (ts: seq<string>)
    requires WfElems(es)
    decreases ElemsWeight(es), 2, k
  {
    if k == 0 then [] else ItemToks(es, k - 1, pr) + ItemPiece(es, k - 1, pr)
  }

  function MemberPiece(ms: seq<Member>, k: nat, pr: real -> string): (ts: seq<string>)
    requires WfMembers(ms) && k < |ms|
    ensures ts != []
    decreases MembersWeight(ms), 1, 0
  {
    MemberFacts(ms, k);
    (if k > 0 then [","] else []) + ([Quoted(ms[k].name), ":"] + Toks(ms[k].item, pr))
  }

  function MemberToks(ms: seq<Member>, k: nat, pr: real -> string): (ts: seq<string>)
    requires WfMembers(ms) && k <= |ms|
    decreases MembersWeight(ms), 2, k
  {
    if k == 0 then [] else MemberToks(ms, k - 1, pr) + MemberPiece(ms, k - 1, pr)
  }

  // ---------------------------------------------------------------- layouts

  /** From position `p` on, the document is these tokens with any blanks around them. */
  predicate Lexes(doc: string, p: nat, toks: seq<string>)
    requires p <= |doc|
    decreases |toks|
  {
    var s := SkipSpaces(doc, p);
    if toks == [] then s == |doc|
    else
      && s + |toks[0]| <= |doc| && doc[s..s + |toks[0]|] == toks[0]
      && Lexes(doc, s + |toks[0]|, toks[1..])
  }

  predicate GoodToken(t: string) {
    t != [] && !IsSpace(t[0])
  }

  predicate GoodTokens(ts: seq<string>) {
    forall t <- ts :: GoodToken(t)
  }

  lemma {:induction false} SkipInPrefix(a: string, b: string, p: nat)
    requires p <= |a|
    ensures SkipSpaces(a, p) < |a| ==> SkipSpaces(a + b, p) == SkipSpaces(a, p)
    ensures SkipSpaces(a, p) == |a| ==> SkipSpaces(a + b, p) == |a| + SkipSpaces(b, 0)
    decreases |a| - p
  {
    if p < |a| {
      assert (a + b)[p] == a[p];
      if IsSpace(a[p]) { SkipInPrefix(a, b, p + 1); }
    } else {
      SkipShift(a, b, 0);
    }
  }

  lemma {:induction false} SkipShift(a: string, b: string, q: nat)
    requires q <= |b|
    ensures SkipSpaces(a + b, |a| + q) == |a| + SkipSpaces(b, q)
    decreases |b| - q
  {
    if q < |b| {
      assert (a + b)[|a| + q] == b[q];
      if IsSpace(b[q]) { SkipShift(a, b, q + 1); }
    }
  }

  lemma {:induction false} LexesShift(a: string, b: string, q: nat, ts: seq<string>)
    requires q <= |b| && Lexes(b, q, ts)
    ensures Lexes(a + b, |a| + q, ts)
    decreases |ts|
  {
    hide SkipSpaces, Lexes;
    SkipShift(a, b, q);
    LexesIs(b, q, ts);
    LexesIs(a + b, |a| + q, ts);
    if ts != [] {
      var s := SkipSpaces(b, q);
      assert (a + b)[|a| + s..|a| + s + |ts[0]|] == b[s..s + |ts[0]|];
      LexesShift(a, b, s + |ts[0]|, ts[1..]);
    }
  }

  /** A layout followed by a layout lays out the tokens of both. */
  lemma {:induction false} LexesAppend(a: string, b: string, p: nat, ta: seq<string>, tb: seq<string>)
    requires p <= |a| && Lexes(a, p, ta) && Lexes(b, 0, tb) && GoodTokens(ta)
    ensures Lexes(a + b, p, ta + tb)
    decreases |ta|
  {
    hide SkipSpaces, Lexes, GoodTokens;
    SkipInPrefix(a, b, p);
    LexesIs(a, p, ta);
    LexesIs(a + b, p, ta + tb);
    if ta == [] {
      assert ta + tb == tb;
      LexesShift(a, b, 0, tb);
      LexesFromBlank(a + b, p, |a|, tb);
    } else {
      var s := SkipSpaces(a, p);
      var t := ta[0];
      FirstGood(ta);
      assert (a + b)[s..s + |t|] == a[s..s + |t|];
      assert (ta + tb)[1..] == ta[1..] + tb;
      LexesAppend(a, b, s + |t|, ta[1..], tb);
    }
  }

  lemma LexesIs(doc: string, p: nat, ts: seq<string>)
    requires p <= |doc|
    ensures var s := SkipSpaces(doc, p);
            Lexes(doc, p, ts) <==>
            (if ts == [] then s == |doc|
             else s + |ts[0]| <= |doc| && doc[s..s + |ts[0]|] == ts[0] && Lexes(doc, s + |ts[0]|, ts[1..]))
  {
    hide SkipSpaces;
  }

  lemma FirstGood(ts: seq<string>)
    requires ts != [] && GoodTokens(ts)
    ensures ts[0] != [] && GoodTokens(ts[1..])
  {
    assert GoodToken(ts[0]);
  }

  /** Blanks before the first token may be dropped or added. */
  lemma LexesFromBlank(doc: string, p: nat, q: nat, ts: seq<string>)
    requires p <= |doc| && q <= |doc| && SkipSpaces(doc, p) == SkipSpaces(doc, q)
    ensures Lexes(doc, p, ts) <==> Lexes(doc, q, ts)
  {
  }

  lemma LexesOne(t: string)
    requires GoodToken(t)
    ensures Lexes(t, 0, [t])
  {
    assert SkipSpaces(t, 0) == 0 && t[0..|t|] == t;
    assert [t][1..] == [];
    assert Lexes(t, |t|, []);
  }

  lemma {:induction false} LexesBlank(w: string)
    requires forall c <- w :: IsSpace(c)
    ensures Lexes(w, 0, [])
  {
    assert forall i :: 0 <= i < |w| ==> w[i] in w;
  }

  lemma LexesAddToken(a: string, ta: seq<string>, t: string)
    requires Lexes(a, 0, ta) && GoodTokens(ta) && GoodToken(t)
    ensures Lexes(a + t, 0, ta + [t]) && GoodTokens(ta + [t])
  {
    LexesOne(t);
    LexesAppend(a, t, 0, ta, [t]);
  }

  lemma LexesAddBlank(a: string, ta: seq<string>, w: string)
    requires Lexes(a, 0, ta) && GoodTokens(ta) && forall c <- w :: IsSpace(c)
    ensures Lexes(a + w, 0, ta)
  {
    LexesBlank(w);
    LexesAppend(a, w, 0, ta, []);
    assert ta + [] == ta;
  }

  // ---------------------------------------------------------------- numbers a value may hold

  /** The C library prints this number as a number, marks it as real, and scans it again. */
  predicate ReadableReal(r: real, pr: real -> string, scan: string -> Option<real>) {
    IsNumberText(pr(r)) && LooksReal(pr(r)) && scan(pr(r)).Some?
  }

  /** Every number of the value that the reader passes to the C library is scanned. */
  predicate Readable(v: Value, pr: real -> string, scan: string -> Option<real>) {
    match v
    case Int(i) => i <= -2147483640 ==> scan(IntText(i)).Some?
    case UInt(u) => u >= 4294967290 ==> scan(UIntText(u)).Some?
    case Real(r) => ReadableReal(r, pr, scan)
    case Array(es) => ReadableElems(es, pr, scan)
    case Object(ms) => ReadableMembers(ms, pr, scan)
    case _ => true
  }

  predicate ReadableElems(es: seq<Elem>, pr: real -> string, scan: string -> Option<real>) {
    es == [] || (assert es[0].item < es[0]; Readable(es[0].item, pr, scan) && ReadableElems(es[1..], pr, scan))
  }

  predicate ReadableMembers(ms: seq<Member>, pr: real -> string, scan: string -> Option<real>) {
    ms == [] || (Readable(ms[0].item, pr, scan) && ReadableMembers(ms[1..], pr, scan))
  }

  lemma {:induction false} ReadableItem(es: seq<Elem>, k: int, pr: real -> string, scan: string -> Option<real>)
    requires ReadableElems(es, pr, scan)
    ensures Readable(ItemAt(es, k), pr, scan)
  {
    if es != [] && es[0].index != k { ReadableItem(es[1..], k, pr, scan); }
  }

  lemma {:induction false} ReadableMember(ms: seq<Member>, k: nat, pr: real -> string, scan: string -> Option<real>)
    requires ReadableMembers(ms, pr, scan) && k < |ms|
    ensures Readable(ms[k].item, pr, scan)
  {
    if k > 0 { ReadableMember(ms[1..], k - 1, pr, scan); }
  }

  // ---------------------------------------------------------------- both printers lay out Toks

  lemma ScalarTextGood(v: Value, pr: real -> string, scan: string -> Option<real>)
    requires Wf(v) && !v.Array? && !v.Object? && Readable(v, pr, scan)
    ensures GoodToken(ScalarText(v, pr))
  {
    match v
    case Int(i) => assert '0' <= UIntText(if i < 0 then -i else i)[0] <= '9';
    case UInt(u) => assert '0' <= UIntText(u)[0] <= '9';
    case _ =>
  }

  lemma {:induction false} GoodToks(v: Value, pr: real -> string, scan: string -> Option<real>)
    requires Wf(v) && Readable(v, pr, scan)
    ensures GoodTokens(Toks(v, pr))
    decreases Weight(v), 0, 0
  {
    match v
    case Array(es) => GoodItemToks(es, ArraySize(v), pr, scan);
    case Object(ms) => GoodMemberToks(ms, |ms|, pr, scan);
    case _ => ScalarTextGood(v, pr, scan);
  }

  lemma ItemToksStep(es: seq<Elem>, k: nat, pr: real -> string)
    requires WfElems(es)
    ensures k == 0 ==> ItemToks(es, k, pr) == []
    ensures k > 0 ==> Wf(ItemAt(es, k - 1))
    ensures k > 0 ==>
              ItemToks(es, k, pr) == ItemToks(es, k - 1, pr)
                  + ((if k > 1 then [","] else []) + Toks(ItemAt(es, k - 1), pr))
  {
    hide Toks, WfElems;
  }

  lemma GoodNone()
    ensures GoodTokens([])
  {
  }

  lemma GoodPieces(a: seq<string>, b: seq<string>, k: nat)
    requires GoodTokens(a) && GoodTokens(b)
    ensures GoodTokens(a + ((if k > 0 then [","] else []) + b))
  {
  }

  lemma {:induction false} GoodItemToks(es: seq<Elem>, k: nat, pr: real -> string, scan: string -> Option<real>)
    requires WfElems(es) && ReadableElems(es, pr, scan)
    ensures GoodTokens(ItemToks(es, k, pr))
    decreases ElemsWeight(es), 1, k
  {
    hide GoodTokens, ItemToks, ItemPiece, Toks, WfElems, ReadableElems;
    ItemToksStep(es, k, pr);
    if k > 0 {
      ReadableItem(es, k - 1, pr, scan);
      GoodToks(ItemAt(es, k - 1), pr, scan);
      GoodItemToks(es, k - 1, pr, scan);
      GoodPieces(ItemToks(es, k - 1, pr), Toks(ItemAt(es, k - 1), pr), k - 1);
    } else {
      GoodNone();
    }
  }

  lemma {:induction false} GoodMemberToks(ms: seq<Member>, k: nat, pr: real -> string, scan: string -> Option<real>)
    requires WfMembers(ms) && k <= |ms| && ReadableMembers(ms, pr, scan)
    ensures GoodTokens(MemberToks(ms, k, pr))
    decreases MembersWeight(ms), 1, k
  {
    if k > 0 {
      MemberFacts(ms, k - 1);
      ReadableMember(ms, k - 1, pr, scan);
      GoodToks(ms[k - 1].item, pr, scan);
      GoodMemberToks(ms, k - 1, pr, scan);
    }
  }

  predicate IsColon(c: string) {
    c == ":" || c == ": "
  }

  /** The fast writer lays out the tokens, with or without a blank after colons. */
  lemma {:induction false} FastLexes(v: Value, colon: string, pr: real -> string, scan: string -> Option<real>)
    requires Wf(v) && Readable(v, pr, scan) && IsColon(colon)
    ensures Lexes(FastText(v, colon, pr), 0, Toks(v, pr))
    decreases Weight(v), 0, 0
  {
    hide Lexes, ItemToks, MemberToks, FastItems, FastMembers, ReadableElems, ReadableMembers, ScalarText;
    if v.Array? {
      var es, n := v.elems, ArraySize(v);
      FastItemsLex(es, n, colon, pr, scan);
      GoodItemToks(es, n, pr, scan);
      LexesOne("[");
      LexesAppend("[", FastItems(es, n, colon, pr), 0, ["["], ItemToks(es, n, pr));
      LexesAddToken("[" + FastItems(es, n, colon, pr), ["["] + ItemToks(es, n, pr), "]");
    } else if v.Object? {
      var ms := v.members;
      FastMembersLex(ms, |ms|, colon, pr, scan);
      GoodMemberToks(ms, |ms|, pr, scan);
      LexesOne("{");
      LexesAppend("{", FastMembers(ms, |ms|, colon, pr), 0, ["{"], MemberToks(ms, |ms|, pr));
      LexesAddToken("{" + FastMembers(ms, |ms|, colon, pr), ["{"] + MemberToks(ms, |ms|, pr), "}");
    } else {
      ScalarTextGood(v, pr, scan);
      LexesOne(ScalarText(v, pr));
    }
  }

  lemma LexesSeparator(k: nat)
    ensures var sep := if k > 0 then "," else "";
            Lexes(sep, 0, if k > 0 then [","] else [])
  {
    if k > 0 { LexesOne(","); } else { LexesBlank(""); }
  }

  lemma {:induction false} FastItemsLex(es: seq<Elem>, k: nat, colon: string, pr: real -> string,
      scan: string -> Option<real>)
    requires WfElems(es) && ReadableElems(es, pr, scan) && IsColon(colon)
    ensures Lexes(FastItems(es, k, colon, pr), 0, ItemToks(es, k, pr))
    decreases ElemsWeight(es), 1, k
  {
    if k == 0 {
      LexesBlank("");
    } else {
      FastItemsLex(es, k - 1, colon, pr, scan);
      GoodItemToks(es, k - 1, pr, scan);
      FastItemLex(es, k - 1, colon, pr, scan);
      LexesAppend(FastItems(es, k - 1, colon, pr),
                  (if k > 1 then "," else "") + FastText(ItemAt(es, k - 1), colon, pr), 0,
                  ItemToks(es, k - 1, pr), ItemPiece(es, k - 1, pr));
    }
  }

  lemma {:induction false} FastItemLex(es: seq<Elem>, k: nat, colon: string, pr: real -> string,
      scan: string -> Option<real>)
    requires WfElems(es) && ReadableElems(es, pr, scan) && IsColon(colon)
    ensures Lexes((if k > 0 then "," else "") + FastText(ItemAt(es, k), colon, pr), 0, ItemPiece(es, k, pr))
    decreases ElemsWeight(es), 0, 1
  {
    ReadableItem(es, k, pr, scan);
    FastLexes(ItemAt(es, k), colon, pr, scan);
    LexesSeparator(k);
    LexesAppend(if k > 0 then "," else "", FastText(ItemAt(es, k), colon, pr), 0,
                if k > 0 then [","] else [], Toks(ItemAt(es, k), pr));
  }

  lemma {:induction false} FastMembersLex(ms: seq<Member>, k: nat, colon: string, pr: real -> string,
      scan: string -> Option<real>)
    requires WfMembers(ms) && k <= |ms| && ReadableMembers(ms, pr, scan) && IsColon(colon)
    ensures Lexes(FastMembers(ms, k, colon, pr), 0, MemberToks(ms, k, pr))
    decreases MembersWeight(ms), 1, k
  {
    if k == 0 {
      LexesBlank("");
    } else {
      FastMembersLex(ms, k - 1, colon, pr, scan);
      GoodMemberToks(ms, k - 1, pr, scan);
      FastMemberLex(ms, k - 1, colon, pr, scan);
      LexesAppend(FastMembers(ms, k - 1, colon, pr), FastMember(ms, k - 1, colon, pr), 0,
                  MemberToks(ms, k - 1, pr), MemberPiece(ms, k - 1, pr));
    }
  }

  lemma QuotedGood(s: string)
    ensures GoodToken(Quoted(s)) && Quoted(s) != []
  {
  }

  lemma {:induction false} FastMemberLex(ms: seq<Member>, k: nat, colon: string, pr: real -> string,
      scan: string -> Option<real>)
    requires WfMembers(ms) && k < |ms| && ReadableMembers(ms, pr, scan) && IsColon(colon)
    ensures Lexes(FastMember(ms, k, colon, pr), 0, MemberPiece(ms, k, pr))
    decreases MembersWeight(ms), 0, 1
  {
    hide Lexes, Toks, FastText, Quoted, WfMembers, ReadableMembers, Readable, Wf;
    MemberFacts(ms, k);
    ReadableMember(ms, k, pr, scan);
    var m := ms[k];
    QuotedGood(m.name);
    FastLexes(m.item, colon, pr, scan);
    LexesSeparator(k);
    var q := Quoted(m.name);
    LexesOne(q);
    LexesAddToken(q, [q], ":");
    if colon == ": " {
      LexesAddBlank(q + ":", [q] + [":"], " ");
      assert q + ":" + " " == q + colon;
    }
    assert [q] + [":"] == [q, ":"];
    LexesAppend(q + colon, FastText(m.item, colon, pr), 0, [q, ":"], Toks(m.item, pr));
    LexesAppend(if k > 0 then "," else "", q + colon + FastText(m.item, colon, pr), 0,
                if k > 0 then [","] else [], [q, ":"] + Toks(m.item, pr));
  }

  predicate Blank(w: string) {
    forall c <- w :: IsSpace(c)
  }

  /** The whole document lays out these well-formed tokens. */
  predicate Laid(doc: string, ts: seq<string>) {
    Lexes(doc, 0, ts) && GoodTokens(ts)
  }

  lemma LaidAppend(a: string, b: string, ta: seq<string>, tb: seq<string>)
    requires Laid(a, ta) && Laid(b, tb)
    ensures Laid(a + b, ta + tb)
  {
    LexesAppend(a, b, 0, ta, tb);
  }

  lemma LaidToken(a: string, ta: seq<string>, t: string)
    requires Laid(a, ta) && GoodToken(t)
    ensures Laid(a + t, ta + [t])
  {
    LexesAddToken(a, ta, t);
  }

  lemma LaidBlank(a: string, ta: seq<string>, w: string)
    requires Laid(a, ta) && Blank(w)
    ensures Laid(a + w, ta)
  {
    LexesAddBlank(a, ta, w);
  }

  lemma LaidSeparator(k: nat)
    ensures Laid(if k > 0 then "," else "", if k > 0 then [","] else [])
    ensures Laid(if k > 0 then ", " else "", if k > 0 then [","] else [])
  {
    LexesSeparator(k);
    if k > 0 {
      LexesAddBlank(",", [","], " ");
      assert "," + " " == ", ";
    }
  }

  lemma IndentedLaid(doc: string, ind: string, ts: seq<string>)
    requires Laid(doc, ts) && Blank(ind)
    ensures Laid(Indented(doc, ind), ts)
  {
    hide Laid;
    LaidBlank(doc, ts, ind);
    LaidBlank(doc, ts, "\n");
    LaidBlank(doc + "\n", ts, ind);
    assert "" + ind == ind;
  }

  lemma TokenLaid(t: string)
    requires GoodToken(t)
    ensures Laid(t, [t])
  {
    LexesOne(t);
  }

  lemma LeafLaid(v: Value, pr: real -> string, scan: string -> Option<real>)
    requires Wf(v) && Readable(v, pr, scan) && IsLeaf(v)
    ensures Laid(LeafText(v, pr), Toks(v, pr))
  {
    hide Laid;
    if v.Array? {
      TokenLaid("[");
      LaidToken("[", ["["], "]");
      assert Toks(v, pr) == ["["] + ["]"] && "[" + "]" == "[]";
    } else if v.Object? {
      TokenLaid("{");
      LaidToken("{", ["{"], "}");
      assert Toks(v, pr) == ["{"] + ["}"] && "{" + "}" == "{}";
    } else {
      ScalarTextGood(v, pr, scan);
      TokenLaid(ScalarText(v, pr));
    }
  }

  lemma {:induction false} LineItemsLaid(es: seq<Elem>, k: nat, pr: real -> string, scan: string -> Option<real>)
    requires WfElems(es) && ReadableElems(es, pr, scan) && AllLeaves(es, k)
    ensures Laid(LineItems(es, k, pr), ItemToks(es, k, pr))
  {
    if k == 0 {
      LexesBlank("");
    } else {
      hide Laid;
      var sep, tsep, item := if k > 1 then ", " else "", if k > 1 then [","] else [], ItemAt(es, k - 1);
      LineItemsLaid(es, k - 1, pr, scan);
      ReadableItem(es, k - 1, pr, scan);
      LeafLaid(item, pr, scan);
      LaidSeparator(k - 1);
      LaidAppend(sep, LeafText(item, pr), tsep, Toks(item, pr));
      LaidAppend(LineItems(es, k - 1, pr), sep + LeafText(item, pr), ItemToks(es, k - 1, pr), tsep + Toks(item, pr));
    }
  }

  lemma OneLineLaid(line: string, ts: seq<string>)
    requires Laid(line, ts)
    ensures Laid("[ " + line + " ]", ["["] + ts + ["]"])
  {
    hide Laid;
    TokenLaid("[");
    LaidBlank("[", ["["], " ");
    assert "[" + " " == "[ ";
    LaidAppend("[ ", line, ["["], ts);
    LaidBlank("[ " + line, ["["] + ts, " ");
    LaidToken("[ " + line + " ", ["["] + ts, "]");
    assert "[ " + line + " " + "]" == "[ " + line + " ]";
  }

  /** An opening token on its own line. */
  lemma OpenLaid(doc: string, ind: string, ts: seq<string>, open: string)
    requires Laid(doc, ts) && Blank(ind) && GoodToken(open)
    ensures Laid(Indented(doc, ind) + open, ts + [open])
    ensures Blank(ind + INDENT)
  {
    hide Laid, Indented, GoodToken;
    IndentedLaid(doc, ind, ts);
    LaidToken(Indented(doc, ind), ts, open);
  }

  lemma SeparatorThenIndent(before: string, bts: seq<string>, k: nat, ind: string)
    requires Laid(before, bts) && Blank(ind)
    ensures Laid(Indented(before + (if k > 0 then "," else ""), ind), bts + (if k > 0 then [","] else []))
  {
    hide Laid, Indented;
    LaidSeparator(k);
    LaidAppend(before, if k > 0 then "," else "", bts, if k > 0 then [","] else []);
    IndentedLaid(before + (if k > 0 then "," else ""), ind, bts + (if k > 0 then [","] else []));
  }

  lemma NameLaid(doc: string, ts: seq<string>, q: string)
    requires Laid(doc, ts) && GoodToken(q)
    ensures Laid(doc + q + " : ", ts + [q, ":"])
  {
    hide Laid;
    LaidToken(doc, ts, q);
    LaidBlank(doc + q, ts + [q], " ");
    LaidToken(doc + q + " ", ts + [q], ":");
    LaidBlank(doc + q + " " + ":", ts + [q] + [":"], " ");
    assert doc + q + " " + ":" + " " == doc + q + " : ";
    assert ts + [q] + [":"] == ts + [q, ":"];
  }

  lemma Regroup(a: seq<string>, b: seq<string>, c: seq<string>, d: seq<string>)
    ensures a + (b + c + d) == a + b + c + d
    ensures a + b + (c + d) == a + (b + (c + d))
    ensures a + b + c + d == a + (b + (c + d))
  {
    assert a + b + c + d == a + b + (c + d);
  }

  /** The styled writer appends a layout of the same tokens, whatever it chooses about lines. */
  lemma {:induction false} StyledLaid(v: Value, doc: string, ind: string, ts: seq<string>, pr: real -> string,
      scan: string -> Option<real>)
    requires Wf(v) && Readable(v, pr, scan) && Laid(doc, ts) && Blank(ind)
    ensures Laid(StyledText(v, doc, ind, pr), ts + Toks(v, pr))
    decreases Weight(v), 0, 0
  {
    if IsLeaf(v) {
      hide Laid;
      LeafLaid(v, pr, scan);
      LaidAppend(doc, LeafText(v, pr), ts, Toks(v, pr));
    } else if v.Array? {
      StyledArrayLaid(v, doc, ind, ts, pr, scan);
    } else {
      var ms := v.members;
      var open := Indented(doc, ind) + "{";
      var inner := StyledMembers(ms, |ms|, open, ind + INDENT, pr);
      assert StyledText(v, doc, ind, pr) == Indented(inner, ind) + "}";
      hide Laid, StyledText, StyledMembers, Indented;
      OpenLaid(doc, ind, ts, "{");
      StyledMembersLaid(ms, |ms|, open, ind + INDENT, ts + ["{"], pr, scan);
      OpenLaid(inner, ind, ts + ["{"] + MemberToks(ms, |ms|, pr), "}");
      Regroup(ts, ["{"], MemberToks(ms, |ms|, pr), ["}"]);
    }
  }

  lemma {:induction false} StyledArrayLaid(v: Value, doc: string, ind: string, ts: seq<string>, pr: real -> string,
      scan: string -> Option<real>)
    requires Wf(v) && v.Array? && Readable(v, pr, scan) && Laid(doc, ts) && Blank(ind)
    ensures Laid(StyledArray(v, doc, ind, pr), ts + Toks(v, pr))
    decreases ElemsWeight(v.elems), 2, 0
  {
    var es, n := v.elems, ArraySize(v);
    if MultiLine(es, n, pr) {
      var open := Indented(doc, ind) + "[";
      var inner := StyledItems(es, n, open, ind + INDENT, pr);
      assert StyledArray(v, doc, ind, pr) == Indented(inner, ind) + "]";
      hide Laid, StyledArray, StyledItems, Indented, MultiLine;
      OpenLaid(doc, ind, ts, "[");
      StyledItemsLaid(es, n, open, ind + INDENT, ts + ["["], pr, scan);
      OpenLaid(inner, ind, ts + ["["] + ItemToks(es, n, pr), "]");
      Regroup(ts, ["["], ItemToks(es, n, pr), ["]"]);
    } else {
      hide Laid;
      LineItemsLaid(es, n, pr, scan);
      OneLineLaid(LineItems(es, n, pr), ItemToks(es, n, pr));
      LaidAppend(doc, "[ " + LineItems(es, n, pr) + " ]", ts, Toks(v, pr));
    }
  }

  lemma {:induction false} StyledItemsLaid(es: seq<Elem>, k: nat, doc: string, ind: string, ts: seq<string>,
      pr: real -> string, scan: string -> Option<real>)
    requires WfElems(es) && ReadableElems(es, pr, scan) && Laid(doc, ts) && Blank(ind)
    ensures Laid(StyledItems(es, k, doc, ind, pr), ts + ItemToks(es, k, pr))
    decreases ElemsWeight(es), 1, k
  {
    hide Laid, StyledItems, StyledText, Indented, ItemToks, ItemPiece, Toks, WfElems, ReadableElems, Blank, Readable,
         Wf;
    ItemToksStep(es, k, pr);
    if k == 0 {
      StyledItemsNone(es, doc, ind, pr);
      assert ts + [] == ts;
    } else {
      var item := ItemAt(es, k - 1);
      var sep, tsep := if k > 1 then "," else "", if k > 1 then [","] else [];
      var before, bts := StyledItems(es, k - 1, doc, ind, pr), ItemToks(es, k - 1, pr);
      StyledItemsStep(es, k - 1, doc, ind, pr);
      StyledItemsLaid(es, k - 1, doc, ind, ts, pr, scan);
      ReadableItem(es, k - 1, pr, scan);
      SeparatorThenIndent(before, ts + bts, k - 1, ind);
      StyledLaid(item, Indented(before + sep, ind), ind, ts + bts + tsep, pr, scan);
      Regroup(ts, bts, tsep, Toks(item, pr));
    }
  }

  lemma {:induction false} StyledMembersLaid(ms: seq<Member>, k: nat, doc: string, ind: string, ts: seq<string>,
      pr: real -> string, scan: string -> Option<real>)
    requires WfMembers(ms) && k <= |ms| && ReadableMembers(ms, pr, scan) && Laid(doc, ts) && Blank(ind)
    ensures Laid(StyledMembers(ms, k, doc, ind, pr), ts + MemberToks(ms, k, pr))
    decreases MembersWeight(ms), 1, k
  {
    hide Laid, StyledMembers, StyledText, Indented, MemberToks, MemberPiece, Toks, Quoted, GoodToken, ReadableMembers,
         Readable, WfMembers, Blank;
    if k == 0 {
      NoMembersLaid(ms, doc, ind, ts, pr);
    } else {
      MemberFacts(ms, k - 1);
      var m := ms[k - 1];
      var q := Quoted(m.name);
      var sep, tsep := if k > 1 then "," else "", if k > 1 then [","] else [];
      var before, bts := StyledMembers(ms, k - 1, doc, ind, pr), MemberToks(ms, k - 1, pr);
      MembersStep(ms, k, doc, ind, pr);
      StyledMembersLaid(ms, k - 1, doc, ind, ts, pr, scan);
      ReadableMember(ms, k - 1, pr, scan);
      SeparatorThenIndent(before, ts + bts, k - 1, ind);
      NameLaid(Indented(before + sep, ind), ts + bts + tsep, q);
      StyledLaid(m.item, Indented(before + sep, ind) + q + " : ", ind, ts + bts + tsep + [q, ":"], pr, scan);
      Regroup(ts + bts, tsep, [q, ":"], Toks(m.item, pr));
      Regroup(ts, bts, tsep, [q, ":"] + Toks(m.item, pr));
    }
  }

  lemma NoMembersLaid(ms: seq<Member>, doc: string, ind: string, ts: seq<string>, pr: real -> string)
    requires WfMembers(ms)
    ensures StyledMembers(ms, 0, doc, ind, pr) == doc && ts + MemberToks(ms, 0, pr) == ts
  {
  }

  lemma MembersStep(ms: seq<Member>, k: nat, doc: string, ind: string, pr: real -> string)
    requires WfMembers(ms) && 0 < k <= |ms| && Wf(ms[k - 1].item)
    ensures var m := ms[k - 1];
            var q := Quoted(m.name);
            var sep, tsep := if k > 1 then "," else "", if k > 1 then [","] else [];
            && StyledMembers(ms, k, doc, ind, pr)
               == StyledText(m.item, Indented(StyledMembers(ms, k - 1, doc, ind, pr) + sep, ind) + q + " : ", ind, pr)
            && MemberToks(ms, k, pr) == MemberToks(ms, k - 1, pr) + (tsep + ([q, ":"] + Toks(m.item, pr)))
            && GoodToken(q)
  {
    hide StyledText, Toks, Indented;
  }
}
