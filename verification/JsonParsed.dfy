/**
  What the reader of public/json/json_reader.cpp returns, for every document, malformed ones
  included: values that the printers can print, and that printing and reading gives back.
 */
module JsonParsed {
  import opened Common
  import opened JsonValue
  import opened JsonGrammar
  import opened JsonWriter
  import opened JsonLayout
  import opened JsonRoundTrip

  /** Integers inside the reader's thresholds, dense arrays, members sorted under NUL-free names. */
  predicate Tidy(v: Value) {
    match v
    case NullStr => false
    case Int(i) => -2147483640 < i <= MAX_INT
    case UInt(u) => MAX_INT < u < 4294967290
    case Array(es) => (forall i :: 0 <= i < |es| ==> es[i].index == i) && TidyElems(es)
    case Object(ms) => AscendingNames(ms) && TidyMembers(ms)
    case _ => true
  }

  predicate TidyElems(es: seq<Elem>) {
    es == [] || (assert es[0].item < es[0]; Tidy(es[0].item) && TidyElems(es[1..]))
  }

  predicate TidyMembers(ms: seq<Member>) {
    ms == [] || (NulFree(ms[0].name) && Tidy(ms[0].item) && TidyMembers(ms[1..]))
  }

  /** A tidy value is well formed. */
  lemma {:induction false} TidyWf(v: Value)
    requires Tidy(v)
    ensures Wf(v)
    decreases Weight(v), 0
  {
    if v.Array? {
      TidyWfElems(v.elems);
    } else if v.Object? {
      TidyWfMembers(v.members);
    }
  }

  lemma {:induction false} TidyWfElems(es: seq<Elem>)
    requires TidyElems(es)
    ensures WfElems(es)
    decreases ElemsWeight(es), 1, |es|
  {
    if es != [] {
      TidyWf(es[0].item);
      TidyWfElems(es[1..]);
    }
  }

  lemma {:induction false} TidyWfMembers(ms: seq<Member>)
    requires TidyMembers(ms)
    ensures WfMembers(ms)
    decreases MembersWeight(ms), 1, |ms|
  {
    if ms != [] {
      TidyWf(ms[0].item);
      TidyWfMembers(ms[1..]);
    }
  }

  // ---------------------------------------------------------------- what is read

  /** The threshold keeps the last digit from taking the number past ten times itself. */
  lemma {:induction false} DigitsBelow(text: string, acc: nat, threshold: nat)
    requires AllDigits(text) && acc < 10 * threshold
    ensures var n := DecodeDigits(text, acc, threshold);
            n.Some? ==> n.value < 10 * threshold
    decreases |text|
  {
    if text != [] && acc < threshold {
      assert IsDigit(text[0]);
      DigitsBelow(text[1..], acc * 10 + (text[0] as int - '0' as int), threshold);
    }
  }

  lemma NumberTidy(text: string, scanReal: string -> Option<real>)
    requires IsNumberText(text)
    ensures var v := DecodeNumber(text, scanReal);
            v.Some? ==> Tidy(v.value)
  {
    if !LooksReal(text) {
      DigitsAfterSign(text);
      var digits := if text[0] == '-' then text[1..] else text;
      DigitsBelow(digits, 0, if text[0] == '-' then NEGATIVE_THRESHOLD else POSITIVE_THRESHOLD);
    }
  }

  lemma ScalarTidy(cfg: Config, doc: string, t: Token, errors: seq<ErrorInfo>, cur: Value)
    requires TokenOf(doc, t)
    ensures var v := ScalarAt(cfg, doc, t, errors, cur).value;
            v == cur || Tidy(v)
  {
    hide DecodeNumber, DecodeChars, IsNumberText;
    if t.kind == NumberToken {
      NumberTextAt(doc, t);
      NumberTidy(doc[t.start..t.end], cfg.scanReal);
    }
  }

  lemma NumberTextAt(doc: string, t: Token)
    requires TokenOf(doc, t) && t.kind == NumberToken
    ensures IsNumberText(doc[t.start..t.end])
  {
  }

  lemma {:induction false} LookupTidy(ms: seq<Member>, name: string)
    requires TidyMembers(ms)
    ensures Tidy(Lookup(ms, name))
  {
    if ms != [] && ms[0].name != name {
      LookupTidy(ms[1..], name);
    }
  }

  lemma {:induction false} PutTidyMembers(ms: seq<Member>, name: string, v: Value)
    requires TidyMembers(ms) && NulFree(name) && Tidy(v)
    ensures TidyMembers(Put(ms, name, v))
  {
    if ms != [] {
      PutTidyMembers(ms[1..], name, v);
    }
  }

  lemma PutTidy(ms: seq<Member>, name: string, v: Value)
    requires Tidy(Object(ms)) && NulFree(name) && Tidy(v)
    ensures Tidy(Object(Put(ms, name, v)))
  {
    hide Put, AscendingNames, TidyMembers;
    PutKeepsOrder(ms, name, v);
    PutTidyMembers(ms, name, v);
  }

  lemma {:induction false} SnocTidyElems(es: seq<Elem>, e: Elem)
    requires TidyElems(es) && Tidy(e.item)
    ensures TidyElems(es + [e])
    decreases |es|
  {
    if es == [] {
      assert [e][1..] == [];
    } else {
      SnocTidyElems(es[1..], e);
      assert (es + [e])[1..] == es[1..] + [e];
    }
  }

  lemma SnocTidy(es: seq<Elem>, v: Value)
    requires Tidy(Array(es)) && Tidy(v)
    ensures Tidy(Array(es + [Elem(|es|, v)]))
  {
    hide TidyElems;
    SnocTidyElems(es, Elem(|es|, v));
  }

  /** What is read at a position is tidy, or the value that was there when nothing could be read. */
  lemma {:induction false} ReadTidy(cfg: Config, doc: string, p: nat, errors: seq<ErrorInfo>, cur: Value)
    requires p <= |doc|
    ensures var v := ReadValue(cfg, doc, p, errors, cur).value;
            v == cur || Tidy(v)
    decreases |doc| - p, 1
  {
    hide ReadValue, ReadObject, ReadArray, ScalarAt, ValueToken, SkipSpaces, Tidy;
    UnfoldValue(cfg, doc, p, errors, cur);
    NothingTidy();
    var t := ValueToken(cfg, doc, p);
    if t.kind == ObjectBegin {
      ReadObjectTidy(cfg, doc, t.end, errors, [], "");
    } else if t.kind == ArrayBegin {
      var q := SkipSpaces(doc, t.end);
      if Peek(doc, q) != ']' {
        ReadArrayTidy(cfg, doc, q, errors, []);
      }
    } else {
      ScalarTidy(cfg, doc, t, errors, cur);
    }
  }

  lemma NothingTidy()
    ensures Tidy(Null) && Tidy(Array([])) && Tidy(Object([]))
  {
  }

  lemma {:induction false} ReadArrayTidy(cfg: Config, doc: string, p: nat, errors: seq<ErrorInfo>, items: seq<Elem>)
    requires p <= |doc| && Tidy(Array(items))
    ensures Tidy(ReadArray(cfg, doc, p, errors, items).value)
    decreases |doc| - p, 2
  {
    hide ReadValue, ReadArray, ReadNonComment, Recover, Tidy;
    ArrayStep(cfg, doc, p, errors, items);
    NothingTidy();
    var v := ReadValue(cfg, doc, p, errors, Null);
    ReadTidy(cfg, doc, p, errors, Null);
    SnocTidy(items, v.value);
    var t := ReadNonComment(doc, v.pos);
    if v.ok && t.kind != ArrayEnd {
      ReadArrayTidy(cfg, doc, t.end, v.errors, items + [Elem(|items|, v.value)]);
    }
  }

  lemma {:induction false} ReadObjectTidy(cfg: Config, doc: string, p: nat, errors: seq<ErrorInfo>, ms: seq<Member>,
      name: string)
    requires p <= |doc| && Tidy(Object(ms))
    ensures Tidy(ReadObject(cfg, doc, p, errors, ms, name).value)
    decreases |doc| - p, 2
  {
    hide ReadValue, MemberName, MemberEnd, Put, Lookup, CStr, Recover, Tidy;
    var n := MemberName(doc, p, errors, ms, name);
    if n.Named? {
      var key := CStr(n.text);
      var cur := Lookup(ms, key);
      var v := ReadValue(cfg, doc, n.pos, errors, cur);
      MemberLookupTidy(ms, key);
      ReadTidy(cfg, doc, n.pos, errors, cur);
      PutTidy(ms, key, v.value);
      var ms' := Put(ms, key, v.value);
      var e := MemberEnd(doc, v.pos, v.errors, ms');
      if v.ok && e.Stored? {
        ReadObjectTidy(cfg, doc, e.pos, v.errors, ms', n.text);
      }
    }
  }

  lemma MemberLookupTidy(ms: seq<Member>, name: string)
    requires Tidy(Object(ms))
    ensures Tidy(Lookup(ms, name))
  {
    LookupTidy(ms, name);
  }

  /** Whatever the document, the result of parsing is tidy, or the root value as it was given. */
  lemma ParsedTidy(cfg: Config, doc: string, root: Value)
    ensures var v := Parse(cfg, doc, root).value;
            v == root || Tidy(v)
  {
    hide ReadValue, ValueToken, Tidy;
    ReadTidy(cfg, doc, 0, [], root);
  }

  /** So the printers' precondition holds of everything that was parsed. */
  lemma ParsedWf(cfg: Config, doc: string, root: Value)
    requires Wf(root)
    ensures Wf(Parse(cfg, doc, root).value)
  {
    hide Parse, Tidy, Wf;
    ParsedTidy(cfg, doc, root);
    var v := Parse(cfg, doc, root).value;
    if v != root {
      TidyWf(v);
    }
  }

  // ---------------------------------------------------------------- printing it and reading it again

  /** Every real number in the value comes back from printing and scanning. */
  predicate RealsBack(v: Value, pr: real -> string, scan: string -> Option<real>) {
    match v
    case Real(r) => scan(pr(r)) == Some(r)
    case Array(es) => RealsBackElems(es, pr, scan)
    case Object(ms) => RealsBackMembers(ms, pr, scan)
    case _ => true
  }

  predicate RealsBackElems(es: seq<Elem>, pr: real -> string, scan: string -> Option<real>) {
    es == [] || (assert es[0].item < es[0]; RealsBack(es[0].item, pr, scan) && RealsBackElems(es[1..], pr, scan))
  }

  predicate RealsBackMembers(ms: seq<Member>, pr: real -> string, scan: string -> Option<real>) {
    ms == [] || (RealsBack(ms[0].item, pr, scan) && RealsBackMembers(ms[1..], pr, scan))
  }

  /** Only real numbers can keep a tidy value from being canonical. */
  lemma {:induction false} TidyCanonical(v: Value, pr: real -> string, scan: string -> Option<real>)
    requires Tidy(v)
    ensures Canonical(v, pr, scan) <==> RealsBack(v, pr, scan)
    decreases Weight(v), 0
  {
    if v.Array? {
      TidyCanonicalElems(v.elems, pr, scan);
    } else if v.Object? {
      TidyCanonicalMembers(v.members, pr, scan);
    }
  }

  lemma {:induction false} TidyCanonicalElems(es: seq<Elem>, pr: real -> string, scan: string -> Option<real>)
    requires TidyElems(es)
    ensures CanonicalElems(es, pr, scan) <==> RealsBackElems(es, pr, scan)
    decreases ElemsWeight(es), 1, |es|
  {
    if es != [] {
      TidyCanonical(es[0].item, pr, scan);
      TidyCanonicalElems(es[1..], pr, scan);
    }
  }

  lemma {:induction false} TidyCanonicalMembers(ms: seq<Member>, pr: real -> string, scan: string -> Option<real>)
    requires TidyMembers(ms)
    ensures CanonicalMembers(ms, pr, scan) <==> RealsBackMembers(ms, pr, scan)
    decreases MembersWeight(ms), 1, |ms|
  {
    if ms != [] {
      TidyCanonical(ms[0].item, pr, scan);
      TidyCanonicalMembers(ms[1..], pr, scan);
    }
  }

  predicate RealFree(v: Value) {
    match v
    case Real(_) => false
    case Array(es) => RealFreeElems(es)
    case Object(ms) => RealFreeMembers(ms)
    case _ => true
  }

  predicate RealFreeElems(es: seq<Elem>) {
    es == [] || (assert es[0].item < es[0]; RealFree(es[0].item) && RealFreeElems(es[1..]))
  }

  predicate RealFreeMembers(ms: seq<Member>) {
    ms == [] || (RealFree(ms[0].item) && RealFreeMembers(ms[1..]))
  }

  /** Without reals nothing is left to the C library. */
  lemma {:induction false} RealFreeBack(v: Value, pr: real -> string, scan: string -> Option<real>)
    requires Tidy(v) && RealFree(v)
    ensures Readable(v, pr, scan) && RealsBack(v, pr, scan)
    decreases Weight(v), 0
  {
    if v.Array? {
      RealFreeBackElems(v.elems, pr, scan);
    } else if v.Object? {
      RealFreeBackMembers(v.members, pr, scan);
    }
  }

  lemma {:induction false} RealFreeBackElems(es: seq<Elem>, pr: real -> string, scan: string -> Option<real>)
    requires TidyElems(es) && RealFreeElems(es)
    ensures ReadableElems(es, pr, scan) && RealsBackElems(es, pr, scan)
    decreases ElemsWeight(es), 1, |es|
  {
    if es != [] {
      RealFreeBack(es[0].item, pr, scan);
      RealFreeBackElems(es[1..], pr, scan);
    }
  }

  lemma {:induction false} RealFreeBackMembers(ms: seq<Member>, pr: real -> string, scan: string -> Option<real>)
    requires TidyMembers(ms) && RealFreeMembers(ms)
    ensures ReadableMembers(ms, pr, scan) && RealsBackMembers(ms, pr, scan)
    decreases MembersWeight(ms), 1, |ms|
  {
    if ms != [] {
      RealFreeBack(ms[0].item, pr, scan);
      RealFreeBackMembers(ms[1..], pr, scan);
    }
  }

  /**
    Printing what was parsed, with either printer, and parsing that gives an equal value if and
    only if its real numbers come back; the document may have been malformed.
   */
  lemma ParsedAgain(cfg: Config, doc: string, pr: real -> string)
    requires Readable(Parse(cfg, doc, Null).value, pr, cfg.scanReal)
    ensures var v := Parse(cfg, doc, Null).value;
            && Wf(v)
            && (Eq(Parse(cfg, FastText(v, ":", pr) + "\n", Null).value, v) <==> RealsBack(v, pr, cfg.scanReal))
            && (Eq(Parse(cfg, StyledText(v, "", "", pr) + "\n", Null).value, v) <==> RealsBack(v, pr, cfg.scanReal))
  {
    hide FastText, StyledText, Parse, Normal, Readable, Wf, Eq, Canonical, Tidy, RealsBack;
    var v := Parse(cfg, doc, Null).value;
    NothingTidy();
    ParsedTidy(cfg, doc, Null);
    TidyWf(v);
    FastRoundTrip(cfg, v, ":", pr, Null);
    StyledRoundTrip(cfg, v, pr, Null);
    EqualIffCanonical(v, pr, cfg.scanReal);
    TidyCanonical(v, pr, cfg.scanReal);
  }

  /** Without real numbers it always does, whatever the C library's functions. */
  lemma ParsedAgainRealFree(cfg: Config, doc: string, pr: real -> string)
    requires RealFree(Parse(cfg, doc, Null).value)
    ensures var v := Parse(cfg, doc, Null).value;
            && Wf(v)
            && Eq(Parse(cfg, FastText(v, ":", pr) + "\n", Null).value, v)
            && Eq(Parse(cfg, StyledText(v, "", "", pr) + "\n", Null).value, v)
  {
    hide FastText, StyledText, Parse, Readable, Wf, Eq, Tidy, RealsBack, RealFree;
    var v := Parse(cfg, doc, Null).value;
    NothingTidy();
    ParsedTidy(cfg, doc, Null);
    RealFreeBack(v, pr, cfg.scanReal);
    ParsedAgain(cfg, doc, pr);
  }
}
