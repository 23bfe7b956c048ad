/**
  The version comparison `CmpVersion` of public/astTask/astTask.cpp: two pointers walk the two
  strings and copy the numbers between the dots into scratch buffers.
 */
module Version {
  import opened Common
  import JsonWriter

  // ---------------------------------------------------------------- numbers in text

  /** The number of leading digits, on top of what was read before. */
  function Digits(s: string, acc: nat): (n: nat) {
    if s == "" || !IsDigit(s[0]) then acc else Digits(s[1..], 10 * acc + (s[0] as int - '0' as int))
  }

  function Signed(sign: int, n: nat): (r: int) {
    sign * n
  }

  /** `atoi`: white space, a sign, digits; whatever follows is ignored. */
  function Atoi(s: string): (n: int)
    ensures s == "" ==> n == 0
    decreases |s|
  {
    if s == "" then 0
    else if IsCSpace(s[0]) then Atoi(s[1..])
    else if s[0] == '-' then Signed(-1, Digits(s[1..], 0))
    else if s[0] == '+' then Signed(1, Digits(s[1..], 0))
    else Signed(1, Digits(s, 0))
  }

  // ---------------------------------------------------------------- components

  /** The text before the first dot. */
  function Head(s: string): (h: string)
    ensures |h| <= |s|
  {
    if s == "" || s[0] == '.' then "" else [s[0]] + Head(s[1..])
  }

  /** The text after the first dot, empty if there is none. */
  function Rest(s: string): (r: string)
    ensures |r| <= |s| && (Head(s) != s ==> |r| < |s|)
  {
    if |Head(s)| == |s| then "" else s[|Head(s)| + 1..]
  }

  lemma {:induction false} HeadIs(s: string, k: nat)
    requires k <= |s| && (forall i :: 0 <= i < k ==> s[i] != '.') && (k < |s| ==> s[k] == '.')
    ensures Head(s) == s[..k]
    ensures Rest(s) == if k < |s| then s[k + 1..] else ""
    decreases k
  {
    if k > 0 {
      HeadIs(s[1..], k - 1);
      assert s[..k] == [s[0]] + s[1..][..k - 1];
    }
  }

  /** Component `j` as a number; missing components count as zero. */
  function Nth(s: string, j: nat): (n: int)
    decreases j
  {
    if j == 0 then Atoi(Head(s)) else Nth(Rest(s), j - 1)
  }

  lemma {:induction false} NothingIsZero(j: nat)
    ensures Nth("", j) == 0
  {
    if j > 0 {
      NothingIsZero(j - 1);
    }
  }

  /** The result of the comparison: the first difference of two components. */
  function Compare(s: string, t: string): (r: int)
    decreases |s| + |t|
  {
    var d := Atoi(Head(s)) - Atoi(Head(t));
    if d != 0 then d
    else if Head(s) == s && Head(t) == t then 0
    else Compare(Rest(s), Rest(t))
  }

  // ---------------------------------------------------------------- a total preorder

  /** The components agree before place `k`, where the first is smaller. */
  ghost predicate FirstAt(s: string, t: string, k: nat) {
    Nth(s, k) < Nth(t, k) && forall j: nat :: j < k ==> Nth(s, j) == Nth(t, j)
  }

  ghost predicate LexLess(s: string, t: string) {
    exists k: nat :: FirstAt(s, t, k)
  }

  ghost predicate Same(s: string, t: string) {
    forall j: nat :: Nth(s, j) == Nth(t, j)
  }

  lemma LexLessIs(s: string, t: string)
    ensures Nth(s, 0) < Nth(t, 0) ==> LexLess(s, t)
    ensures Nth(s, 0) == Nth(t, 0) ==> (LexLess(s, t) <==> LexLess(Rest(s), Rest(t)))
    ensures Nth(s, 0) > Nth(t, 0) ==> !LexLess(s, t)
  {
    hide Nth, FirstAt;
    FirstHere(s, t);
    if k: nat :| FirstAt(Rest(s), Rest(t), k) {
      FirstLater(s, t, k);
    }
    if k: nat :| FirstAt(s, t, k) && k > 0 {
      FirstLater(s, t, k - 1);
    }
  }

  lemma FirstHere(s: string, t: string)
    ensures FirstAt(s, t, 0) <==> Nth(s, 0) < Nth(t, 0)
    ensures forall k: nat :: FirstAt(s, t, k) && k > 0 ==> Nth(s, 0) == Nth(t, 0)
  {
    hide Nth;
  }

  lemma FirstLater(s: string, t: string, k: nat)
    ensures FirstAt(s, t, k + 1) <==> Nth(s, 0) == Nth(t, 0) && FirstAt(Rest(s), Rest(t), k)
  {
    hide Nth, Rest;
    NthRest(s, k);
    NthRest(t, k);
    if FirstAt(s, t, k + 1) {
      forall j: nat | j < k ensures Nth(Rest(s), j) == Nth(Rest(t), j) {
        NthRest(s, j);
        NthRest(t, j);
      }
    }
    if Nth(s, 0) == Nth(t, 0) && FirstAt(Rest(s), Rest(t), k) {
      PutInFront(s, t, k);
    }
  }

  lemma PutInFront(s: string, t: string, k: nat)
    requires Nth(s, 0) == Nth(t, 0) && FirstAt(Rest(s), Rest(t), k)
    ensures FirstAt(s, t, k + 1)
  {
    hide Nth, Rest;
    NthRest(s, k);
    NthRest(t, k);
    forall j: nat | j < k + 1 ensures Nth(s, j) == Nth(t, j) {
      if j > 0 {
        NthRest(s, j - 1);
        NthRest(t, j - 1);
      }
    }
  }

  lemma NthRest(s: string, j: nat)
    ensures Nth(Rest(s), j) == Nth(s, j + 1)
  {
  }

  lemma SameIs(s: string, t: string)
    ensures Same(s, t) <==> Nth(s, 0) == Nth(t, 0) && Same(Rest(s), Rest(t))
  {
    hide Atoi, Head;
    if Same(s, t) {
      forall j: nat ensures Nth(Rest(s), j) == Nth(Rest(t), j) {
        NthRest(s, j);
        NthRest(t, j);
      }
    }
    if Nth(s, 0) == Nth(t, 0) && Same(Rest(s), Rest(t)) {
      forall j: nat ensures Nth(s, j) == Nth(t, j) {
        if j > 0 {
          NthRest(s, j - 1);
          NthRest(t, j - 1);
        }
      }
    }
  }

  lemma EmptySame()
    ensures Same("", "") && !LexLess("", "")
  {
  }

  lemma LastRest(s: string)
    ensures Head(s) == s ==> Rest(s) == ""
  {
  }

  /** The sign of the result is the lexicographic order of the components. */
  lemma {:induction false} CompareIsLexicographic(s: string, t: string)
    ensures Compare(s, t) < 0 <==> LexLess(s, t)
    ensures Compare(s, t) > 0 <==> LexLess(t, s)
    ensures Compare(s, t) == 0 <==> Same(s, t)
    decreases |s| + |t|
  {
    hide Atoi, Head, Rest, LexLess, Same;
    LexLessIs(s, t);
    LexLessIs(t, s);
    SameIs(s, t);
    if Nth(s, 0) == Nth(t, 0) {
      if Head(s) == s && Head(t) == t {
        LastRest(s);
        LastRest(t);
        EmptySame();
      } else {
        CompareIsLexicographic(Rest(s), Rest(t));
      }
    }
  }

  lemma {:induction false} CompareReversed(s: string, t: string)
    ensures Compare(t, s) == -Compare(s, t)
    decreases |s| + |t|
  {
    hide Atoi, Head, Rest;
    if Atoi(Head(s)) == Atoi(Head(t)) && !(Head(s) == s && Head(t) == t) {
      CompareReversed(Rest(s), Rest(t));
    }
  }

  /** "At most" is transitive; it is total because the reversed comparison has the opposite sign. */
  lemma {:induction false} CompareTransitive(s: string, t: string, u: string)
    requires Compare(s, t) <= 0 && Compare(t, u) <= 0
    ensures Compare(s, u) <= 0
    ensures Compare(s, u) == 0 ==> Compare(s, t) == 0 && Compare(t, u) == 0
  {
    hide Nth, Compare, LexLess, Same;
    CompareIsLexicographic(s, t);
    CompareIsLexicographic(t, u);
    CompareIsLexicographic(s, u);
    if Compare(s, t) == 0 {
      LessSame(s, t, u);
    } else if Compare(t, u) == 0 {
      LessSame(t, u, s);
    } else {
      LessTransitive(s, t, u);
    }
  }

  /** Equal versions compare alike. */
  lemma LessSame(s: string, t: string, u: string)
    requires Same(s, t)
    ensures LexLess(t, u) <==> LexLess(s, u)
    ensures LexLess(u, t) <==> LexLess(u, s)
    ensures Same(t, u) <==> Same(s, u)
    ensures Same(u, t) <==> Same(u, s)
  {
    hide Nth;
    forall k: nat ensures (FirstAt(t, u, k) <==> FirstAt(s, u, k)) && (FirstAt(u, t, k) <==> FirstAt(u, s, k)) {
    }
  }

  lemma LessTransitive(s: string, t: string, u: string)
    requires LexLess(s, t) && LexLess(t, u)
    ensures LexLess(s, u)
  {
    hide Nth;
    var k: nat :| FirstAt(s, t, k);
    var l: nat :| FirstAt(t, u, l);
    assert FirstAt(s, u, if k < l then k else l);
  }

  // ---------------------------------------------------------------- versions as they are written

  /** Numbers in decimal, with dots between them. */
  function VersionText(ns: seq<int>): (t: string) {
    if ns == [] then ""
    else if |ns| == 1 then JsonWriter.IntText(ns[0])
    else JsonWriter.IntText(ns[0]) + "." + VersionText(ns[1..])
  }

  lemma {:induction false} DigitsOfText(n: nat, tail: string)
    ensures Digits(JsonWriter.UIntText(n) + tail, 0) == Digits(tail, n)
    decreases n
  {
    var last := [JsonWriter.Digit(n % 10)] + tail;
    assert last[1..] == tail && Digits(last, n / 10) == Digits(tail, 10 * (n / 10) + n % 10);
    if n < 10 {
      assert JsonWriter.UIntText(n) + tail == last;
    } else {
      assert JsonWriter.UIntText(n) + tail == JsonWriter.UIntText(n / 10) + last;
      DigitsOfText(n / 10, last);
    }
  }

  /** `atoi` reads a decimal number back, behind blanks and before anything but a digit. */
  lemma {:induction false} AtoiReads(blanks: string, i: int, tail: string)
    requires (forall k :: 0 <= k < |blanks| ==> IsCSpace(blanks[k])) && (tail != "" ==> !IsDigit(tail[0]))
    ensures Atoi(blanks + JsonWriter.IntText(i) + tail) == i
    decreases |blanks|
  {
    hide Atoi, JsonWriter.IntText;
    var t := JsonWriter.IntText(i) + tail;
    Grouped(blanks, JsonWriter.IntText(i), tail);
    if blanks != "" {
      AtoiReads(blanks[1..], i, tail);
      Grouped(blanks[1..], JsonWriter.IntText(i), tail);
      BlankSkipped(blanks + t);
      assert (blanks + t)[1..] == blanks[1..] + t;
    } else {
      assert blanks + t == t;
      NumberReads(i, tail);
    }
  }

  lemma Grouped(a: string, b: string, c: string)
    ensures a + b + c == a + (b + c)
  {
  }

  lemma BlankSkipped(s: string)
    requires s != "" && IsCSpace(s[0])
    ensures Atoi(s) == Atoi(s[1..])
  {
  }

  lemma NumberReads(i: int, tail: string)
    requires tail != "" ==> !IsDigit(tail[0])
    ensures Atoi(JsonWriter.IntText(i) + tail) == i
  {
    hide Digits, Atoi, JsonWriter.UIntText;
    NoDigits(tail, if i < 0 then -i else i);
    if i < 0 {
      DigitsOfText(-i, tail);
      MinusRead(JsonWriter.UIntText(-i) + tail);
      Grouped("-", JsonWriter.UIntText(-i), tail);
    } else {
      DigitsOfText(i, tail);
      var d := JsonWriter.UIntText(i);
      assert '0' <= d[0] <= '9' && (d + tail)[0] == d[0];
      DigitsRead(d + tail);
    }
  }

  lemma MinusRead(d: string)
    ensures Atoi("-" + d) == 0 - Digits(d, 0)
  {
    hide Digits;
    assert ("-" + d)[1..] == d;
  }

  lemma DigitsRead(d: string)
    requires d != "" && '0' <= d[0] <= '9'
    ensures Atoi(d) == Digits(d, 0)
  {
    hide Digits;
  }

  lemma NoDigits(tail: string, n: nat)
    requires tail != "" ==> !IsDigit(tail[0])
    ensures Digits(tail, n) == n
  {
  }

  lemma NoDot(i: int, k: nat)
    requires k < |JsonWriter.IntText(i)|
    ensures JsonWriter.IntText(i)[k] != '.'
  {
  }

  /** The components of a version are the numbers it is written with, and zero behind them. */
  lemma {:induction false} NthOfText(ns: seq<int>, j: nat)
    ensures Nth(VersionText(ns), j) == if j < |ns| then ns[j] else 0
    decreases |ns|
  {
    hide Atoi, Head, Rest, VersionText, JsonWriter.IntText;
    VersionSplit(ns);
    if ns == [] {
      NothingIsZero(j);
    } else if j > 0 {
      NthOfText(ns[1..], j - 1);
    }
  }

  /** The first component and what follows it. */
  lemma VersionSplit(ns: seq<int>)
    ensures ns == [] ==> VersionText(ns) == ""
    ensures ns != [] ==> Rest(VersionText(ns)) == VersionText(ns[1..]) && Atoi(Head(VersionText(ns))) == ns[0]
  {
    hide Atoi, Head, Rest, JsonWriter.IntText;
    if ns != [] {
      var t, h := VersionText(ns), JsonWriter.IntText(ns[0]);
      forall k | 0 <= k < |h| ensures t[k] == h[k] != '.' {
        NoDot(ns[0], k);
      }
      HeadIs(t, |h|);
      assert t[..|h|] == h && "" + h + "" == h;
      AtoiReads("", ns[0], "");
      if |ns| > 1 {
        assert t[|h| + 1..] == VersionText(ns[1..]);
      } else {
        assert ns[1..] == [];
      }
    }
  }

  /** Of two written versions the first compares lower exactly when it is so at the first different number. */
  lemma CompareNumbers(ns: seq<int>, ms: seq<int>)
    ensures Compare(VersionText(ns), VersionText(ms)) < 0 <==>
            exists k: nat :: NumberAt(ns, k) < NumberAt(ms, k)
                             && forall j: nat :: j < k ==> NumberAt(ns, j) == NumberAt(ms, j)
  {
    hide Nth, Compare, VersionText;
    var s, t := VersionText(ns), VersionText(ms);
    CompareIsLexicographic(s, t);
    forall j: nat ensures Nth(s, j) == NumberAt(ns, j) && Nth(t, j) == NumberAt(ms, j) {
      NthOfText(ns, j);
      NthOfText(ms, j);
    }
    if k: nat :| FirstAt(s, t, k) {
      assert NumberAt(ns, k) < NumberAt(ms, k);
    }
    if k: nat :| NumberAt(ns, k) < NumberAt(ms, k) && forall j: nat :: j < k ==> NumberAt(ns, j) == NumberAt(ms, j) {
      assert FirstAt(s, t, k);
    }
  }

  function NumberAt(ns: seq<int>, k: nat): (n: int) {
    if k < |ns| then ns[k] else 0
  }

  // ---------------------------------------------------------------- the code

  const BUFFER_SIZE: nat := 256

  /** Every component leaves room for its terminator in a scratch buffer. */
  predicate PartsFit(s: string)
    decreases |s|
  {
    |Head(s)| < BUFFER_SIZE && (Head(s) != s ==> PartsFit(Rest(s)))
  }

  /** `*p`. */
  function CharAt(s: string, p: nat): (c: char)
    requires p <= |s|
  {
    if p == |s| then '\0' else s[p]
  }

  /** What is written for it: the dot ends a number like the end of the string. */
  function Shown(s: string, p: nat): (c: char)
    requires p <= |s|
  {
    if CharAt(s, p) == '.' then '\0' else CharAt(s, p)
  }

  /** The buffer holds the part of the current component that was passed. */
  ghost predicate Copied(ver: string, start: nat, pT: nat, buffer: seq<char>) {
    && start + pT <= |ver| && pT < |buffer| == BUFFER_SIZE
    && (forall i :: 0 <= i < pT ==> buffer[i] == ver[start..][i] && ver[start..][i] != '.')
    && PartsFit(ver[start..])
  }

  lemma ComponentRead(ver: string, start: nat, pT: nat, buffer: seq<char>)
    requires NulFree(ver) && Copied(ver, start, pT, buffer) && Shown(ver, start + pT) == '\0' && buffer[pT] == '\0'
    ensures CStr(buffer) == Head(ver[start..])
    ensures var p := start + pT;
            Rest(ver[start..]) == (if p < |ver| then ver[p + 1..] else "")
                && (Head(ver[start..]) == ver[start..] <==> p == |ver|)
  {
    hide PartsFit, Head, Rest, CStr;
    var s := ver[start..];
    HeadIs(s, pT);
    CStrIs(buffer, pT);
    assert buffer[..pT] == s[..pT];
    if start + pT < |ver| {
      assert s[pT + 1..] == ver[start + pT + 1..];
    }
  }

  lemma NextComponent(ver: string, start: nat, pT: nat, buffer: seq<char>)
    requires NulFree(ver) && Copied(ver, start, pT, buffer) && Shown(ver, start + pT) == '\0' && buffer[pT] == '\0'
    ensures var p := start + pT;
            var next := if p < |ver| then p + 1 else p;
            Copied(ver, next, 0, buffer) && ver[next..] == Rest(ver[start..])
  {
    hide Head, Rest, CStr;
    ComponentRead(ver, start, pT, buffer);
    if start + pT == |ver| {
      assert ver[start + pT..] == "";
      NothingFits();
    }
  }

  lemma NothingFits()
    ensures PartsFit("")
  {
  }

  /** A character of the component fits the buffer. */
  lemma OneMore(ver: string, start: nat, pT: nat, buffer: seq<char>)
    requires NulFree(ver) && Copied(ver, start, pT, buffer) && Shown(ver, start + pT) != '\0'
             && buffer[pT] == ver[start + pT]
    ensures Copied(ver, start, pT + 1, buffer)
  {
    hide Head;
    var s := ver[start..];
    assert s[pT] == ver[start + pT];
    LongHead(s, pT + 1);
  }

  lemma {:induction false} LongHead(s: string, k: nat)
    requires k <= |s| && forall i :: 0 <= i < k ==> s[i] != '.'
    ensures |Head(s)| >= k
    decreases k
  {
    if k > 0 {
      LongHead(s[1..], k - 1);
    }
  }

  /** Both buffers hold a component: their difference decides, or the comparison goes on behind them. */
  lemma BothRead(u: string, s: nat, m: nat, a: seq<char>, v: string, t: nat, n: nat, b: seq<char>)
    requires NulFree(u) && Copied(u, s, m, a) && s + m <= |u| && m < |a| && Shown(u, s + m) == '\0' && a[m] == '\0'
    requires NulFree(v) && Copied(v, t, n, b) && t + n <= |v| && n < |b| && Shown(v, t + n) == '\0' && b[n] == '\0'
    ensures var p, q, d := s + m, t + n, Atoi(CStr(a)) - Atoi(CStr(b));
            var p', q' := if p < |u| then p + 1 else p, if q < |v| then q + 1 else q;
            && Copied(u, p', 0, a) && Copied(v, q', 0, b)
            && (d != 0 ==> Compare(u[s..], v[t..]) == d)
            && (d == 0 && p == |u| && q == |v| ==> Compare(u[s..], v[t..]) == 0)
            && (d == 0 && !(p == |u| && q == |v|) ==> Compare(u[s..], v[t..]) == Compare(u[p'..], v[q'..]))
  {
    hide Head, Rest, CStr, PartsFit, Atoi, Compare, Copied, Shown;
    ComponentRead(u, s, m, a);
    ComponentRead(v, t, n, b);
    NextComponent(u, s, m, a);
    NextComponent(v, t, n, b);
    CompareStep(u[s..], v[t..]);
  }

  /** A character was copied: both pointers may move on. */
  lemma KeepChar(ver: string, p: nat, pT: nat, buffer: seq<char>)
    requires NulFree(ver) && pT <= p <= |ver| && pT < |buffer| && Copied(ver, p - pT, pT, buffer)
    requires buffer[pT] == Shown(ver, p) && buffer[pT] != '\0'
    ensures p < |ver| && pT + 1 < BUFFER_SIZE && Copied(ver, p - pT, pT + 1, buffer)
  {
    hide PartsFit, Copied, Shown;
    ShownEnd(ver, p);
    OneMore(ver, p - pT, pT, buffer);
    CopiedRoom(ver, p - pT, pT + 1, buffer);
  }

  /** `CmpVersion`. */
  method CmpVersion(ver1: string, ver2: string) returns (r: int)
    requires NulFree(ver1) && NulFree(ver2) && PartsFit(ver1) && PartsFit(ver2)
    ensures r == Compare(ver1, ver2)
  {
    hide Head, Rest, CStr, PartsFit, Atoi, Compare, Copied, Shown;
    var cTmp1 := new char[BUFFER_SIZE](_ => '\0');
    var cTmp2 := new char[BUFFER_SIZE](_ => '\0');
    var p1, p2, pT1, pT2 := 0, 0, 0, 0;
    Begin(ver1, cTmp1[..]);
    Begin(ver2, cTmp2[..]);
    while p1 < |ver1| || p2 < |ver2|
      invariant pT1 <= p1 <= |ver1| && pT2 <= p2 <= |ver2| && pT1 < BUFFER_SIZE && pT2 < BUFFER_SIZE
      invariant Copied(ver1, p1 - pT1, pT1, cTmp1[..]) && Copied(ver2, p2 - pT2, pT2, cTmp2[..])
      invariant Compare(ver1[p1 - pT1..], ver2[p2 - pT2..]) == Compare(ver1, ver2)
      decreases |ver1| - p1 + |ver2| - p2
    {
      ghost var s1, s2 := p1 - pT1, p2 - pT2;
      Write(ver1, p1, pT1, cTmp1);
      Write(ver2, p2, pT2, cTmp2);
      if cTmp1[pT1] == '\0' && cTmp2[pT2] == '\0' {
        BothRead(ver1, s1, pT1, cTmp1[..], ver2, s2, pT2, cTmp2[..]);
        r := Atoi(CStr(cTmp1[..])) - Atoi(CStr(cTmp2[..]));
        if r != 0 {
          return;
        }
        if p1 < |ver1| {
          p1 := p1 + 1;
        }
        if p2 < |ver2| {
          p2 := p2 + 1;
        }
        pT1, pT2 := 0, 0;
      } else {
        if cTmp1[pT1] != '\0' {
          KeepChar(ver1, p1, pT1, cTmp1[..]);
          p1, pT1 := p1 + 1, pT1 + 1;
        }
        if cTmp2[pT2] != '\0' {
          KeepChar(ver2, p2, pT2, cTmp2[..]);
          p2, pT2 := p2 + 1, pT2 + 1;
        }
      }
    }
    ghost var s1, s2 := p1 - pT1, p2 - pT2;
    ShownEnd(ver1, p1);
    ShownEnd(ver2, p2);
    Write(ver1, p1, pT1, cTmp1);
    Write(ver2, p2, pT2, cTmp2);
    BothRead(ver1, s1, pT1, cTmp1[..], ver2, s2, pT2, cTmp2[..]);
    r := Atoi(CStr(cTmp1[..])) - Atoi(CStr(cTmp2[..]));
  }

  method Write(ver: string, p: nat, pT: nat, buffer: array<char>)
    requires pT <= p <= |ver| && pT < BUFFER_SIZE && Copied(ver, p - pT, pT, buffer[..])
    modifies buffer
    ensures Copied(ver, p - pT, pT, buffer[..]) && buffer.Length == BUFFER_SIZE && buffer[pT] == Shown(ver, p)
  {
    hide PartsFit;
    ghost var before := buffer[..];
    if p < |ver| && ver[p] == '.' {
      buffer[pT] := '\0';
    } else {
      buffer[pT] := CharAt(ver, p);
    }
    assert forall i :: 0 <= i < pT ==> buffer[..][i] == before[i];
  }

  lemma Begin(ver: string, buffer: seq<char>)
    requires |buffer| == BUFFER_SIZE && PartsFit(ver)
    ensures Copied(ver, 0, 0, buffer) && ver[0..] == ver
  {
    hide PartsFit;
    assert ver[0..] == ver;
  }

  lemma ShownEnd(ver: string, p: nat)
    requires p <= |ver| && NulFree(ver)
    ensures p == |ver| ==> Shown(ver, p) == '\0'
    ensures Shown(ver, p) != '\0' ==> p < |ver| && Shown(ver, p) == ver[p]
  {
  }

  lemma CopiedRoom(ver: string, start: nat, pT: nat, buffer: seq<char>)
    requires Copied(ver, start, pT, buffer)
    ensures start + pT <= |ver| && pT < BUFFER_SIZE
  {
    hide PartsFit;
  }

  lemma CompareStep(s: string, t: string)
    ensures var d := Atoi(Head(s)) - Atoi(Head(t));
            && (d != 0 ==> Compare(s, t) == d)
            && (d == 0 && Head(s) == s && Head(t) == t ==> Compare(s, t) == 0)
            && (d == 0 && !(Head(s) == s && Head(t) == t) ==> Compare(s, t) == Compare(Rest(s), Rest(t)))
  {
    hide Head, Rest, Atoi;
  }
}
