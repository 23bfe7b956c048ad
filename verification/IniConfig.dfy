/**
  The profile file of public/rwIni/ini_parser.cpp as the configuration it stands for: a list of
  sections with their lines. Reading is a lookup in that list, writing updates it.
 */
module IniConfig {
  import opened Common
  import opened Ini

  // ---------------------------------------------------------------- configurations

  datatype Line = Pair(key: string, value: string) | Comment(text: string) | Blank

  datatype Part = Part(name: string, lines: seq<Line>)

  function LineText(l: Line): (t: string)
    ensures t != "" && Newline(t[|t| - 1])
  {
    match l
    case Pair(key, value) => key + "=" + value + "\n"
    case Comment(text) => ";" + text + "\n"
    case Blank => "\n"
  }

  function LinesText(ls: seq<Line>): (t: string)
    ensures t != "" ==> Newline(t[|t| - 1])
  {
    if ls == [] then "" else LineText(ls[0]) + LinesText(ls[1..])
  }

  function HeadText(name: string): (t: string) {
    "[" + name + "]\n"
  }

  function PartText(p: Part): (t: string)
    ensures t != "" && Newline(t[|t| - 1])
  {
    HeadText(p.name) + LinesText(p.lines)
  }

  /** The file that holds a configuration. */
  function Render(parts: seq<Part>): (t: string)
    ensures parts == [] <==> t == ""
    ensures parts != [] ==> t[0] == '[' && Newline(t[|t| - 1])
  {
    if parts == [] then "" else PartText(parts[0]) + Render(parts[1..])
  }

  predicate GoodLine(l: Line) {
    match l
    case Pair(key, value) => SaneKey(key) && SaneValue(value)
    case Comment(text) => SaneValue(text)
    case Blank => true
  }

  predicate GoodPart(p: Part) {
    Closed(p.name) && forall l <- p.lines :: GoodLine(l)
  }

  predicate Good(parts: seq<Part>) {
    forall p <- parts :: GoodPart(p)
  }

  // ---------------------------------------------------------------- lookup and update

  predicate Matches(l: Line, key: string) {
    l.Pair? && l.key <= key
  }

  /** The value of the first line whose key begins the wanted one. */
  function LookupLine(ls: seq<Line>, key: string): (v: Option<string>) {
    if ls == [] then None else if Matches(ls[0], key) then Some(ls[0].value) else LookupLine(ls[1..], key)
  }

  /** The first such value in any section whose name begins the wanted one. */
  function Lookup(parts: seq<Part>, section: string, key: string): (v: Option<string>) {
    if parts == [] then None
    else if parts[0].name <= section && LookupLine(parts[0].lines, key).Some? then LookupLine(parts[0].lines, key)
    else Lookup(parts[1..], section, key)
  }

  function ReplaceLine(ls: seq<Line>, key: string, value: string): (r: seq<Line>)
    requires LookupLine(ls, key).Some?
  {
    if Matches(ls[0], key) then [Pair(ls[0].key, value)] + ls[1..] else [ls[0]] + ReplaceLine(ls[1..], key, value)
  }

  /** The value that lookup finds, replaced. */
  function Replace(parts: seq<Part>, section: string, key: string, value: string): (r: seq<Part>)
    requires Lookup(parts, section, key).Some?
  {
    var p := parts[0];
    if p.name <= section && LookupLine(p.lines, key).Some? then
      [Part(p.name, ReplaceLine(p.lines, key, value))] + parts[1..]
    else [p] + Replace(parts[1..], section, key, value)
  }

  predicate HasSection(parts: seq<Part>, section: string) {
    parts != [] && (parts[0].name <= section || HasSection(parts[1..], section))
  }

  /** The number of blank lines at the beginning. */
  function BlankCount(ls: seq<Line>): (n: nat)
    ensures n <= |ls|
  {
    if ls != [] && ls[0].Blank? then 1 + BlankCount(ls[1..]) else 0
  }

  /** A line behind the blank lines that follow a header. */
  function InsertLine(ls: seq<Line>, l: Line): (r: seq<Line>) {
    ls[..BlankCount(ls)] + [l] + ls[BlankCount(ls)..]
  }

  /** A line inserted into the last section whose name begins the wanted one. */
  function Insert(parts: seq<Part>, section: string, l: Line): (r: seq<Part>)
    requires HasSection(parts, section)
  {
    if HasSection(parts[1..], section) then [parts[0]] + Insert(parts[1..], section, l)
    else [Part(parts[0].name, InsertLine(parts[0].lines, l))] + parts[1..]
  }

  /** A blank line at the very end. */
  function WithBlank(parts: seq<Part>): (r: seq<Part>)
    requires parts != []
  {
    var n := |parts| - 1;
    parts[..n] + [Part(parts[n].name, parts[n].lines + [Blank])]
  }

  /** What writing a value does to the configuration. */
  function Update(parts: seq<Part>, section: string, key: string, value: string): (r: seq<Part>) {
    if Lookup(parts, section, key).Some? then Replace(parts, section, key, value)
    else if HasSection(parts, section) then Insert(parts, section, Pair(key, value))
    else (if parts == [] then [] else WithBlank(parts)) + [Part(section, [Pair(key, value)])]
  }

  // ---------------------------------------------------------------- scanning rendered text

  /** Where a new line begins. */
  predicate Fresh(a: string) {
    a == "" || Newline(a[|a| - 1])
  }

  lemma {:induction false} SkipTo(f: string, section: string, key: string, i: nat, j: nat, sec: Section)
    requires i <= j <= |f| && forall k :: i <= k < j ==> !HeaderAt(f, k)
    ensures Scan(f, section, key, i, sec) == Scan(f, section, key, j, sec)
    decreases j - i
  {
    hide HeaderAt, Scan;
    if i < j {
      ScanSkip(f, section, key, i, sec);
      SkipTo(f, section, key, i + 1, j, sec);
    }
  }

  /** One line of text: its characters and its end. */
  lemma LineAt(f: string, a: string, l: Line, z: string)
    requires f == a + LineText(l) + z && GoodLine(l)
    ensures var i, e := |a|, |a| + |LineText(l)| - 1; i <= |f| && LineEnd(f, i) == e < |f|
    ensures f[|a|] != '['
    ensures forall k :: |a| < k < |a| + |LineText(l)| ==> !HeaderAt(f, k)
  {
    hide LineText, GoodLine, LineEnd;
    var t := LineText(l);
    assert forall k :: 0 <= k < |t| ==> f[|a| + k] == t[k];
    LineChars(l);
    assert Newline(f[|a| + |t| - 1]);
    assert forall k :: |a| <= k < |a| + |t| - 1 ==> !Newline(f[k]);
  }

  lemma LineChars(l: Line)
    requires GoodLine(l)
    ensures var t := LineText(l); t[0] != '[' && forall k :: 0 <= k < |t| - 1 ==> !Newline(t[k])
  {
  }

  /** Whether a line is the wanted one, and where its value lies. */
  lemma KeyAt(f: string, a: string, l: Line, z: string, key: string)
    requires f == a + LineText(l) + z && GoodLine(l)
    ensures var i, e := |a|, |a| + |LineText(l)| - 1;
            && i <= e <= |f| && (KeyLine(f, key, i, e) <==> Matches(l, key))
            && (l.Pair? ==> FirstEqual(f, i, e) == i + |l.key|)
  {
    var t := LineText(l);
    assert forall k :: 0 <= k < |t| ==> f[|a| + k] == t[k];
    if l.Pair? {
      assert f[|a| + |l.key|] == '=';
      assert f[|a|..|a| + |l.key|] == l.key;
    }
  }

  lemma LinesHead(ls: seq<Line>)
    requires ls != []
    ensures LinesText(ls) == LineText(ls[0]) + LinesText(ls[1..])
  {
    hide LineText;
  }

  lemma {:induction false} LinesAppend(a: seq<Line>, b: seq<Line>)
    ensures LinesText(a + b) == LinesText(a) + LinesText(b)
  {
    hide LineText;
    if a == [] {
      assert a + b == b;
    } else {
      assert (a + b)[1..] == a[1..] + b;
      LinesAppend(a[1..], b);
    }
  }

  lemma Split(f: string, a: string, l: string, t: string, z: string)
    requires f == a + (l + t) + z
    ensures f == a + l + (t + z) && f == (a + l) + t + z
  {
  }

  /** No header begins inside the lines of a section. */
  lemma {:induction false} NoHeaderInLines(f: string, a: string, ls: seq<Line>, z: string)
    requires f == a + LinesText(ls) + z && forall l <- ls :: GoodLine(l)
    ensures forall k :: |a| <= k < |a| + |LinesText(ls)| ==> !HeaderAt(f, k)
    decreases |ls|
  {
    hide LineText, LinesText, GoodLine, HeaderAt;
    if ls == [] {
      NoLines();
    } else {
      LinesHead(ls);
      var t, rest := LineText(ls[0]), LinesText(ls[1..]);
      Split(f, a, t, rest, z);
      LineAt(f, a, ls[0], rest + z);
      NotHeader(f, |a|);
      NoHeaderInLines(f, a + t, ls[1..], z);
    }
  }

  lemma NoLines()
    ensures LinesText([]) == ""
  {
  }

  lemma NotHeader(f: string, i: nat)
    requires i < |f| && f[i] != '['
    ensures !HeaderAt(f, i)
  {
  }

  /** What reading a value out of the file and putting another in its place gives. */
  ghost predicate Placed(f: string, r: Outcome, v: Option<string>, v': string, g: string) {
    r.Hit? && r.vs <= r.ve <= |f| && v == Some(f[r.vs..r.ve]) && f[..r.vs] + v' + f[r.ve..] == g
  }

  /** The lines of a section, searched from the first one. */
  lemma {:induction false} LinesWalk(f: string, a: string, ls: seq<Line>, z: string, section: string, key: string,
      sec: Section, v': string)
    requires f == a + LinesText(ls) + z && a != "" && forall l <- ls :: GoodLine(l)
    ensures LookupLine(ls, key).None? ==>
              Lines(f, section, key, |a|, sec) == Lines(f, section, key, |a + LinesText(ls)|, sec)
    ensures LookupLine(ls, key).Some? ==>
              Placed(f, Lines(f, section, key, |a|, sec), LookupLine(ls, key), v',
                     a + LinesText(ReplaceLine(ls, key, v')) + z)
    decreases |ls|
  {
    hide LineText, LinesText, GoodLine, Lines, Placed, Matches, LookupLine, ReplaceLine;
    if ls == [] {
      NoLines();
      NoLookup(key);
      assert a + "" == a;
    } else if Matches(ls[0], key) {
      LineHit(f, a, ls, z, section, key, sec, v');
    } else {
      var t, rest := LineText(ls[0]), LinesText(ls[1..]);
      LinesHead(ls);
      LookupOn(ls, key);
      Split(f, a, t, rest, z);
      LinesWalk(f, a + t, ls[1..], z, section, key, sec, v');
      LineMissed(f, a, ls[0], rest + z, section, key, sec);
      assert a + t + rest == a + (t + rest);
      if LookupLine(ls, key).Some? {
        ReplaceLater(ls, key, v');
        Split(a + LinesText(ReplaceLine(ls, key, v')) + z, a, t, LinesText(ReplaceLine(ls[1..], key, v')), z);
      }
    }
  }

  lemma NoLookup(key: string)
    ensures LookupLine([], key) == None
  {
  }

  lemma LookupOn(ls: seq<Line>, key: string)
    requires ls != [] && !Matches(ls[0], key)
    ensures LookupLine(ls, key) == LookupLine(ls[1..], key)
  {
    hide Matches;
  }

  /** The wanted line comes first. */
  lemma LineHit(f: string, a: string, ls: seq<Line>, z: string, section: string, key: string, sec: Section, v': string)
    requires f == a + LinesText(ls) + z && a != "" && ls != [] && GoodLine(ls[0]) && Matches(ls[0], key)
    ensures LookupLine(ls, key).Some?
    ensures Placed(f, Lines(f, section, key, |a|, sec), LookupLine(ls, key), v',
                   a + LinesText(ReplaceLine(ls, key, v')) + z)
  {
    hide LineText, LinesText, GoodLine, HeaderAt, Lines, KeyLine, Placed, LookupLine, ReplaceLine;
    LinesHead(ls);
    var l, t, rest := ls[0], LineText(ls[0]), LinesText(ls[1..]);
    Split(f, a, t, rest, z);
    LineAt(f, a, l, rest + z);
    NotHeader(f, |a|);
    KeyAt(f, a, l, rest + z, key);
    LinesStep(f, section, key, |a|, sec);
    PairPlaced(f, a, l, rest + z, v', key);
    ReplaceFirst(ls, key, v');
    Split(a + LinesText(ReplaceLine(ls, key, v')) + z, a, LineText(Pair(l.key, v')), rest, z);
  }

  /** Another line is passed. */
  lemma LineMissed(f: string, a: string, l: Line, z: string, section: string, key: string, sec: Section)
    requires f == a + LineText(l) + z && a != "" && GoodLine(l) && !Matches(l, key)
    ensures Lines(f, section, key, |a|, sec) == Lines(f, section, key, |a + LineText(l)|, sec)
  {
    hide LineText, GoodLine, HeaderAt, Lines, KeyLine;
    LineAt(f, a, l, z);
    NotHeader(f, |a|);
    KeyAt(f, a, l, z, key);
    LinesStep(f, section, key, |a|, sec);
  }

  lemma PairPlaced(f: string, a: string, l: Line, z: string, v': string, key: string)
    requires f == a + LineText(l) + z && Matches(l, key)
    ensures var vs, ve := |a| + |l.key| + 1, |a| + |LineText(l)| - 1;
            Placed(f, Hit(vs, ve), Some(l.value), v', a + LineText(Pair(l.key, v')) + z)
  {
    var u, w := a + l.key + "=", "\n" + z;
    PairText(a, l.key, l.value, z);
    PairText(a, l.key, v', z);
    SlicesOf(u, l.value, w);
  }

  lemma PairText(a: string, key: string, v: string, z: string)
    ensures a + LineText(Pair(key, v)) + z == a + key + "=" + v + ("\n" + z)
  {
  }

  lemma ReplaceFirst(ls: seq<Line>, key: string, v: string)
    requires ls != [] && Matches(ls[0], key)
    ensures LookupLine(ls, key) == Some(ls[0].value)
    ensures LinesText(ReplaceLine(ls, key, v)) == LineText(Pair(ls[0].key, v)) + LinesText(ls[1..])
  {
    hide LineText, Matches;
    assert ReplaceLine(ls, key, v)[1..] == ls[1..];
  }

  lemma ReplaceLater(ls: seq<Line>, key: string, v: string)
    requires ls != [] && !Matches(ls[0], key) && LookupLine(ls, key).Some?
    ensures LookupLine(ls, key) == LookupLine(ls[1..], key)
    ensures LinesText(ReplaceLine(ls, key, v)) == LineText(ls[0]) + LinesText(ReplaceLine(ls[1..], key, v))
  {
    hide LineText, Matches;
    assert ReplaceLine(ls, key, v)[1..] == ReplaceLine(ls[1..], key, v);
  }

  // ---------------------------------------------------------------- headers

  predicate Closed(name: string) {
    forall i :: 0 <= i < |name| ==> name[i] != ']'
  }

  lemma HeadAt(f: string, a: string, name: string, z: string, section: string)
    requires f == a + HeadText(name) + z && Fresh(a) && Closed(name)
    ensures var i, e := |a|, |a| + 1 + |name|;
            && e + 1 < |f| && HeaderAt(f, i) && HeaderEnd(f, i + 1) == e
            && (Names(f, section, i + 1, e) <==> name <= section)
            && f[e] == ']' && f[e + 1] == '\n' && !HeaderAt(f, e) && !HeaderAt(f, e + 1)
  {
    hide HeaderEnd;
    var e := |a| + 1 + |name|;
    HeadChars(f, a, name, z);
    assert f[|a| + 1..e] == name;
    forall k | |a| + 1 <= k < e ensures f[k] != ']' {
      assert f[k] == name[k - |a| - 1];
    }
  }

  lemma HeadChars(f: string, a: string, name: string, z: string)
    requires f == a + HeadText(name) + z
    ensures var e := |a| + 1 + |name|; e + 1 < |f| && f[|a|] == '[' && f[e] == ']' && f[e + 1] == '\n'
    ensures a != "" ==> f[|a| - 1] == a[|a| - 1]
    ensures forall k :: 0 <= k < |name| ==> f[|a| + 1 + k] == name[k]
  {
    var t := HeadText(name);
    assert forall k :: 0 <= k < |t| ==> f[|a| + k] == t[k];
    assert forall k :: 0 <= k < |name| ==> t[1 + k] == name[k];
  }

  /** Lines begin with no blank, unless they are empty. */
  lemma LineStart(l: Line)
    requires GoodLine(l) && !l.Blank?
    ensures !IsCSpace(LineText(l)[0])
  {
  }

  lemma SpacesStep(f: string, i: nat)
    requires i < |f|
    ensures SkipSpaces(f, i) == if IsCSpace(f[i]) then SkipSpaces(f, i + 1) else i
  {
  }

  /** The blank lines behind a header are skipped with its own line break. */
  lemma {:induction false} BlanksSkipped(f: string, a: string, ls: seq<Line>, z: string)
    requires f == a + LinesText(ls) + z && (forall l <- ls :: GoodLine(l)) && (z != "" ==> z[0] == '[')
    ensures SkipSpaces(f, |a|) == |a| + BlankCount(ls)
    decreases |ls|
  {
    hide LineText, LinesText, GoodLine, SkipSpaces;
    if ls == [] {
      NoLines();
      assert f == a + z;
      NoSpaces(f, |a|);
    } else {
      LinesHead(ls);
      var t, rest := LineText(ls[0]), LinesText(ls[1..]);
      Split(f, a, t, rest, z);
      assert f[|a|] == t[0];
      SpacesStep(f, |a|);
      if ls[0].Blank? {
        BlankText();
        BlanksSkipped(f, a + t, ls[1..], z);
      } else {
        LineStart(ls[0]);
      }
    }
  }

  lemma NoSpaces(f: string, i: nat)
    requires i <= |f| && (i < |f| ==> !IsCSpace(f[i]))
    ensures SkipSpaces(f, i) == i
  {
  }

  lemma BlankText()
    ensures LineText(Blank) == "\n"
  {
  }

  /** The blank lines are as many characters. */
  lemma {:induction false} BlanksText(ls: seq<Line>)
    ensures |LinesText(ls[..BlankCount(ls)])| == BlankCount(ls)
    decreases |ls|
  {
    hide LineText, LinesText;
    var n := BlankCount(ls);
    if n == 0 {
      NoLines();
      assert ls[..0] == [];
    } else {
      BlanksText(ls[1..]);
      BlankText();
      LinesHead(ls[..n]);
      assert ls[..n][1..] == ls[1..][..n - 1];
    }
  }

  lemma {:induction false} NoBlankMatches(ls: seq<Line>, key: string)
    ensures LookupLine(ls, key) == LookupLine(ls[BlankCount(ls)..], key)
  {
    if ls != [] && ls[0].Blank? {
      NoBlankMatches(ls[1..], key);
      assert ls[1..][BlankCount(ls[1..])..] == ls[BlankCount(ls)..];
    } else {
      assert ls[0..] == ls;
    }
  }

  /** Replacing does not touch the blank lines. */
  lemma {:induction false} ReplaceAfterBlanks(ls: seq<Line>, key: string, v: string)
    requires LookupLine(ls, key).Some?
    ensures LookupLine(ls[BlankCount(ls)..], key).Some?
    ensures ReplaceLine(ls, key, v) == ls[..BlankCount(ls)] + ReplaceLine(ls[BlankCount(ls)..], key, v)
  {
    hide LookupLine, ReplaceLine, BlankCount;
    NoBlankMatches(ls, key);
    var n := BlankCount(ls);
    if n == 0 {
      assert ls[..0] == [] && ls[0..] == ls;
    } else {
      BlankFirst(ls, key, v);
      ReplaceAfterBlanks(ls[1..], key, v);
      assert ls[1..][n - 1..] == ls[n..];
      assert ls[..n] == [ls[0]] + ls[1..][..n - 1];
    }
  }

  lemma BlankFirst(ls: seq<Line>, key: string, v: string)
    requires BlankCount(ls) > 0 && LookupLine(ls, key).Some?
    ensures ls != [] && BlankCount(ls[1..]) == BlankCount(ls) - 1 && LookupLine(ls[1..], key).Some?
    ensures ReplaceLine(ls, key, v) == [ls[0]] + ReplaceLine(ls[1..], key, v)
  {
  }

  /** The text of a section up to and behind its blank lines. */
  function Front(p: Part): (t: string) {
    HeadText(p.name) + LinesText(p.lines[..BlankCount(p.lines)])
  }

  function Back(p: Part): (t: string) {
    LinesText(p.lines[BlankCount(p.lines)..])
  }

  lemma FrontBack(p: Part)
    ensures PartText(p) == Front(p) + Back(p)
    ensures |Front(p)| == |p.name| + 3 + BlankCount(p.lines)
  {
    hide LinesText;
    var n := BlankCount(p.lines);
    assert p.lines == p.lines[..n] + p.lines[n..];
    LinesAppend(p.lines[..n], p.lines[n..]);
    BlanksText(p.lines);
  }

  /** The place behind a header and its blank lines. */
  lemma SectionBegins(f: string, a: string, p: Part, z: string)
    requires f == a + PartText(p) + z && Fresh(a) && GoodPart(p) && (z != "" ==> z[0] == '[')
    ensures SkipSpaces(f, |a| + |p.name| + 2) == |a + Front(p)|
    ensures f == a + Front(p) + Back(p) + z
  {
    hide LinesText, GoodLine, HeadText, SkipSpaces, Front, Back;
    var h := HeadText(p.name);
    Split(f, a, h, LinesText(p.lines), z);
    HeadAt(f, a, p.name, LinesText(p.lines) + z, "");
    SpacesStep(f, |a| + |p.name| + 2);
    HeadSize(p.name);
    BlanksSkipped(f, a + h, p.lines, z);
    FrontBack(p);
    Split(f, a, Front(p), Back(p), z);
  }

  lemma HeadSize(name: string)
    ensures |HeadText(name)| == |name| + 3
  {
  }

  // ---------------------------------------------------------------- whole files

  /** At the end of a section the search goes on at the next header, or ends with the file. */
  lemma LinesToScan(f: string, a: string, z: string, section: string, key: string, sec: Section)
    requires f == a + z && a != "" && Newline(a[|a| - 1]) && (z != "" ==> z[0] == '[')
    ensures Lines(f, section, key, |a|, sec) == Scan(f, section, key, |a|, sec)
  {
    hide Scan, Lines;
    if z == "" {
      AtEnd(f, section, key, |a|, sec);
    } else {
      assert f[|a| - 1] == a[|a| - 1] && f[|a|] == '[';
      LinesStep(f, section, key, |a|, sec);
    }
  }

  /** A section of another name is passed over. */
  lemma PartPassed(f: string, a: string, p: Part, z: string, section: string, key: string, sec: Section)
    requires f == a + PartText(p) + z && Fresh(a) && GoodPart(p) && !(p.name <= section)
    ensures Scan(f, section, key, |a|, sec) == Scan(f, section, key, |a + PartText(p)|, sec)
  {
    hide Scan, HeaderAt, LinesText, HeadText, GoodLine, Names;
    var h, e := HeadText(p.name), |a| + 1 + |p.name|;
    Split(f, a, h, LinesText(p.lines), z);
    HeadAt(f, a, p.name, LinesText(p.lines) + z, section);
    HeadSize(p.name);
    ScanPass(f, section, key, |a|, e, sec);
    NoHeaderInLines(f, a + h, p.lines, z);
    SkipTo(f, section, key, e, |a + PartText(p)|, sec);
  }

  lemma HeadEntered(f: string, a: string, name: string, z: string, section: string, key: string, sec: Section)
    requires f == a + HeadText(name) + z && Fresh(a) && Closed(name) && name <= section
    ensures var e := |a| + |name| + 2;
            && e < |f|
            && Scan(f, section, key, |a|, sec)
               == Lines(f, section, key, SkipSpaces(f, e), Sec(|a| + 1, SkipSpaces(f, e)))
  {
    hide Scan, Lines, HeaderAt, HeadText, Names, SkipSpaces, HeaderEnd;
    HeadAt(f, a, name, z, section);
    ScanEnter(f, section, key, |a|, |a| + 1 + |name|, sec);
  }

  /** A section whose name begins the wanted one is searched from its first line that is not blank. */
  lemma PartEntered(f: string, a: string, p: Part, z: string, section: string, key: string, sec: Section)
    requires f == a + PartText(p) + z && Fresh(a) && GoodPart(p) && p.name <= section && (z != "" ==> z[0] == '[')
    ensures f == a + Front(p) + Back(p) + z && a + Front(p) + Back(p) == a + PartText(p) && a + Front(p) != ""
    ensures Scan(f, section, key, |a|, sec)
         == Lines(f, section, key, |a + Front(p)|, Sec(|a| + 1, |a + Front(p)|))
  {
    hide Scan, Lines, LinesText, HeadText, PartText, GoodLine, SkipSpaces, Front, Back, Fresh, Closed;
    PartIs(p);
    Split(f, a, HeadText(p.name), LinesText(p.lines), z);
    HeadEntered(f, a, p.name, LinesText(p.lines) + z, section, key, sec);
    SectionBegins(f, a, p, z);
    FrontBack(p);
    Associate(a, Front(p), Back(p));
  }

  lemma PartSearched(f: string, a: string, p: Part, z: string, section: string, key: string, sec: Section, v': string)
    requires f == a + PartText(p) + z && Fresh(a) && GoodPart(p) && p.name <= section && (z != "" ==> z[0] == '[')
    ensures LookupLine(p.lines, key).None? ==>
              Scan(f, section, key, |a|, sec)
              == Scan(f, section, key, |a + PartText(p)|, Sec(|a| + 1, |a + Front(p)|))
    ensures LookupLine(p.lines, key).Some? ==>
              Placed(f, Scan(f, section, key, |a|, sec), LookupLine(p.lines, key), v',
                     a + PartText(Part(p.name, ReplaceLine(p.lines, key, v'))) + z)
  {
    hide Scan, Lines, LinesText, PartText, GoodLine, Placed, Front, LookupLine, ReplaceLine, Fresh;
    var n := BlankCount(p.lines);
    PartEntered(f, a, p, z, section, key, sec);
    NoBlankMatches(p.lines, key);
    LinesWalk(f, a + Front(p), p.lines[n..], z, section, key, Sec(|a| + 1, |a + Front(p)|), v');
    if LookupLine(p.lines, key).None? {
      LinesToScan(f, a + PartText(p), z, section, key, Sec(|a| + 1, |a + Front(p)|));
    } else {
      PartReplaced(p, key, v');
      Split(a + PartText(Part(p.name, ReplaceLine(p.lines, key, v'))) + z, a, Front(p),
            LinesText(ReplaceLine(p.lines[n..], key, v')), z);
    }
  }

  lemma PartIs(p: Part)
    ensures PartText(p) == HeadText(p.name) + LinesText(p.lines)
  {
  }

  lemma PartReplaced(p: Part, key: string, v: string)
    requires LookupLine(p.lines, key).Some?
    ensures LookupLine(p.lines[BlankCount(p.lines)..], key).Some?
    ensures PartText(Part(p.name, ReplaceLine(p.lines, key, v)))
         == Front(p) + LinesText(ReplaceLine(p.lines[BlankCount(p.lines)..], key, v))
  {
    hide LinesText, HeadText, ReplaceLine, LookupLine;
    ReplaceAfterBlanks(p.lines, key, v);
    LinesAppend(p.lines[..BlankCount(p.lines)], ReplaceLine(p.lines[BlankCount(p.lines)..], key, v));
  }

  lemma PartInserted(p: Part, l: Line)
    ensures PartText(Part(p.name, InsertLine(p.lines, l))) == Front(p) + LineText(l) + Back(p)
  {
    hide LinesText, HeadText, LineText;
    var n := BlankCount(p.lines);
    LinesAppend(p.lines[..n] + [l], p.lines[n..]);
    LinesAppend(p.lines[..n], [l]);
    LinesHead([l]);
    NoLines();
    assert [l][1..] == [] && LineText(l) + "" == LineText(l);
  }

  lemma RenderHead(parts: seq<Part>)
    requires parts != []
    ensures Render(parts) == PartText(parts[0]) + Render(parts[1..])
  {
    hide PartText;
  }

  /** Where a line would be inserted, and what that gives. */
  ghost predicate Room(f: string, r: Outcome, l: Line, g: string) {
    && r.Missing? && !r.open && r.sec.Sec? && r.sec.end <= |f|
    && f[..r.sec.end] + LineText(l) + f[r.sec.end..] == g
  }

  /** The search through a rendered configuration that stands behind `a`. */
  lemma {:induction false} Walk(f: string, a: string, parts: seq<Part>, section: string, key: string, sec: Section,
      v': string, l: Line)
    requires f == a + Render(parts) && Fresh(a) && Good(parts)
    ensures var r := Scan(f, section, key, |a|, sec);
            if Lookup(parts, section, key).Some? then
              Placed(f, r, Lookup(parts, section, key), v', a + Render(Replace(parts, section, key, v')))
            else if HasSection(parts, section) then Room(f, r, l, a + Render(Insert(parts, section, l)))
            else r == Missing(sec, false)
    decreases |parts|
  {
    hide Scan, PartText, Placed, Room, GoodPart, Render, LookupLine;
    if parts == [] {
      NoParts();
      AtEnd(f, section, key, |a|, sec);
    } else {
      RenderHead(parts);
      var p, rest := parts[0], parts[1..];
      var z := Render(rest);
      assert f == a + PartText(p) + z && f == (a + PartText(p)) + z;
      if p.name <= section {
        PartSearched(f, a, p, z, section, key, sec, v');
        if LookupLine(p.lines, key).Some? {
          ReplaceHere(parts, section, key, v', a);
        } else {
          Walk(f, a + PartText(p), rest, section, key, Sec(|a| + 1, |a + Front(p)|), v', l);
          Later(parts, section, key, v', l, a);
          RoomHere(f, a, parts, section, l);
        }
      } else {
        PartPassed(f, a, p, z, section, key, sec);
        Walk(f, a + PartText(p), rest, section, key, sec, v', l);
        Later(parts, section, key, v', l, a);
      }
    }
  }

  lemma NoParts()
    ensures Render([]) == ""
  {
  }

  lemma ReplaceHere(parts: seq<Part>, section: string, key: string, v: string, a: string)
    requires parts != [] && parts[0].name <= section && LookupLine(parts[0].lines, key).Some?
    ensures Lookup(parts, section, key) == LookupLine(parts[0].lines, key)
    ensures a + Render(Replace(parts, section, key, v))
         == a + PartText(Part(parts[0].name, ReplaceLine(parts[0].lines, key, v))) + Render(parts[1..])
  {
    hide PartText, Render, LookupLine, ReplaceLine;
    RenderHead(Replace(parts, section, key, v));
  }

  /** What is found behind the first section. */
  lemma Later(parts: seq<Part>, section: string, key: string, v: string, l: Line, a: string)
    requires parts != [] && (parts[0].name <= section ==> LookupLine(parts[0].lines, key).None?)
    ensures Lookup(parts, section, key) == Lookup(parts[1..], section, key)
    ensures Lookup(parts, section, key).Some? ==>
              a + Render(Replace(parts, section, key, v))
              == a + PartText(parts[0]) + Render(Replace(parts[1..], section, key, v))
    ensures HasSection(parts, section) <==> parts[0].name <= section || HasSection(parts[1..], section)
    ensures HasSection(parts[1..], section) ==>
              a + Render(Insert(parts, section, l)) == a + PartText(parts[0]) + Render(Insert(parts[1..], section, l))
  {
    hide PartText, Render, Replace, Insert, Lookup, HasSection;
    LookupLater(parts, section, key);
    if Lookup(parts, section, key).Some? {
      ReplaceBehind(parts, section, key, v);
      Associate(a, PartText(parts[0]), Render(Replace(parts[1..], section, key, v)));
    }
    if HasSection(parts[1..], section) {
      InsertBehind(parts, section, l);
      Associate(a, PartText(parts[0]), Render(Insert(parts[1..], section, l)));
    }
  }

  lemma LookupLater(parts: seq<Part>, section: string, key: string)
    requires parts != [] && (parts[0].name <= section ==> LookupLine(parts[0].lines, key).None?)
    ensures Lookup(parts, section, key) == Lookup(parts[1..], section, key)
    ensures HasSection(parts, section) <==> parts[0].name <= section || HasSection(parts[1..], section)
  {
    hide LookupLine;
  }

  lemma ReplaceBehind(parts: seq<Part>, section: string, key: string, v: string)
    requires parts != [] && (parts[0].name <= section ==> LookupLine(parts[0].lines, key).None?)
    requires Lookup(parts, section, key).Some? && Lookup(parts[1..], section, key).Some?
    ensures Render(Replace(parts, section, key, v)) == PartText(parts[0]) + Render(Replace(parts[1..], section, key, v))
  {
    hide PartText, Render, LookupLine, Lookup;
    RenderCons(parts[0], Replace(parts[1..], section, key, v));
  }

  lemma InsertBehind(parts: seq<Part>, section: string, l: Line)
    requires parts != [] && HasSection(parts[1..], section) && HasSection(parts, section)
    ensures Render(Insert(parts, section, l)) == PartText(parts[0]) + Render(Insert(parts[1..], section, l))
  {
    hide PartText, Render, HasSection;
    RenderCons(parts[0], Insert(parts[1..], section, l));
  }

  lemma RenderCons(p: Part, rest: seq<Part>)
    ensures Render([p] + rest) == PartText(p) + Render(rest)
  {
    hide PartText, Render;
    RenderHead([p] + rest);
    assert ([p] + rest)[1..] == rest;
  }

  lemma RoomHere(f: string, a: string, parts: seq<Part>, section: string, l: Line)
    requires parts != [] && parts[0].name <= section && f == a + PartText(parts[0]) + Render(parts[1..])
    ensures !HasSection(parts[1..], section) ==>
              Room(f, Missing(Sec(|a| + 1, |a + Front(parts[0])|), false), l, a + Render(Insert(parts, section, l)))
  {
    hide PartText, Render, LineText, Front, Back, InsertLine;
    var p, z := parts[0], Render(parts[1..]);
    if !HasSection(parts[1..], section) {
      RenderHead(Insert(parts, section, l));
      PartInserted(p, l);
      FrontBack(p);
      Inserted(f, a, Front(p), Back(p), z, LineText(l));
      Associate(a, Front(p) + LineText(l) + Back(p), z);
    }
  }

  lemma Inserted(f: string, a: string, front: string, back: string, z: string, t: string)
    requires f == a + (front + back) + z
    ensures |a + front| <= |f|
    ensures f[..|a + front|] + t + f[|a + front|..] == a + (front + t + back) + z
  {
    assert f == (a + front) + (back + z);
    assert f[..|a + front|] == a + front && f[|a + front|..] == back + z;
  }

  lemma Associate(a: string, b: string, c: string)
    ensures a + b + c == a + (b + c)
  {
  }

  // ---------------------------------------------------------------- reading and writing

  /** Reading a profile is looking the value up in the configuration. */
  lemma ReadIsLookup(parts: seq<Part>, section: string, key: string)
    requires Good(parts)
    ensures Read(Render(parts), section, key) == Lookup(parts, section, key)
  {
    hide Find, Render, Lookup, HasSection, Replace, Insert;
    Searched(parts, section, key, "", Blank);
  }

  predicate Unformatted(t: string) {
    forall i :: 0 <= i < |t| ==> t[i] != '%'
  }

  /** A format without a percent sign is printed as it is. */
  ghost predicate Plain(format: string -> string) {
    forall t :: Unformatted(t) ==> format(t) == t
  }

  /** Writing a value updates the configuration, as long as the file has no percent sign in it. */
  lemma WriteIsUpdate(format: string -> string, parts: seq<Part>, section: string, key: string, value: string)
    requires Good(parts) && Plain(format) && Unformatted(Render(parts))
    ensures Written(format, Render(parts), section, key, value) == Render(Update(parts, section, key, value))
  {
    hide Find, Render, Lookup, HasSection, Replace, Insert, Plain, Unformatted, Placed, Room, Written;
    var f := Render(parts);
    var r := Find(f, section, key);
    Searched(parts, section, key, value, Pair(key, value));
    if Lookup(parts, section, key).Some? {
      WriteHit(format, f, section, key, value, r, Lookup(parts, section, key),
               Render(Replace(parts, section, key, value)));
    } else if HasSection(parts, section) {
      WriteInto(format, f, section, key, value, r, Render(Insert(parts, section, Pair(key, value))));
    } else {
      NewPart(parts, section, key, value);
      WriteNew(format, f, section, key, value);
    }
  }

  /** The search through a whole file. */
  lemma Searched(parts: seq<Part>, section: string, key: string, v': string, l: Line)
    requires Good(parts)
    ensures var f := Render(parts);
            var r := Find(f, section, key);
            if Lookup(parts, section, key).Some? then
              Placed(f, r, Lookup(parts, section, key), v', Render(Replace(parts, section, key, v')))
            else if HasSection(parts, section) then Room(f, r, l, Render(Insert(parts, section, l)))
            else r == Missing(NoSec, false)
  {
    hide Scan, Render, Lookup, HasSection, Replace, Insert, Placed, Room;
    forall t: string ensures "" + t == t {
    }
    Walk(Render(parts), "", parts, section, key, NoSec, v', l);
  }

  lemma WriteHit(format: string -> string, f: string, section: string, key: string, value: string, r: Outcome,
      v: Option<string>, g: string)
    requires r == Find(f, section, key) && Placed(f, r, v, value, g)
    ensures Written(format, f, section, key, value) == g
  {
    hide Find;
  }

  lemma WriteInto(format: string -> string, f: string, section: string, key: string, value: string, r: Outcome,
      g: string)
    requires r == Find(f, section, key) && Room(f, r, Pair(key, value), g) && Plain(format) && Unformatted(f)
    ensures Written(format, f, section, key, value) == g
  {
    hide Find, Plain, Unformatted, LineText, Entry;
    EntryIsLine(key, value);
    FormatSame(format, f, r.sec.end);
  }

  lemma WriteNew(format: string -> string, f: string, section: string, key: string, value: string)
    requires Find(f, section, key) == Missing(NoSec, false)
    ensures Written(format, f, section, key, value)
         == (if f == "" then "" else f + "\n") + NewSection(section, key, value)
  {
    hide Find, NewSection;
    assert "" + NewSection(section, key, value) == NewSection(section, key, value);
  }

  lemma FormatSame(format: string -> string, f: string, e: nat)
    requires Plain(format) && Unformatted(f) && e <= |f|
    ensures format(f[e..]) == f[e..] && Unformatted(f[e..])
  {
  }

  lemma EntryIsLine(key: string, value: string)
    ensures Entry(key, value) == LineText(Pair(key, value))
  {
  }

  lemma {:induction false} RenderAppend(a: seq<Part>, b: seq<Part>)
    ensures Render(a + b) == Render(a) + Render(b)
  {
    hide PartText;
    if a == [] {
      assert a + b == b;
    } else {
      assert (a + b)[1..] == a[1..] + b;
      RenderAppend(a[1..], b);
    }
  }

  lemma RenderOne(p: Part)
    ensures Render([p]) == PartText(p)
  {
    hide PartText, Render;
    RenderHead([p]);
    NoParts();
    assert [p][1..] == [] && PartText(p) + "" == PartText(p);
  }

  /** A new section at the end, behind a blank line unless it is the first. */
  lemma NewPart(parts: seq<Part>, section: string, key: string, value: string)
    ensures Render((if parts == [] then [] else WithBlank(parts)) + [Part(section, [Pair(key, value)])])
         == (if parts == [] then "" else Render(parts) + "\n") + NewSection(section, key, value)
  {
    hide Render, PartText, WithBlank;
    var p := Part(section, [Pair(key, value)]);
    RenderOne(p);
    NewSectionIs(section, key, value);
    if parts == [] {
      assert [] + [p] == [p];
      assert "" + PartText(p) == PartText(p);
    } else {
      RenderAppend(WithBlank(parts), [p]);
      BlankAtEnd(parts);
    }
  }

  lemma NewSectionIs(section: string, key: string, value: string)
    ensures NewSection(section, key, value) == PartText(Part(section, [Pair(key, value)]))
  {
    hide LineText;
    EntryIsLine(key, value);
    NoLines();
    LinesHead([Pair(key, value)]);
    assert LinesText([Pair(key, value)]) == LineText(Pair(key, value));
  }

  lemma BlankAtEnd(parts: seq<Part>)
    requires parts != []
    ensures Render(WithBlank(parts)) == Render(parts) + "\n"
  {
    hide Render, LinesText, HeadText;
    var n := |parts| - 1;
    var p := parts[n];
    var q := Part(p.name, p.lines + [Blank]);
    RenderAppend(parts[..n], [q]);
    RenderAppend(parts[..n], [p]);
    assert parts == parts[..n] + [p];
    RenderOne(p);
    RenderOne(q);
    LinesAppend(p.lines, [Blank]);
    BlankLine();
  }

  lemma BlankLine()
    ensures LinesText([Blank]) == "\n"
  {
    LinesHead([Blank]);
    NoLines();
  }

  // ---------------------------------------------------------------- runs of writes

  predicate Writable(section: string, key: string, value: string) {
    && SaneSection(section) && SaneKey(key) && SaneValue(value)
    && Unformatted(section) && Unformatted(key) && Unformatted(value)
  }

  datatype Write = Write(section: string, key: string, value: string)

  /** The file after some writes to an empty one. */
  function Files(format: string -> string, ws: seq<Write>): (f: string) {
    if ws == [] then ""
    else
      var w := ws[|ws| - 1];
      Written(format, Files(format, ws[..|ws| - 1]), w.section, w.key, w.value)
  }

  function Configs(ws: seq<Write>): (parts: seq<Part>) {
    if ws == [] then []
    else
      var w := ws[|ws| - 1];
      Update(Configs(ws[..|ws| - 1]), w.section, w.key, w.value)
  }

  lemma {:induction false} ReplaceLineGood(ls: seq<Line>, key: string, value: string)
    requires (forall l <- ls :: GoodLine(l)) && SaneValue(value) && LookupLine(ls, key).Some?
    ensures forall l <- ReplaceLine(ls, key, value) :: GoodLine(l)
  {
    hide SaneKey, SaneValue;
    if !Matches(ls[0], key) {
      ReplaceLineGood(ls[1..], key, value);
    } else {
      assert GoodLine(ls[0]);
    }
  }

  lemma {:induction false} ReplaceGood(parts: seq<Part>, section: string, key: string, value: string)
    requires Good(parts) && SaneValue(value) && Lookup(parts, section, key).Some?
    ensures Good(Replace(parts, section, key, value))
  {
    hide GoodLine, SaneValue, ReplaceLine, LookupLine;
    var p := parts[0];
    assert GoodPart(p);
    if p.name <= section && LookupLine(p.lines, key).Some? {
      ReplaceLineGood(p.lines, key, value);
    } else {
      ReplaceGood(parts[1..], section, key, value);
    }
  }

  lemma {:induction false} InsertGood(parts: seq<Part>, section: string, l: Line)
    requires Good(parts) && GoodLine(l) && HasSection(parts, section)
    ensures Good(Insert(parts, section, l))
  {
    hide GoodLine;
    assert GoodPart(parts[0]);
    if HasSection(parts[1..], section) {
      InsertGood(parts[1..], section, l);
    }
  }

  /** Writing what can be written keeps a configuration good. */
  lemma UpdateGood(parts: seq<Part>, section: string, key: string, value: string)
    requires Good(parts) && SaneSection(section) && SaneKey(key) && SaneValue(value)
    ensures Good(Update(parts, section, key, value))
  {
    hide Lookup, Replace, Insert, HasSection, SaneKey, SaneValue;
    if Lookup(parts, section, key).Some? {
      ReplaceGood(parts, section, key, value);
    } else if HasSection(parts, section) {
      InsertGood(parts, section, Pair(key, value));
    } else if parts != [] {
      assert GoodPart(parts[|parts| - 1]);
      assert GoodPart(Part(section, [Pair(key, value)]));
    }
  }

  /** Writing texts without a percent sign brings none into the file. */
  lemma WrittenUnformatted(format: string -> string, f: string, section: string, key: string, value: string)
    requires Plain(format) && Unformatted(f) && Unformatted(section) && Unformatted(key) && Unformatted(value)
    ensures Unformatted(Written(format, f, section, key, value))
  {
    hide Find, Plain;
    UnformattedEntry(section, key, value);
    hide NewSection, Entry;
    var r := Find(f, section, key);
    if r.Missing? && r.sec.Sec? && r.sec.end <= |f| {
      FormatSame(format, f, r.sec.end);
    }
  }

  lemma UnformattedEntry(section: string, key: string, value: string)
    requires Unformatted(section) && Unformatted(key) && Unformatted(value)
    ensures Unformatted(Entry(key, value)) && Unformatted(NewSection(section, key, value))
  {
  }

  /** After any writes the file holds the configuration, and reading it looks the value up there. */
  lemma {:induction false} RunIsConfig(format: string -> string, ws: seq<Write>, section: string, key: string)
    requires Plain(format) && forall w <- ws :: Writable(w.section, w.key, w.value)
    ensures var parts := Configs(ws);
            && Good(parts) && Unformatted(Files(format, ws)) && Files(format, ws) == Render(parts)
            && Read(Files(format, ws), section, key) == Lookup(parts, section, key)
    decreases |ws|
  {
    hide Read, Written, Update, Good, Unformatted, Plain, SaneKey, SaneValue, SaneSection;
    if ws == [] {
      EmptyFile();
    } else {
      var w, before := ws[|ws| - 1], ws[..|ws| - 1];
      assert Writable(w.section, w.key, w.value);
      RunIsConfig(format, before, section, key);
      WriteIsUpdate(format, Configs(before), w.section, w.key, w.value);
      UpdateGood(Configs(before), w.section, w.key, w.value);
      WrittenUnformatted(format, Files(format, before), w.section, w.key, w.value);
    }
    ReadIsLookup(Configs(ws), section, key);
  }

  lemma EmptyFile()
    ensures Good([]) && Unformatted("") && Render([]) == ""
  {
  }
}
