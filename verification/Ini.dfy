/**
  The profile file editor of public/rwIni/ini_parser.cpp, which public/astconfig.cpp repeats as
  class methods. A file is the sequence of its characters; reading past its end gives the NUL that
  the source's zeroed buffer holds there.
 */
module Ini {
  import opened Common

  // ---------------------------------------------------------------- characters

  predicate Newline(c: char) {
    c == '\n' || c == '\r'
  }

  function At(f: string, i: nat): (c: char) {
    if i < |f| then f[i] else '\0'
  }

  // ---------------------------------------------------------------- scanning

  /** The first ']' from `i` on, or the end. */
  function HeaderEnd(f: string, i: nat): (e: nat)
    requires i <= |f|
    ensures i <= e <= |f| && (e < |f| ==> f[e] == ']') && forall j :: i <= j < e ==> f[j] != ']'
    decreases |f| - i
  {
    if i == |f| || f[i] == ']' then i else HeaderEnd(f, i + 1)
  }

  function SkipSpaces(f: string, i: nat): (e: nat)
    requires i <= |f|
    ensures i <= e <= |f| && (e < |f| ==> !IsCSpace(f[e])) && forall j :: i <= j < e ==> IsCSpace(f[j])
    decreases |f| - i
  {
    if i == |f| || !IsCSpace(f[i]) then i else SkipSpaces(f, i + 1)
  }

  function LineEnd(f: string, i: nat): (e: nat)
    requires i <= |f|
    ensures i <= e <= |f| && (e < |f| ==> Newline(f[e])) && forall j :: i <= j < e ==> !Newline(f[j])
    decreases |f| - i
  {
    if i == |f| || Newline(f[i]) then i else LineEnd(f, i + 1)
  }

  function FirstEqual(f: string, i: nat, e: nat): (j: nat)
    requires i <= e <= |f|
    ensures i <= j <= e && (j < e ==> f[j] == '=') && forall m :: i <= m < j ==> f[m] != '='
    decreases e - i
  {
    if i == e || f[i] == '=' then i else FirstEqual(f, i + 1, e)
  }

  predicate HeaderAt(f: string, i: nat)
    requires i < |f|
  {
    (i == 0 || Newline(f[i - 1])) && f[i] == '['
  }

  /** A line that is not a comment, whose text before the first '=' is not empty and begins `key`. */
  predicate KeyLine(f: string, key: string, i: nat, e: nat)
    requires i <= e <= |f|
  {
    i < e && f[i] != ';' && var j := FirstEqual(f, i, e); i < j < e && f[i..j] <= key
  }

  /** `strncmp` over the length of the header's text: that text begins the section's name. */
  predicate Names(f: string, section: string, i: nat, e: nat)
    requires i <= e <= |f|
  {
    f[i..e] <= section
  }

  datatype Section = NoSec | Sec(start: nat, end: nat)

  /** The value's place; or the last matching section, and whether a header was left open. */
  datatype Outcome = Hit(vs: nat, ve: nat) | Missing(sec: Section, open: bool)

  /** The outer loop of `parse_file`, from position `i`. A header matches if its text begins `section`. */
  function Scan(f: string, section: string, key: string, i: nat, sec: Section): (r: Outcome)
    decreases if i <= |f| then |f| - i + 1 else 0, 0
  {
    if i >= |f| then Missing(sec, false)
    else if HeaderAt(f, i) then
      var e := HeaderEnd(f, i + 1);
      if e == |f| then Missing(if Names(f, section, i + 1, e) then Sec(i + 1, |f| + 1) else sec, true)
      else if Names(f, section, i + 1, e) then
        var b := SkipSpaces(f, e + 1);
        Lines(f, section, key, b, Sec(i + 1, b))
      else Scan(f, section, key, e, sec)
    else Scan(f, section, key, i + 1, sec)
  }

  /** The lines of a matching section, from the beginning of a line at `i`. */
  function Lines(f: string, section: string, key: string, i: nat, sec: Section): (r: Outcome)
    requires i > 0
    decreases if i <= |f| then |f| - i + 1 else 0, 1
  {
    if i >= |f| then Missing(sec, false)
    else if Newline(f[i - 1]) && f[i] == '[' then Scan(f, section, key, i, sec)
    else
      var e := LineEnd(f, i);
      if KeyLine(f, key, i, e) then Hit(FirstEqual(f, i, e) + 1, e)
      else Lines(f, section, key, e + 1, sec)
  }

  function Find(f: string, section: string, key: string): (r: Outcome) {
    Scan(f, section, key, 0, NoSec)
  }

  // ---------------------------------------------------------------- reading and writing

  function Read(f: string, section: string, key: string): (r: Option<string>) {
    match Find(f, section, key)
    case Hit(vs, ve) => if vs <= ve <= |f| then Some(f[vs..ve]) else None
    case Missing(_, _) => None
  }

  function Entry(key: string, value: string): (line: string)
    ensures |line| == |key| + |value| + 2
  {
    key + "=" + value + "\n"
  }

  function NewSection(section: string, key: string, value: string): (t: string) {
    "[" + section + "]\n" + Entry(key, value)
  }

  /**
    The file after a write. `format` is what `sprintf` makes of the rest of the file, which the
    source passes as a format string; a section found at an open header ends past the file, and
    then the copied NUL ends the output where the file ended.
   */
  function Written(format: string -> string, f: string, section: string, key: string, value: string): (g: string) {
    match Find(f, section, key)
    case Hit(vs, ve) => if vs <= ve <= |f| then f[..vs] + value + f[ve..] else f
    case Missing(NoSec, _) => if f == "" then NewSection(section, key, value)
        else f + "\n" + NewSection(section, key, value)
    case Missing(Sec(_, e), _) => if e > |f| then f else f[..e] + Entry(key, value) + format(f[e..])
  }

  /** Names and values that can be written: the separators do not occur in them. */
  predicate SaneSection(section: string) {
    section != "" && forall i :: 0 <= i < |section| ==> section[i] != ']'
  }

  predicate SaneKey(key: string) {
    && key != "" && key[0] != ';' && key[0] != '[' && !IsCSpace(key[0])
    && forall i :: 0 <= i < |key| ==> key[i] != '=' && !Newline(key[i])
  }

  predicate SaneValue(value: string) {
    forall i :: 0 <= i < |value| ==> !Newline(value[i])
  }

  // ---------------------------------------------------------------- one step

  lemma ScanStep(f: string, section: string, key: string, i: nat, sec: Section)
    requires i < |f|
    ensures !HeaderAt(f, i) ==> Scan(f, section, key, i, sec) == Scan(f, section, key, i + 1, sec)
    ensures HeaderAt(f, i) ==>
              var e := HeaderEnd(f, i + 1);
              Scan(f, section, key, i, sec) ==
              (if e == |f| then Missing(if Names(f, section, i + 1, e) then Sec(i + 1, |f| + 1) else sec, true)
               else if Names(f, section, i + 1, e) then
                 Lines(f, section, key, SkipSpaces(f, e + 1), Sec(i + 1, SkipSpaces(f, e + 1)))
               else Scan(f, section, key, e, sec))
  {
    hide HeaderAt, Names, Lines;
  }

  lemma ScanSkip(f: string, section: string, key: string, i: nat, sec: Section)
    requires i < |f| && !HeaderAt(f, i)
    ensures Scan(f, section, key, i, sec) == Scan(f, section, key, i + 1, sec)
  {
    hide HeaderAt, Names, Lines;
  }

  lemma ScanPass(f: string, section: string, key: string, i: nat, e: nat, sec: Section)
    requires i < e < |f| && HeaderAt(f, i) && e == HeaderEnd(f, i + 1) && !Names(f, section, i + 1, e)
    ensures Scan(f, section, key, i, sec) == Scan(f, section, key, e, sec)
  {
    hide HeaderAt, Names, Lines;
  }

  lemma ScanEnter(f: string, section: string, key: string, i: nat, e: nat, sec: Section)
    requires i < e < |f| && HeaderAt(f, i) && e == HeaderEnd(f, i + 1) && Names(f, section, i + 1, e)
    ensures Scan(f, section, key, i, sec)
            == Lines(f, section, key, SkipSpaces(f, e + 1), Sec(i + 1, SkipSpaces(f, e + 1)))
  {
    hide HeaderAt, Names, Lines;
  }

  lemma LinesStep(f: string, section: string, key: string, i: nat, sec: Section)
    requires 0 < i < |f|
    ensures HeaderAt(f, i) ==> Lines(f, section, key, i, sec) == Scan(f, section, key, i, sec)
    ensures !HeaderAt(f, i) ==>
              var e := LineEnd(f, i);
              Lines(f, section, key, i, sec) ==
              (if KeyLine(f, key, i, e) then Hit(FirstEqual(f, i, e) + 1, e) else Lines(f, section, key, e + 1, sec))
  {
    hide KeyLine, Scan, Newline;
  }

  lemma AtEnd(f: string, section: string, key: string, i: nat, sec: Section)
    requires i >= |f|
    ensures Scan(f, section, key, i, sec) == Missing(sec, false)
    ensures i > 0 ==> Lines(f, section, key, i, sec) == Missing(sec, false)
  {
  }

  // ---------------------------------------------------------------- where results lie

  /** What is found lies after the position, and so does a section that was not known before. */
  ghost predicate Ahead(f: string, i: nat, sec: Section, r: Outcome) {
    match r
    case Hit(vs, ve) => i + 1 < vs <= ve <= |f| && (ve < |f| ==> Newline(f[ve]))
    case Missing(s, open) =>
      s == sec || (s.Sec? && i < s.start <= s.end && (s.end <= |f| || (open && s.end == |f| + 1)))
  }

  lemma {:induction false} ScanAhead(f: string, section: string, key: string, i: nat, sec: Section)
    ensures Ahead(f, i, sec, Scan(f, section, key, i, sec))
    decreases if i <= |f| then |f| - i + 1 else 0, 0
  {
    hide HeaderAt, Names, KeyLine, Lines, Scan;
    if i >= |f| {
      AtEnd(f, section, key, i, sec);
    } else {
      ScanStep(f, section, key, i, sec);
      if HeaderAt(f, i) {
        var e := HeaderEnd(f, i + 1);
        if e < |f| {
          if Names(f, section, i + 1, e) {
            var b := SkipSpaces(f, e + 1);
            LinesAhead(f, section, key, b, Sec(i + 1, b));
          } else {
            ScanAhead(f, section, key, e, sec);
          }
        }
      } else {
        ScanAhead(f, section, key, i + 1, sec);
      }
    }
  }

  lemma {:induction false} LinesAhead(f: string, section: string, key: string, i: nat, sec: Section)
    requires i > 0
    ensures Ahead(f, i, sec, Lines(f, section, key, i, sec))
    decreases if i <= |f| then |f| - i + 1 else 0, 1
  {
    hide HeaderAt, Names, Lines, Scan;
    if i >= |f| {
      AtEnd(f, section, key, i, sec);
    } else {
      LinesStep(f, section, key, i, sec);
      if HeaderAt(f, i) {
        ScanAhead(f, section, key, i, sec);
      } else {
        var e := LineEnd(f, i);
        if !KeyLine(f, key, i, e) {
          LinesAhead(f, section, key, e + 1, sec);
        }
      }
    }
  }

  // ---------------------------------------------------------------- the same beginning

  ghost predicate SameUpTo(f: string, g: string, n: nat) {
    n <= |f| && n <= |g| && forall i :: 0 <= i < n ==> f[i] == g[i]
  }

  lemma SameHeader(f: string, g: string, n: nat, section: string, i: nat)
    requires SameUpTo(f, g, n) && i <= |f| && HeaderEnd(f, i) < n
    ensures i <= |g| && HeaderEnd(g, i) == HeaderEnd(f, i)
    ensures Names(f, section, i, HeaderEnd(f, i)) <==> Names(g, section, i, HeaderEnd(f, i))
  {
    assert f[i..HeaderEnd(f, i)] == g[i..HeaderEnd(f, i)];
  }

  lemma SameSpaces(f: string, g: string, n: nat, i: nat)
    requires SameUpTo(f, g, n) && i <= |f| && SkipSpaces(f, i) <= n
    requires SkipSpaces(f, i) == n && n < |g| ==> !IsCSpace(g[n])
    requires SkipSpaces(f, i) == n || SkipSpaces(f, i) < |f|
    ensures i <= |g| && SkipSpaces(g, i) == SkipSpaces(f, i)
  {
  }

  lemma SameLine(f: string, g: string, n: nat, key: string, i: nat)
    requires SameUpTo(f, g, n) && i <= |f| && LineEnd(f, i) < n
    ensures i <= |g| && LineEnd(g, i) == LineEnd(f, i)
    ensures KeyLine(g, key, i, LineEnd(f, i)) <==> KeyLine(f, key, i, LineEnd(f, i))
  {
    hide FirstEqual, Newline, SameUpTo;
    var e := LineEnd(f, i);
    SameLineEnd(f, g, n, i);
    SameEqual(f, g, n, i, e);
    SamePart(f, g, n, i, FirstEqual(f, i, e));
    SameAt(f, g, n, i);
  }

  lemma SameLineEnd(f: string, g: string, n: nat, i: nat)
    requires SameUpTo(f, g, n) && i <= |f| && LineEnd(f, i) < n
    ensures i <= |g| && n <= |g| && LineEnd(g, i) == LineEnd(f, i)
  {
    hide Newline;
  }

  lemma SamePart(f: string, g: string, n: nat, i: nat, j: nat)
    requires SameUpTo(f, g, n) && i <= j <= n
    ensures j <= |f| && j <= |g| && f[i..j] == g[i..j]
  {
  }

  lemma SameAt(f: string, g: string, n: nat, i: nat)
    requires SameUpTo(f, g, n)
    ensures i < n ==> i < |f| && i < |g| && f[i] == g[i]
  {
  }

  lemma SameEqual(f: string, g: string, n: nat, i: nat, e: nat)
    requires SameUpTo(f, g, n) && i <= e <= n
    ensures FirstEqual(g, i, e) == FirstEqual(f, i, e)
  {
  }

  /** The line of the key, with another end. */
  lemma SameKey(f: string, g: string, key: string, i: nat)
    requires i <= |f| && KeyLine(f, key, i, LineEnd(f, i))
    requires SameUpTo(f, g, FirstEqual(f, i, LineEnd(f, i)) + 1)
    ensures var vs := FirstEqual(f, i, LineEnd(f, i)) + 1;
            && i <= |g| && LineEnd(g, i) == LineEnd(g, vs)
            && KeyLine(g, key, i, LineEnd(g, i)) && FirstEqual(g, i, LineEnd(g, i)) == vs - 1
  {
    var j := FirstEqual(f, i, LineEnd(f, i));
    assert g[j] == '=';
    var e := LineEnd(g, j + 1);
    assert LineEnd(g, i) == e;
    assert FirstEqual(g, i, e) == j;
    assert f[i..j] == g[i..j];
  }

  // ---------------------------------------------------------------- updating a value

  /** A found key stays found when only what follows its '=' changes. */
  lemma {:induction false} ScanHitKept(f: string, g: string, section: string, key: string, i: nat, sec: Section)
    requires Scan(f, section, key, i, sec).Hit? && SameUpTo(f, g, Scan(f, section, key, i, sec).vs)
    ensures var vs := Scan(f, section, key, i, sec).vs;
            Scan(g, section, key, i, sec) == Hit(vs, LineEnd(g, vs))
    decreases if i <= |f| then |f| - i + 1 else 0, 0, 1
  {
    hide KeyLine, SameUpTo, HeaderAt, Names, Lines, Scan, IsCSpace, Newline, HeaderEnd, SkipSpaces, LineEnd, FirstEqual;
    var vs := Scan(f, section, key, i, sec).vs;
    ScanAhead(f, section, key, i, sec);
    SameLength(f, g, vs);
    SamePair(f, g, vs, i);
    if HeaderAt(f, i) {
      var e := HeaderEnd(f, i + 1);
      ScanStep(f, section, key, i, sec);
      if Names(f, section, i + 1, e) {
        LinesAhead(f, section, key, SkipSpaces(f, e + 1), Sec(i + 1, SkipSpaces(f, e + 1)));
        SameHeader(f, g, vs, section, i + 1);
        ScanEnter(g, section, key, i, e, sec);
        EnterHit(f, g, section, key, i, vs);
      } else {
        ScanAhead(f, section, key, e, sec);
        SameHeader(f, g, vs, section, i + 1);
        ScanPass(g, section, key, i, e, sec);
        ScanHitKept(f, g, section, key, e, sec);
      }
    } else {
      ScanSkip(f, section, key, i, sec);
      ScanSkip(g, section, key, i, sec);
      ScanHitKept(f, g, section, key, i + 1, sec);
    }
  }

  /** Inside a matching header the key is found among the lines. */
  lemma {:induction false} EnterHit(f: string, g: string, section: string, key: string, i: nat, vs: nat)
    requires i < |f| && HeaderEnd(f, i + 1) < |f|
    requires var b := SkipSpaces(f, HeaderEnd(f, i + 1) + 1);
             var r := Lines(f, section, key, b, Sec(i + 1, b));
             r.Hit? && r.vs == vs && SameUpTo(f, g, vs)
    ensures var h := HeaderEnd(f, i + 1);
            && h + 1 <= |g| && vs <= |g|
            && Lines(g, section, key, SkipSpaces(g, h + 1), Sec(i + 1, SkipSpaces(g, h + 1))) == Hit(vs, LineEnd(g, vs))
    decreases if i <= |f| then |f| - i + 1 else 0, 0, 0
  {
    hide KeyLine, SameUpTo, HeaderAt, Names, Lines, Scan, IsCSpace, Newline, HeaderEnd, SkipSpaces, LineEnd, FirstEqual;
    var h := HeaderEnd(f, i + 1);
    var b := SkipSpaces(f, h + 1);
    SameLength(f, g, vs);
    LinesAhead(f, section, key, b, Sec(i + 1, b));
    SameSpaces(f, g, vs, h + 1);
    LinesHitKept(f, g, section, key, b, Sec(i + 1, b));
  }

  lemma {:induction false} LinesHitKept(f: string, g: string, section: string, key: string, i: nat, sec: Section)
    requires i > 0 && Lines(f, section, key, i, sec).Hit? && SameUpTo(f, g, Lines(f, section, key, i, sec).vs)
    ensures var vs := Lines(f, section, key, i, sec).vs;
            Lines(g, section, key, i, sec) == Hit(vs, LineEnd(g, vs))
    decreases if i <= |f| then |f| - i + 1 else 0, 1, 0
  {
    hide KeyLine, SameUpTo, HeaderAt, Names, Lines, Scan, IsCSpace, Newline, HeaderEnd, SkipSpaces, LineEnd, FirstEqual;
    var vs := Lines(f, section, key, i, sec).vs;
    LinesAhead(f, section, key, i, sec);
    SamePair(f, g, vs, i);
    LinesStep(f, section, key, i, sec);
    LinesStep(g, section, key, i, sec);
    if HeaderAt(f, i) {
      ScanHitKept(f, g, section, key, i, sec);
    } else {
      var e := LineEnd(f, i);
      if KeyLine(f, key, i, e) {
        SameKey(f, g, key, i);
      } else {
        LinesAhead(f, section, key, e + 1, sec);
        SameLine(f, g, vs, key, i);
        LinesHitKept(f, g, section, key, e + 1, sec);
      }
    }
  }

  lemma SamePair(f: string, g: string, n: nat, i: nat)
    requires SameUpTo(f, g, n) && i + 1 < n
    ensures i + 1 < |f| && i + 1 < |g| && f[i] == g[i] && (i > 0 ==> f[i - 1] == g[i - 1])
    ensures HeaderAt(g, i) <==> HeaderAt(f, i)
  {
  }

  // ---------------------------------------------------------------- adding a key

  /**
    When the last matching section is Sec(st, e), a file with the same beginning is scanned up to
    `e` in the same way.
   */
  lemma {:induction false} ScanSectionKept(f: string, g: string, section: string, key: string, i: nat, sec: Section,
      st: nat, e: nat)
    requires Scan(f, section, key, i, sec).Missing? && Scan(f, section, key, i, sec).sec == Sec(st, e)
    requires i < st <= e && (sec.Sec? ==> sec.start <= i)
    requires SameUpTo(f, g, e) && (e < |g| ==> !IsCSpace(g[e]))
    ensures e > 0 && Scan(g, section, key, i, sec) == Lines(g, section, key, e, Sec(st, e))
    decreases if i <= |f| then |f| - i + 1 else 0, 0, 1
  {
    hide KeyLine, SameUpTo, HeaderAt, Names, Lines, Scan, IsCSpace, Newline, HeaderEnd, SkipSpaces, LineEnd, FirstEqual;
    SameLength(f, g, e);
    SameStart(f, g, e, i);
    if HeaderAt(f, i) {
      var h := HeaderEnd(f, i + 1);
      ScanStep(f, section, key, i, sec);
      if Names(f, section, i + 1, h) {
        LinesAhead(f, section, key, SkipSpaces(f, h + 1), Sec(i + 1, SkipSpaces(f, h + 1)));
        SameHeader(f, g, e, section, i + 1);
        ScanEnter(g, section, key, i, h, sec);
        EnterSection(f, g, section, key, i, st, e);
      } else {
        ScanAhead(f, section, key, h, sec);
        SameHeader(f, g, e, section, i + 1);
        ScanPass(g, section, key, i, h, sec);
        ScanSectionKept(f, g, section, key, h, sec, st, e);
      }
    } else {
      ScanSkip(f, section, key, i, sec);
      ScanSkip(g, section, key, i, sec);
      ScanAhead(f, section, key, i + 1, sec);
      ScanSectionKept(f, g, section, key, i + 1, sec, st, e);
    }
  }

  /** Inside a matching header: either it is the last matching one, or that one comes later. */
  lemma {:induction false} EnterSection(f: string, g: string, section: string, key: string, i: nat, st: nat, e: nat)
    requires i < |f| && HeaderEnd(f, i + 1) < |f| && i < st <= e
    requires var b := SkipSpaces(f, HeaderEnd(f, i + 1) + 1);
             var r := Lines(f, section, key, b, Sec(i + 1, b));
             r.Missing? && r.sec == Sec(st, e)
    requires SameUpTo(f, g, e) && (e < |g| ==> !IsCSpace(g[e]))
    ensures var h := HeaderEnd(f, i + 1);
            && e > 0 && h + 1 <= |g|
            && Lines(g, section, key, SkipSpaces(g, h + 1), Sec(i + 1, SkipSpaces(g, h + 1)))
                == Lines(g, section, key, e, Sec(st, e))
    decreases if i <= |f| then |f| - i + 1 else 0, 0, 0
  {
    hide KeyLine, SameUpTo, HeaderAt, Names, Lines, Scan, IsCSpace, Newline, HeaderEnd, SkipSpaces, LineEnd, FirstEqual;
    SameLength(f, g, e);
    var h := HeaderEnd(f, i + 1);
    var b := SkipSpaces(f, h + 1);
    LinesAhead(f, section, key, b, Sec(i + 1, b));
    SameSpaces(f, g, e, h + 1);
    if st != i + 1 {
      LinesSectionKept(f, g, section, key, b, Sec(i + 1, b), st, e);
    }
  }

  lemma {:induction false} LinesSectionKept(f: string, g: string, section: string, key: string, i: nat, sec: Section,
      st: nat, e: nat)
    requires i > 0 && Lines(f, section, key, i, sec).Missing? && Lines(f, section, key, i, sec).sec == Sec(st, e)
    requires i < st <= e && (sec.Sec? ==> sec.start <= i)
    requires SameUpTo(f, g, e) && (e < |g| ==> !IsCSpace(g[e]))
    ensures e > 0 && Lines(g, section, key, i, sec) == Lines(g, section, key, e, Sec(st, e))
    decreases if i <= |f| then |f| - i + 1 else 0, 1, 0
  {
    hide KeyLine, SameUpTo, HeaderAt, Names, Lines, Scan, IsCSpace, Newline, HeaderEnd, SkipSpaces, LineEnd, FirstEqual;
    SameLength(f, g, e);
    LinesStep(f, section, key, i, sec);
    LinesStep(g, section, key, i, sec);
    SameStart(f, g, e, i);
    if HeaderAt(f, i) {
      ScanSectionKept(f, g, section, key, i, sec, st, e);
    } else {
      var l := LineEnd(f, i);
      LinesAhead(f, section, key, l + 1, sec);
      SameLine(f, g, e, key, i);
      LinesSectionKept(f, g, section, key, l + 1, sec, st, e);
    }
  }

  lemma SameLength(f: string, g: string, n: nat)
    requires SameUpTo(f, g, n)
    ensures n <= |f| && n <= |g|
  {
  }

  lemma SameStart(f: string, g: string, n: nat, i: nat)
    requires SameUpTo(f, g, n) && i < n
    ensures i < |f| && i < |g| && (HeaderAt(g, i) <==> HeaderAt(f, i))
  {
  }

  /** A written entry is found on its line. */
  lemma EntryFound(g: string, section: string, key: string, value: string, b: nat, sec: Section)
    requires SaneKey(key) && SaneValue(value) && 0 < b
    requires b + |key| + |value| + 2 <= |g| && g[b..b + |key| + |value| + 2] == Entry(key, value)
    ensures var vs := b + |key| + 1;
            Lines(g, section, key, b, sec) == Hit(vs, vs + |value|) && g[vs..vs + |value|] == value
  {
    hide Lines, Scan;
    EntryChars(g, key, value, b);
    var j := b + |key|;
    var e := j + 1 + |value|;
    assert LineEnd(g, b) == e;
    assert FirstEqual(g, b, e) == j;
    assert g[b..j] == key;
    LinesStep(g, section, key, b, sec);
  }

  lemma EntryChars(g: string, key: string, value: string, b: nat)
    requires b + |key| + |value| + 2 <= |g| && g[b..b + |key| + |value| + 2] == Entry(key, value)
    ensures var j := b + |key|;
            && g[b..j] == key && g[j] == '=' && g[j + 1..j + 1 + |value|] == value && g[j + 1 + |value|] == '\n'
            && (forall i :: b <= i < j ==> g[i] == key[i - b])
            && (forall i :: j + 1 <= i < j + 1 + |value| ==> g[i] == value[i - j - 1])
  {
    var w := g[b..b + |key| + |value| + 2];
    assert forall i :: 0 <= i < |w| ==> g[b + i] == w[i];
    assert w[..|key|] == key && w[|key| + 1..|key| + 1 + |value|] == value;
    assert g[b..b + |key|] == w[..|key|];
    assert g[b + |key| + 1..b + |key| + 1 + |value|] == w[|key| + 1..|key| + 1 + |value|];
    forall i | b <= i < b + |key| ensures g[i] == key[i - b] {
      assert g[i] == g[b..b + |key|][i - b];
    }
    forall i | b + |key| + 1 <= i < b + |key| + 1 + |value| ensures g[i] == value[i - b - |key| - 1] {
      assert g[i] == g[b + |key| + 1..b + |key| + 1 + |value|][i - b - |key| - 1];
    }
  }

  // ---------------------------------------------------------------- adding a section

  /** Without a matching section and with every header closed, a longer file is scanned up to the old end. */
  lemma {:induction false} ScanThrough(f: string, g: string, section: string, key: string, i: nat)
    requires i <= |f| && Scan(f, section, key, i, NoSec) == Missing(NoSec, false) && SameUpTo(f, g, |f|)
    ensures Scan(g, section, key, i, NoSec) == Scan(g, section, key, |f|, NoSec)
    decreases |f| - i
  {
    hide SameUpTo, HeaderAt, Names, Lines, Scan, HeaderEnd, SkipSpaces;
    SameLength(f, g, |f|);
    if i < |f| {
      ScanStep(f, section, key, i, NoSec);
      ScanStep(g, section, key, i, NoSec);
      SameStart(f, g, |f|, i);
      if HeaderAt(f, i) {
        var e := HeaderEnd(f, i + 1);
        SameHeader(f, g, |f|, section, i + 1);
        if Names(f, section, i + 1, e) {
          LinesAhead(f, section, key, SkipSpaces(f, e + 1), Sec(i + 1, SkipSpaces(f, e + 1)));
        }
        ScanThrough(f, g, section, key, e);
      } else {
        ScanThrough(f, g, section, key, i + 1);
      }
    }
  }

  /** A new section is found, and its entry in it. */
  lemma SectionFound(g: string, section: string, key: string, value: string, i: nat)
    requires SaneSection(section) && SaneKey(key) && SaneValue(value) && i + |section| + 3 + |key| + |value| + 2 == |g|
    requires (i == 0 || Newline(g[i - 1])) && g[i..] == NewSection(section, key, value)
    ensures var vs := i + |section| + 3 + |key| + 1;
            Scan(g, section, key, i, NoSec) == Hit(vs, vs + |value|) && g[vs..vs + |value|] == value
  {
    hide Lines, Scan, SaneKey, SaneValue, Entry, HeaderAt, NewSection, SaneSection, IsCSpace, Newline;
    NewSectionChars(g, section, key, value, i);
    SectionAt(g, section, key, value, i, i + 1 + |section|);
  }

  lemma SectionAt(g: string, section: string, key: string, value: string, i: nat, e: nat)
    requires SaneKey(key) && SaneValue(value) && e == i + 1 + |section| && e + 2 + |key| + |value| + 2 == |g|
    requires (i == 0 || Newline(g[i - 1])) && g[i] == '[' && g[i + 1..e] == section && g[e] == ']' && g[e + 1] == '\n'
    requires g[e + 2..] == Entry(key, value) && forall j :: i + 1 <= j < e ==> g[j] != ']'
    ensures var vs := e + 2 + |key| + 1;
            Scan(g, section, key, i, NoSec) == Hit(vs, vs + |value|) && g[vs..vs + |value|] == value
  {
    hide Lines, Scan, SaneKey, SaneValue, Entry, HeaderAt, HeaderEnd, SkipSpaces, Names, IsCSpace, Newline;
    var b := e + 2;
    ClosedHeader(g, section, i);
    KeyStarts(g, key, value, b);
    OneNewline(g, e + 1);
    ScanInto(g, section, key, i, e, b);
    EntryFound(g, section, key, value, b, Sec(i + 1, b));
  }

  lemma ScanInto(g: string, section: string, key: string, i: nat, e: nat, b: nat)
    requires i < e < |g| && HeaderAt(g, i) && HeaderEnd(g, i + 1) == e && Names(g, section, i + 1, e)
             && SkipSpaces(g, e + 1) == b
    ensures Scan(g, section, key, i, NoSec) == Lines(g, section, key, b, Sec(i + 1, b))
  {
    hide Lines, Scan, HeaderAt, HeaderEnd, SkipSpaces, Names;
    ScanStep(g, section, key, i, NoSec);
  }

  lemma ClosedHeader(g: string, section: string, i: nat)
    requires i + 1 + |section| < |g| && (i == 0 || Newline(g[i - 1])) && g[i] == '['
    requires var e := i + 1 + |section|;
             g[i + 1..e] == section && g[e] == ']' && forall j :: i + 1 <= j < e ==> g[j] != ']'
    ensures HeaderAt(g, i) && HeaderEnd(g, i + 1) == i + 1 + |section| && Names(g, section, i + 1, i + 1 + |section|)
  {
  }

  lemma OneNewline(g: string, i: nat)
    requires i + 1 < |g| && g[i] == '\n' && !IsCSpace(g[i + 1])
    ensures SkipSpaces(g, i) == i + 1
  {
    assert SkipSpaces(g, i) == SkipSpaces(g, i + 1);
  }

  lemma KeyStarts(g: string, key: string, value: string, b: nat)
    requires SaneKey(key) && b + |key| + |value| + 2 == |g| && g[b..] == Entry(key, value)
    ensures g[b..b + |key| + |value| + 2] == Entry(key, value)
    ensures b < |g| && g[b] == key[0] && !IsCSpace(g[b]) && g[b] != '['
  {
    assert g[b..b + |key| + |value| + 2] == g[b..];
    EntryChars(g, key, value, b);
  }

  lemma NewSectionChars(g: string, section: string, key: string, value: string, i: nat)
    requires SaneSection(section) && i + |section| + 3 + |key| + |value| + 2 == |g|
    requires g[i..] == NewSection(section, key, value)
    ensures var e := i + 1 + |section|;
            && g[i] == '[' && g[i + 1..e] == section && g[e] == ']' && g[e + 1] == '\n'
                && g[e + 2..] == Entry(key, value)
            && forall j :: i + 1 <= j < e ==> g[j] != ']'
  {
    hide Entry;
    var w := g[i..];
    var n := |section|;
    var x := Entry(key, value);
    assert w == "[" + section + ("]\n" + x);
    SlicesOf("[", section, "]\n" + x);
    assert ("]\n" + x)[2..] == x;
    TailOfTail(g, i, n + 1);
    SliceOfSlice(g, i, |g|, 1, n + 1);
    assert g[i..|g|] == w;
    assert g[i] == w[0] && g[i + n + 1..][0] == ']' && g[i + n + 1..][1] == '\n';
    TailOfTail(g, i + n + 1, 2);
    forall j | i + 1 <= j < i + 1 + n ensures g[j] != ']' {
      assert g[j] == g[i + 1..i + 1 + n][j - i - 1];
    }
  }

  lemma TailOfTail(g: string, i: nat, k: nat)
    requires i + k <= |g|
    ensures g[i..][k..] == g[i + k..]
  {
  }

  /** Text without a header at the beginning of a line changes nothing. */
  lemma {:induction false} NoHeaders(f: string, section: string, key: string, i: nat, sec: Section)
    requires forall j :: i <= j < |f| ==> !HeaderAt(f, j)
    ensures Scan(f, section, key, i, sec) == Missing(sec, false)
    decreases if i <= |f| then |f| - i + 1 else 0
  {
    hide HeaderAt, Lines, Scan;
    if i < |f| {
      ScanStep(f, section, key, i, sec);
      NoHeaders(f, section, key, i + 1, sec);
    } else {
      AtEnd(f, section, key, i, sec);
    }
  }

  /** With a header left open, the new section's name becomes part of that header, and nothing is found. */
  lemma {:induction false} ScanSwallowed(f: string, section: string, key: string, value: string, i: nat)
    requires SaneSection(section) && SaneKey(key) && SaneValue(value)
    requires i <= |f| && Scan(f, section, key, i, NoSec) == Missing(NoSec, true)
    ensures var g := f + "\n" + NewSection(section, key, value);
            Scan(g, section, key, i, NoSec) == Missing(NoSec, false)
    decreases |f| - i
  {
    hide SameUpTo, HeaderAt, Names, Lines, Scan, HeaderEnd, SkipSpaces, NewSection, SaneKey, SaneValue, SaneSection;
    var g := f + "\n" + NewSection(section, key, value);
    Prefixed(f, "\n", NewSection(section, key, value));
    SameLength(f, g, |f|);
    if i == |f| {
      AtEnd(f, section, key, i, NoSec);
    } else {
      ScanStep(f, section, key, i, NoSec);
      ScanStep(g, section, key, i, NoSec);
      SameStart(f, g, |f|, i);
      if !HeaderAt(f, i) {
        ScanSwallowed(f, section, key, value, i + 1);
      } else {
        var e := HeaderEnd(f, i + 1);
        if e < |f| {
          SameHeader(f, g, |f|, section, i + 1);
          if Names(f, section, i + 1, e) {
            LinesAhead(f, section, key, SkipSpaces(f, e + 1), Sec(i + 1, SkipSpaces(f, e + 1)));
          }
          ScanSwallowed(f, section, key, value, e);
        } else {
          OpenHeader(f, g, section, key, value, i);
          NoHeaders(g, section, key, |f| + 2 + |section|, NoSec);
        }
      }
    }
  }

  lemma Prefixed(f: string, a: string, b: string)
    ensures SameUpTo(f, f + a + b, |f|)
  {
  }

  lemma OpenHeader(f: string, g: string, section: string, key: string, value: string, i: nat)
    requires SaneSection(section) && SaneKey(key) && SaneValue(value)
    requires i < |f| && HeaderEnd(f, i + 1) == |f| && g == f + "\n" + NewSection(section, key, value)
    ensures var e := |f| + 2 + |section|;
            && e < |g| && HeaderEnd(g, i + 1) == e && !Names(g, section, i + 1, e)
            && forall j :: e <= j < |g| ==> !HeaderAt(g, j)
  {
    hide Entry, SaneKey, SaneValue;
    var n := |f| + 1;
    var e := n + 1 + |section|;
    assert g[n..] == NewSection(section, key, value);
    NewSectionChars(g, section, key, value, n);
    assert forall j :: i + 1 <= j < |f| ==> g[j] == f[j];
    assert HeaderEnd(g, i + 1) == e;
    NoHeaderInEntry(g, key, value, e);
  }

  lemma NoHeaderInEntry(g: string, key: string, value: string, e: nat)
    requires SaneKey(key) && SaneValue(value) && e + 2 + |key| + |value| + 2 == |g|
    requires 0 < e && g[e] == ']' && g[e + 1] == '\n' && g[e + 2..] == Entry(key, value)
    ensures forall j :: e <= j < |g| ==> !HeaderAt(g, j)
  {
    var b := e + 2;
    KeyStarts(g, key, value, b);
    EntryChars(g, key, value, b);
    forall j | e <= j < |g| ensures !HeaderAt(g, j) {
      if b < j < |g| - 1 {
        assert !Newline(g[j - 1]);
      }
    }
  }

  // ---------------------------------------------------------------- reading what was written

  /** Some '[' at the beginning of a line has no ']' behind it. */
  ghost predicate LeavesOpen(f: string, i: nat) {
    exists j :: i <= j < |f| && HeaderAt(f, j) && NotClosed(f, j)
  }

  ghost predicate NotClosed(f: string, j: nat) {
    forall m :: j < m < |f| ==> f[m] != ']'
  }

  lemma {:induction false} ScanOpen(f: string, section: string, key: string, i: nat, sec: Section)
    ensures var r := Scan(f, section, key, i, sec);
            r.Missing? ==> (r.open <==> LeavesOpen(f, i))
    decreases if i <= |f| then |f| - i + 1 else 0, 0
  {
    hide Names, Lines, Scan, KeyLine, LeavesOpen, HeaderAt;
    if i >= |f| {
      AtEnd(f, section, key, i, sec);
      NoneOpen(f, i);
    } else {
      ScanStep(f, section, key, i, sec);
      if HeaderAt(f, i) {
        var e := HeaderEnd(f, i + 1);
        if e == |f| {
          OpenHere(f, i);
        } else if Names(f, section, i + 1, e) {
          var b := SkipSpaces(f, e + 1);
          OpenLater(f, i, e);
          NoHeaderInSpaces(f, e);
          OpenSkips(f, e, b);
          LinesOpen(f, section, key, b, Sec(i + 1, b));
        } else {
          OpenLater(f, i, e);
          ScanOpen(f, section, key, e, sec);
        }
      } else {
        OpenSkips(f, i, i + 1);
        ScanOpen(f, section, key, i + 1, sec);
      }
    }
  }

  lemma {:induction false} LinesOpen(f: string, section: string, key: string, i: nat, sec: Section)
    requires i > 0
    ensures var r := Lines(f, section, key, i, sec);
            r.Missing? ==> (r.open <==> LeavesOpen(f, i))
    decreases if i <= |f| then |f| - i + 1 else 0, 1
  {
    hide Names, Lines, Scan, KeyLine, LeavesOpen, HeaderAt;
    if i >= |f| {
      AtEnd(f, section, key, i, sec);
      NoneOpen(f, i);
    } else {
      LinesStep(f, section, key, i, sec);
      if HeaderAt(f, i) {
        ScanOpen(f, section, key, i, sec);
      } else {
        var e := LineEnd(f, i);
        NoHeaderInLine(f, i, e);
        OpenSkips(f, i, e + 1);
        LinesOpen(f, section, key, e + 1, sec);
      }
    }
  }

  lemma NoneOpen(f: string, i: nat)
    requires i >= |f|
    ensures !LeavesOpen(f, i)
  {
  }

  lemma OpenHere(f: string, i: nat)
    requires i < |f| && HeaderAt(f, i) && HeaderEnd(f, i + 1) == |f|
    ensures LeavesOpen(f, i)
  {
    assert NotClosed(f, i);
  }

  /** Up to its ']' a header leaves nothing open. */
  lemma OpenLater(f: string, i: nat, e: nat)
    requires i < e < |f| && f[e] == ']'
    ensures LeavesOpen(f, i) <==> LeavesOpen(f, e)
    ensures !HeaderAt(f, e)
  {
    forall j | i <= j < e ensures !NotClosed(f, j) {
    }
  }

  lemma OpenSkips(f: string, i: nat, e: nat)
    requires i <= e && forall j :: i <= j < e && j < |f| ==> !HeaderAt(f, j)
    ensures LeavesOpen(f, i) <==> LeavesOpen(f, e)
  {
  }

  lemma NoHeaderInSpaces(f: string, e: nat)
    requires e < |f| && f[e] == ']'
    ensures forall j :: e <= j < SkipSpaces(f, e + 1) && j < |f| ==> !HeaderAt(f, j)
  {
  }

  lemma NoHeaderInLine(f: string, i: nat, e: nat)
    requires 0 < i < |f| && !HeaderAt(f, i) && e == LineEnd(f, i)
    ensures forall j :: i <= j < e + 1 && j < |f| ==> !HeaderAt(f, j)
  {
  }

  /** A scan that finds nothing reports an open header exactly when the file leaves one open. */
  lemma OpenExactly(f: string, section: string, key: string)
    ensures var r := Find(f, section, key);
            r.Missing? ==> (r.open <==> LeavesOpen(f, 0))
  {
    hide Scan, LeavesOpen;
    ScanOpen(f, section, key, 0, NoSec);
  }

  /** The new entry would go into a header that the file leaves open. */
  ghost predicate Blocked(f: string, section: string, key: string) {
    var r := Find(f, section, key);
    r.Missing? && LeavesOpen(f, 0) && (r.sec.NoSec? || r.sec.end > |f|)
  }

  /** Where the value stands after a write. */
  function ValueAt(f: string, section: string, key: string): (vs: nat) {
    match Find(f, section, key)
    case Hit(vs, _) => vs
    case Missing(NoSec, _) => (if f == "" then 0 else |f| + 1) + |section| + 3 + |key| + 1
    case Missing(Sec(_, e), _) => e + |key| + 1
  }

  lemma FindWrittenHit(format: string -> string, f: string, section: string, key: string, value: string)
    requires SaneValue(value) && Find(f, section, key).Hit?
    ensures var g, vs := Written(format, f, section, key, value), ValueAt(f, section, key);
            vs + |value| <= |g| && Find(g, section, key) == Hit(vs, vs + |value|) && g[vs..vs + |value|] == value
  {
    hide Scan;
    var r := Find(f, section, key);
    ScanAhead(f, section, key, 0, NoSec);
    var g := f[..r.vs] + value + f[r.ve..];
    assert g[r.vs..r.vs + |value|] == value;
    assert g[r.vs + |value|..] == f[r.ve..];
    ScanHitKept(f, g, section, key, 0, NoSec);
    ValueLine(g, r.vs, value);
  }

  lemma ValueLine(g: string, vs: nat, value: string)
    requires SaneValue(value) && vs + |value| <= |g| && g[vs..vs + |value|] == value
    requires vs + |value| < |g| ==> Newline(g[vs + |value|])
    ensures LineEnd(g, vs) == vs + |value|
  {
    forall i | vs <= i < vs + |value| ensures !Newline(g[i]) {
      assert g[i] == g[vs..vs + |value|][i - vs];
    }
  }

  lemma FindWrittenKey(format: string -> string, f: string, section: string, key: string, value: string)
    requires SaneKey(key) && SaneValue(value)
    requires Find(f, section, key).Missing? && Find(f, section, key).sec.Sec? && Find(f, section, key).sec.end <= |f|
    ensures var g, vs := Written(format, f, section, key, value), ValueAt(f, section, key);
            vs + |value| <= |g| && Find(g, section, key) == Hit(vs, vs + |value|) && g[vs..vs + |value|] == value
  {
    hide Scan, Lines, SaneKey, SaneValue, Entry;
    var sec := Find(f, section, key).sec;
    var e := sec.end;
    ScanAhead(f, section, key, 0, NoSec);
    var g := f[..e] + Entry(key, value) + format(f[e..]);
    assert g[e..e + |key| + |value| + 2] == Entry(key, value);
    FirstOfEntry(g, key, value, e);
    ScanSectionKept(f, g, section, key, 0, NoSec, sec.start, e);
    EntryFound(g, section, key, value, e, sec);
  }

  lemma FirstOfEntry(g: string, key: string, value: string, b: nat)
    requires SaneKey(key) && b + |key| + |value| + 2 <= |g| && g[b..b + |key| + |value| + 2] == Entry(key, value)
    ensures !IsCSpace(g[b])
  {
    EntryChars(g, key, value, b);
  }

  lemma FindWrittenSection(format: string -> string, f: string, section: string, key: string, value: string)
    requires SaneSection(section) && SaneKey(key) && SaneValue(value) && Find(f, section, key) == Missing(NoSec, false)
    ensures var g, vs := Written(format, f, section, key, value), ValueAt(f, section, key);
            vs + |value| <= |g| && Find(g, section, key) == Hit(vs, vs + |value|) && g[vs..vs + |value|] == value
  {
    hide Scan, SaneKey, SaneValue, SaneSection, Entry, HeaderAt;
    var x := NewSection(section, key, value);
    var g := if f == "" then x else f + "\n" + x;
    if f == "" {
      assert g[0..] == x;
      SectionFound(g, section, key, value, 0);
    } else {
      AppendedFound(f, section, key, value);
    }
  }

  lemma AppendedFound(f: string, section: string, key: string, value: string)
    requires SaneSection(section) && SaneKey(key) && SaneValue(value)
             && Scan(f, section, key, 0, NoSec) == Missing(NoSec, false)
    ensures var g, vs := f + "\n" + NewSection(section, key, value), |f| + 1 + |section| + 3 + |key| + 1;
            && vs + |value| <= |g| && Scan(g, section, key, 0, NoSec) == Hit(vs, vs + |value|)
            && g[vs..vs + |value|] == value
  {
    hide Scan, SaneKey, SaneValue, SaneSection, Entry, HeaderAt, SameUpTo;
    var x := NewSection(section, key, value);
    var g := f + "\n" + x;
    Prefixed(f, "\n", x);
    ScanThrough(f, g, section, key, 0);
    AfterNewline(g, |f|);
    ScanStep(g, section, key, |f|, NoSec);
    assert g[|f| + 1..] == x;
    SectionFound(g, section, key, value, |f| + 1);
  }

  lemma AfterNewline(g: string, i: nat)
    requires i < |g| && g[i] == '\n'
    ensures !HeaderAt(g, i)
  {
  }

  /** Unless blocked, the key is found after a write exactly where the value was put. */
  lemma FindWritten(format: string -> string, f: string, section: string, key: string, value: string)
    requires SaneSection(section) && SaneKey(key) && SaneValue(value) && !Blocked(f, section, key)
    ensures var g, vs := Written(format, f, section, key, value), ValueAt(f, section, key);
            vs + |value| <= |g| && Find(g, section, key) == Hit(vs, vs + |value|) && g[vs..vs + |value|] == value
  {
    hide Find, SaneKey, SaneValue, SaneSection, Written, ValueAt, LeavesOpen;
    OpenExactly(f, section, key);
    match Find(f, section, key)
    case Hit(_, _) => FindWrittenHit(format, f, section, key, value);
    case Missing(NoSec, _) => FindWrittenSection(format, f, section, key, value);
    case Missing(Sec(_, e), _) =>
      SectionEnd(f, section, key);
      FindWrittenKey(format, f, section, key, value);
  }

  lemma SectionEnd(f: string, section: string, key: string)
    ensures var r := Find(f, section, key);
            r.Missing? && r.sec.Sec? && r.sec.end > |f| ==> r.open
  {
    hide Scan;
    ScanAhead(f, section, key, 0, NoSec);
  }

  /** Reading a just-written key gives the value, in all three branches, if and only if the write is not blocked. */
  lemma ReadAfterWrite(format: string -> string, f: string, section: string, key: string, value: string)
    requires SaneSection(section) && SaneKey(key) && SaneValue(value)
    ensures Read(Written(format, f, section, key, value), section, key) == Some(value) <==> !Blocked(f, section, key)
  {
    hide Scan, SaneKey, SaneValue, SaneSection, NewSection, Entry, LeavesOpen;
    OpenExactly(f, section, key);
    if !Blocked(f, section, key) {
      FindWritten(format, f, section, key, value);
    } else if Find(f, section, key).sec.NoSec? {
      NotEmptyOpen(f, section, key);
      ScanSwallowed(f, section, key, value, 0);
    }
  }

  lemma NotEmptyOpen(f: string, section: string, key: string)
    ensures Find(f, section, key).Missing? && Find(f, section, key).open ==> f != ""
  {
  }

  /** A second write replaces the first: only the last value counts. */
  lemma LastWriteWins(format: string -> string, f: string, section: string, key: string, v1: string, v2: string)
    requires SaneSection(section) && SaneKey(key) && SaneValue(v1) && SaneValue(v2) && !Blocked(f, section, key)
    ensures Written(format, Written(format, f, section, key, v1), section, key, v2)
            == Written(format, f, section, key, v2)
  {
    hide Scan, SaneKey, SaneValue, SaneSection, Find;
    FindWritten(format, f, section, key, v1);
    WrittenShape(format, f, section, key, v1);
    WrittenShape(format, f, section, key, v2);
    var vs := ValueAt(f, section, key);
    var g := Written(format, f, section, key, v1);
    hide Written, ValueAt;
    assert g[..vs] + v2 + g[vs + |v1|..] == Written(format, f, section, key, v2);
    UpdateIs(format, g, section, key, v2, vs, vs + |v1|);
  }

  lemma UpdateIs(format: string -> string, g: string, section: string, key: string, value: string, vs: nat, ve: nat)
    requires vs <= ve <= |g| && Find(g, section, key) == Hit(vs, ve)
    ensures Written(format, g, section, key, value) == g[..vs] + value + g[ve..]
  {
    hide Find;
  }

  /** What is before and after the value does not depend on the value. */
  function Around(format: string -> string, f: string, section: string, key: string): (r: (string, string)) {
    match Find(f, section, key)
    case Hit(vs, ve) => if vs <= ve <= |f| then (f[..vs], f[ve..]) else ("", "")
    case Missing(NoSec, _) => ((if f == "" then "" else f + "\n") + "[" + section + "]\n" + key + "=", "\n")
    case Missing(Sec(_, e), _) => if e > |f| then ("", "") else (f[..e] + key + "=", "\n" + format(f[e..]))
  }

  lemma WrittenShape(format: string -> string, f: string, section: string, key: string, value: string)
    requires !Blocked(f, section, key)
    ensures var (a, z) := Around(format, f, section, key);
            |a| == ValueAt(f, section, key) && Written(format, f, section, key, value) == a + value + z
  {
    hide Scan, Find, NewSection, Entry, LeavesOpen;
    OpenExactly(f, section, key);
    SectionEnd(f, section, key);
    FindInside(f, section, key);
    match Find(f, section, key)
    case Hit(_, _) =>
    case Missing(NoSec, _) => SectionShape(if f == "" then "" else f + "\n", section, key, value);
    case Missing(Sec(_, e), _) => EntryShape(f[..e], key, value, format(f[e..]));
  }

  lemma SectionShape(a: string, section: string, key: string, value: string)
    ensures a + NewSection(section, key, value) == a + "[" + section + "]\n" + key + "=" + value + "\n"
  {
  }

  lemma EntryShape(a: string, key: string, value: string, z: string)
    ensures a + Entry(key, value) + z == a + key + "=" + value + ("\n" + z)
  {
  }

  lemma FindInside(f: string, section: string, key: string)
    ensures var r := Find(f, section, key);
            r.Hit? ==> r.vs <= r.ve <= |f|
  {
    hide Scan;
    ScanAhead(f, section, key, 0, NoSec);
  }
}
