/**
  The loops of `parse_file`, `read_profile_string` and `write_profile_string` in
  public/rwIni/ini_parser.cpp, over one file held in memory.
 */
module IniFile {
  import opened Common
  import opened Ini

  // ---------------------------------------------------------------- strncmp

  /** `strncmp(a, b, n) == 0`: equal characters, up to a common end. */
  predicate StrnEqual(a: string, b: string, n: nat)
    decreases n
  {
    n == 0 || (At(a, 0) == At(b, 0) && (At(a, 0) == '\0' || StrnEqual(Tail(a), Tail(b), n - 1)))
  }

  function Tail(a: string): (t: string) {
    if a == "" then "" else a[1..]
  }

  /** Over the length of a text without NUL, it tells whether the text begins the other string. */
  lemma {:induction false} StrnPrefix(a: string, b: string, n: nat)
    requires n <= |a| && NulFree(a) && NulFree(b)
    ensures StrnEqual(a, b, n) <==> a[..n] <= b
    ensures StrnEqual(b, a, n) <==> a[..n] <= b
    decreases n
  {
    if n > 0 {
      if b != "" {
        StrnPrefix(a[1..], b[1..], n - 1);
        PrefixStep(a, b, n);
      } else {
        assert a[..n][0] == a[0];
      }
    }
  }

  lemma PrefixStep(a: string, b: string, n: nat)
    requires 0 < n <= |a| && b != ""
    ensures a[..n] <= b <==> a[0] == b[0] && a[1..][..n - 1] <= b[1..]
  {
    assert a[..n] == [a[0]] + a[1..][..n - 1];
    assert b == [b[0]] + b[1..];
    var x, y := a[1..][..n - 1], b[1..];
    if a[..n] <= b {
      assert b[..n] == a[..n];
      assert y[..n - 1] == b[..n][1..] == a[..n][1..] == x;
      assert a[0] == a[..n][0] == b[..n][0] == b[0];
    }
    if a[0] == b[0] && x <= y {
      assert y[..n - 1] == x;
      assert b[..n] == [b[0]] + y[..n - 1];
    }
  }

  lemma PartNoNul(f: string, i: nat)
    requires NulFree(f) && i <= |f|
    ensures NulFree(f[i..])
  {
  }

  lemma NamesIs(f: string, section: string, i: nat, e: nat)
    requires NulFree(f) && NulFree(section) && i <= e <= |f|
    ensures StrnEqual(f[i..], section, e - i) <==> Names(f, section, i, e)
    ensures StrnEqual(section, f[i..], e - i) <==> Names(f, section, i, e)
  {
    PartNoNul(f, i);
    StrnPrefix(f[i..], section, e - i);
    assert f[i..][..e - i] == f[i..e];
  }

  // ---------------------------------------------------------------- the loops of parse_file

  method FindHeaderEnd(f: string, start: nat) returns (i: nat)
    requires NulFree(f) && start < |f|
    ensures i == HeaderEnd(f, start + 1)
  {
    i := start + 1;
    while At(f, i) != ']' && At(f, i) != '\0'
      invariant start + 1 <= i <= |f| && HeaderEnd(f, i) == HeaderEnd(f, start + 1)
      decreases |f| - i
    {
      i := i + 1;
    }
  }

  method SkipSpace(f: string, start: nat) returns (i: nat)
    requires NulFree(f)
    ensures i == if start <= |f| then SkipSpaces(f, start) else start
  {
    i := start;
    while IsCSpace(At(f, i))
      invariant start <= i && (if start <= |f| then i <= |f| && SkipSpaces(f, i) == SkipSpaces(f, start)
                else i == start)
      decreases |f| - i
    {
      i := i + 1;
    }
  }

  method FindLineEnd(f: string, start: nat) returns (i: nat)
    requires NulFree(f) && start < |f|
    ensures i == LineEnd(f, start)
  {
    i := start;
    while !Newline(At(f, i)) && At(f, i) != '\0'
      invariant start <= i <= |f| && LineEnd(f, i) == LineEnd(f, start)
      decreases |f| - i
    {
      i := i + 1;
    }
  }

  /** The loop over one line; `j` is the place of the '=' when the key was found. */
  method MatchKey(f: string, key: string, start: nat, e: nat) returns (found: bool, j: nat)
    requires NulFree(f) && NulFree(key) && start <= e <= |f| && e == LineEnd(f, start)
    ensures found == KeyLine(f, key, start, e)
    ensures found ==> j == FirstEqual(f, start, e)
  {
    hide Newline, Names, StrnEqual;
    found, j := false, start;
    if At(f, j) != ';' {
      while j < e && At(f, j) != '='
        invariant start <= j <= e && FirstEqual(f, start, e) == FirstEqual(f, j, e)
        invariant j < e && f[j] == '=' ==> j == start || !KeyLine(f, key, start, e)
        invariant j == e ==> FirstEqual(f, start, e) == e
        decreases e - j
      {
        j := j + 1;
        if '=' == At(f, j) {
          LineHasNoEqualAtEnd(f, start, e);
          NamesIs(f, key, start, j);
          KeyLineIs(f, key, start, e, j);
          if StrnEqual(key, f[start..], j - start) {
            return true, j;
          }
        }
      }
    }
  }

  lemma LineHasNoEqualAtEnd(f: string, start: nat, e: nat)
    requires NulFree(f) && start <= |f| && e == LineEnd(f, start)
    ensures At(f, e) != '='
  {
  }

  lemma KeyLineIs(f: string, key: string, start: nat, e: nat, j: nat)
    requires start <= e <= |f| && j == FirstEqual(f, start, e) && start < j < e && f[start] != ';'
    ensures KeyLine(f, key, start, e) <==> Names(f, key, start, j)
  {
  }

  /** A text that begins the key, from the beginning of a line in the same section up to the '='. */
  ghost predicate KeyFound(f: string, key: string, start: nat, key_s: int, key_e: int, value_s: int) {
    && start <= key_s <= key_e == value_s - 2 && value_s <= |f|
    && f[key_s..key_e + 1] <= key && f[key_e + 1] == '=' && NoHeaderFrom(f, start, key_s)
  }

  /** The loop over the lines of a matching section. */
  method ParseLines(f: string, section: string, key: string, start: nat, ghost sec: Section)
    returns (found: bool, i: nat, key_s: int, key_e: int, value_s: int, value_e: int)
    requires NulFree(f) && NulFree(key) && start > 0
    ensures found ==>
              && 0 <= value_s <= value_e && Lines(f, section, key, start, sec) == Hit(value_s, value_e)
              && KeyFound(f, key, start, key_s, key_e, value_s)
    ensures !found ==> i > 0 && Lines(f, section, key, start, sec) == Scan(f, section, key, i, sec)
    ensures !found ==> key_s == -1 && (i < |f| ==> i >= start)
  {
    hide Lines, Scan, KeyLine, HeaderAt, LineEnd;
    key_s, key_e, value_s, value_e := -1, -1, -1, -1;
    i := start;
    while !(Newline(At(f, i - 1)) && At(f, i) == '[') && At(f, i) != '\0'
      invariant i >= start && Lines(f, section, key, start, sec) == Lines(f, section, key, i, sec)
      invariant i <= |f| ==> NoHeaderBefore(f, start, i)
      decreases if i <= |f| then |f| - i + 1 else 0
    {
      HeaderIs(f, i);
      LinesStep(f, section, key, i, sec);
      var newline_start := i;
      ghost var e := LineEnd(f, i);
      HeaderFreeLine(f, start, i, e);
      i := FindLineEnd(f, i);
      var j;
      found, j := MatchKey(f, key, newline_start, i);
      if found {
        KeyLineHas(f, key, newline_start, i);
        return true, i, newline_start, j - 1, j + 1, i;
      }
      i := i + 1;
    }
    found := false;
    if i < |f| {
      HeaderIs(f, i);
      LinesStep(f, section, key, i, sec);
    } else {
      AtEnd(f, section, key, i, sec);
    }
  }

  /** No header begins between the two places, the second included. */
  ghost predicate NoHeaderFrom(f: string, i: nat, k: nat) {
    forall j :: i <= j <= k && j < |f| ==> !HeaderAt(f, j)
  }

  ghost predicate NoHeaderBefore(f: string, i: nat, k: nat) {
    forall j :: i <= j < k && j < |f| ==> !HeaderAt(f, j)
  }

  lemma HeaderFreeLine(f: string, start: nat, i: nat, e: nat)
    requires 0 < start <= i < |f| && NoHeaderBefore(f, start, i) && !HeaderAt(f, i) && e == LineEnd(f, i)
    ensures NoHeaderFrom(f, start, i) && NoHeaderBefore(f, start, e + 1)
  {
    NoHeaderInLine(f, i, e);
  }

  lemma HeaderIs(f: string, i: nat)
    requires 0 < i < |f|
    ensures HeaderAt(f, i) <==> Newline(At(f, i - 1)) && At(f, i) == '['
  {
  }

  lemma KeyLineHas(f: string, key: string, i: nat, e: nat)
    requires i <= e <= |f| && KeyLine(f, key, i, e)
    ensures var j := FirstEqual(f, i, e); i < j < e && f[j] == '=' && f[i..j] <= key
  {
  }

  /** A closed header whose text begins the section's name, and the first place behind it that is no space. */
  ghost predicate SectionOpened(f: string, section: string, start: int, end: int) {
    && 0 < start < |f| && HeaderAt(f, start - 1) && HeaderEnd(f, start) < |f|
    && Names(f, section, start, HeaderEnd(f, start)) && end == SkipSpaces(f, HeaderEnd(f, start) + 1)
  }

  lemma SectionIs(f: string, section: string, start: int, end: int)
    requires 0 < start < |f| && HeaderAt(f, start - 1) && HeaderEnd(f, start) < |f|
    requires Names(f, section, start, HeaderEnd(f, start)) && end == SkipSpaces(f, HeaderEnd(f, start) + 1)
    ensures SectionOpened(f, section, start, end)
  {
  }

  /** `parse_file`. */
  method ParseFile(f: string, section: string, key: string)
    returns (found: bool, sec_s: int, sec_e: int, key_s: int, key_e: int, value_s: int, value_e: int)
    requires NulFree(f) && NulFree(section) && NulFree(key) && section != "" && key != ""
    ensures match Find(f, section, key)
            case Hit(vs, ve) =>
              && found && value_s == vs && value_e == ve
              && SectionOpened(f, section, sec_s, sec_e) && KeyFound(f, key, sec_e, key_s, key_e, vs)
            case Missing(s, _) =>
              && !found && key_s == -1
              && match s case NoSec => sec_s == -1 case Sec(st, e) => sec_s == st && sec_e == e
  {
    hide Lines, Scan, HeaderAt, Names, HeaderEnd, SkipSpaces, StrnEqual, KeyFound, SectionOpened;
    sec_s, sec_e, key_s, key_e, value_s, value_e := -1, -1, -1, -1, -1, -1;
    ghost var sec := NoSec;
    ghost var open := false;
    var i := 0;
    while At(f, i) != '\0'
      invariant match sec case NoSec => sec_s == -1 case Sec(st, e) => sec_s == st && sec_e == e
      invariant key_s == -1
                && Scan(f, section, key, i, sec) == (if open then Missing(sec, false) else Find(f, section, key))
      invariant open ==> i >= |f| && Find(f, section, key) == Missing(sec, true)
      decreases if i <= |f| then |f| - i + 1 else 0
    {
      ScanStep(f, section, key, i, sec);
      FirstHeaderIs(f, i);
      if (i == 0 || Newline(At(f, i - 1))) && At(f, i) == '[' {
        var section_start := i + 1;
        i := FindHeaderEnd(f, i);
        NamesIs(f, section, section_start, i);
        if StrnEqual(f[section_start..], section, i - section_start) {
          open := i == |f|;
          i := i + 1;
          i := SkipSpace(f, i);
          sec_s, sec_e := section_start, i;
          sec := Sec(section_start, i);
          if open {
            AtEnd(f, section, key, i, sec);
          }
          found, i, key_s, key_e, value_s, value_e := ParseLines(f, section, key, i, sec);
          if found {
            SectionIs(f, section, sec_s, sec_e);
            return;
          }
          if open {
            AtEnd(f, section, key, i, sec);
          }
        } else if i == |f| {
          open := true;
          AtEnd(f, section, key, i, sec);
        }
      } else {
        i := i + 1;
      }
    }
    AtEnd(f, section, key, i, sec);
    found := false;
  }

  lemma FirstHeaderIs(f: string, i: nat)
    requires i < |f|
    ensures HeaderAt(f, i) <==> (i == 0 || Newline(At(f, i - 1))) && At(f, i) == '['
  {
  }

  // ---------------------------------------------------------------- the file

  const MAX_FILE_SIZE: nat := 1024 * 16

  /** What `fputs` writes of a buffer: all of a text, or the text before a NUL. */
  lemma PutText(t: string, rest: string)
    requires NulFree(t)
    ensures CStr(t) == t && CStr(t + ['\0'] + rest) == t
  {
    CStrIs(t + ['\0'] + rest, |t|);
  }

  /** The first `n` characters of the zeroed buffer that holds the file. */
  function Buffer(f: string, n: nat): (b: string)
    ensures |b| == n
  {
    seq(n, i requires 0 <= i => At(f, i))
  }

  lemma BufferIs(f: string, n: nat)
    ensures n <= |f| ==> Buffer(f, n) == f[..n]
    ensures n == |f| + 1 ==> Buffer(f, n) == f + ['\0']
  {
  }

  /** `read_profile_string` and `write_profile_string` on one file; `format` stands for `sprintf`. */
  class Profile {
    const format: string -> string
    var present: bool
    var content: string

    ghost predicate Valid()
      reads this
    {
      NulFree(content) && |content| < MAX_FILE_SIZE && forall t :: NulFree(format(t))
    }

    constructor (format: string -> string)
      requires forall t :: NulFree(format(t))
      ensures Valid() && !present
    {
      this.format, present, content := format, false, "";
    }

    /** 1 and the value, cut to the size of the caller's buffer; or 0 and the default. */
    method ReadString(section: string, key: string, size: nat, default_value: string) returns (code: int, value: string)
      requires Valid() && NulFree(section) && NulFree(key) && section != "" && key != "" && size > 0
      ensures code == 1 <==> present && Read(content, section, key).Some?
      ensures code == 1 ==>
                var v := Read(content, section, key).value;
                value == if |v| < size then v else v[..size - 1]
      ensures code != 1 ==>
                code == 0 && value == if |default_value| < size then default_value else default_value[..size]
    {
      hide Find;
      FindInside(content, section, key);
      var missing := if |default_value| < size then default_value else default_value[..size];
      if !present {
        return 0, missing;
      }
      var found, sec_s, sec_e, key_s, key_e, value_s, value_e := ParseFile(content, section, key);
      if !found {
        return 0, missing;
      }
      var cpcount := value_e - value_s;
      if size - 1 < cpcount {
        cpcount := size - 1;
      }
      CutValue(content, value_s, value_e, cpcount);
      return 1, content[value_s..value_s + cpcount];
    }

    /** The file afterwards is what `Written` says of the file before, an absent file being empty. */
    method WriteString(section: string, key: string, value: string)
      requires Valid() && NulFree(section) && NulFree(key) && NulFree(value) && section != "" && key != ""
      requires |Written(format, if present then content else "", section, key, value)| < MAX_FILE_SIZE
      modifies this
      ensures Valid() && present
      ensures content == Written(format, if old(present) then old(content) else "", section, key, value)
    {
      hide Find, NewSection, Entry;
      var f := if present then content else "";
      FindInside(f, section, key);
      FindEnd(f, section, key);
      NothingFound(section, key);
      var found, sec_s, sec_e, key_s, key_e, value_s, value_e := false, -1, -1, -1, -1, -1, -1;
      if present {
        found, sec_s, sec_e, key_s, key_e, value_s, value_e := ParseFile(f, section, key);
      }
      var w;
      if sec_s == -1 {
        if |f| == 0 {
          w := NewSection(section, key, value);
        } else {
          w := f + "\n" + NewSection(section, key, value);
        }
      } else if key_s == -1 {
        w := Buffer(f, sec_e) + Entry(key, value) + format(if sec_e <= |f| then f[sec_e..] else "");
        BufferIs(f, sec_e);
      } else {
        w := f[..value_s] + value + f[value_e..];
      }
      WholeText(format, f, section, key, value, w);
      content := CStr(w);
      present := true;
    }
  }

  lemma CutValue(f: string, vs: nat, ve: nat, n: nat)
    requires vs <= ve <= |f| && n <= ve - vs
    ensures f[vs..vs + n] == f[vs..ve][..n]
    ensures n == ve - vs ==> f[vs..vs + n] == f[vs..ve]
  {
  }

  lemma NothingFound(section: string, key: string)
    ensures Find("", section, key) == Missing(NoSec, false)
  {
  }

  lemma FindEnd(f: string, section: string, key: string)
    ensures var r := Find(f, section, key);
            r.Missing? && r.sec.Sec? ==> r.sec.end <= |f| + 1
  {
    hide Scan;
    ScanAhead(f, section, key, 0, NoSec);
  }

  lemma Joined(a: string, b: string)
    requires NulFree(a) && NulFree(b)
    ensures NulFree(a + b)
  {
  }

  lemma EntryNoNul(section: string, key: string, value: string)
    requires NulFree(section) && NulFree(key) && NulFree(value)
    ensures NulFree(Entry(key, value)) && NulFree(NewSection(section, key, value))
  {
    hide NulFree;
    Constants();
    Joined(key, "=");
    Joined(key + "=", value);
    Joined(key + "=" + value, "\n");
    Joined("[", section);
    Joined("[" + section, "]\n");
    Joined("[" + section + "]\n", Entry(key, value));
  }

  lemma Constants()
    ensures NulFree("=") && NulFree("\n") && NulFree("[") && NulFree("]\n")
  {
  }

  /** What is written of the buffer: all of it, or the old file when a NUL was copied. */
  lemma WholeText(format: string -> string, f: string, section: string, key: string, value: string, w: string)
    requires NulFree(f) && NulFree(section) && NulFree(key) && NulFree(value) && forall t :: NulFree(format(t))
    requires match Find(f, section, key)
             case Missing(Sec(_, e), _) =>
               if e > |f| then w == f + ['\0'] + Entry(key, value) + format("")
                   else w == Written(format, f, section, key, value)
             case _ => w == Written(format, f, section, key, value)
    ensures CStr(w) == Written(format, f, section, key, value) && NulFree(CStr(w))
  {
    hide Find, NewSection, Entry, NulFree;
    var g := Written(format, f, section, key, value);
    EntryNoNul(section, key, value);
    Constants();
    match Find(f, section, key)
    case Missing(NoSec, _) =>
      Joined(f, "\n");
      Joined(f + "\n", NewSection(section, key, value));
      PutText(g, "");
    case Missing(Sec(_, e), _) =>
      if e > |f| {
        PutText(f, Entry(key, value) + format(""));
        assert f + ['\0'] + (Entry(key, value) + format("")) == w;
      } else {
        PrefixNoNul(f, e);
        Joined(f[..e], Entry(key, value));
        Joined(f[..e] + Entry(key, value), format(f[e..]));
        PutText(g, "");
      }
    case Hit(vs, ve) =>
      if vs <= ve <= |f| {
        PrefixNoNul(f, vs);
        PrefixNoNul(f, ve);
        Joined(f[..vs], value);
        Joined(f[..vs] + value, f[ve..]);
      }
      PutText(g, "");
  }

  lemma PrefixNoNul(f: string, n: nat)
    requires NulFree(f) && n <= |f|
    ensures NulFree(f[..n]) && NulFree(f[n..])
  {
  }

  /** After a write that is not blocked, reading the same key gives the value. */
  method WriteThenRead(p: Profile, section: string, key: string, value: string) returns (code: int, got: string)
    requires p.Valid() && NulFree(section) && NulFree(key) && NulFree(value)
    requires SaneSection(section) && SaneKey(key) && SaneValue(value)
    requires |Written(p.format, if p.present then p.content else "", section, key, value)| < MAX_FILE_SIZE
    modifies p
    ensures code == 1 && got == value <==> !Blocked(if old(p.present) then old(p.content) else "", section, key)
  {
    hide Find, Written, SaneSection, SaneKey, SaneValue;
    ReadAfterWrite(p.format, if p.present then p.content else "", section, key, value);
    SaneNotEmpty(section, key);
    p.WriteString(section, key, value);
    ReadFits(p.content, section, key);
    code, got := p.ReadString(section, key, MAX_FILE_SIZE, "");
  }

  lemma SaneNotEmpty(section: string, key: string)
    requires SaneSection(section) && SaneKey(key)
    ensures section != "" && key != ""
  {
  }

  lemma ReadFits(f: string, section: string, key: string)
    ensures Read(f, section, key).Some? ==> |Read(f, section, key).value| <= |f|
  {
    hide Find;
  }
}
