/** What several cores share: optional results, C strings, and inputs that come in pieces. */
module Common {

  datatype Option<+T> = None | Some(value: T)

  /** `isdigit`. */
  predicate IsDigit(c: char) {
    '0' <= c <= '9'
  }

  /** `isspace`. */
  predicate IsCSpace(c: char) {
    c == ' ' || 9 as char <= c <= 13 as char
  }

  /** Everything before the first `stop`. */
  function UpTo<T(==)>(s: seq<T>, stop: T): (t: seq<T>)
    ensures t <= s
    ensures forall i :: 0 <= i < |t| ==> t[i] != stop
    ensures |t| < |s| ==> s[|t|] == stop
  {
    if s == [] || s[0] == stop then []
    else
      var t := [s[0]] + UpTo(s[1..], stop);
      assert t <= s by {
        assert s == [s[0]] + s[1..];
      }
      t
  }

  /** A text that ends where the first `stop` stands is found whole. */
  lemma UpToIs<T>(s: seq<T>, stop: T, k: nat)
    requires k <= |s| && (forall i :: 0 <= i < k ==> s[i] != stop) && (k < |s| ==> s[k] == stop)
    ensures UpTo(s, stop) == s[..k]
  {
    var t := UpTo(s, stop);
    assert t == s[..|t|];
    assert forall i :: 0 <= i < |t| ==> s[i] == t[i];
    assert |t| == k;
  }

  predicate NulFree(s: string) {
    forall i :: 0 <= i < |s| ==> s[i] != '\0'
  }

  /** What a `char *` view of a string shows. */
  function CStr(s: string): (t: string)
    ensures t <= s
    ensures NulFree(t)
    ensures NulFree(s) ==> t == s
  {
    UpTo(s, '\0')
  }

  lemma CStrIs(s: string, k: nat)
    requires k <= |s| && (forall i :: 0 <= i < k ==> s[i] != '\0') && (k < |s| ==> s[k] == '\0')
    ensures CStr(s) == s[..k]
  {
    UpToIs(s, '\0', k);
  }

  function Concat<T>(chunks: seq<seq<T>>): (d: seq<T>) {
    if chunks == [] then [] else chunks[0] + Concat(chunks[1..])
  }

  // ---------------------------------------------------------------- slices

  lemma SliceJoin<T>(s: seq<T>, a: nat, b: nat, c: nat)
    requires a <= b <= c <= |s|
    ensures s[a..b] + s[b..c] == s[a..c]
  {
  }

  lemma SliceSnoc<T>(s: seq<T>, a: nat, b: nat)
    requires a <= b < |s|
    ensures s[a..b] + [s[b]] == s[a..b + 1]
  {
  }

  lemma SliceOfSlice<T>(s: seq<T>, a: nat, b: nat, c: nat, d: nat)
    requires a <= b <= |s| && c <= d <= b - a
    ensures s[a..b][c..d] == s[a + c..a + d]
  {
    var t := s[a..b];
    forall i | 0 <= i < d - c ensures t[c..d][i] == s[a + c..a + d][i] {
      assert t[c + i] == s[a + (c + i)];
    }
  }

  lemma SliceBehind<T>(p: seq<T>, s: seq<T>, a: nat, b: nat)
    requires a <= b <= |s|
    ensures (p + s)[|p| + a..|p| + b] == s[a..b]
  {
  }

  lemma SlicesOf<T>(a: seq<T>, b: seq<T>, c: seq<T>)
    ensures (a + b + c)[..|a|] == a
    ensures (a + b + c)[|a|..|a| + |b|] == b
    ensures (a + b + c)[|a| + |b|..] == c
  {
  }

  // ---------------------------------------------------------------- bytes

  type byte = bv8

  /** The byte with this value. */
  function ToByte(n: nat): (b: byte)
    requires n < 256
  {
    if n == 0 then 0 else ToByte(n - 1) + 1
  }

  lemma {:induction false} ToByteValue(n: nat)
    requires n < 256
    ensures ToByte(n) as int == n
  {
    hide ToByte;
    if n == 0 {
      ToByteZero();
    } else {
      ToByteValue(n - 1);
      ToByteStep(n);
      NextValue(ToByte(n - 1));
    }
  }

  lemma ToByteZero()
    ensures ToByte(0) == 0
  {
  }

  lemma ToByteStep(n: nat)
    requires 0 < n < 256
    ensures ToByte(n) == ToByte(n - 1) + 1
  {
  }

  lemma NextValue(b: byte)
    requires b as int < 255
    ensures (b + 1) as int == b as int + 1
  {
  }

  lemma SameValue(a: byte, b: byte)
    ensures a == b <==> a as int == b as int
  {
  }
}
