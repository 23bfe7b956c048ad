/**
  The JSON value of public/json/json_value.cpp and its comparison operators.

  Arrays and objects are both `std::map<CZString, Value>`: an array maps indices to values and
  may have gaps, an object maps names to values. Both are held here as their in-order listing,
  so a well-formed value lists its keys in strictly ascending order.
 */
module JsonValue {
  import opened Common

  datatype Elem = Elem(index: int, item: Value)

  datatype Member = Member(name: string, item: Value)

  /** `NullStr` is the string value without text that `Value(stringValue)` makes: its pointer is NULL. */
  datatype Value =
    | Null
    | Int(i: int)
    | UInt(u: nat)
    | Real(r: real)
    | NullStr
    | Str(s: string)
    | Bool(b: bool)
    | Array(elems: seq<Elem>)
    | Object(members: seq<Member>)

  const MIN_INT := -0x8000_0000
  const MAX_INT := 0x7FFF_FFFF
  const MAX_UINT := 0xFFFF_FFFF

  /** The position of a type in the source's `ValueType` enumeration. */
  function TypeRank(v: Value): (t: nat) {
    match v
    case Null => 0
    case Int(_) => 1
    case UInt(_) => 2
    case Real(_) => 3
    case NullStr => 4
    case Str(_) => 4
    case Bool(_) => 5
    case Array(_) => 6
    case Object(_) => 7
  }

  /** `strcmp(a, b) < 0` on NUL-terminated strings. */
  predicate StrLess(a: string, b: string) {
    b != [] && (a == [] || a[0] < b[0] || (a[0] == b[0] && StrLess(a[1..], b[1..])))
  }

  /** The number of slots a reader or printer walks over: highest index plus one for an array. */
  function Size(v: Value): (n: int)
    ensures Wf(v) ==> n >= 0
    ensures v.Array? && v.elems != [] ==> n == v.elems[|v.elems| - 1].index + 1
    ensures v.Array? && v.elems == [] ==> n == 0
    ensures v.Object? ==> n == |v.members|
  {
    match v
    case Array(es) => if es == [] then 0 else es[|es| - 1].index + 1
    case Object(ms) => |ms|
    case _ => 0
  }

  predicate AscendingIndices(es: seq<Elem>) {
    (forall i :: 0 <= i < |es| ==> 0 <= es[i].index) &&
    forall i, j :: 0 <= i < j < |es| ==> es[i].index < es[j].index
  }

  predicate AscendingNames(ms: seq<Member>) {
    forall i, j :: 0 <= i < j < |ms| ==> StrLess(ms[i].name, ms[j].name)
  }

  /** What the printers can work on: the public interface builds such values, except `NullStr`. */
  predicate Wf(v: Value) {
    match v
    case NullStr => false
    case Int(i) => MIN_INT <= i <= MAX_INT
    case UInt(u) => u <= MAX_UINT
    case Array(es) => AscendingIndices(es) && WfElems(es)
    case Object(ms) => AscendingNames(ms) && WfMembers(ms)
    case _ => true
  }

  predicate WfElems(es: seq<Elem>) {
    es == [] || (assert es[0].item < es[0]; Wf(es[0].item) && WfElems(es[1..]))
  }

  predicate WfMembers(ms: seq<Member>) {
    ms == [] || (NulFree(ms[0].name) && Wf(ms[0].item) && WfMembers(ms[1..]))
  }

  // ---------------------------------------------------------------- operator< and operator==

  /** A count of nodes: the comparison of two values recurs on both of them in either order. */
  function Weight(v: Value): nat {
    match v
    case Array(es) => 1 + ElemsWeight(es)
    case Object(ms) => 1 + MembersWeight(ms)
    case _ => 0
  }

  function ElemsWeight(es: seq<Elem>): nat {
    if es == [] then 0 else assert es[0].item < es[0]; 1 + Weight(es[0].item) + ElemsWeight(es[1..])
  }

  function MembersWeight(ms: seq<Member>): nat {
    if ms == [] then 0 else 1 + Weight(ms[0].item) + MembersWeight(ms[1..])
  }

  /** `Value::operator<`. */
  predicate Less(a: Value, b: Value)
    decreases Weight(a) + Weight(b), 0
  {
    if TypeRank(a) != TypeRank(b) then TypeRank(a) < TypeRank(b)
    else
      match a
      case Null => false
      case Int(x) => x < b.i
      case UInt(x) => x < b.u
      case Real(x) => x < b.r
      case NullStr => b.Str?
      case Str(x) => b.Str? && StrLess(CStr(x), CStr(b.s))
      case Bool(x) => !x && b.b
      case Array(es) =>
        if |es| != |b.elems| then |es| < |b.elems| else ElemsLess(es, b.elems)
      case Object(ms) =>
        if |ms| != |b.members| then |ms| < |b.members| else MembersLess(ms, b.members)
  }

  /** `std::map` comparison: the first differing (key, value) pair decides. */
  predicate ElemsLess(a: seq<Elem>, b: seq<Elem>)
    decreases ElemsWeight(a) + ElemsWeight(b), 0
  {
    if b == [] then false
    else if a == [] then true
    else if ElemLess(a[0], b[0]) then true
    else if ElemLess(b[0], a[0]) then false
    else ElemsLess(a[1..], b[1..])
  }

  predicate ElemLess(a: Elem, b: Elem)
    decreases Weight(a.item) + Weight(b.item), 1
  {
    a.index < b.index || (!(b.index < a.index) && Less(a.item, b.item))
  }

  predicate MembersLess(a: seq<Member>, b: seq<Member>)
    decreases MembersWeight(a) + MembersWeight(b), 0
  {
    if b == [] then false
    else if a == [] then true
    else if MemberLess(a[0], b[0]) then true
    else if MemberLess(b[0], a[0]) then false
    else MembersLess(a[1..], b[1..])
  }

  predicate MemberLess(a: Member, b: Member)
    decreases Weight(a.item) + Weight(b.item), 1
  {
    StrLess(a.name, b.name) || (!StrLess(b.name, a.name) && Less(a.item, b.item))
  }

  /** `Value::operator==`. */
  predicate Eq(a: Value, b: Value) {
    TypeRank(a) == TypeRank(b) &&
    match a
    case Null => true
    case Int(x) => x == b.i
    case UInt(x) => x == b.u
    case Real(x) => x == b.r
    case NullStr => b.NullStr?
    case Str(x) => b.Str? && CStr(x) == CStr(b.s)
    case Bool(x) => x == b.b
    case Array(es) => |es| == |b.elems| && ElemsEq(es, b.elems)
    case Object(ms) => |ms| == |b.members| && MembersEq(ms, b.members)
  }

  predicate ElemsEq(a: seq<Elem>, b: seq<Elem>)
    requires |a| == |b|
  {
    a == [] || (assert a[0].item < a[0]; a[0].index == b[0].index && Eq(a[0].item, b[0].item)
        && ElemsEq(a[1..], b[1..]))
  }

  predicate MembersEq(a: seq<Member>, b: seq<Member>)
    requires |a| == |b|
  {
    a == [] || (a[0].name == b[0].name && Eq(a[0].item, b[0].item) && MembersEq(a[1..], b[1..]))
  }

  /** `operator<=` as the source writes it. */
  predicate LessEqual(a: Value, b: Value) {
    !Less(a, b)
  }

  // ---------------------------------------------------------------- strings are totally ordered

  lemma {:induction false} StrTrichotomy(a: string, b: string)
    ensures StrLess(a, b) ==> a != b && !StrLess(b, a)
    ensures !StrLess(a, b) && !StrLess(b, a) ==> a == b
  {
    if a != [] && b != [] && a[0] == b[0] {
      StrTrichotomy(a[1..], b[1..]);
      assert a == [a[0]] + a[1..] && b == [b[0]] + b[1..];
    }
  }

  lemma {:induction false} StrTransitive(a: string, b: string, c: string)
    requires StrLess(a, b) && StrLess(b, c)
    ensures StrLess(a, c)
  {
    if a != [] && a[0] == b[0] && b[0] == c[0] {
      StrTransitive(a[1..], b[1..], c[1..]);
    }
  }

  // ---------------------------------------------------------------- values are totally ordered

  /** Exactly one of less, greater and equal holds of any two values. */
  lemma {:induction false} Trichotomy(a: Value, b: Value)
    ensures Less(a, b) ==> !Less(b, a) && !Eq(a, b)
    ensures !Less(a, b) && !Less(b, a) ==> Eq(a, b)
    ensures Eq(a, b) ==> !Less(a, b) && !Less(b, a) && Eq(b, a)
    decreases Weight(a)
  {
    if TypeRank(a) == TypeRank(b) {
      match a
      case Str(x) => if b.Str? { StrTrichotomy(CStr(x), CStr(b.s)); }
      case Array(es) => if |es| == |b.elems| { ElemsTrichotomy(es, b.elems); }
      case Object(ms) => if |ms| == |b.members| { MembersTrichotomy(ms, b.members); }
      case _ =>
    }
  }

  lemma {:induction false} ElemsTrichotomy(a: seq<Elem>, b: seq<Elem>)
    requires |a| == |b|
    ensures ElemsLess(a, b) ==> !ElemsLess(b, a) && !ElemsEq(a, b)
    ensures !ElemsLess(a, b) && !ElemsLess(b, a) ==> ElemsEq(a, b)
    ensures ElemsEq(a, b) ==> !ElemsLess(a, b) && !ElemsLess(b, a) && ElemsEq(b, a)
    decreases ElemsWeight(a)
  {
    if a != [] {
      var x, y := a[0], b[0];
      Trichotomy(x.item, y.item);
      ElemsTrichotomy(a[1..], b[1..]);
      assert ElemLess(x, y) <==> x.index < y.index || (x.index == y.index && Less(x.item, y.item));
      assert ElemLess(y, x) <==> y.index < x.index || (x.index == y.index && Less(y.item, x.item));
    }
  }

  lemma {:induction false} MembersTrichotomy(a: seq<Member>, b: seq<Member>)
    requires |a| == |b|
    ensures MembersLess(a, b) ==> !MembersLess(b, a) && !MembersEq(a, b)
    ensures !MembersLess(a, b) && !MembersLess(b, a) ==> MembersEq(a, b)
    ensures MembersEq(a, b) ==> !MembersLess(a, b) && !MembersLess(b, a) && MembersEq(b, a)
    decreases MembersWeight(a)
  {
    if a != [] {
      var x, y := a[0], b[0];
      StrTrichotomy(x.name, y.name);
      Trichotomy(x.item, y.item);
      MembersTrichotomy(a[1..], b[1..]);
      assert MemberLess(x, y) <==> StrLess(x.name, y.name) || (x.name == y.name && Less(x.item, y.item));
      assert MemberLess(y, x) <==> StrLess(y.name, x.name) || (x.name == y.name && Less(y.item, x.item));
    }
  }

  /** Not-greater is transitive, and a strict step on either side makes the whole strict. */
  lemma {:induction false} Transitive(a: Value, b: Value, c: Value)
    requires !Less(b, a) && !Less(c, b)
    ensures !Less(c, a)
    ensures Less(a, b) || Less(b, c) ==> Less(a, c)
    decreases Weight(a)
  {
    Trichotomy(a, b);
    Trichotomy(b, c);
    Trichotomy(a, c);
    if TypeRank(a) == TypeRank(b) == TypeRank(c) {
      match a
      case Str(x) => if b.Str? && c.Str? { StrChain(CStr(x), CStr(b.s), CStr(c.s)); }
      case Array(es) =>
        if |es| == |b.elems| == |c.elems| { ElemsTransitive(es, b.elems, c.elems); }
      case Object(ms) =>
        if |ms| == |b.members| == |c.members| { MembersTransitive(ms, b.members, c.members); }
      case _ =>
    }
  }

  lemma StrChain(a: string, b: string, c: string)
    requires !StrLess(b, a) && !StrLess(c, b)
    ensures !StrLess(c, a)
    ensures StrLess(a, b) || StrLess(b, c) ==> StrLess(a, c)
  {
    StrTrichotomy(a, b);
    StrTrichotomy(b, c);
    StrTrichotomy(a, c);
    if StrLess(a, b) && StrLess(b, c) {
      StrTransitive(a, b, c);
    }
  }

  lemma {:induction false} ElemsTransitive(a: seq<Elem>, b: seq<Elem>, c: seq<Elem>)
    requires |a| == |b| == |c|
    requires !ElemsLess(b, a) && !ElemsLess(c, b)
    ensures !ElemsLess(c, a)
    ensures ElemsLess(a, b) || ElemsLess(b, c) ==> ElemsLess(a, c)
    decreases ElemsWeight(a)
  {
    if a != [] {
      var x, y, z := a[0], b[0], c[0];
      Trichotomy(x.item, y.item);
      Trichotomy(y.item, z.item);
      if !ElemLess(y, x) && !ElemLess(z, y) {
        if x.index == y.index == z.index { Transitive(x.item, y.item, z.item); }
        Trichotomy(x.item, z.item);
        if !ElemLess(x, y) && !ElemLess(y, z) {
          ElemsTransitive(a[1..], b[1..], c[1..]);
        }
      }
    }
  }

  lemma {:induction false} MembersTransitive(a: seq<Member>, b: seq<Member>, c: seq<Member>)
    requires |a| == |b| == |c|
    requires !MembersLess(b, a) && !MembersLess(c, b)
    ensures !MembersLess(c, a)
    ensures MembersLess(a, b) || MembersLess(b, c) ==> MembersLess(a, c)
    decreases MembersWeight(a)
  {
    if a != [] {
      var x, y, z := a[0], b[0], c[0];
      Trichotomy(x.item, y.item);
      Trichotomy(y.item, z.item);
      StrTrichotomy(x.name, y.name);
      StrTrichotomy(y.name, z.name);
      if !MemberLess(y, x) && !MemberLess(z, y) {
        StrChain(x.name, y.name, z.name);
        StrTrichotomy(x.name, z.name);
        if x.name == y.name == z.name { Transitive(x.item, y.item, z.item); }
        Trichotomy(x.item, z.item);
        if !MemberLess(x, y) && !MemberLess(y, z) {
          MembersTransitive(a[1..], b[1..], c[1..]);
        }
      }
    }
  }

  /**
    `operator<` is a strict total order whose ties are exactly `operator==`: it is irreflexive
    and transitive, two values are unordered just when they are equal, and equality respects it.
   */
  lemma StrictTotalOrder(a: Value, b: Value, c: Value)
    ensures !Less(a, a) && Eq(a, a)
    ensures Less(a, b) && Less(b, c) ==> Less(a, c)
    ensures Eq(a, b) <==> !Less(a, b) && !Less(b, a)
    ensures Eq(a, b) && Eq(b, c) ==> Eq(a, c)
    ensures Eq(a, b) ==> (Less(a, c) <==> Less(b, c)) && (Less(c, a) <==> Less(c, b))
  {
    Trichotomy(a, a);
    Trichotomy(a, b);
    Trichotomy(b, a);
    Trichotomy(b, c);
    Trichotomy(a, c);
    Trichotomy(c, a);
    Trichotomy(c, b);
    if !Less(b, a) && !Less(c, b) { Transitive(a, b, c); }
    if !Less(a, b) && !Less(c, a) { Transitive(b, a, c); }
    if !Less(b, c) && !Less(a, b) { Transitive(c, b, a); }
    if !Less(a, c) && !Less(b, a) { Transitive(c, a, b); }
  }

  /**
    `operator<=` is not the order's "less or equal": it holds exactly when the left side is
    equal or GREATER, so it agrees with the intended meaning exactly on equal values.
   */
  lemma LessEqualIsReversed(a: Value, b: Value)
    ensures LessEqual(a, b) <==> Eq(a, b) || Less(b, a)
    ensures (LessEqual(a, b) <==> (Eq(a, b) || Less(a, b))) <==> Eq(a, b)
    ensures LessEqual(Bool(true), Bool(false)) && !LessEqual(Bool(false), Bool(true))
  {
    Trichotomy(a, b);
    Trichotomy(b, a);
  }

  // ---------------------------------------------------------------- operator[]

  /** `resolveReference`: the value held under a name, or null when absent. */
  function Lookup(ms: seq<Member>, name: string): (v: Value)
    ensures (forall m <- ms :: m.name != name) ==> v == Null
    ensures forall i :: 0 <= i < |ms| && ms[i].name == name && (forall j :: 0 <= j < i ==> ms[j].name != name) ==>
              v == ms[i].item
  {
    if ms == [] then Null
    else if ms[0].name == name then ms[0].item
    else
      assert forall i :: 1 <= i < |ms| ==> ms[i] == ms[1..][i - 1];
      Lookup(ms[1..], name)
  }

  /** Storing through the reference `operator[]` returns: replace in place or insert in order. */
  function Put(ms: seq<Member>, name: string, v: Value): (r: seq<Member>)
    ensures r != []
  {
    if ms == [] then [Member(name, v)]
    else if ms[0].name == name then [Member(name, v)] + ms[1..]
    else if StrLess(name, ms[0].name) then [Member(name, v)] + ms
    else [ms[0]] + Put(ms[1..], name, v)
  }

  /** A name beyond all present ones is inserted at the end. */
  lemma {:induction false} PutAtEnd(ms: seq<Member>, name: string, v: Value)
    requires forall m <- ms :: StrLess(m.name, name)
    ensures Put(ms, name, v) == ms + [Member(name, v)]
  {
    if ms != [] {
      StrTrichotomy(ms[0].name, name);
      PutAtEnd(ms[1..], name, v);
      assert ms == [ms[0]] + ms[1..];
    }
  }

  lemma {:induction false} PutContents(ms: seq<Member>, name: string, v: Value)
    ensures forall m <- Put(ms, name, v) :: m == Member(name, v) || m in ms
    ensures Member(name, v) in Put(ms, name, v)
    ensures forall m <- ms :: m.name != name ==> m in Put(ms, name, v)
  {
    if ms != [] {
      PutContents(ms[1..], name, v);
      assert ms == [ms[0]] + ms[1..];
    }
  }

  /** Storing a well-formed value under a NUL-free name keeps an object well formed, its names in order. */
  lemma PutKeepsWf(ms: seq<Member>, name: string, v: Value)
    requires Wf(Object(ms)) && NulFree(name) && Wf(v)
    ensures Wf(Object(Put(ms, name, v)))
  {
    PutKeepsOrder(ms, name, v);
    PutKeepsMembers(ms, name, v);
  }

  lemma {:induction false} PutKeepsMembers(ms: seq<Member>, name: string, v: Value)
    requires WfMembers(ms) && NulFree(name) && Wf(v)
    ensures WfMembers(Put(ms, name, v))
  {
    if ms != [] {
      PutKeepsMembers(ms[1..], name, v);
    }
  }

  /** Storing keeps the keys in order. */
  lemma {:induction false} PutKeepsOrder(ms: seq<Member>, name: string, v: Value)
    requires AscendingNames(ms)
    ensures AscendingNames(Put(ms, name, v))
  {
    if ms != [] {
      var h, t := ms[0], ms[1..];
      StrTrichotomy(h.name, name);
      if h.name != name && StrLess(name, h.name) {
        forall k | 0 <= k < |ms| ensures StrLess(name, ms[k].name) {
          if k > 0 { StrTransitive(name, h.name, ms[k].name); }
        }
      } else if h.name != name {
        PutKeepsOrder(t, name, v);
        PutContents(t, name, v);
        var r := Put(t, name, v);
        forall k | 0 <= k < |r| ensures StrLess(h.name, r[k].name) {
          assert r[k] in r;
          if r[k] != Member(name, v) {
            var q :| 0 <= q < |t| && t[q] == r[k];
            assert ms[q + 1] == t[q];
          }
        }
      }
    }
  }

  // ---------------------------------------------------------------- reading items back

  /** `operator[](UInt) const`: the value at an index, or null in a gap. */
  function ItemAt(es: seq<Elem>, index: int): (v: Value)
    ensures Weight(v) <= ElemsWeight(es)
    ensures WfElems(es) ==> Wf(v)
  {
    if es == [] then Null
    else if es[0].index == index then es[0].item
    else ItemAt(es[1..], index)
  }

  lemma {:induction false} ItemAtFinds(es: seq<Elem>, k: nat)
    requires AscendingIndices(es) && k < |es|
    ensures ItemAt(es, es[k].index) == es[k].item
  {
    if k > 0 {
      assert es[0].index < es[k].index;
      ItemAtFinds(es[1..], k - 1);
    }
  }

  /** A member's value is what `operator[]` finds under its name. */
  lemma {:induction false} LookupMember(ms: seq<Member>, k: nat)
    requires AscendingNames(ms) && k < |ms|
    ensures Lookup(ms, ms[k].name) == ms[k].item
  {
    if k > 0 {
      StrTrichotomy(ms[0].name, ms[k].name);
      LookupMember(ms[1..], k - 1);
    }
  }

  lemma {:induction false} MemberFacts(ms: seq<Member>, k: nat)
    requires k < |ms|
    ensures Weight(ms[k].item) < MembersWeight(ms)
    ensures WfMembers(ms) ==> Wf(ms[k].item) && NulFree(ms[k].name)
  {
    if k > 0 {
      MemberFacts(ms[1..], k - 1);
    }
  }
}
