/**
  Which way `operator<` of public/json/json_value.cpp runs: on values without children it extends
  the natural orders, and on containers the number of entries and then the first difference decides.
 */
module JsonOrder {
  import opened Common
  import opened JsonValue

  /** The types as the enumeration lists them. */
  ghost function TypesInOrder(): (types: seq<Value -> bool>)
    ensures |types| == 8
  {
    [(v: Value) => v.Null?, (v: Value) => v.Int?, (v: Value) => v.UInt?, (v: Value) => v.Real?,
     (v: Value) => v.NullStr? || v.Str?, (v: Value) => v.Bool?, (v: Value) => v.Array?, (v: Value) => v.Object?]
  }

  lemma TypeFound(v: Value)
    ensures exists i :: 0 <= i < 8 && TypesInOrder()[i](v)
  {
    var i := if v.Null? then 0 else if v.Int? then 1 else if v.UInt? then 2 else if v.Real? then 3
             else if v.NullStr? || v.Str? then 4 else if v.Bool? then 5 else if v.Array? then 6 else 7;
    assert TypesInOrder()[i](v);
  }

  /** Values of different types follow the order of the types. */
  lemma TypesDecide(a: Value, b: Value, i: nat, j: nat)
    requires i < 8 && j < 8 && i != j && TypesInOrder()[i](a) && TypesInOrder()[j](b)
    ensures Less(a, b) <==> i < j
  {
  }

  /** Values of one type without children follow the order of what they hold. */
  lemma NaturalOrder(a: Value, b: Value)
    ensures a.Int? && b.Int? ==> (Less(a, b) <==> a.i < b.i)
    ensures a.UInt? && b.UInt? ==> (Less(a, b) <==> a.u < b.u)
    ensures a.Real? && b.Real? ==> (Less(a, b) <==> a.r < b.r)
    ensures a.NullStr? && b.Str? ==> Less(a, b) && !Less(b, a)
    ensures a.Str? && b.Str? ==> (Less(a, b) <==> TextBefore(CStr(a.s), CStr(b.s)))
    ensures Less(Bool(false), Bool(true)) && !Less(Bool(true), Bool(false))
  {
    hide TextBefore;
    if a.Str? && b.Str? {
      StrLessIs(CStr(a.s), CStr(b.s));
    }
  }

  // ---------------------------------------------------------------- the first difference

  /** `strcmp`: the texts agree up to a place where the left one ends or has the smaller character. */
  ghost predicate TextBefore(a: string, b: string) {
    exists k :: Differ(a, b, k)
  }

  ghost predicate Differ(a: string, b: string, k: int) {
    0 <= k <= |a| && k < |b| && (forall j :: 0 <= j < k ==> a[j] == b[j]) && (k == |a| || a[k] < b[k])
  }

  lemma {:induction false} StrLessIs(a: string, b: string)
    ensures StrLess(a, b) <==> TextBefore(a, b)
  {
    if a != [] && b != [] && a[0] == b[0] {
      StrLessIs(a[1..], b[1..]);
      if StrLess(a, b) {
        var k :| Differ(a[1..], b[1..], k);
        assert Differ(a, b, k + 1);
      } else if TextBefore(a, b) {
        var k :| Differ(a, b, k);
        assert Differ(a[1..], b[1..], k - 1);
      }
    } else if StrLess(a, b) {
      assert Differ(a, b, 0);
    }
  }

  /** At entry `k` the left array has the smaller index, or the same index and the smaller item. */
  ghost predicate ElemDecides(a: seq<Elem>, b: seq<Elem>, k: int) {
    && 0 <= k < |a| == |b|
    && (forall j :: 0 <= j < k ==> a[j].index == b[j].index && Eq(a[j].item, b[j].item))
    && (a[k].index < b[k].index || (a[k].index == b[k].index && Less(a[k].item, b[k].item)))
  }

  ghost predicate MemberDecides(a: seq<Member>, b: seq<Member>, k: int) {
    && 0 <= k < |a| == |b|
    && (forall j :: 0 <= j < k ==> a[j].name == b[j].name && Eq(a[j].item, b[j].item))
    && (TextBefore(a[k].name, b[k].name) || (a[k].name == b[k].name && Less(a[k].item, b[k].item)))
  }

  /** The array with fewer entries is less; with as many, the one less at the first difference. */
  lemma ArrayOrder(a: seq<Elem>, b: seq<Elem>)
    ensures Less(Array(a), Array(b)) <==> |a| < |b| || exists k :: ElemDecides(a, b, k)
  {
    if |a| == |b| {
      ElemsOrder(a, b);
    }
  }

  /** The first entries decide, unless they are equal. */
  lemma ElemsHead(a: seq<Elem>, b: seq<Elem>)
    requires 0 < |a| == |b|
    ensures ElemsLess(a, b) <==> ElemLess(a[0], b[0]) || (!ElemLess(b[0], a[0]) && ElemsLess(a[1..], b[1..]))
    ensures ElemLess(a[0], b[0]) <==>
              a[0].index < b[0].index || (a[0].index == b[0].index && Less(a[0].item, b[0].item))
    ensures !ElemLess(a[0], b[0]) && !ElemLess(b[0], a[0]) <==>
              a[0].index == b[0].index && Eq(a[0].item, b[0].item)
  {
    hide Less, Eq;
    Trichotomy(a[0].item, b[0].item);
  }

  lemma NoElems(b: seq<Elem>)
    ensures ElemsLess([], b) <==> b != []
  {
  }

  lemma {:induction false} ElemsOrder(a: seq<Elem>, b: seq<Elem>)
    requires |a| == |b|
    ensures ElemsLess(a, b) <==> exists k :: ElemDecides(a, b, k)
    decreases |a|
  {
    hide Less, Eq, ElemLess, ElemsLess;
    if a == [] {
      NoElems(b);
    } else {
      ElemsHead(a, b);
      ElemsOrder(a[1..], b[1..]);
      if ElemLess(a[0], b[0]) {
        assert ElemDecides(a, b, 0);
      } else if !ElemLess(b[0], a[0]) && ElemsLess(a[1..], b[1..]) {
        var k :| ElemDecides(a[1..], b[1..], k);
        assert forall j :: 1 <= j < |a| ==> a[j] == a[1..][j - 1] && b[j] == b[1..][j - 1];
        assert ElemDecides(a, b, k + 1);
      }
      if k :| ElemDecides(a, b, k) && k > 0 {
        assert ElemDecides(a[1..], b[1..], k - 1);
      }
    }
  }

  /** The object with fewer members is less; with as many, the one less at the first difference. */
  lemma ObjectOrder(a: seq<Member>, b: seq<Member>)
    ensures Less(Object(a), Object(b)) <==> |a| < |b| || exists k :: MemberDecides(a, b, k)
  {
    if |a| == |b| {
      MembersOrder(a, b);
    }
  }

  /** The first members decide, unless they are equal. */
  lemma MembersHead(a: seq<Member>, b: seq<Member>)
    requires 0 < |a| == |b|
    ensures MembersLess(a, b) <==>
              MemberLess(a[0], b[0]) || (!MemberLess(b[0], a[0]) && MembersLess(a[1..], b[1..]))
    ensures MemberLess(a[0], b[0]) <==>
              TextBefore(a[0].name, b[0].name) || (a[0].name == b[0].name && Less(a[0].item, b[0].item))
    ensures !MemberLess(a[0], b[0]) && !MemberLess(b[0], a[0]) <==>
              a[0].name == b[0].name && Eq(a[0].item, b[0].item)
  {
    hide Less, Eq, StrLess, TextBefore;
    Trichotomy(a[0].item, b[0].item);
    StrTrichotomy(a[0].name, b[0].name);
    StrLessIs(a[0].name, b[0].name);
  }

  lemma NoMembers(b: seq<Member>)
    ensures MembersLess([], b) <==> b != []
  {
  }

  lemma {:induction false} MembersOrder(a: seq<Member>, b: seq<Member>)
    requires |a| == |b|
    ensures MembersLess(a, b) <==> exists k :: MemberDecides(a, b, k)
    decreases |a|
  {
    hide Less, Eq, TextBefore, MemberLess, MembersLess;
    if a == [] {
      NoMembers(b);
    } else {
      MembersHead(a, b);
      MembersOrder(a[1..], b[1..]);
      if MemberLess(a[0], b[0]) {
        assert MemberDecides(a, b, 0);
      } else if !MemberLess(b[0], a[0]) && MembersLess(a[1..], b[1..]) {
        var k :| MemberDecides(a[1..], b[1..], k);
        assert forall j :: 1 <= j < |a| ==> a[j] == a[1..][j - 1] && b[j] == b[1..][j - 1];
        assert MemberDecides(a, b, k + 1);
      }
      if k :| MemberDecides(a, b, k) && k > 0 {
        assert MemberDecides(a[1..], b[1..], k - 1);
      }
    }
  }

  /** A greater item makes a greater container, whatever stands before and behind it. */
  lemma GreaterItem(es: seq<Elem>, ms: seq<Member>, k: nat, v: Value)
    ensures k < |es| && Less(es[k].item, v) ==> Less(Array(es), Array(es[k := Elem(es[k].index, v)]))
    ensures k < |ms| && Less(ms[k].item, v) ==> Less(Object(ms), Object(ms[k := Member(ms[k].name, v)]))
  {
    hide Less, Eq, TextBefore;
    forall x: Value ensures Eq(x, x) {
      StrictTotalOrder(x, x, x);
    }
    if k < |es| && Less(es[k].item, v) {
      var es' := es[k := Elem(es[k].index, v)];
      assert ElemDecides(es, es', k);
      ArrayOrder(es, es');
    }
    if k < |ms| && Less(ms[k].item, v) {
      var ms' := ms[k := Member(ms[k].name, v)];
      assert MemberDecides(ms, ms', k);
      ObjectOrder(ms, ms');
    }
  }
}
