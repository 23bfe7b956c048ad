/**
  The apportionment of `CTaskExam::FinishInit` in public/astTask/astTask.cpp: scores become whole
  percentages that sum to one hundred.
 */
module TaskExam {

  datatype Item = Item(score: int, percent: int)

  // ---------------------------------------------------------------- sums

  function Sum(s: seq<int>): (t: int) {
    if s == [] then 0 else s[0] + Sum(s[1..])
  }

  lemma {:induction false} SumSnoc(s: seq<int>, x: int)
    ensures Sum(s + [x]) == Sum(s) + x
    decreases |s|
  {
    if s == [] {
      assert [x][1..] == [];
      assert s + [x] == [x];
    } else {
      assert (s + [x])[1..] == s[1..] + [x];
      SumSnoc(s[1..], x);
    }
  }

  lemma {:induction false} SumUpdate(s: seq<int>, i: nat, x: int)
    requires i < |s|
    ensures Sum(s[i := x]) == Sum(s) - s[i] + x
    decreases |s|
  {
    if i == 0 {
      assert s[0 := x][1..] == s[1..];
    } else {
      assert s[i := x][1..] == s[1..][i - 1 := x];
      SumUpdate(s[1..], i - 1, x);
    }
  }

  lemma SumTake(s: seq<int>, i: nat)
    requires i < |s|
    ensures Sum(s[..i + 1]) == Sum(s[..i]) + s[i]
  {
    hide Sum;
    assert s[..i + 1] == s[..i] + [s[i]];
    SumSnoc(s[..i], s[i]);
  }

  // ---------------------------------------------------------------- the first percentages

  /** `(int)((double)score*100/(double)total)`. */
  function Share(score: nat, total: nat): (p: nat)
    requires total > 0
  {
    score * 100 / total
  }

  /** No item is left with nothing. */
  function Base(score: nat, total: nat): (p: nat)
    requires total > 0
    ensures p >= 1
  {
    if Share(score, total) == 0 then 1 else Share(score, total)
  }

  /** A first percentage is the whole part of the score's share of one hundred, or one when that is zero. */
  lemma BaseIs(score: nat, total: nat)
    requires total > 0
    ensures var b := Base(score, total);
            if 100 * score < total then b == 1 else b * total <= 100 * score < (b + 1) * total
  {
    var n, q := 100 * score, Share(score, total);
    QuotientIs(n, total, q, n % total);
  }

  lemma QuotientIs(n: nat, t: nat, q: nat, r: nat)
    requires n == t * q + r && r < t
    ensures q * t <= n < (q + 1) * t && (n < t <==> q == 0)
  {
    assert t * q == q * t && (q + 1) * t == q * t + t;
    if q > 0 {
      AtLeast(t, q);
    }
  }

  lemma AtLeast(t: nat, q: nat)
    requires q > 0
    ensures q * t >= t
  {
    assert q * t == (q - 1) * t + t;
  }

  predicate Scores(s: seq<int>) {
    forall i :: 0 <= i < |s| ==> s[i] >= 0
  }

  function Bases(s: seq<int>, total: nat): (b: seq<int>)
    requires Scores(s) && total > 0
    ensures |b| == |s| && forall i :: 0 <= i < |s| ==> b[i] == Base(s[i], total)
  {
    seq(|s|, i requires 0 <= i < |s| => Base(s[i], total))
  }

  lemma Shared(score: nat, total: nat)
    requires total > 0
    ensures total * Share(score, total) <= 100 * score < total * Share(score, total) + total
  {
  }

  /** Rounding down loses less than one per item, and setting zeros to one adds at most one per item. */
  lemma {:induction false} BasesBound(s: seq<int>, total: nat)
    requires Scores(s) && total > 0
    ensures 100 * Sum(s) <= total * Sum(Bases(s, total)) + |s| * total
    ensures s != [] ==> 100 * Sum(s) < total * Sum(Bases(s, total)) + |s| * total
    ensures total * Sum(Bases(s, total)) <= 100 * Sum(s) + |s| * total
    decreases |s|
  {
    hide Share, Base;
    if s != [] {
      var rest := s[1..];
      BasesBound(rest, total);
      assert Bases(s, total)[1..] == Bases(rest, total);
      OneBase(s[0], total);
      Distribute(total, Base(s[0], total), Sum(Bases(rest, total)), |rest|);
    }
  }

  lemma OneBase(score: nat, total: nat)
    requires total > 0
    ensures 100 * score < total * Base(score, total) + total
    ensures total * Base(score, total) <= 100 * score + total
  {
    Shared(score, total);
  }

  lemma Distribute(t: nat, a: int, b: int, n: nat)
    ensures t * (a + b) == t * a + t * b && (n + 1) * t == n * t + t
  {
  }

  /** The correction never asks for more items than there are. */
  lemma CorrectionFits(s: seq<int>)
    requires Scores(s) && Sum(s) > 0
    ensures s != [] && -|s| <= 100 - Sum(Bases(s, Sum(s))) < |s|
  {
    var t := Sum(s);
    var c := Sum(Bases(s, t));
    hide Sum, Bases;
    BasesBound(s, t);
    NotEmpty(s);
    Between(t, c, |s|);
  }

  lemma Between(t: nat, c: int, n: nat)
    requires t > 0 && 100 * t < t * c + n * t && t * c <= 100 * t + n * t
    ensures 100 - c < n && c - 100 <= n
  {
    Expand(t, c, n);
    Expand(t, 100, n);
    Divide(t, c + n, 100);
    Divide(t, 100 + n, c);
  }

  lemma NotEmpty(s: seq<int>)
    ensures Sum(s) > 0 ==> s != []
  {
  }

  lemma Expand(t: nat, c: int, n: nat)
    ensures t * (c + n) == t * c + n * t
  {
  }

  lemma Divide(t: nat, a: int, b: int)
    requires t > 0
    ensures t * a > t * b ==> a > b
    ensures t * a >= t * b ==> a >= b
  {
    assert t * (b - a) == t * b - t * a;
    if a < b {
      assert t * (b - a) > 0;
    }
  }

  // ---------------------------------------------------------------- ranking

  /** Item `i` comes before item `j`: a higher score, or the same score and an earlier place. */
  predicate Before(s: seq<int>, i: int, j: int)
    requires 0 <= i < |s| && 0 <= j < |s|
  {
    s[i] > s[j] || (s[i] == s[j] && i < j)
  }

  function Places(n: nat): (v: seq<int>) {
    if n == 0 then [] else Places(n - 1) + [n - 1]
  }

  /** `v` is a permutation of the first `n` places, in descending order of score. */
  ghost predicate Ranking(s: seq<int>, n: nat, v: seq<int>)
    requires n <= |s|
  {
    && |v| == n && multiset(v) == multiset(Places(n))
    && (forall k :: 0 <= k < |v| ==> 0 <= v[k] < n)
    && (forall k, l :: 0 <= k < l < |v| ==> Before(s, v[k], v[l]))
  }

  /** Where the next item goes: before the first listed one with a lower score. */
  method FindPlace(s: seq<int>, v: seq<int>, off: nat) returns (ni: nat)
    requires off < |s| && Ranking(s, off, v)
    ensures ni <= |v|
    ensures forall k :: 0 <= k < ni ==> Before(s, v[k], off)
    ensures forall k :: ni <= k < |v| ==> Before(s, off, v[k])
  {
    ni := 0;
    while ni < |v|
      invariant 0 <= ni <= |v|
      invariant forall k :: 0 <= k < ni ==> Before(s, v[k], off)
    {
      if s[off] > s[v[ni]] {
        break;
      }
      ni := ni + 1;
    }
  }

  lemma InsertRanks(s: seq<int>, v: seq<int>, off: nat, ni: nat)
    requires off < |s| && Ranking(s, off, v) && ni <= |v|
    requires forall k :: 0 <= k < ni ==> Before(s, v[k], off)
    requires forall k :: ni <= k < |v| ==> Before(s, off, v[k])
    ensures Ranking(s, off + 1, v[..ni] + [off] + v[ni..])
  {
    hide Before, Places;
    var w := v[..ni] + [off] + v[ni..];
    InsertMultiset(v, off, ni);
    OneMore(off);
    forall k | 0 <= k < |w| ensures 0 <= w[k] < off + 1 {
      InsertedAt(v, off, ni, k);
    }
    forall k, l | 0 <= k < l < |w| ensures Before(s, w[k], w[l]) {
      InsertedAt(v, off, ni, k);
      InsertedAt(v, off, ni, l);
    }
  }

  lemma InsertedAt(v: seq<int>, x: int, at: nat, k: nat)
    requires at <= |v| && k <= |v|
    ensures (v[..at] + [x] + v[at..])[k] == if k < at then v[k] else if k == at then x else v[k - 1]
  {
  }

  lemma InsertMultiset(v: seq<int>, x: int, at: nat)
    requires at <= |v|
    ensures multiset(v[..at] + [x] + v[at..]) == multiset(v) + multiset{x}
  {
    assert v == v[..at] + v[at..];
  }

  lemma OneMore(n: nat)
    ensures multiset(Places(n + 1)) == multiset(Places(n)) + multiset{n}
  {
  }

  lemma EmptyRanking(s: seq<int>)
    ensures Ranking(s, 0, [])
  {
  }

  method RankByScore(s: seq<int>) returns (vmax: seq<int>)
    ensures Ranking(s, |s|, vmax)
  {
    hide Before, Ranking;
    vmax := [];
    EmptyRanking(s);
    var off := 0;
    while off < |s|
      invariant 0 <= off <= |s| && Ranking(s, off, vmax)
    {
      var ni := FindPlace(s, vmax, off);
      InsertRanks(s, vmax, off, ni);
      vmax := vmax[..ni] + [off] + vmax[ni..];
      off := off + 1;
    }
  }

  /** No item is listed twice. */
  lemma RankingDistinct(s: seq<int>, v: seq<int>)
    requires Ranking(s, |s|, v)
    ensures forall k, l :: 0 <= k < l < |v| ==> v[k] != v[l]
  {
    forall k, l | 0 <= k < l < |v| ensures v[k] != v[l] {
      assert Before(s, v[k], v[l]);
    }
  }

  // ---------------------------------------------------------------- the adjustment

  function Sign(pad: int): (d: int) {
    if pad < 0 then -1 else 1
  }

  function Abs(x: int): (n: nat) {
    if x < 0 then -x else x
  }

  /** The first `m` ranked items move by `d`, the others stay. */
  ghost predicate Adjusted(before: seq<int>, after: seq<int>, v: seq<int>, m: nat, d: int)
    requires |before| == |after| == |v| && m <= |v|
    requires forall k :: 0 <= k < |v| ==> 0 <= v[k] < |v|
  {
    && (forall k :: 0 <= k < m ==> after[v[k]] == before[v[k]] + d)
    && (forall k :: m <= k < |v| ==> after[v[k]] == before[v[k]])
    && (forall i :: 0 <= i < |before| ==> after[i] == before[i] || after[i] == before[i] + d)
  }

  method Adjust(s: seq<int>, percents: seq<int>, vmax: seq<int>, nPad: int) returns (p: seq<int>)
    requires |percents| == |s| && Ranking(s, |s|, vmax) && Abs(nPad) <= |s|
    ensures |p| == |s| && Adjusted(percents, p, vmax, Abs(nPad), Sign(nPad))
    ensures Sum(p) == Sum(percents) + nPad
  {
    hide Before, Sum;
    RankingDistinct(s, vmax);
    p := percents;
    var nLoop := nPad;
    if nPad < 0 {
      nLoop := 0 - nPad;
    }
    var k := 0;
    while k < |vmax| && nLoop > 0
      invariant 0 <= k <= |vmax| && nLoop == Abs(nPad) - k >= 0 && |p| == |s|
      invariant Adjusted(percents, p, vmax, k, Sign(nPad))
      invariant Sum(p) == Sum(percents) + Sign(nPad) * k
    {
      var i := vmax[k];
      SumUpdate(p, i, p[i] + Sign(nPad));
      AdjustOne(percents, p, vmax, k, Sign(nPad));
      if nPad < 0 {
        p := p[i := p[i] - 1];
      } else {
        p := p[i := p[i] + 1];
      }
      k, nLoop := k + 1, nLoop - 1;
    }
  }

  lemma AdjustOne(before: seq<int>, p: seq<int>, v: seq<int>, k: nat, d: int)
    requires |before| == |p| == |v| && k < |v|
    requires forall k :: 0 <= k < |v| ==> 0 <= v[k] < |v|
    requires forall k, l :: 0 <= k < l < |v| ==> v[k] != v[l]
    requires Adjusted(before, p, v, k, d)
    ensures Adjusted(before, p[v[k] := p[v[k]] + d], v, k + 1, d)
  {
  }

  // ---------------------------------------------------------------- fairness

  /** A higher score never ends with a lower percentage. */
  ghost predicate Fair(s: seq<int>, p: seq<int>)
    requires |s| == |p|
  {
    forall i, j :: 0 <= i < |s| && 0 <= j < |s| && s[i] > s[j] ==> p[i] >= p[j]
  }

  /** An item among the first `m` has a higher score but the same percentage as one after them. */
  ghost predicate Contested(s: seq<int>, b: seq<int>, v: seq<int>, m: nat)
    requires |s| == |b| == |v| && m <= |v| && forall k :: 0 <= k < |v| ==> 0 <= v[k] < |v|
  {
    exists k, l :: 0 <= k < m <= l < |v| && s[v[k]] > s[v[l]] && b[v[k]] == b[v[l]]
  }

  lemma MulDiv(a: nat, b: nat, t: nat)
    requires t > 0 && a <= b
    ensures Base(a, t) <= Base(b, t)
  {
    Shared(a, t);
    Shared(b, t);
    Divide(t, Share(b, t) + 1, Share(a, t));
    assert t * (Share(b, t) + 1) == t * Share(b, t) + t;
    hide Share;
  }

  /**
    Raising the first items is always fair. Lowering them is fair exactly when none of them was
    level with a lower score that is not lowered.
   */
  lemma FairExactly(s: seq<int>, t: nat, p: seq<int>, v: seq<int>, m: nat, d: int)
    requires Scores(s) && t > 0 && |p| == |s| && Ranking(s, |s|, v) && m <= |s| && (d == 1 || d == -1)
    requires Adjusted(Bases(s, t), p, v, m, d)
    ensures Fair(s, p) <==> d == 1 || !Contested(s, Bases(s, t), v, m)
  {
    hide Base;
    var b := Bases(s, t);
    forall i, j | 0 <= i < |s| && 0 <= j < |s| && s[i] > s[j] ensures b[i] >= b[j] {
      MulDiv(s[j], s[i], t);
    }
    if d == 1 || !Contested(s, b, v, m) {
      forall i, j | 0 <= i < |s| && 0 <= j < |s| && s[i] > s[j] ensures p[i] >= p[j] {
        var k := PlaceOf(s, v, i);
        var l := PlaceOf(s, v, j);
        InOrder(s, v, l, k);
      }
    } else {
      var k, l :| 0 <= k < m <= l < |v| && s[v[k]] > s[v[l]] && b[v[k]] == b[v[l]];
      assert p[v[k]] < p[v[l]];
    }
  }

  /** Without a correction nothing changes the order of the scores. */
  lemma FairBases(s: seq<int>, t: nat)
    requires Scores(s) && t > 0
    ensures Fair(s, Bases(s, t))
  {
    hide Base;
    var b := Bases(s, t);
    forall i, j | 0 <= i < |s| && 0 <= j < |s| && s[i] > s[j] ensures b[i] >= b[j] {
      MulDiv(s[j], s[i], t);
    }
  }

  /** There is only one ranking. */
  lemma {:induction false} RankingUnique(s: seq<int>, v: seq<int>, w: seq<int>, k: nat)
    requires Ranking(s, |s|, v) && Ranking(s, |s|, w) && k <= |s|
    ensures forall i :: 0 <= i < k ==> v[i] == w[i]
    decreases k
  {
    if k > 0 {
      RankingUnique(s, v, w, k - 1);
      var x, y := v[k - 1], w[k - 1];
      var i := PlaceOf(s, w, x);
      var j := PlaceOf(s, v, y);
      RankingDistinct(s, v);
      RankingDistinct(s, w);
      InOrder(s, w, k - 1, i);
      InOrder(s, v, k - 1, j);
    }
  }

  /** A lowered item had a higher score than one that keeps the same percentage. */
  ghost predicate Disputed(s: seq<int>, b: seq<int>)
    requires |s| == |b|
  {
    exists v :: Ranking(s, |s|, v) && 0 <= Sum(b) - 100 <= |s| && Contested(s, b, v, Sum(b) - 100)
  }

  lemma DisputedIs(s: seq<int>, b: seq<int>, v: seq<int>, m: nat)
    requires |s| == |b| && Ranking(s, |s|, v) && m == Sum(b) - 100 <= |s|
    ensures Disputed(s, b) <==> Contested(s, b, v, m)
  {
    hide Before, Sum, Contested;
    if Disputed(s, b) {
      var w :| Ranking(s, |s|, w) && Contested(s, b, w, m);
      RankingUnique(s, v, w, |s|);
      assert v == w;
    }
  }

  lemma InOrder(s: seq<int>, v: seq<int>, k: nat, l: nat)
    requires Ranking(s, |s|, v) && k < |v| && l < |v|
    ensures k < l ==> Before(s, v[k], v[l])
  {
  }

  /** Fairness of the correction, upward or downward. */
  lemma FairAdjusted(s: seq<int>, t: nat, b: seq<int>, p: seq<int>, v: seq<int>, pad: int)
    requires Scores(s) && t > 0 && b == Bases(s, t) && |p| == |s| && Ranking(s, |s|, v)
    requires pad == 100 - Sum(b) && Abs(pad) <= |s| && Adjusted(b, p, v, Abs(pad), Sign(pad))
    ensures Fair(s, p) <==> Sum(b) <= 100 || !Disputed(s, b)
  {
    hide Sum, Before, Base, Fair, Disputed, Contested;
    FairExactly(s, t, p, v, Abs(pad), Sign(pad));
    if pad < 0 {
      DisputedIs(s, b, v, -pad);
    }
  }

  lemma PlaceOf(s: seq<int>, v: seq<int>, i: nat) returns (k: nat)
    requires Ranking(s, |s|, v) && i < |s|
    ensures k < |v| && v[k] == i
  {
    InPlaces(|s|, i);
    assert i in multiset(v);
    k :| 0 <= k < |v| && v[k] == i;
  }

  lemma {:induction false} InPlaces(n: nat, i: nat)
    requires i < n
    ensures i in multiset(Places(n))
  {
    if i < n - 1 {
      InPlaces(n - 1, i);
    }
  }

  const UNEVEN: seq<int> := [335, 334, 331, 0, 0]

  lemma UnevenBases()
    ensures Sum(UNEVEN) == 1000 && Bases(UNEVEN, 1000) == [33, 33, 33, 1, 1] && Sum(Bases(UNEVEN, 1000)) == 101
  {
    SumOfFive(UNEVEN);
    SumOfFive([33, 33, 33, 1, 1]);
  }

  lemma SumOfFive(s: seq<int>)
    requires |s| == 5
    ensures Sum(s) == s[0] + s[1] + s[2] + s[3] + s[4]
  {
    assert Sum(s) == s[0] + (s[1..][0] + (s[2..][0] + (s[3..][0] + (s[4..][0] + Sum(s[5..]))))) by {
      assert s[1..][1..] == s[2..] && s[2..][1..] == s[3..] && s[3..][1..] == s[4..] && s[4..][1..] == s[5..];
    }
  }

  /** It does happen: whatever `FinishInit` may make of these scores, 335 and 334 end with 32 and 33. */
  lemma Unfair(p: seq<int>, v: seq<int>)
    requires |p| == 5 && Ranking(UNEVEN, 5, v) && Sum(UNEVEN) > 0
    requires var pad := 100 - Sum(Bases(UNEVEN, Sum(UNEVEN)));
             pad != 0 && Abs(pad) <= 5 && Adjusted(Bases(UNEVEN, Sum(UNEVEN)), p, v, Abs(pad), Sign(pad))
    ensures p[0] == 32 && p[1] == 33 && !Fair(UNEVEN, p)
  {
    hide Sum;
    UnevenBases();
    var k := PlaceOf(UNEVEN, v, 0);
    var l := PlaceOf(UNEVEN, v, 1);
    InOrder(UNEVEN, v, 0, k);
  }

  // ---------------------------------------------------------------- the examination

  function ScoresOf(items: seq<Item>): (s: seq<int>)
    ensures |s| == |items| && forall i :: 0 <= i < |s| ==> s[i] == items[i].score
  {
    seq(|items|, i requires 0 <= i < |items| => items[i].score)
  }

  function PercentsOf(items: seq<Item>): (s: seq<int>)
    ensures |s| == |items| && forall i :: 0 <= i < |s| ==> s[i] == items[i].percent
  {
    seq(|items|, i requires 0 <= i < |items| => items[i].percent)
  }

  class Exam {
    var items: seq<Item>

    constructor (items: seq<Item>)
      ensures this.items == items
    {
      this.items := items;
    }

    method TotalScore() returns (nTotal: int)
      ensures nTotal == Sum(ScoresOf(items))
    {
      hide Sum;
      nTotal := 0;
      var s := ScoresOf(items);
      NoSum(s);
      var i := 0;
      while i < |items|
        invariant 0 <= i <= |items| && nTotal == Sum(s[..i])
      {
        SumTake(s, i);
        nTotal := nTotal + items[i].score;
        i := i + 1;
      }
      assert s[..i] == s;
    }

    /** The loop that rounds down and sets zeros to one; `nC` is the sum so far. */
    method FirstPercents(nTotal: nat) returns (p: seq<int>, nC: int)
      requires nTotal > 0 && Scores(ScoresOf(items))
      ensures p == Bases(ScoresOf(items), nTotal) && nC == Sum(p)
    {
      hide Sum;
      p, nC := [], 0;
      ghost var all := Bases(ScoresOf(items), nTotal);
      NoSum(all);
      var i := 0;
      while i < |items|
        invariant 0 <= i <= |items| && p == all[..i] && nC == Sum(all[..i])
      {
        assert ScoresOf(items)[i] == items[i].score;
        var percent := items[i].score * 100 / nTotal;
        if percent == 0 {
          percent := percent + 1;
        }
        SumTake(all, i);
        p := p + [percent];
        nC := nC + percent;
        i := i + 1;
      }
      assert all[..i] == all;
    }

    /**
      `FinishInit`: the percentages sum to exactly one hundred and none is negative. Each is the
      share rounded down, at least one, and corrected by at most one, the highest scores first.
     */
    method FinishInit()
      requires Scores(ScoresOf(items)) && Sum(ScoresOf(items)) > 0
      modifies this
      ensures ScoresOf(items) == old(ScoresOf(items))
      ensures Sum(PercentsOf(items)) == 100
      ensures forall i :: 0 <= i < |items| ==> items[i].percent >= 0
      ensures var s := ScoresOf(items);
              var b := Bases(s, Sum(s));
              if Sum(b) == 100 then PercentsOf(items) == b
              else exists v :: Ranking(s, |s|, v) && Abs(100 - Sum(b)) <= |s|
                               && Adjusted(b, PercentsOf(items), v, Abs(100 - Sum(b)), Sign(100 - Sum(b)))
      ensures var s := ScoresOf(items);
              var b := Bases(s, Sum(s));
              Fair(s, PercentsOf(items)) <==> Sum(b) <= 100 || !Disputed(s, b)
    {
      hide Sum, Before, Base, Fair, Disputed;
      var s := ScoresOf(items);
      var nTotal := TotalScore();
      CorrectionFits(s);
      var p, nC := FirstPercents(nTotal);
      if nC != 100 {
        var vmax := RankByScore(s);
        ghost var b := p;
        p := Adjust(s, p, vmax, 100 - nC);
        FairAdjusted(s, nTotal, b, p, vmax, 100 - nC);
      } else {
        FairBases(s, nTotal);
      }
      items := seq(|s|, i requires 0 <= i < |s| && |p| == |s| => Item(s[i], p[i]));
      assert ScoresOf(items) == s && PercentsOf(items) == p;
    }
  }

  lemma NoSum(s: seq<int>)
    ensures Sum(s[..0]) == 0
  {
  }
}
