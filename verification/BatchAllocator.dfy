/**
  The batch allocator of public/json/json_batchallocator.h. An address is a page and an offset in
  objects; the free list is threaded through the released objects themselves.
 */
module BatchAllocator {

  datatype Ptr = Ptr(page: nat, offset: nat)

  /** The pointer stored in the first bytes of an object. */
  datatype Link = Null | At(p: Ptr)

  /** `BatchInfo`: pages are numbered in the order they were requested; page 0 is the empty dummy. */
  datatype Batch = Batch(id: nat, used: nat, end: nat)

  predicate Full(b: Batch) {
    b.used == b.end
  }

  // ---------------------------------------------------------------- pages

  /** The list of pages, newest first, carved in steps of `k` objects. */
  ghost predicate WellFormed(batches: seq<Batch>, k: nat, perPage: nat) {
    && k > 0 && perPage % k == 0
    && forall i :: 0 <= i < |batches| ==>
         && batches[i].id == |batches| - 1 - i
         && batches[i].end == (if batches[i].id == 0 then 0 else perPage)
         && batches[i].used <= batches[i].end && batches[i].used % k == 0
  }

  /** Every page but the current one is full. */
  ghost predicate OthersFull(batches: seq<Batch>, current: nat) {
    forall i :: 0 <= i < |batches| && i != current ==> Full(batches[i])
  }

  function PageOf(batches: seq<Batch>, page: nat): (b: Batch)
    requires page < |batches|
  {
    batches[|batches| - 1 - page]
  }

  /** An allocation has been cut from a page at this address. */
  predicate Carved(batches: seq<Batch>, k: nat, p: Ptr)
    requires k > 0
  {
    p.page < |batches| && p.offset % k == 0 && p.offset < PageOf(batches, p.page).used
  }

  /** What was cut lies inside its page. */
  lemma CarvedInside(batches: seq<Batch>, k: nat, perPage: nat, p: Ptr)
    requires WellFormed(batches, k, perPage) && Carved(batches, k, p)
    ensures 0 < p.page < |batches| && p.offset + k <= PageOf(batches, p.page).end == perPage
  {
    var b := PageOf(batches, p.page);
    StepsFit(p.offset, b.used, k);
  }

  lemma StepsFit(a: nat, b: nat, k: nat)
    requires k > 0 && a % k == 0 && b % k == 0 && a < b
    ensures a + k <= b
  {
    assert a == k * (a / k) && b == k * (b / k);
    MultiplesFit(a / k, b / k, k);
  }

  lemma MultiplesFit(x: nat, y: nat, k: nat)
    requires k > 0
    ensures k * x < k * y ==> k * x + k <= k * y
  {
    Grows(k, y, x);
    Grows(k, x + 1, y);
    assert k * (x + 1) == k * x + k;
  }

  lemma {:induction false} Grows(k: nat, a: nat, b: nat)
    requires k > 0
    ensures a <= b ==> k * a <= k * b
    ensures b <= k * b
  {
    if a < b {
      Grows(k, a, b - 1);
    }
    if b > 0 {
      assert k * b == k * (b - 1) + k;
      Above(k, b - 1);
    }
  }

  lemma {:induction false} Above(k: nat, b: nat)
    requires k > 0
    ensures b <= k * b
  {
    if b > 0 {
      Above(k, b - 1);
      assert k * b == k * (b - 1) + k;
    }
  }

  /** Two allocations do not overlap. */
  lemma CarvedDisjoint(batches: seq<Batch>, k: nat, p: Ptr, q: Ptr)
    requires k > 0 && Carved(batches, k, p) && Carved(batches, k, q) && p != q && p.page == q.page
    ensures p.offset + k <= q.offset || q.offset + k <= p.offset
  {
    if p.offset < q.offset {
      StepsFit(p.offset, q.offset, k);
    } else {
      StepsFit(q.offset, p.offset, k);
    }
  }

  /** Cutting the next piece of page `i`. */
  function Cut(batches: seq<Batch>, i: nat, k: nat): (bs: seq<Batch>)
    requires i < |batches|
  {
    batches[i := batches[i].(used := batches[i].used + k)]
  }

  lemma CutKeeps(batches: seq<Batch>, i: nat, k: nat, perPage: nat)
    requires WellFormed(batches, k, perPage) && i < |batches| && !Full(batches[i])
    ensures WellFormed(Cut(batches, i, k), k, perPage)
    ensures var p := Ptr(batches[i].id, batches[i].used);
            && !Carved(batches, k, p)
            && forall q :: Carved(Cut(batches, i, k), k, q) <==> Carved(batches, k, q) || q == p
  {
    var b := batches[i];
    StepsFit(b.used, b.end, k);
    StepMod(b.used, k);
    var p := Ptr(b.id, b.used);
    var bs := Cut(batches, i, k);
    forall q ensures Carved(bs, k, q) <==> Carved(batches, k, q) || q == p {
      if q.page < |batches| && q.page == b.id && q.offset % k == 0 {
        CutOne(q.offset, b.used, k);
      }
    }
  }

  lemma StepMod(a: nat, k: nat)
    requires k > 0 && a % k == 0
    ensures (a + k) % k == 0
  {
    assert a + k == k * (a / k) + k == k * (a / k + 1);
    MultipleMod(a / k + 1, k);
  }

  lemma MultipleMod(n: nat, k: nat)
    requires k > 0
    ensures (k * n) % k == 0
  {
    var q, r := k * n / k, k * n % k;
    assert k * n == k * q + r;
    Grows(k, n + 1, q);
    Grows(k, q + 1, n);
    assert k * (n + 1) == k * n + k && k * (q + 1) == k * q + k;
  }

  lemma CutOne(o: nat, used: nat, k: nat)
    requires k > 0 && o % k == 0 && used % k == 0
    ensures o < used + k <==> o < used || o == used
  {
    if used < o {
      StepsFit(used, o, k);
    }
  }

  /** A new page at the head of the list changes no address. */
  lemma NewPageKeeps(batches: seq<Batch>, k: nat, perPage: nat)
    requires WellFormed(batches, k, perPage) && batches != []
    ensures var bs := [Batch(|batches|, 0, perPage)] + batches;
            && WellFormed(bs, k, perPage)
            && forall q :: Carved(bs, k, q) <==> Carved(batches, k, q)
  {
    var bs := [Batch(|batches|, 0, perPage)] + batches;
    forall i | 0 <= i < |bs|
      ensures && bs[i].id == |bs| - 1 - i && bs[i].end == (if bs[i].id == 0 then 0 else perPage)
              && bs[i].used <= bs[i].end && bs[i].used % k == 0
    {
      if i > 0 {
        assert bs[i] == batches[i - 1];
      }
    }
    forall q ensures Carved(bs, k, q) <==> Carved(batches, k, q) {
      if q.page < |batches| {
        assert PageOf(bs, q.page) == PageOf(batches, q.page);
      }
    }
  }

  // ---------------------------------------------------------------- the free list

  /** Following the links from `head` visits exactly `list`. */
  ghost predicate Chain(mem: map<Ptr, Link>, head: Link, list: seq<Ptr>)
    decreases |list|
  {
    if list == [] then head == Null
    else head == At(list[0]) && list[0] in mem && Chain(mem, mem[list[0]], list[1..])
  }

  ghost predicate Distinct(list: seq<Ptr>) {
    forall i, j :: 0 <= i < j < |list| ==> list[i] != list[j]
  }

  /** Writing outside the list leaves the chain alone. */
  lemma {:induction false} ChainFrame(mem: map<Ptr, Link>, head: Link, list: seq<Ptr>, p: Ptr, l: Link)
    requires Chain(mem, head, list) && forall i :: 0 <= i < |list| ==> list[i] != p
    ensures Chain(mem[p := l], head, list)
    decreases |list|
  {
    if list != [] {
      ChainFrame(mem, mem[list[0]], list[1..], p, l);
    }
  }

  // ---------------------------------------------------------------- the allocator

  class Allocator {
    const k: nat
    const perPage: nat
    var batches: seq<Batch>
    var current: nat
    var freeHead: Link
    var mem: map<Ptr, Link>
    ghost var live: set<Ptr>
    ghost var free: seq<Ptr>

    /**
      The pages are well formed and all but the current one full; the links chain the free
      objects; and what has been carved is either live or free, never both.
     */
    ghost predicate Valid()
      reads this
    {
      && WellFormed(batches, k, perPage) && perPage > 0
      && current < |batches| && OthersFull(batches, current)
      && Chain(mem, freeHead, free) && Distinct(free)
      && (forall p :: Carved(batches, k, p) <==> p in live || p in free)
      && (forall p :: p in live ==> p !in free)
    }

    constructor (k: nat, perPage: nat)
      requires k > 0 && perPage >= 16 && perPage % k == 0
      ensures Valid() && live == {} && free == [] && this.k == k && this.perPage == perPage
    {
      this.k, this.perPage := k, perPage;
      freeHead, mem := Null, map[];
      batches, current := [Batch(0, 0, 0)], 0;
      live, free := {}, [];
    }

    /** The search for a page with room; since all other pages are full, it finds none. */
    method NextPage()
      requires Valid() && Full(batches[current])
      modifies this`batches, this`current
      ensures batches == [Batch(|old(batches)|, 0, perPage)] + old(batches) && current == 0
    {
      hide WellFormed, Chain, Carved;
      assert forall i :: 0 <= i < |batches| ==> Full(batches[i]);
      current := current + 1;
      while current < |batches| && batches[current].used == batches[current].end
        invariant batches == old(batches) && old(current) < current <= |batches|
        decreases |batches| - current
      {
        current := current + 1;
      }
      assert current == |batches|;
      if current == |batches| {
        batches := [Batch(|batches|, 0, perPage)] + batches;
        current := 0;
      }
    }

    /** Cuts the next piece of the current page. */
    method CutCurrent() returns (p: Ptr)
      requires WellFormed(batches, k, perPage) && current < |batches| && !Full(batches[current])
      modifies this`batches
      ensures batches == Cut(old(batches), current, k)
      ensures p == Ptr(old(batches)[current].id, old(batches)[current].used)
    {
      var b := batches[current];
      p := Ptr(b.id, b.used);
      batches := batches[current := b.(used := b.used + k)];
    }

    /**
      `allocate`: the object released last, or a piece never handed out. A page is requested only
      when nothing is free and every page is full.
     */
    method Allocate() returns (p: Ptr)
      requires Valid()
      modifies this
      ensures Valid() && p !in old(live) && live == old(live) + {p} && mem == old(mem)
      ensures 0 < p.page < |batches| && p.offset + k <= perPage
      ensures old(free) != [] ==> p == old(free)[0] && free == old(free)[1..] && batches == old(batches)
      ensures old(free) == [] ==> free == [] && !Carved(old(batches), k, p)
      ensures |batches| == |old(batches)| + 1 || |batches| == |old(batches)|
      ensures |batches| == |old(batches)| + 1 <==>
                old(free) == [] && forall i :: 0 <= i < |old(batches)| ==> Full(old(batches)[i])
    {
      hide WellFormed, Carved, Full;
      if freeHead != Null {
        p := freeHead.p;
        CarvedInside(batches, k, perPage, p);
        freeHead := mem[p];
        TakeFirst(free, live);
        live, free := live + {p}, free[1..];
        return;
      }
      ghost var bs := batches;
      FullIs(batches[current]);
      if batches[current].used == batches[current].end {
        NewPageKeeps(batches, k, perPage);
        NextPage();
        FullIs(batches[0]);
      }
      CutKeeps(batches, current, k, perPage);
      p := CutCurrent();
      CarvedInside(batches, k, perPage, p);
      live := live + {p};
    }

    /** `release`: the object heads the free list, its first bytes hold the former head. */
    method Release(p: Ptr)
      requires Valid() && p in live
      modifies this`mem, this`freeHead, this`live, this`free
      ensures Valid() && live == old(live) - {p} && free == [p] + old(free)
      ensures mem == old(mem)[p := old(freeHead)]
    {
      hide WellFormed, Carved;
      ChainFrame(mem, freeHead, free, p, freeHead);
      mem := mem[p := freeHead];
      freeHead := At(p);
      live, free := live - {p}, [p] + free;
      assert free[1..] == old(free);
    }

    /** The owner of a live object may write what it likes into it. */
    method Write(p: Ptr, l: Link)
      requires Valid() && p in live
      modifies this`mem
      ensures Valid() && mem == old(mem)[p := l]
    {
      hide WellFormed, Carved;
      ChainFrame(mem, freeHead, free, p, l);
      mem := mem[p := l];
    }
  }

  lemma FullIs(b: Batch)
    ensures Full(b) <==> b.used == b.end
  {
  }

  lemma TakeFirst(free: seq<Ptr>, live: set<Ptr>)
    requires free != [] && Distinct(free)
    ensures Distinct(free[1..]) && free[0] !in free[1..]
    ensures forall p :: p in free <==> p == free[0] || p in free[1..]
  {
    assert free == [free[0]] + free[1..];
  }

  /** Live objects lie inside their pages and do not overlap. */
  lemma LiveDisjoint(a: Allocator, p: Ptr, q: Ptr)
    requires a.Valid() && p in a.live && q in a.live && p != q
    ensures p.offset + a.k <= a.perPage && 0 < p.page < |a.batches|
    ensures p.page != q.page || p.offset + a.k <= q.offset || q.offset + a.k <= p.offset
  {
    hide Carved;
    CarvedInside(a.batches, a.k, a.perPage, p);
    if p.page == q.page {
      CarvedDisjoint(a.batches, a.k, p, q);
    }
  }

  // ---------------------------------------------------------------- why the sizes must divide

  /** A new page at the head of the list, after `n` pieces were cut from it. */
  function CutTimes(batches: seq<Batch>, k: nat, perPage: nat, n: nat): (bs: seq<Batch>)
    ensures |bs| == |batches| + 1
    decreases n
  {
    if n == 0 then [Batch(|batches|, 0, perPage)] + batches else Cut(CutTimes(batches, k, perPage, n - 1), 0, k)
  }

  lemma {:induction false} CutTimesUsed(batches: seq<Batch>, k: nat, perPage: nat, n: nat)
    ensures CutTimes(batches, k, perPage, n)[0] == Batch(|batches|, k * n, perPage)
    ensures CutTimes(batches, k, perPage, n)[1..] == batches
    decreases n
  {
    if n > 0 {
      CutTimesUsed(batches, k, perPage, n - 1);
      assert k * n == k * (n - 1) + k;
    }
  }

  /** The page was found full before some piece up to number `n`. */
  ghost predicate FoundFull(batches: seq<Batch>, k: nat, perPage: nat, n: nat) {
    exists m: nat :: m <= n && Full(CutTimes(batches, k, perPage, m)[0])
  }

  /**
    The memory behind a page is `k * perPage` objects, although its end is set at `perPage`; every
    piece that can be cut from it lies in that memory.
   */
  ghost predicate StaysInside(batches: seq<Batch>, k: nat, perPage: nat) {
    forall n: nat :: !FoundFull(batches, k, perPage, n) ==> CutTimes(batches, k, perPage, n)[0].used + k <= k * perPage
  }

  /** Pieces stay in the memory of their page exactly when a page holds a whole number of them. */
  lemma InsideExactly(batches: seq<Batch>, k: nat, perPage: nat)
    requires k > 0 && perPage > 0
    ensures StaysInside(batches, k, perPage) <==> perPage % k == 0
  {
    hide CutTimes;
    if perPage % k == 0 {
      var m := perPage / k;
      assert k * m == perPage;
      CutTimesUsed(batches, k, perPage, m);
      forall n: nat | !FoundFull(batches, k, perPage, n)
        ensures CutTimes(batches, k, perPage, n)[0].used + k <= k * perPage
      {
        CutTimesUsed(batches, k, perPage, n);
        assert Full(CutTimes(batches, k, perPage, m)[0]);
        assert n < m;
        FitsBefore(k, n, m, perPage);
      }
    } else {
      forall m: nat | m <= perPage ensures !Full(CutTimes(batches, k, perPage, m)[0]) {
        CutTimesUsed(batches, k, perPage, m);
        MultipleMod(m, k);
      }
      assert !FoundFull(batches, k, perPage, perPage);
      CutTimesUsed(batches, k, perPage, perPage);
    }
  }

  lemma FitsBefore(k: nat, n: nat, m: nat, perPage: nat)
    requires k > 0 && n < m && k * m == perPage
    ensures k * n + k <= k * perPage
  {
    Grows(k, n + 1, m);
    assert k * (n + 1) == k * n + k;
    Above(k, perPage);
  }
}
