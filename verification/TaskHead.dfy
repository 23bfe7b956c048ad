/**
  The shared, counted block behind `taskhead` in public/astTask/astTask.h: constructors, copy,
  assignment and destructor.
 */
module TaskHead {
  import opened Common

  /** `_atpr`. */
  datatype Block = Block(ref: int, task: Option<nat>)

  /**
    The heads alive, each with its block; the blocks allocated; and the blocks given back, with
    what they held at the end. Blocks are numbered in the order of allocation.
   */
  datatype State = State(heads: map<nat, nat>, blocks: map<nat, Block>, freed: map<nat, Block>, next: nat)

  function Holders(s: State, b: nat): (hs: set<nat>) {
    set h | h in s.heads && s.heads[h] == b
  }

  /**
    Every count is the number of live heads that hold the block, no block is kept or used without
    a holder, and each allocated block is either in use or given back, not both.
   */
  ghost predicate Valid(s: State) {
    && (forall h :: h in s.heads ==> s.heads[h] in s.blocks)
    && (forall b :: b in s.blocks ==> s.blocks[b].ref == |Holders(s, b)| > 0)
    && (forall b :: b in s.blocks ==> b !in s.freed)
    && (forall b: nat :: b < s.next <==> b in s.blocks || b in s.freed)
  }

  datatype Op =
    | Construct(h: nat)
    | Copy(h: nat, from: nat)
    | Assign(h: nat, from: nat)
    | Attach(h: nat, task: nat)
    | Destroy(h: nat)

  /** A program step names live heads, and new heads by new names. */
  predicate Legal(s: State, op: Op) {
    match op
    case Construct(h) => h !in s.heads
    case Copy(h, from) => h !in s.heads && from in s.heads
    case Assign(h, from) => h in s.heads && from in s.heads
    case Attach(h, _) => h in s.heads
    case Destroy(h) => h in s.heads
  }

  /** `None` when a block is used after it was given back. */
  type Outcome = Option<State>

  /** One holder fewer; the last one gives the block back. */
  function Drop(s: State, b: nat): (s': State)
    requires b in s.blocks
  {
    var block := s.blocks[b];
    var left := Block(block.ref - 1, block.task);
    if left.ref <= 0 then s.(blocks := map x | x in s.blocks && x != b :: s.blocks[x], freed := s.freed[b := left])
    else s.(blocks := s.blocks[b := left])
  }

  /** Head `h` now holds `b`; taking a block that was given back is the fault. */
  function Take(s: State, h: nat, b: nat): (o: Outcome) {
    if b !in s.blocks then None
    else
      var block := s.blocks[b];
      Some(s.(heads := s.heads[h := b], blocks := s.blocks[b := Block(block.ref + 1, block.task)]))
  }

  function Forget(s: State, h: nat): (s': State) {
    s.(heads := map x | x in s.heads && x != h :: s.heads[x])
  }

  function Do(s: State, op: Op): (o: Outcome)
    requires Valid(s) && Legal(s, op)
  {
    match op
    case Construct(h) =>
      Some(State(s.heads[h := s.next], s.blocks[s.next := Block(1, None)], s.freed, s.next + 1))
    case Copy(h, from) => Take(s, h, s.heads[from])
    case Assign(h, from) => Take(Drop(s, s.heads[h]), h, s.heads[from])
    case Attach(h, task) =>
      var b := s.heads[h];
      Some(s.(blocks := s.blocks[b := s.blocks[b].(task := Some(task))]))
    case Destroy(h) => Some(Forget(Drop(s, s.heads[h]), h))
  }

  /** The task a head leads to. */
  function TaskOf(s: State, h: nat): (t: Option<nat>)
    requires h in s.heads && s.heads[h] in s.blocks
  {
    s.blocks[s.heads[h]].task
  }

  /** The one step that goes wrong: a head assigned to itself while it is the only holder. */
  predicate LoneSelfAssign(s: State, op: Op)
    requires Legal(s, op)
  {
    op.Assign? && op.h == op.from && s.heads[op.h] in s.blocks && s.blocks[s.heads[op.h]].ref == 1
  }

  // ---------------------------------------------------------------- counting holders

  lemma HoldersGain(s: State, s': State, h: nat, b: nat)
    requires h !in s.heads && s'.heads == s.heads[h := b]
    ensures |Holders(s', b)| == |Holders(s, b)| + 1
    ensures forall c :: c != b ==> Holders(s', c) == Holders(s, c)
  {
    assert Holders(s', b) == Holders(s, b) + {h};
    forall c | c != b ensures Holders(s', c) == Holders(s, c) {
    }
  }

  lemma HoldersLose(s: State, h: nat)
    requires h in s.heads
    ensures |Holders(Forget(s, h), s.heads[h])| == |Holders(s, s.heads[h])| - 1
    ensures forall c :: c != s.heads[h] ==> Holders(Forget(s, h), c) == Holders(s, c)
  {
    var s', b := Forget(s, h), s.heads[h];
    assert Holders(s', b) == Holders(s, b) - {h};
    forall c | c != b ensures Holders(s', c) == Holders(s, c) {
    }
  }

  /** Dropping a holder and its head keeps the counts; the block goes exactly with its last holder. */
  lemma DropKeeps(s: State, h: nat)
    requires Valid(s) && h in s.heads
    ensures var b := s.heads[h];
            var s' := Forget(Drop(s, b), h);
            && Valid(s')
            && (b in s'.freed <==> s.blocks[b].ref == 1)
            && (forall c :: c != b ==> (c in s'.freed <==> c in s.freed))
  {
    hide Holders;
    var b := s.heads[h];
    var s' := Forget(Drop(s, b), h);
    HoldersLose(s, h);
    SameHeads(s', Forget(s, h));
    forall x | x in s'.heads ensures s'.heads[x] in s'.blocks {
      if s'.heads[x] == b {
        StillHeld(s', x);
      }
    }
  }

  lemma StillHeld(s: State, h: nat)
    requires h in s.heads
    ensures |Holders(s, s.heads[h])| > 0
  {
    assert h in Holders(s, s.heads[h]);
  }

  lemma SameHeads(s: State, s': State)
    requires s.heads == s'.heads
    ensures forall b :: Holders(s, b) == Holders(s', b)
  {
    forall b ensures Holders(s, b) == Holders(s', b) {
    }
  }

  lemma NoHolders(s: State, b: nat)
    requires Valid(s) && b !in s.blocks
    ensures Holders(s, b) == {}
  {
  }

  lemma TakeKeeps(s: State, h: nat, b: nat)
    requires Valid(s) && h !in s.heads && b in s.blocks
    ensures Valid(Take(s, h, b).value) && Take(s, h, b).value.freed == s.freed
  {
    hide Holders;
    HoldersGain(s, Take(s, h, b).value, h, b);
  }

  lemma ConstructKeeps(s: State, h: nat)
    requires Valid(s) && h !in s.heads
    ensures Valid(Do(s, Construct(h)).value)
  {
    hide Holders;
    var s' := Do(s, Construct(h)).value;
    HoldersGain(s, s', h, s.next);
    NoHolders(s, s.next);
  }

  /** Taking over the block of another head is dropping one's own first and then copying. */
  lemma AssignIsDropThenTake(s: State, h: nat, from: nat)
    requires Valid(s) && h in s.heads && from in s.heads
    ensures Take(Drop(s, s.heads[h]), h, s.heads[from]) == Take(Forget(Drop(s, s.heads[h]), h), h, s.heads[from])
  {
    var d := Drop(s, s.heads[h]);
    var b := s.heads[from];
    assert Forget(d, h).heads[h := b] == d.heads[h := b];
  }

  /**
    Every step keeps the counts exact, and faults if and only if it assigns a head with an
    unshared block to itself.
   */
  lemma StepSafe(s: State, op: Op)
    requires Valid(s) && Legal(s, op)
    ensures Do(s, op) == None <==> LoneSelfAssign(s, op)
    ensures Do(s, op).Some? ==> Valid(Do(s, op).value)
  {
    hide Holders, Drop, Take, Forget;
    match op
    case Construct(h) => ConstructKeeps(s, h);
    case Copy(h, from) =>
      TakeSome(s, h, s.heads[from]);
      TakeKeeps(s, h, s.heads[from]);
    case Assign(h, from) => AssignSafe(s, h, from);
    case Attach(h, task) => SameHeads(s, Do(s, op).value);
    case Destroy(h) => DropKeeps(s, h);
  }

  /**
    Where heads lead after a step: a copied or assigned head leads where the other does,
    an attached task is seen through every head that shares the block, and all other heads keep theirs.
   */
  lemma TaskFollows(s: State, op: Op, g: nat)
    requires Valid(s) && Legal(s, op) && !LoneSelfAssign(s, op)
    ensures Do(s, op).Some? && Valid(Do(s, op).value)
    ensures var s' := Do(s, op).value;
            match op
            case Construct(h) => h in s'.heads && TaskOf(s', h) == None && (g in s.heads ==> Keeps(s, s', g))
            case Copy(h, from) =>
              h in s'.heads && TaskOf(s', h) == TaskOf(s, from) && (g in s.heads ==> Keeps(s, s', g))
            case Assign(h, from) => TaskOf(s', h) == TaskOf(s, from) && (g in s.heads && g != h ==> Keeps(s, s', g))
            case Attach(h, task) =>
              g in s.heads ==>
                if s.heads[g] == s.heads[h] then g in s'.heads && TaskOf(s', g) == Some(task) else Keeps(s, s', g)
            case Destroy(h) => h !in s'.heads && (g in s.heads && g != h ==> Keeps(s, s', g))
  {
    StepSafe(s, op);
  }

  ghost predicate Keeps(s: State, s': State, g: nat)
    requires Valid(s) && Valid(s') && g in s.heads
  {
    g in s'.heads && TaskOf(s', g) == TaskOf(s, g)
  }

  lemma TakeSome(s: State, h: nat, b: nat)
    ensures Take(s, h, b).Some? <==> b in s.blocks
  {
  }

  lemma AssignSafe(s: State, h: nat, from: nat)
    requires Valid(s) && h in s.heads && from in s.heads
    ensures var o := Do(s, Assign(h, from));
            && (o == None <==> h == from && s.blocks[s.heads[h]].ref == 1)
            && (o.Some? ==> Valid(o.value))
  {
    hide Holders;
    var b, c := s.heads[h], s.heads[from];
    AssignIsDropThenTake(s, h, from);
    DropKeeps(s, h);
    if b == c && h != from {
      Shared(s, h, from);
    }
    if Do(s, Assign(h, from)).Some? {
      TakeKeeps(Forget(Drop(s, b), h), h, c);
    }
  }

  lemma Shared(s: State, h: nat, g: nat)
    requires h in s.heads && g in s.heads && h != g && s.heads[h] == s.heads[g]
    ensures |Holders(s, s.heads[h])| >= 2
  {
    var hs := Holders(s, s.heads[h]);
    assert h in hs && g in hs;
    assert {h, g} <= hs;
    Larger({h, g}, hs);
  }

  lemma {:induction false} Larger(a: set<nat>, b: set<nat>)
    requires a <= b
    ensures |a| <= |b|
    decreases |a|
  {
    if a != {} {
      var x :| x in a;
      Larger(a - {x}, b - {x});
    }
  }

  /** A block is given back exactly by the step that takes away its last holder. */
  lemma FreedAtLast(s: State, op: Op, b: nat)
    requires Valid(s) && Legal(s, op) && Do(s, op).Some? && b in s.blocks
    ensures var s' := Do(s, op).value;
            b in s'.freed <==> Holders(s', b) == {}
  {
    hide Drop, Take, Forget, Legal, Holders;
    var s' := Do(s, op).value;
    StepSafe(s, op);
    NextOnly(s, op);
    if b in s'.freed {
      NoHolders(s', b);
    } else {
      assert b in s'.blocks;
      EmptySet(Holders(s', b));
    }
  }

  lemma EmptySet(a: set<nat>)
    ensures |a| > 0 ==> a != {}
  {
  }

  lemma NextOnly(s: State, op: Op)
    requires Valid(s) && Legal(s, op) && Do(s, op).Some?
    ensures Do(s, op).value.next >= s.next
  {
  }

  // ---------------------------------------------------------------- whole runs

  const FRESH: State := State(map[], map[], map[], 0)

  /** A run is legal and free of the one faulty step at every point. */
  ghost predicate Safe(s: State, ops: seq<Op>)
    decreases |ops|
  {
    ops == []
    || (Valid(s) && Legal(s, ops[0]) && Do(s, ops[0]).Some? && Safe(Do(s, ops[0]).value, ops[1..]))
  }

  ghost predicate LegalRun(s: State, ops: seq<Op>)
    requires Valid(s)
    decreases |ops|
  {
    ops == []
    || (Legal(s, ops[0]) && !LoneSelfAssign(s, ops[0])
        && (StepSafe(s, ops[0]); LegalRun(Do(s, ops[0]).value, ops[1..])))
  }

  function Run(s: State, ops: seq<Op>): (s': State)
    requires Safe(s, ops)
    decreases |ops|
  {
    if ops == [] then s else Run(Do(s, ops[0]).value, ops[1..])
  }

  /** From the start, every legal run without a lone self-assignment is free of faults and keeps the counts. */
  lemma {:induction false} RunSafe(s: State, ops: seq<Op>)
    requires Valid(s) && LegalRun(s, ops)
    ensures Safe(s, ops) && Valid(Run(s, ops))
    decreases |ops|
  {
    hide Do, Valid, Legal;
    if ops != [] {
      StepSafe(s, ops[0]);
      RunSafe(Do(s, ops[0]).value, ops[1..]);
    }
  }

  /** When the last head is gone, every block has been given back. */
  lemma NothingLeaks(s: State)
    requires Valid(s) && s.heads == map[]
    ensures s.blocks == map[] && forall b: nat :: b < s.next ==> b in s.freed
  {
    forall b ensures Holders(s, b) == {} {
    }
  }

  // ---------------------------------------------------------------- the code

  /** The program's heads and blocks, changed in place by the members of `taskhead`. */
  class Heap {
    var heads: map<nat, nat>
    var blocks: map<nat, Block>
    var freed: map<nat, Block>
    var next: nat

    function View(): (s: State)
      reads this
    {
      State(heads, blocks, freed, next)
    }

    constructor ()
      ensures Valid(View()) && View() == FRESH
    {
      heads, blocks, freed, next := map[], map[], map[], 0;
    }

    method New(h: nat)
      requires Valid(View()) && h !in heads
      modifies this
      ensures Valid(View()) && Some(View()) == Do(old(View()), Construct(h))
    {
      hide Valid;
      StepSafe(View(), Construct(h));
      blocks := blocks[next := Block(1, None)];
      heads := heads[h := next];
      next := next + 1;
    }

    /** The decrement and the deletion, as the destructor and the assignment do them. */
    method DropRef(b: nat)
      requires b in blocks
      modifies this`blocks, this`freed
      ensures View() == Drop(old(View()), b)
    {
      blocks := blocks[b := blocks[b].(ref := blocks[b].ref - 1)];
      if blocks[b].ref <= 0 {
        freed := freed[b := blocks[b]];
        blocks := map x | x in blocks && x != b :: blocks[x];
      }
    }

    method CopyFrom(h: nat, from: nat)
      requires Valid(View()) && h !in heads && from in heads
      modifies this
      ensures Valid(View()) && Some(View()) == Do(old(View()), Copy(h, from))
    {
      hide Holders;
      StepSafe(View(), Copy(h, from));
      var b := heads[from];
      heads := heads[h := b];
      blocks := blocks[b := blocks[b].(ref := blocks[b].ref + 1)];
    }

    /** `operator=`; `fault` tells that the increment hit a block given back. */
    method AssignFrom(h: nat, from: nat) returns (fault: bool)
      requires Valid(View()) && h in heads && from in heads
      modifies this
      ensures fault <==> h == from && old(blocks)[old(heads)[h]].ref == 1
      ensures !fault ==> Valid(View()) && Some(View()) == Do(old(View()), Assign(h, from))
    {
      hide Holders, Valid, Drop;
      ValidUse(View(), h);
      ValidUse(View(), from);
      StepSafe(View(), Assign(h, from));
      ghost var s := View();
      DropRef(heads[h]);
      var b := heads[from];
      heads := heads[h := b];
      if b !in blocks {
        return true;
      }
      blocks := blocks[b := blocks[b].(ref := blocks[b].ref + 1)];
      return false;
    }

    method Delete(h: nat)
      requires Valid(View()) && h in heads
      modifies this
      ensures Valid(View()) && Some(View()) == Do(old(View()), Destroy(h))
    {
      hide Holders, Valid, Drop;
      ValidUse(View(), h);
      StepSafe(View(), Destroy(h));
      DropRef(heads[h]);
      heads := map x | x in heads && x != h :: heads[x];
    }
  }

  lemma ValidUse(s: State, h: nat)
    requires Valid(s) && h in s.heads
    ensures s.heads[h] in s.blocks
  {
  }
}
