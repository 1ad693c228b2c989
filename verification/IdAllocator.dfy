/**
 Object ids of the plugin library: a shared atomic counter from which every connection allocates, and which
 a free sets back when it frees the id handed out last. A run is the order in which the atomic operations
 of all connections happen.
 */
module IdAllocator {
  import opened Common

  /**
   `ids` are the ids handed out so far, one for each object ever created; `live` are the objects not
   destroyed yet.
   */
  datatype State = State(counter: u64, ids: seq<u32>, live: set<nat>)

  datatype Op = Alloc | Free(obj: nat)

  /** There is no free without an object. */
  function Step(s: State, op: Op): (s': State) {
    match op
    case Alloc =>
      var counter := if s.counter + 1 == U64_END then 0 else s.counter + 1;
      State(counter, s.ids + [s.counter % 0x1_0000_0000], s.live + {|s.ids|})
    case Free(obj) =>
      if obj >= |s.ids| then s
      else State(if s.counter == s.ids[obj] as int + 1 then s.ids[obj] else s.counter, s.ids, s.live - {obj})
  }

  function Run(s: State, ops: seq<Op>): (s': State)
    decreases |ops|
  {
    if ops == [] then s else Run(Step(s, ops[0]), ops[1..])
  }

  /** The counter, updated in place. */
  class Counter {
    var value: u64

    constructor ()
      ensures value == 0
    {
      value := 0;
    }

    /** The addition wraps and the id keeps the low 32 bits. */
    method Alloc(ghost s: State) returns (id: u32)
      requires s.counter == value
      modifies this
      ensures value == Step(s, Op.Alloc).counter && Step(s, Op.Alloc).ids == s.ids + [id]
    {
      id := value % 0x1_0000_0000;
      value := if value + 1 == U64_END then 0 else value + 1;
    }

    method Free(id: u32, ghost s: State, ghost obj: nat)
      requires s.counter == value && obj < |s.ids| && s.ids[obj] == id
      modifies this
      ensures value == Step(s, Op.Free(obj)).counter
    {
      if value == id as int + 1 {
        value := id;
      }
    }
  }

  /** Live ids are pairwise distinct and below the counter. */
  ghost predicate Inv(s: State) {
    && (forall h :: h in s.live ==> h < |s.ids| && s.ids[h] < s.counter)
    && (forall h, k :: h in s.live && k in s.live && h != k ==> s.ids[h] != s.ids[k])
  }

  /** Objects are destroyed once, and ids are allocated while the counter has 32 bits. */
  predicate Proper(s: State, op: Op) {
    match op
    case Alloc => s.counter < U32_END
    case Free(obj) => obj in s.live
  }

  predicate AllProper(s: State, ops: seq<Op>)
    decreases |ops|
  {
    ops == [] || (Proper(s, ops[0]) && AllProper(Step(s, ops[0]), ops[1..]))
  }

  lemma StepKeepsInv(s: State, op: Op)
    requires Inv(s) && Proper(s, op)
    ensures Inv(Step(s, op))
  {
  }

  lemma {:induction false} IdsStayDistinct(s: State, ops: seq<Op>)
    requires Inv(s) && AllProper(s, ops)
    ensures Inv(Run(s, ops))
    decreases |ops|
  {
    if ops != [] {
      StepKeepsInv(s, ops[0]);
      IdsStayDistinct(Step(s, ops[0]), ops[1..]);
    }
  }

  /**
   Any free, also of an object destroyed before, keeps live ids distinct and below the counter unless its
   id was handed out last and belongs to another object by now.
   */
  lemma AnyFreeKeepsInv(s: State, obj: nat)
    requires Inv(s) && obj < |s.ids|
    ensures Inv(Step(s, Free(obj))) <==>
            !(s.counter == s.ids[obj] as int + 1 && exists k :: k in s.live && k != obj && s.ids[k] == s.ids[obj])
  {
  }

  // ---------------------------------------------------------------------------
  // Frees in reverse order
  // ---------------------------------------------------------------------------

  /** Well-nested lifetimes: objects created one after another, each destroyed after those created inside it. */
  datatype Nest = Nothing | Then(first: Nest, second: Nest) | Around(inner: Nest)

  function Allocs(n: Nest): (r: nat) {
    match n
    case Nothing => 0
    case Then(a, b) => Allocs(a) + Allocs(b)
    case Around(inner) => 1 + Allocs(inner)
  }

  /** The operations of a nest when `next` objects were created before. */
  function Ops(n: Nest, next: nat): (r: seq<Op>) {
    match n
    case Nothing => []
    case Then(a, b) => Ops(a, next) + Ops(b, next + Allocs(a))
    case Around(inner) => [Alloc] + Ops(inner, next + 1) + [Free(next)]
  }

  lemma {:induction false} RunAppend(s: State, a: seq<Op>, b: seq<Op>)
    ensures Run(s, a + b) == Run(Run(s, a), b)
    decreases |a|
  {
    if a == [] {
      assert a + b == b;
    } else {
      assert (a + b)[1..] == a[1..] + b;
      RunAppend(Step(s, a[0]), a[1..], b);
    }
  }

  /** What a nest of operations leaves behind: the counter and the live objects as they were, and the ids it used. */
  ghost predicate Undone(s: State, s': State, allocs: nat) {
    s'.counter == s.counter && s'.live == s.live && |s'.ids| == |s.ids| + allocs && s'.ids[..|s.ids|] == s.ids
  }

  lemma UndoneThen(s: State, s1: State, s2: State, a: nat, b: nat)
    requires Undone(s, s1, a) && Undone(s1, s2, b)
    ensures Undone(s, s2, a + b)
  {
  }

  lemma UndoneAround(s: State, s2: State, a: nat)
    requires s.counter + 1 < U32_END && (forall h :: h in s.live ==> h < |s.ids|) && Undone(Step(s, Alloc), s2, a)
    ensures Undone(s, Step(s2, Free(|s.ids|)), a + 1)
  {
  }

  /** Destroying in the reverse order of creation sets the counter back. */
  lemma {:induction false} NestedFreesRestore(s: State, n: Nest)
    requires s.counter + Allocs(n) < U32_END && forall h :: h in s.live ==> h < |s.ids|
    ensures Undone(s, Run(s, Ops(n, |s.ids|)), Allocs(n))
    decreases n
  {
    match n
    case Nothing =>
    case Then(a, b) =>
      var s1 := Run(s, Ops(a, |s.ids|));
      NestedFreesRestore(s, a);
      NestedFreesRestore(s1, b);
      RunAppend(s, Ops(a, |s.ids|), Ops(b, |s1.ids|));
      UndoneThen(s, s1, Run(s1, Ops(b, |s1.ids|)), Allocs(a), Allocs(b));
    case Around(inner) =>
      var s1, ops := Step(s, Alloc), Ops(inner, |s.ids| + 1);
      NestedFreesRestore(s1, inner);
      RunAppend(s, [Alloc] + ops, [Free(|s.ids|)]);
      RunAppend(s, [Alloc], ops);
      UndoneAround(s, Run(s1, ops), Allocs(inner));
  }

  // ---------------------------------------------------------------------------
  // Where ids do repeat
  // ---------------------------------------------------------------------------

  function Start(): (s: State) {
    State(0, [], {})
  }

  /** An object destroyed twice, with another created in between: two objects alive share id 0. */
  lemma DoubleFreeRepeats()
    ensures var s1 := Step(Start(), Alloc);
            var s2 := Step(s1, Free(0));
            var s3 := Step(s2, Alloc);
            var s4 := Step(s3, Free(0));
            Step(s4, Alloc) == State(1, [0, 0, 0], {1, 2})
  {
  }

  /** An allocation keeps live ids distinct unless the counter has passed 32 bits and its low ones are a live id. */
  lemma AnyAllocKeepsInv(s: State)
    requires Inv(s) && s.counter + 1 < U64_END
    ensures Inv(Step(s, Alloc)) <==>
            !(s.counter >= U32_END && exists k :: k in s.live && s.ids[k] == s.counter % 0x1_0000_0000)
  {
  }
}
