/**
 KVM memory slots: how `Vm::add_device_memory` and `Vm::remove_device_memory` hand out slot numbers
 behind those of guest memory, with a heap of the gaps that removals leave.
 */
module KvmSlots {

  datatype Error = NoSpace | NoEntry | Ioctl

  /** Calls with what the outside contributes: whether the address is behind guest memory, whether the
      registration with KVM succeeds. */
  datatype Op<+M> = Add(addressOk: bool, mem: M, registered: bool) | Remove(slot: int, registered: bool)

  datatype Outcome<+M> = Added(slot: int) | Removed(mem: M) | Failed(error: Error)

  /**
   The slots of a VM with `regions` slots of guest memory. `gaps` lists the max-heap of negated slot
   numbers in the order it pops them. `lost` is for the record only: gaps popped for a registration
   that then failed.
   */
  datatype Slots<+M> = Slots(regions: nat, live: map<int, M>, gaps: seq<int>, lost: set<int>)

  /** Pushing onto the heap. */
  function Push(gaps: seq<int>, g: int): (r: seq<int>)
    ensures |r| == |gaps| + 1 && r[0] == if gaps == [] || g >= gaps[0] then g else gaps[0]
  {
    if gaps == [] || g >= gaps[0] then [g] + gaps else [gaps[0]] + Push(gaps[1..], g)
  }

  /** The slot that `add_device_memory` chooses: the lowest gap, or the number of slots in use. */
  function Chosen<M>(s: Slots<M>): (slot: int) {
    if s.gaps != [] then -s.gaps[0] else |s.live| + s.regions
  }

  function Step<M>(s: Slots<M>, op: Op<M>): (r: (Slots<M>, Outcome<M>))
  {
    match op
    case Add(addressOk, mem, registered) =>
      if !addressOk then (s, Failed(NoSpace))
      else
        var slot := Chosen(s);
        var gaps := if s.gaps != [] then s.gaps[1..] else [];
        if !registered then (s.(gaps := gaps, lost := if s.gaps != [] then s.lost + {slot} else s.lost), Failed(Ioctl))
        else (s.(live := s.live[slot := mem], gaps := gaps, lost := s.lost - {slot}), Added(slot))
    case Remove(slot, registered) =>
      if slot !in s.live then (s, Failed(NoEntry))
      else if !registered then (s, Failed(Ioctl))
      else (s.(live := s.live - {slot}, gaps := Push(s.gaps, -slot)), Removed(s.live[slot]))
  }

  // ---------------------------------------------------------------------------
  // The invariant of every run
  // ---------------------------------------------------------------------------

  /** The heap pops larger numbers first and holds none twice. */
  ghost predicate Descending(gaps: seq<int>) {
    forall i, j :: 0 <= i < j < |gaps| ==> gaps[i] > gaps[j]
  }

  /** The slot is in use, a gap or lost. */
  ghost predicate Known<M>(s: Slots<M>, slot: int) {
    slot in s.live || -slot in s.gaps || slot in s.lost
  }

  /** And only one of the three. */
  ghost predicate Once<M>(s: Slots<M>, slot: int) {
    && !(slot in s.live && -slot in s.gaps)
    && !(slot in s.live && slot in s.lost)
    && !(-slot in s.gaps && slot in s.lost)
  }

  ghost function Count<M>(s: Slots<M>): (n: nat) {
    |s.live| + |s.gaps| + |s.lost|
  }

  /** Slots in use, gaps and lost gaps are disjoint and fill an interval behind guest memory. */
  ghost predicate Inv<M>(s: Slots<M>) {
    && Descending(s.gaps)
    && (forall x :: Once(s, x))
    && (forall x :: Known(s, x) <==> s.regions <= x < s.regions + Count(s))
  }

  lemma {:induction false} PushHolds(gaps: seq<int>, g: int, x: int)
    ensures x in Push(gaps, g) <==> x in gaps || x == g
  {
    if gaps != [] && g < gaps[0] {
      PushHolds(gaps[1..], g, x);
      assert x in gaps <==> x == gaps[0] || x in gaps[1..];
    }
  }

  lemma {:induction false} PushKeepsDescending(gaps: seq<int>, g: int)
    requires Descending(gaps) && g !in gaps
    ensures Descending(Push(gaps, g))
  {
    if gaps != [] && g < gaps[0] {
      PushKeepsDescending(gaps[1..], g);
      forall j | 1 <= j < |Push(gaps, g)|
        ensures gaps[0] > Push(gaps, g)[j]
      {
        PushHolds(gaps[1..], g, Push(gaps[1..], g)[j - 1]);
      }
    }
  }

  /** The head of the heap is its largest, so the lowest gap. */
  lemma {:induction false} PopKeeps(gaps: seq<int>, x: int)
    requires Descending(gaps) && gaps != []
    ensures Descending(gaps[1..])
    ensures x in gaps[1..] <==> x in gaps && x != gaps[0]
    ensures x in gaps[1..] ==> x < gaps[0]
  {
  }

  /** The gap chosen becomes used or lost, and every other slot stays what it is. */
  lemma {:induction false} AddToGapAt<M>(s: Slots<M>, op: Op<M>, x: int)
    requires Descending(s.gaps) && Once(s, x) && op.Add? && op.addressOk && s.gaps != []
    ensures Once(Step(s, op).0, x) && (Known(Step(s, op).0, x) <==> Known(s, x))
  {
  }

  lemma {:induction false} AddToGapKeepsInv<M>(s: Slots<M>, op: Op<M>)
    requires Inv(s) && op.Add? && op.addressOk && s.gaps != []
    ensures Inv(Step(s, op).0)
  {
    var s' := Step(s, op).0;
    assert Once(s, Chosen(s));
    assert Count(s') == Count(s);
    PopKeeps(s.gaps, 0);
    forall x
      ensures Once(s', x) && (Known(s', x) <==> Known(s, x))
    {
      assert Once(s, x);
      AddToGapAt(s, op, x);
    }
  }

  /** With no gaps, the next number is known exactly when some gap was lost. */
  lemma {:induction false} NextIsKnown<M>(s: Slots<M>)
    requires Inv(s) && s.gaps == []
    ensures Known(s, Chosen(s)) <==> s.lost != {}
  {
  }

  lemma {:induction false} AddAtEndKeepsInv<M>(s: Slots<M>, op: Op<M>)
    requires Inv(s) && op.Add? && op.addressOk && op.registered && s.gaps == []
    ensures Inv(Step(s, op).0)
  {
    var s', slot := Step(s, op).0, Chosen(s);
    assert Once(s, slot);
    NextIsKnown(s);
    assert Count(s') == if Known(s, slot) then Count(s) else Count(s) + 1;
    forall x
      ensures Once(s', x) && (Known(s', x) <==> Known(s, x) || x == slot)
    {
      assert Once(s, x);
    }
  }

  lemma {:induction false} RemoveKeepsInv<M>(s: Slots<M>, op: Op<M>)
    requires Inv(s) && op.Remove? && op.slot in s.live && op.registered
    ensures Inv(Step(s, op).0)
  {
    var s' := Step(s, op).0;
    assert Once(s, op.slot);
    PushKeepsDescending(s.gaps, -op.slot);
    assert s'.live.Keys == s.live.Keys - {op.slot};
    assert Count(s') == Count(s);
    forall x
      ensures Once(s', x) && (Known(s', x) <==> Known(s, x))
    {
      PushHolds(s.gaps, -op.slot, -x);
      assert Once(s, x);
    }
  }

  lemma {:induction false} StepKeepsInv<M>(s: Slots<M>, op: Op<M>)
    requires Inv(s)
    ensures Inv(Step(s, op).0)
  {
    if op.Add? {
      if op.addressOk && s.gaps != [] {
        AddToGapKeepsInv(s, op);
      } else if op.addressOk && op.registered {
        AddAtEndKeepsInv(s, op);
      }
    } else if op.slot in s.live && op.registered {
      RemoveKeepsInv(s, op);
    }
  }

  /** Choosing a slot that is not in use: a gap, or the next number when nothing was lost. */
  lemma {:induction false} ChosenInUse<M>(s: Slots<M>)
    requires Inv(s)
    ensures Chosen(s) in s.live <==> s.gaps == [] && s.lost != {} && s.regions + |s.live| !in s.lost
  {
    assert Once(s, Chosen(s));
    if s.gaps == [] {
      NextIsKnown(s);
    }
  }

  /** The lowest slot behind guest memory that is not in use. */
  ghost predicate LowestFree<M>(s: Slots<M>, slot: int) {
    s.regions <= slot && slot !in s.live && forall x :: s.regions <= x < slot ==> x in s.live
  }

  /** Nothing was lost. */
  ghost predicate Whole<M>(s: Slots<M>) {
    Inv(s) && s.lost == {}
  }

  lemma {:induction false} ChosenIsLowest<M>(s: Slots<M>)
    requires Whole(s)
    ensures LowestFree(s, Chosen(s))
  {
    ChosenInUse(s);
    assert s.gaps != [] ==> Known(s, Chosen(s));
    forall x | s.regions <= x < Chosen(s)
      ensures x in s.live
    {
      assert Known(s, x);
      if s.gaps != [] {
        PopKeeps(s.gaps, -x);
      }
    }
  }

  /** The slot numbers of `Vm`, updated in place. */
  class Vm<M> {
    const regions: nat
    var live: map<int, M>
    var gaps: seq<int>
    ghost var lost: set<int>

    ghost function Value(): (s: Slots<M>)
      reads this
    {
      Slots(regions, live, gaps, lost)
    }

    constructor (regions: nat)
      ensures Value() == Slots(regions, map[], [], {})
    {
      this.regions, live, gaps, lost := regions, map[], [], {};
    }

    method AddDeviceMemory(addressOk: bool, mem: M, registered: bool) returns (r: Outcome<M>)
      modifies this
      ensures (Value(), r) == Step(old(Value()), Add(addressOk, mem, registered))
      ensures r.Added? <==> addressOk && registered
      ensures live == if r.Added? then old(live)[r.slot := mem] else old(live)
      ensures r.Added? && old(Whole(Value())) ==> LowestFree(old(Value()), r.slot)
    {
      ghost var before := Value();
      if !addressOk {
        return Failed(NoSpace);
      }
      var slot := |live| + regions;
      var popped := gaps != [];
      if popped {
        slot := -gaps[0];
        gaps := gaps[1..];
      }
      if !registered {
        if popped {
          lost := lost + {slot};
        }
        return Failed(Ioctl);
      }
      live := live[slot := mem];
      lost := lost - {slot};
      r := Added(slot);
      if Whole(before) {
        ChosenIsLowest(before);
      }
    }

    method RemoveDeviceMemory(slot: int, registered: bool) returns (r: Outcome<M>)
      modifies this
      ensures (Value(), r) == Step(old(Value()), Remove(slot, registered))
      ensures r == if slot !in old(live) then Failed(NoEntry)
                   else if !registered then Failed(Ioctl) else Removed(old(live)[slot])
      ensures live == if r.Removed? then old(live) - {slot} else old(live)
    {
      if slot !in live {
        return Failed(NoEntry);
      }
      if !registered {
        return Failed(Ioctl);
      }
      gaps := Push(gaps, -slot);
      r := Removed(live[slot]);
      live := live - {slot};
    }
  }

  // ---------------------------------------------------------------------------
  // What holds of every run
  // ---------------------------------------------------------------------------

  function Run<M>(s: Slots<M>, ops: seq<Op<M>>): (s': Slots<M>)
    decreases |ops|
  {
    if ops == [] then s else Run(Step(s, ops[0]).0, ops[1..])
  }

  lemma {:induction false} RunKeepsInv<M>(s: Slots<M>, ops: seq<Op<M>>)
    requires Inv(s)
    ensures Inv(Run(s, ops)) && Run(s, ops).regions == s.regions
    decreases |ops|
  {
    if ops != [] {
      StepKeepsInv(s, ops[0]);
      RunKeepsInv(Step(s, ops[0]).0, ops[1..]);
    }
  }

  function Fresh<M>(regions: nat): (s: Slots<M>) {
    Slots(regions, map[], [], {})
  }

  /** A registration that fails on a slot popped from the heap. */
  predicate LosesGap<M>(s: Slots<M>, op: Op<M>) {
    op.Add? && op.addressOk && !op.registered && s.gaps != []
  }

  predicate NeverLosesGap<M>(s: Slots<M>, ops: seq<Op<M>>)
    decreases |ops|
  {
    ops == [] || (!LosesGap(s, ops[0]) && NeverLosesGap(Step(s, ops[0]).0, ops[1..]))
  }

  lemma {:induction false} NothingGetsLost<M>(s: Slots<M>, ops: seq<Op<M>>)
    requires s.lost == {} && NeverLosesGap(s, ops)
    ensures Run(s, ops).lost == {}
    decreases |ops|
  {
    if ops != [] {
      NothingGetsLost(Step(s, ops[0]).0, ops[1..]);
    }
  }

  /**
   After any run, the slot chosen for the next mapping is already in use exactly when there are no
   gaps, some gap has been lost, and the next number is not itself a lost one.
   */
  lemma {:induction false} CollidesExactlyWhen<M>(regions: nat, ops: seq<Op<M>>)
    ensures var s := Run(Fresh<M>(regions), ops);
            Chosen(s) in s.live <==> s.gaps == [] && s.lost != {} && regions + |s.live| !in s.lost
  {
    var s := Run(Fresh<M>(regions), ops);
    RunKeepsInv(Fresh<M>(regions), ops);
    ChosenInUse(s);
  }

  /** After any run that loses no gap, the slot chosen is the lowest one that is free. */
  lemma {:induction false} ChoosesLowestFree<M>(regions: nat, ops: seq<Op<M>>, x: int)
    requires NeverLosesGap(Fresh<M>(regions), ops)
    ensures var s := Run(Fresh<M>(regions), ops);
            && regions <= Chosen(s) && Chosen(s) !in s.live
            && (regions <= x < Chosen(s) ==> x in s.live)
  {
    var s := Run(Fresh<M>(regions), ops);
    RunKeepsInv(Fresh<M>(regions), ops);
    NothingGetsLost(Fresh<M>(regions), ops);
    ChosenIsLowest(s);
  }

  /**
   What each call returns and does to the mappings: an address inside guest memory is `NoSpace`, a slot not in use
   `NoEntry`, a registration that fails `Ioctl`, none of which changes a mapping; and a removal takes just its slot.
   */
  lemma OutcomeIs<M>(s: Slots<M>, op: Op<M>)
    ensures var (s', r) := Step(s, op);
            && s'.regions == s.regions && (r.Failed? ==> s'.live == s.live)
            && match op
               case Add(addressOk, _, registered) =>
                 if !addressOk then r == Failed(NoSpace) && s' == s
                 else if !registered then r == Failed(Ioctl)
                 else r.Added?
               case Remove(slot, registered) =>
                 if slot !in s.live then r == Failed(NoEntry) && s' == s
                 else if !registered then r == Failed(Ioctl) && s' == s
                 else r == Removed(s.live[slot]) && s'.live == s.live - {slot}
  {
  }

  /** After any run that loses no gap, a mapping goes to the lowest free slot behind guest memory; the others stay. */
  lemma {:induction false} AddsAtLowestFree<M>(regions: nat, ops: seq<Op<M>>, mem: M, x: int)
    requires NeverLosesGap(Fresh<M>(regions), ops)
    ensures var s := Run(Fresh<M>(regions), ops);
            var (s', r) := Step(s, Add(true, mem, true));
            && r.Added? && regions <= r.slot && r.slot !in s.live
            && (regions <= x < r.slot ==> x in s.live)
            && s'.live == s.live[r.slot := mem]
  {
    ChoosesLowestFree(regions, ops, x);
  }

  /** The operation removes the slot or puts another mapping there. */
  predicate Touches<M>(s: Slots<M>, op: Op<M>, slot: int) {
    if op.Remove? then op.slot == slot else op.addressOk && op.registered && Chosen(s) == slot
  }

  predicate NeverTouches<M>(s: Slots<M>, ops: seq<Op<M>>, slot: int)
    decreases |ops|
  {
    ops == [] || (!Touches(s, ops[0], slot) && NeverTouches(Step(s, ops[0]).0, ops[1..], slot))
  }

  predicate NeverRemoves<M>(ops: seq<Op<M>>, slot: int) {
    forall i :: 0 <= i < |ops| && ops[i].Remove? ==> ops[i].slot != slot
  }

  /** A mapping stays what it is as long as its slot is not touched. */
  lemma {:induction false} MappingStays<M>(s: Slots<M>, slot: int, ops: seq<Op<M>>)
    requires slot in s.live && NeverTouches(s, ops, slot)
    ensures slot in Run(s, ops).live && Run(s, ops).live[slot] == s.live[slot]
    decreases |ops|
  {
    if ops != [] {
      MappingStays(Step(s, ops[0]).0, slot, ops[1..]);
    }
  }

  /** Without lost gaps, only its removal touches a slot in use. */
  lemma {:induction false} OnlyRemovalTouches<M>(s: Slots<M>, slot: int, ops: seq<Op<M>>)
    requires Inv(s) && s.lost == {} && slot in s.live && NeverLosesGap(s, ops) && NeverRemoves(ops, slot)
    ensures NeverTouches(s, ops, slot)
    decreases |ops|
  {
    if ops != [] {
      ChosenInUse(s);
      StepKeepsInv(s, ops[0]);
      OnlyRemovalTouches(Step(s, ops[0]).0, slot, ops[1..]);
    }
  }

  /**
   `remove_device_memory` gives back the mapping that `add_device_memory` took, after any run before and any
   run in between that does not touch its slot. If no gap is ever lost, that is any run that does not remove it.
   */
  lemma {:induction false} RemoveReturnsWhatWasAdded<M>(regions: nat, before: seq<Op<M>>, mem: M, between: seq<Op<M>>)
    ensures var (s', r) := Step(Run(Fresh<M>(regions), before), Add(true, mem, true));
            && r.Added?
            && (NeverTouches(s', between, r.slot) ==> Step(Run(s', between), Remove(r.slot, true)).1 == Removed(mem))
            && (NeverLosesGap(Fresh<M>(regions), before) && NeverLosesGap(s', between) ==>
                  NeverRemoves(between, r.slot) ==> NeverTouches(s', between, r.slot))
  {
    var s := Run(Fresh<M>(regions), before);
    var (s', r) := Step(s, Add(true, mem, true));
    var slot := r.slot;
    if NeverTouches(s', between, slot) {
      MappingStays(s', slot, between);
    }
    if NeverLosesGap(Fresh<M>(regions), before) && NeverLosesGap(s', between) && NeverRemoves(between, slot) {
      RunKeepsInv(Fresh<M>(regions), before);
      NothingGetsLost(Fresh<M>(regions), before);
      StepKeepsInv(s, Add(true, mem, true));
      OnlyRemovalTouches(s', slot, between);
    }
  }

  /**
   Once there are two mappings and no gaps, removing one that is not the last and failing to register
   another makes the next one replace the last.
   */
  lemma {:induction false} LostGapCollides<M>(s: Slots<M>, slot: int, mem: M)
    requires Inv(s) && s.gaps == [] && s.lost == {} && slot in s.live && slot != s.regions + |s.live| - 1
    ensures var s1 := Step(s, Remove(slot, true)).0;
            var s2 := Step(s1, Add(true, mem, false)).0;
            var last := s.regions + |s.live| - 1;
            && last in s2.live && s2.live[last] == s.live[last]
            && Step(s2, Add(true, mem, true)).1 == Added(last) && Step(s2, Add(true, mem, true)).0.live[last] == mem
  {
    var s1 := Step(s, Remove(slot, true)).0;
    var last := s.regions + |s.live| - 1;
    assert Known(s, slot) && Known(s, last);
    assert s1.live.Keys == s.live.Keys - {slot};
    assert |s1.live| == |s.live| - 1;
  }

  /** KVM refuses to give a slot in use to another mapping. */
  predicate Refuses<M>(s: Slots<M>, op: Op<M>) {
    op.Add? && op.addressOk && Chosen(s) in s.live ==> !op.registered
  }

  predicate OnlyRefusedAdds<M>(s: Slots<M>, ops: seq<Op<M>>)
    decreases |ops|
  {
    ops == [] || (ops[0].Add? && Refuses(s, ops[0]) && OnlyRefusedAdds(Step(s, ops[0]).0, ops[1..]))
  }

  /**
   If KVM refuses that, nothing can be added any more until something is removed: each attempt fails and
   leaves all as it is.
   */
  lemma {:induction false} LostGapBlocks<M>(s: Slots<M>, ops: seq<Op<M>>, op: Op<M>)
    requires s.gaps == [] && Chosen(s) in s.live && OnlyRefusedAdds(s, ops) && op.Add? && Refuses(s, op)
    ensures Run(s, ops) == s && Step(s, op).0 == s && Step(s, op).1.Failed?
    decreases |ops|
  {
    if ops != [] {
      LostGapBlocks(s, ops[1..], op);
    }
  }
}
