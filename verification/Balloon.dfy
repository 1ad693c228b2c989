/**
 The balloon controller of `run_control`: how much memory is taken back from the guest, when the
 low-memory device is polled, and which timers are armed.
 */
module Balloon {
  import opened Arithmetic
  import opened Common

  const ONE_GB: int := 0x4000_0000

  /** `sent` says whether sending to the balloon device works, `cleared` whether disarming the timer does. */
  datatype Event =
    | LowMemory(sent: bool)
    | LowmemTimer
    | CheckAvailableMemory(margin: u64, available: u64, cleared: bool, sent: bool)
    | BalloonAdjust(pages: int, sent: bool)  // a request on a control socket

  /** What goes to the balloon device: a size in eight bytes, or the four bytes of an adjustment. */
  datatype Message = Size(bytes: nat) | Pages(pages: int)

  /** The controller's variables; `told` lists the messages sent to the balloon device. */
  datatype Controller = Controller(
    max: nat, current: nat, hasDevice: bool, polled: bool,
    lowmemArmed: bool, freememArmed: bool, told: seq<Message>)

  /** The size that the balloon device holds: it ignores messages that are not eight bytes long. */
  function Heard(told: seq<Message>): (size: nat) {
    if told == [] then 0
    else if told[|told| - 1].Size? then told[|told| - 1].bytes
    else Heard(told[..|told| - 1])
  }

  /** The most the balloon may take from a guest of `size` bytes. */
  function MaxBalloon(size: nat): (m: nat)
    ensures m <= size
  {
    if size >= ONE_GB / 2 * 3 then size - ONE_GB
    else if size >= ONE_GB / 2 then size / 2
    else 0
  }

  function Increment(max: nat): (i: nat) {
    max / 16
  }

  function Start(size: nat, hasDevice: bool): (c: Controller) {
    Controller(MaxBalloon(size), 0, hasDevice, hasDevice, false, false, [])
  }

  /** A file descriptor reports only while it is registered, a timer only while it is armed. */
  predicate Enabled(c: Controller, e: Event) {
    match e
    case LowMemory(_) => c.polled
    case LowmemTimer => c.lowmemArmed
    case CheckAvailableMemory(_, _, _, _) => c.freememArmed
    case BalloonAdjust(_, _) => true
  }

  /** Memory is given back when this much is available; the sum wraps as `u64` arithmetic does. */
  predicate Plenty(max: nat, margin: u64, available: u64) {
    available >= (margin + 2 * (Increment(max) / 0x10_0000)) % 0x1_0000_0000_0000_0000
  }

  function Step(c: Controller, e: Event): (c': Controller) {
    match e
    case LowMemory(sent) =>
      if !c.hasDevice then c
      else
        var grown := Min(c.current + Increment(c.max), c.max);
        c.(current := grown, told := if grown != c.current && sent then c.told + [Size(grown)] else c.told,
           polled := false, lowmemArmed := true, freememArmed := true)
    case LowmemTimer =>
      c.(lowmemArmed := false, polled := c.polled || c.hasDevice)
    case CheckAvailableMemory(margin, available, cleared, sent) =>
      if c.current == 0 then c.(freememArmed := c.freememArmed && !cleared)
      else if Plenty(c.max, margin, available) then
        var shrunk := if c.current >= Increment(c.max) then c.current - Increment(c.max) else 0;
        c.(current := shrunk, told := if sent then c.told + [Size(shrunk)] else c.told)
      else c
    case BalloonAdjust(pages, sent) =>
      if sent then c.(told := c.told + [Pages(pages)]) else c
  }

  /** The handlers of the poll loop, updating the loop's variables in place. */
  class Loop {
    const max: nat
    const hasDevice: bool
    var current: nat
    var polled: bool
    var lowmemArmed: bool
    var freememArmed: bool
    var told: seq<Message>

    ghost function Value(): (c: Controller)
      reads this
    {
      Controller(max, current, hasDevice, polled, lowmemArmed, freememArmed, told)
    }

    constructor (size: nat, hasDevice: bool)
      ensures Value() == Start(size, hasDevice)
    {
      max, this.hasDevice := MaxBalloon(size), hasDevice;
      current, told := 0, [];
      polled, lowmemArmed, freememArmed := hasDevice, false, false;
    }

    method OnLowMemory(sent: bool)
      modifies this
      ensures Value() == Step(old(Value()), LowMemory(sent))
      ensures hasDevice ==> current == if old(current) + max / 16 < max then old(current) + max / 16 else max
    {
      if hasDevice {
        var before := current;
        current := Min(current + max / 16, max);
        if current != before && sent {
          told := told + [Size(current)];
        }
        polled := false;
        lowmemArmed := true;
        freememArmed := true;
      }
    }

    method OnLowmemTimer()
      modifies this
      ensures Value() == Step(old(Value()), LowmemTimer)
    {
      lowmemArmed := false;
      if hasDevice {
        polled := true;
      }
    }

    method OnCheckAvailableMemory(margin: u64, available: u64, cleared: bool, sent: bool)
      modifies this
      ensures Value() == Step(old(Value()), CheckAvailableMemory(margin, available, cleared, sent))
      ensures margin + 2 * (max / 16 / 0x10_0000) < 0x1_0000_0000_0000_0000 ==>
                current == if available < margin + 2 * (max / 16 / 0x10_0000) then old(current)
                           else if old(current) < max / 16 then 0 else old(current) - max / 16
    {
      if current == 0 {
        if cleared {
          freememArmed := false;
        }
        return;
      }
      if available >= (margin + 2 * (max / 16 / 0x10_0000)) % 0x1_0000_0000_0000_0000 {
        current := if current >= max / 16 then current - max / 16 else 0;
        if sent {
          told := told + [Size(current)];
        }
      }
    }

    method OnBalloonAdjust(pages: int, sent: bool)
      modifies this
      ensures Value() == Step(old(Value()), BalloonAdjust(pages, sent))
    {
      if sent {
        told := told + [Pages(pages)];
      }
    }
  }

  // ---------------------------------------------------------------------------
  // Runs
  // ---------------------------------------------------------------------------

  function Run(c: Controller, events: seq<Event>): (c': Controller)
    decreases |events|
  {
    if events == [] then c else Run(Step(c, events[0]), events[1..])
  }

  predicate AllEnabled(c: Controller, events: seq<Event>)
    decreases |events|
  {
    events == [] || (Enabled(c, events[0]) && AllEnabled(Step(c, events[0]), events[1..]))
  }

  ghost predicate Inv(c: Controller) {
    && c.current <= c.max
    && (c.hasDevice ==> c.polled == !c.lowmemArmed)
    && (!c.hasDevice ==> !c.polled && !c.lowmemArmed && !c.freememArmed && c.current == 0)
    && (c.current > 0 ==> c.freememArmed)
  }

  lemma {:induction false} RunKeepsInv(c: Controller, events: seq<Event>)
    requires Inv(c) && AllEnabled(c, events)
    ensures Inv(Run(c, events)) && Run(c, events).max == c.max && Run(c, events).hasDevice == c.hasDevice
    decreases |events|
  {
    if events != [] {
      RunKeepsInv(Step(c, events[0]), events[1..]);
    }
  }

  /**
   In every run the guest keeps its share, the low-memory device is polled exactly while its timer is
   not armed, and memory taken from the guest implies that the timer to give it back is armed.
   */
  lemma ControllerIsSafe(size: nat, hasDevice: bool, events: seq<Event>)
    requires AllEnabled(Start(size, hasDevice), events)
    ensures var c := Run(Start(size, hasDevice), events);
            && size - c.current >= (if size >= 0x6000_0000 then 0x4000_0000
                                    else if size >= 0x2000_0000 then (size + 1) / 2 else size)
            && (hasDevice ==> (c.polled <==> !c.lowmemArmed))
            && (c.current > 0 ==> c.freememArmed)
  {
    RunKeepsInv(Start(size, hasDevice), events);
  }

  /**
   When a check gives memory back, and how much: a sixteenth of the maximum, or what is left, exactly when the
   host has its margin and twice that sixteenth in MiB to spare.
   */
  lemma GivesBackExactlyWhen(c: Controller, margin: u64, available: u64, cleared: bool, sent: bool)
    requires Inv(c) && 0 < c.current && margin + 2 * (c.max / 16 / 0x10_0000) < 0x1_0000_0000_0000_0000
    ensures var c', plenty := Step(c, CheckAvailableMemory(margin, available, cleared, sent)),
                available >= margin + 2 * (c.max / 16 / 0x10_0000);
            && c' == c.(current := c'.current, told := c'.told)
            && (!plenty ==> c'.current == c.current)
            && (plenty ==> c'.current == if c.current >= c.max / 16 then c.current - c.max / 16 else 0)
            && c'.told == (if plenty && sent then c.told + [Size(c'.current)] else c.told)
            && (16 <= c.max ==> (c'.current < c.current <==> plenty))
  {
  }

  /** With nothing taken, a check only disarms its own timer, if that works. */
  lemma NothingToGiveBack(c: Controller, margin: u64, available: u64, cleared: bool, sent: bool)
    requires Inv(c) && c.current == 0 && c.freememArmed
    ensures Step(c, CheckAvailableMemory(margin, available, cleared, sent)) == c.(freememArmed := !cleared)
  {
  }

  // ---------------------------------------------------------------------------
  // What the balloon device knows
  // ---------------------------------------------------------------------------

  /** The balloon device holds the current size. */
  predicate Agrees(c: Controller) {
    Heard(c.told) == c.current
  }

  /**
   Where the handlers change the current size: a low-memory event below the maximum, a check that finds enough
   memory while some is taken. A maximum below 16 bytes has no increment.
   */
  predicate Changes(c: Controller, e: Event) {
    match e
    case LowMemory(_) => c.hasDevice && c.current < c.max && c.max >= 16
    case CheckAvailableMemory(margin, available, _, _) =>
      c.current > 0 && c.max >= 16 && Plenty(c.max, margin, available)
    case _ => false
  }

  /** There the device has to be told, and the send fails. */
  predicate Drops(c: Controller, e: Event) {
    Changes(c, e) && !e.sent
  }

  predicate NeverDrops(c: Controller, events: seq<Event>)
    decreases |events|
  {
    events == [] || (!Drops(c, events[0]) && NeverDrops(Step(c, events[0]), events[1..]))
  }

  lemma HeardOneMore(told: seq<Message>, m: Message)
    ensures Heard(told + [m]) == if m.Size? then m.bytes else Heard(told)
  {
    assert (told + [m])[..|told|] == told;
  }

  lemma ChangesSize(c: Controller, e: Event)
    requires c.current <= c.max
    ensures Step(c, e).current != c.current <==> Changes(c, e)
    ensures Step(c, e).current <= c.max == Step(c, e).max
  {
  }

  /** Starting from agreement, exactly a failed send at a change ends it; a send that works restores it. */
  lemma StepAgrees(c: Controller, e: Event)
    requires c.current <= c.max
    ensures Agrees(c) ==> (Agrees(Step(c, e)) <==> !Drops(c, e))
    ensures Changes(c, e) && !Drops(c, e) ==> Agrees(Step(c, e))
  {
    ChangesSize(c, e);
    HeardOneMore(c.told, Size(Step(c, e).current));
    if e.BalloonAdjust? {
      HeardOneMore(c.told, Pages(e.pages));
    }
  }

  lemma {:induction false} RunAgrees(c: Controller, events: seq<Event>, e: Event)
    requires c.current <= c.max && Agrees(c) && NeverDrops(c, events)
    ensures Agrees(Run(c, events))
    ensures Agrees(Step(Run(c, events), e)) <==> !Drops(Run(c, events), e)
    decreases |events|
  {
    if events == [] {
      StepAgrees(c, e);
    } else {
      ChangesSize(c, events[0]);
      StepAgrees(c, events[0]);
      RunAgrees(Step(c, events[0]), events[1..], e);
    }
  }

  /** In every run the device holds the current size until a send fails at a change of it, and then it does not. */
  lemma DeviceKnows(size: nat, hasDevice: bool, events: seq<Event>, e: Event)
    requires NeverDrops(Start(size, hasDevice), events)
    ensures var c := Run(Start(size, hasDevice), events);
            Agrees(c) && (Agrees(Step(c, e)) <==> !Drops(c, e))
  {
    RunAgrees(Start(size, hasDevice), events, e);
  }

  /** A guest of 2 GiB and a low-memory event whose send fails: 64 MiB count as taken, and the device holds none. */
  lemma DeviceIsNotTold()
    ensures var c := Start(0x8000_0000, true);
            && Enabled(c, LowMemory(false)) && Agrees(c)
            && Step(c, LowMemory(false)).current == 0x400_0000 && Heard(Step(c, LowMemory(false)).told) == 0
  {
  }

  /** A check that finds enough memory to give some back. */
  predicate GivesBack(max: nat, e: Event) {
    e.CheckAvailableMemory? && Plenty(max, e.margin, e.available)
  }

  function Returns(max: nat, events: seq<Event>): (n: nat) {
    if events == [] then 0 else Returns(max, events[1..]) + if GivesBack(max, events[0]) then 1 else 0
  }

  /** At the maximum no size is sent again, right or wrong, until memory is given back. */
  lemma {:induction false} SilentAtMaximum(c: Controller, events: seq<Event>)
    requires c.current == c.max && Returns(c.max, events) == 0
    ensures Run(c, events).current == c.max && Heard(Run(c, events).told) == Heard(c.told)
    decreases |events|
  {
    if events != [] {
      if events[0].BalloonAdjust? {
        HeardOneMore(c.told, Pages(events[0].pages));
      }
      SilentAtMaximum(Step(c, events[0]), events[1..]);
    }
  }

  /** How many of the events are low-memory events, timer events, and checks that give memory back. */
  function Alarms(events: seq<Event>): (n: nat) {
    if events == [] then 0 else Alarms(events[1..]) + if events[0].LowMemory? then 1 else 0
  }

  function Timers(events: seq<Event>): (n: nat) {
    if events == [] then 0 else Timers(events[1..]) + if events[0].LowmemTimer? then 1 else 0
  }

  lemma StepKeepsInv(c: Controller, e: Event)
    requires Inv(c) && Enabled(c, e)
    ensures Inv(Step(c, e)) && Step(c, e).max == c.max
  {
  }

  /** Low-memory events are rate limited: each is followed by its timer before the next. */
  lemma {:induction false} RateLimited(c: Controller, events: seq<Event>)
    requires Inv(c) && AllEnabled(c, events)
    ensures Alarms(events) + (if c.lowmemArmed then 1 else 0) ==
            Timers(events) + if Run(c, events).lowmemArmed then 1 else 0
    decreases |events|
  {
    if events != [] {
      StepKeepsInv(c, events[0]);
      RateLimited(Step(c, events[0]), events[1..]);
    }
  }

  /** Each low-memory event takes a sixteenth of the maximum, up to all of it, as long as nothing is given back. */
  lemma {:induction false} Grows(c: Controller, events: seq<Event>)
    requires Inv(c) && AllEnabled(c, events) && Returns(c.max, events) == 0
    ensures Run(c, events).current == Min(c.max, c.current + Alarms(events) * (c.max / 16))
    decreases |events|
  {
    if events != [] {
      var e, inc, c1 := events[0], Increment(c.max), Step(c, events[0]);
      StepKeepsInv(c, e);
      Grows(c1, events[1..]);
      MulStep(Alarms(events[1..]), inc);
      assert c1.current == if e.LowMemory? then Min(c.max, c.current + inc) else c.current;
    }
  }

  /** `current` less `n` increments, and not below nothing: one more taken off first makes one more. */
  lemma OneMoreBack(current: nat, inc: nat, n: nat)
    ensures var c1 := if inc <= current then current - inc else 0;
            (if n * inc <= c1 then c1 - n * inc else 0) ==
            if (n + 1) * inc <= current then current - (n + 1) * inc else 0
  {
    MulStep(n, inc);
    MulMonotone(0, n, inc);
  }

  /** Each check that finds enough memory gives a sixteenth back, down to nothing, without low-memory events. */
  lemma {:induction false} Drains(c: Controller, events: seq<Event>)
    requires Inv(c) && AllEnabled(c, events) && Alarms(events) == 0
    ensures var back := Returns(c.max, events) * (c.max / 16);
            Run(c, events).current == if back <= c.current then c.current - back else 0
    decreases |events|
  {
    if events != [] {
      var e, inc, c1 := events[0], Increment(c.max), Step(c, events[0]);
      StepKeepsInv(c, e);
      Drains(c1, events[1..]);
      OneMoreBack(c.current, inc, Returns(c.max, events[1..]));
      assert c1.current == if !GivesBack(c.max, e) then c.current else if inc <= c.current then c.current - inc else 0;
    }
  }

  lemma SeventeenIncrements(size: nat)
    ensures 17 * Increment(MaxBalloon(size)) >= MaxBalloon(size)
  {
  }

  /**
   From any state, seventeen low-memory events take all that may be taken when nothing is given back between them:
   they leave a guest of 1.5 GiB or more 1 GiB, one of 512 MiB or more half, and a smaller one everything.
   */
  lemma SeventeenAlarms(size: nat, hasDevice: bool, before: seq<Event>, events: seq<Event>)
    requires AllEnabled(Start(size, hasDevice), before)
    requires AllEnabled(Run(Start(size, hasDevice), before), events)
    requires Alarms(events) >= 17 && Returns(MaxBalloon(size), events) == 0
    ensures size - Run(Run(Start(size, hasDevice), before), events).current ==
            if size >= 0x6000_0000 then 0x4000_0000 else if size >= 0x2000_0000 then (size + 1) / 2 else size
  {
    var c := Run(Start(size, hasDevice), before);
    RunKeepsInv(Start(size, hasDevice), before);
    RunKeepsInv(c, events);
    Grows(c, events);
    SeventeenIncrements(size);
    MulMonotone(17, Alarms(events), Increment(c.max));
  }

  /** From any state, seventeen checks that find enough memory give all of it back. */
  lemma SeventeenReturns(size: nat, hasDevice: bool, before: seq<Event>, events: seq<Event>)
    requires AllEnabled(Start(size, hasDevice), before)
    requires AllEnabled(Run(Start(size, hasDevice), before), events)
    requires Returns(MaxBalloon(size), events) >= 17 && Alarms(events) == 0
    ensures Run(Run(Start(size, hasDevice), before), events).current == 0
  {
    var c := Run(Start(size, hasDevice), before);
    RunKeepsInv(Start(size, hasDevice), before);
    Drains(c, events);
    SeventeenIncrements(size);
    MulMonotone(17, Returns(c.max, events), Increment(c.max));
  }
}
