/** What holds of the serial port over every sequence of operations, whether or not its writes succeed. */
module SerialLaws {
  import opened Common
  import opened Serial

  function Run(s: State, ops: seq<Op>): (s': State)
    decreases |ops|
  {
    if ops == [] then s else Run(Step(s, ops[0]), ops[1..])
  }

  /** The operation is a one-byte access to the receive and transmit registers. */
  predicate OnData(s: State, offset: u64, data: seq<byte>) {
    |data| == 1 && offset % 256 == DATA && !s.Dlab()
  }

  // ---------------------------------------------------------------------------
  // Input: what is accepted is delivered, in order, or still in the buffer
  // ---------------------------------------------------------------------------

  function Accepted(s: State, op: Op): (r: seq<byte>) {
    match op
    case Queue(bytes, _) => if s.Looping() then [] else bytes
    case Write(offset, data, _) => if OnData(s, offset, data) && s.Looping() && |s.input| < LOOP_SIZE then data else []
    case Read(_, _) => []
  }

  /** What a read hands to the guest out of the buffer. */
  function Delivered(s: State, op: Op): (r: seq<byte>) {
    if op.Read? && OnData(s, op.offset, op.data) && s.input != [] then BusRead(s, op.offset, op.data).1 else []
  }

  function AllAccepted(s: State, ops: seq<Op>): (r: seq<byte>)
    decreases |ops|
  {
    if ops == [] then [] else Accepted(s, ops[0]) + AllAccepted(Step(s, ops[0]), ops[1..])
  }

  function AllDelivered(s: State, ops: seq<Op>): (r: seq<byte>)
    decreases |ops|
  {
    if ops == [] then [] else Delivered(s, ops[0]) + AllDelivered(Step(s, ops[0]), ops[1..])
  }

  lemma WriteConserves(s: State, op: Op)
    requires op.Write?
    ensures Step(s, op).input == s.input + Accepted(s, op)
  {
  }

  lemma ReadConserves(s: State, op: Op)
    requires op.Read?
    ensures s.input == Delivered(s, op) + Step(s, op).input
  {
  }

  lemma StepConserves(s: State, op: Op)
    ensures s.input + Accepted(s, op) == Delivered(s, op) + Step(s, op).input
  {
    if op.Write? {
      WriteConserves(s, op);
    } else if op.Read? {
      ReadConserves(s, op);
    }
  }

  lemma Chain<T>(x: seq<T>, a: seq<T>, c: seq<T>, y: seq<T>, b: seq<T>, d: seq<T>, z: seq<T>)
    requires x + a == c + y && y + b == d + z
    ensures x + (a + b) == (c + d) + z
  {
    assert x + (a + b) == (x + a) + b;
    assert c + (d + z) == (c + d) + z;
  }

  /** Nothing is lost, doubled or reordered between the host and the guest. */
  lemma {:induction false} InputIsConserved(s: State, ops: seq<Op>)
    ensures s.input + AllAccepted(s, ops) == AllDelivered(s, ops) + Run(s, ops).input
    decreases |ops|
  {
    if ops != [] {
      var op, s1, rest := ops[0], Step(s, ops[0]), ops[1..];
      StepConserves(s, op);
      InputIsConserved(s1, rest);
      Chain(s.input, Accepted(s, op), Delivered(s, op), s1.input, AllAccepted(s1, rest), AllDelivered(s1, rest),
            Run(s1, rest).input);
    }
  }

  /** How many bytes the host puts into the buffer. */
  function HostBytes(s: State, ops: seq<Op>): (n: nat)
    decreases |ops|
  {
    if ops == [] then 0
    else (if ops[0].Queue? then |Accepted(s, ops[0])| else 0) + HostBytes(Step(s, ops[0]), ops[1..])
  }

  function Max(a: nat, b: nat): (m: nat) {
    if a >= b then a else b
  }

  lemma StepLength(s: State, op: Op)
    ensures |Step(s, op).input| == |s.input| + |Accepted(s, op)| - |Delivered(s, op)|
    ensures !op.Queue? ==> |Step(s, op).input| <= Max(|s.input|, LOOP_SIZE)
  {
    StepConserves(s, op);
    assert |s.input + Accepted(s, op)| == |Delivered(s, op) + Step(s, op).input|;
  }

  /** In every run the guest adds nothing beyond the loop size, so the rest of the buffer is the host's. */
  lemma {:induction false} LoopIsBounded(s: State, ops: seq<Op>, op: Op)
    ensures |Run(s, ops).input| <= Max(|s.input|, LOOP_SIZE) + HostBytes(s, ops)
    ensures !op.Queue? ==> |Step(Run(s, ops), op).input| <= Max(|Run(s, ops).input|, LOOP_SIZE)
    decreases |ops|
  {
    if ops == [] {
      StepLength(s, op);
    } else {
      StepLength(s, ops[0]);
      LoopIsBounded(Step(s, ops[0]), ops[1..], op);
    }
  }

  // ---------------------------------------------------------------------------
  // Output
  // ---------------------------------------------------------------------------

  /** The bytes that reach the output: those the guest transmits outside loop mode and whose write does not fail. */
  function Sent(s: State, op: Op): (r: seq<byte>) {
    if op.Write? && OnData(s, op.offset, op.data) && !s.Looping() && (op.io.sink.Accepts? || op.io.sink.FlushFails?)
    then op.data else []
  }

  function AllSent(s: State, ops: seq<Op>): (r: seq<byte>)
    decreases |ops|
  {
    if ops == [] then [] else Sent(s, ops[0]) + AllSent(Step(s, ops[0]), ops[1..])
  }

  lemma StepSends(s: State, op: Op)
    ensures Step(s, op).output == s.output + Sent(s, op)
  {
  }

  lemma {:induction false} OutputIsInOrder(s: State, ops: seq<Op>)
    ensures Run(s, ops).output == s.output + AllSent(s, ops)
    decreases |ops|
  {
    if ops != [] {
      StepSends(s, ops[0]);
      OutputIsInOrder(Step(s, ops[0]), ops[1..]);
    }
  }

  // ---------------------------------------------------------------------------
  // Registers
  // ---------------------------------------------------------------------------

  /** The interrupt register says "none" or which of the two interrupts are pending, never both or neither. */
  predicate Plausible(s: State) {
    s.iir.none <==> !s.iir.thr && !s.iir.recv
  }

  lemma PlausibleByte(s: State)
    ensures Plausible(s) <==> s.iir.Byte() in {0x1, 0x2, 0x4, 0x6}
  {
  }

  lemma StepKeepsPlausible(s: State, op: Op)
    requires Plausible(s)
    ensures Plausible(Step(s, op))
  {
  }

  lemma {:induction false} RunKeepsPlausible(s: State, ops: seq<Op>)
    requires Plausible(s)
    ensures Plausible(Run(s, ops)) && Run(s, ops).iir.Byte() in {0x1, 0x2, 0x4, 0x6}
    decreases |ops|
  {
    if ops == [] {
      PlausibleByte(s);
    } else {
      StepKeepsPlausible(s, ops[0]);
      RunKeepsPlausible(Step(s, ops[0]), ops[1..]);
    }
  }

  /** Bytes come in: from the host outside loop mode, from the guest in it, as far as there is room. */
  predicate Receives(s: State, op: Op) {
    match op
    case Queue(_, _) => s.mcr / 0x10 % 2 == 0
    case Write(offset, data, _) =>
      |data| == 1 && offset % 256 == 0 && s.lcr < 0x80 && s.mcr / 0x10 % 2 == 1 && |s.input| < 0x40
    case Read(_, _) => false
  }

  /** The transmitter runs empty: a byte is written outside loop mode and nothing fails before. */
  predicate Transmits(s: State, op: Op) {
    && op.Write? && |op.data| == 1 && op.offset % 256 == 0 && s.lcr < 0x80 && s.mcr / 0x10 % 2 == 0
    && (op.io.sink.NoOutput? || op.io.sink.Accepts?)
  }

  predicate ReadsAt(op: Op, reg: nat) {
    op.Read? && |op.data| == 1 && op.offset % 256 == reg
  }

  /**
   Which interrupts are pending after an operation: receiving sets the one for data if enabled, and reading data
   takes it back; transmitting sets the other if enabled; reading the identification takes both back.
   */
  lemma PendingAfter(s: State, op: Op)
    ensures Step(s, op).iir.recv <==>
            if Receives(s, op) && s.ier % 2 == 1 then true
            else s.iir.recv && !ReadsAt(op, 2) && !(ReadsAt(op, 0) && s.lcr < 0x80)
    ensures Step(s, op).iir.thr <==>
            if Transmits(s, op) && s.ier / 2 % 2 == 1 then true else s.iir.thr && !ReadsAt(op, 2)
  {
  }

  /** An event is written exactly when an enabled interrupt is set, also when it is set already, and that works. */
  lemma RaisedWhen(s: State, op: Op)
    ensures Step(s, op).raised == s.raised +
            match op
            case Queue(_, evt) => if Receives(s, op) && s.ier % 2 == 1 && evt then 1 else 0
            case Write(_, _, io) =>
              var enabled := (Receives(s, op) && s.ier % 2 == 1) || (Transmits(s, op) && s.ier / 2 % 2 == 1);
              if enabled && io.evt then 1 else 0
            case Read(_, _) => 0
  {
  }

  /** What the guest reads of a register is what it wrote there, as far as the register keeps it. */
  lemma RegistersReadBack(s: State, v: byte, io: Io)
    ensures s.lcr < 0x80 ==> BusRead(BusWrite(s, 1, [v], io), 1, [0]).1 == [v % 0x10]
    ensures BusRead(BusWrite(s, 3, [v], io), 3, [0]).1 == [v]
    ensures BusRead(BusWrite(s, 4, [v], io), 4, [0]).1 == [v]
    ensures BusRead(BusWrite(s, 7, [v], io), 7, [0]).1 == [v]
  {
  }

  /** A write to one register leaves the others, and those that cannot be written leave everything. */
  lemma RegistersStayApart(s: State, reg: byte, v: byte, io: Io, other: byte)
    requires other != reg && other >= 3 && (reg > 0 || s.lcr >= 0x80)
    ensures BusRead(BusWrite(s, reg, [v], io), other, [0]).1 == BusRead(s, other, [0]).1
    ensures reg == 2 || reg == 5 || reg == 6 || reg > 7 ==> BusWrite(s, reg, [v], io) == s
  {
  }

  /** The registers that the port itself sets: interrupt identification, line status, modem status. */
  lemma StatusRegisters(s: State, reg: byte)
    ensures BusRead(s, 2, [0]) ==
            (s.(iir := Iir(true, false, false)),
             [0xc0 + (if s.iir.none then 1 else 0) + (if s.iir.thr then 2 else 0) + if s.iir.recv then 4 else 0])
    ensures BusRead(s, 5, [0]) == (s, [if s.ready then 0x61 else 0x60])
    ensures BusRead(s, 6, [0]) == (s, [0xb0])
    ensures reg > 7 ==> BusRead(s, reg, [0]) == (s, [0])
  {
  }

  /** What a guest reads of a port that was just made, the divisor with the latch bit set first. */
  lemma AfterReset(io: Io)
    ensures BusRead(Reset(), 0, [0]).1 == [0] && BusRead(Reset(), 1, [0]).1 == [0]
    ensures BusRead(Reset(), 2, [0]).1 == [0xc1]
    ensures BusRead(Reset(), 3, [0]).1 == [0x3] && BusRead(Reset(), 4, [0]).1 == [0x8]
    ensures BusRead(Reset(), 5, [0]).1 == [0x60] && BusRead(Reset(), 7, [0]).1 == [0]
    ensures var latched := BusWrite(Reset(), 3, [0x83], io);
            BusRead(latched, 0, [0]).1 == [12] && BusRead(latched, 1, [0]).1 == [0]
  {
  }

  // ---------------------------------------------------------------------------
  // The data-ready bit
  // ---------------------------------------------------------------------------

  /** The line status says that data is ready exactly when there is some. */
  predicate Honest(s: State) {
    s.ready <==> s.input != []
  }

  /**
   The operations that make the line status lie, all of them on an empty buffer: the host queues no bytes,
   or bytes arrive and the interrupt for them cannot be raised.
   */
  predicate Misleads(s: State, op: Op) {
    s.input == [] &&
    match op
    case Queue(bytes, evt) => !s.Looping() && (bytes == [] <==> (s.RecvEnabled() ==> evt))
    case Write(offset, data, io) => OnData(s, offset, data) && s.Looping() && s.RecvEnabled() && !io.evt
    case Read(_, _) => false
  }

  lemma StepIsHonest(s: State, op: Op)
    requires Honest(s)
    ensures Honest(Step(s, op)) <==> !Misleads(s, op)
  {
  }

  predicate NeverMisleads(s: State, ops: seq<Op>)
    decreases |ops|
  {
    ops == [] || (!Misleads(s, ops[0]) && NeverMisleads(Step(s, ops[0]), ops[1..]))
  }

  /** Until an operation misleads the line status is right, and then it is wrong. */
  lemma {:induction false} RunIsHonest(s: State, ops: seq<Op>, op: Op)
    requires Honest(s) && NeverMisleads(s, ops)
    ensures Honest(Run(s, ops))
    ensures Honest(Step(Run(s, ops), op)) <==> !Misleads(Run(s, ops), op)
    decreases |ops|
  {
    if ops == [] {
      StepIsHonest(s, op);
    } else {
      StepIsHonest(s, ops[0]);
      RunIsHonest(Step(s, ops[0]), ops[1..], op);
    }
  }

  /** A guest that polls the line status and sees data ready reads the oldest byte not yet delivered. */
  lemma PolledByteIsNext(ops: seq<Op>, offset: u64, data: seq<byte>)
    requires NeverMisleads(Reset(), ops)
    requires var s := Run(Reset(), ops); OnData(s, offset, data) && ReadReg(s, LSR).1 == 0x61
    ensures var (accepted, n) := (AllAccepted(Reset(), ops), |AllDelivered(Reset(), ops)|);
            n < |accepted| && BusRead(Run(Reset(), ops), offset, data).1 == [accepted[n]]
  {
    RunIsHonest(Reset(), ops, Read(offset, data));
    InputIsConserved(Reset(), ops);
    assert Reset().input + AllAccepted(Reset(), ops) == AllAccepted(Reset(), ops);
  }

  /**
   A guest in loop mode with the receive interrupt on writes to itself and the interrupt cannot be raised: the
   byte is in the buffer, and the port says that there is none.
   */
  lemma HiddenByte(v: byte, sink: Sink)
    ensures var s1 := Step(Reset(), Write(IER, [0x1], Io(sink, true)));
            var s2 := Step(s1, Write(MCR, [0x10], Io(sink, true)));
            var s3 := Step(s2, Write(DATA, [v], Io(sink, false)));
            s3.input == [v] && ReadReg(s3, LSR).1 == 0x60
  {
  }

  /**
   Queueing nothing makes the port say that data is ready, and the guest that reads it gets a zero. The
   interface allows it; the main loop does not do it.
   */
  lemma PhantomByte()
    ensures var s := Step(Reset(), Queue([], true));
            && AllAccepted(Reset(), [Queue([], true)]) == []
            && ReadReg(s, LSR).1 == 0x61 && BusRead(s, DATA, [0xff]).1 == [0]
  {
  }

  // ---------------------------------------------------------------------------
  // The divisor
  // ---------------------------------------------------------------------------

  /** With the latch bit set, both halves of the divisor can be written and read back, and the line is not touched. */
  lemma DivisorReadsBack(s: State, low: byte, high: byte, io: Io)
    requires s.Dlab()
    ensures var s' := BusWrite(BusWrite(s, DATA, [low], io), IER, [high], io);
            && s' == s.(baud := low + 256 * high)
            && BusRead(s', DATA, [0]) == (s', [low]) && BusRead(s', IER, [0]) == (s', [high])
  {
  }
}
