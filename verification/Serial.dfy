/**
 The serial port: the registers of a 16550 UART, its input buffer, its output and its interrupt. Writing to
 the event file and to the output may fail, and what is left undone then is part of the model.
 */
module Serial {
  import opened Common

  const LOOP_SIZE: nat := 0x40

  const DATA: nat := 0
  const IER: nat := 1
  const IIR: nat := 2
  const LCR: nat := 3
  const MCR: nat := 4
  const LSR: nat := 5
  const MSR: nat := 6
  const SCR: nat := 7

  /** Data ready, clear to send, carrier detect; nothing changes it. */
  const MODEM_STATUS: byte := 0xb0

  /** The bits of the interrupt identification register that are ever set. */
  datatype Iir = Iir(none: bool, thr: bool, recv: bool)
  {
    function Byte(): (r: byte) {
      (if none then 0x1 else 0) + (if thr then 0x2 else 0) + if recv then 0x4 else 0
    }

    function AddThr(): (r: Iir) {
      Iir(false, true, recv)
    }

    function AddRecv(): (r: Iir) {
      Iir(false, thr, true)
    }

    /** Clearing the last bit sets the one that says there is none. */
    function DelRecv(): (r: Iir) {
      Iir(none || !thr, thr, false)
    }
  }

  const NO_INTERRUPT: Iir := Iir(true, false, false)

  /** The line status register: the transmitter is always empty and idle, and data is ready or not. */
  function LineStatus(ready: bool): (r: byte) {
    if ready then 0x61 else 0x60
  }

  /** What the output does with a byte. */
  datatype Sink = NoOutput | Accepts | WriteFails | FlushFails

  /** `evt` says whether writing to the event file succeeds. */
  datatype Io = Io(sink: Sink, evt: bool)

  datatype Op =
    | Queue(bytes: seq<byte>, evt: bool)
    | Write(offset: u64, data: seq<byte>, io: Io)
    | Read(offset: u64, data: seq<byte>)

  /** `raised` counts the events written to the event file. */
  datatype State = State(ier: byte, iir: Iir, lcr: byte, ready: bool, mcr: byte, scr: byte, baud: nat,
                         input: seq<byte>, output: seq<byte>, raised: nat)
  {
    predicate Dlab() {
      lcr >= 0x80
    }

    predicate RecvEnabled() {
      ier % 2 == 1
    }

    predicate ThrEnabled() {
      ier / 2 % 2 == 1
    }

    predicate Looping() {
      mcr / 0x10 % 2 == 1
    }
  }

  function Reset(): (s: State) {
    State(0, NO_INTERRUPT, 0x3, false, 0x8, 0, 12, [], [], 0)
  }

  // ---------------------------------------------------------------------------
  // What each operation does to the state
  // ---------------------------------------------------------------------------

  /** The transmitter is empty; the result is whether the event, if any, was written. */
  function ThrEmpty(s: State, evt: bool): (r: (State, bool)) {
    if s.ThrEnabled() then (s.(iir := s.iir.AddThr(), raised := s.raised + if evt then 1 else 0), evt) else (s, true)
  }

  /** Data was received: a failure to write the event leaves the line status as it was. */
  function RecvData(s: State, evt: bool): (r: (State, bool)) {
    var s1 := if s.RecvEnabled() then s.(iir := s.iir.AddRecv(), raised := s.raised + if evt then 1 else 0) else s;
    if s.RecvEnabled() && !evt then (s1, false) else (s1.(ready := true), true)
  }

  function QueueInput(s: State, bytes: seq<byte>, evt: bool): (r: (State, bool)) {
    if s.Looping() then (s, true) else RecvData(s.(input := s.input + bytes), evt)
  }

  /** A byte for the transmitter: back into the input buffer in loop mode, to the output otherwise. */
  function Transmit(s: State, v: byte, io: Io): (r: (State, bool)) {
    if s.Looping() then
      if |s.input| < LOOP_SIZE then RecvData(s.(input := s.input + [v]), io.evt) else (s, true)
    else if io.sink.WriteFails? then (s, false)
    else if io.sink.FlushFails? then (s.(output := s.output + [v]), false)
    else ThrEmpty(if io.sink.Accepts? then s.(output := s.output + [v]) else s, io.evt)
  }

  /** Half of the divisor: the low byte at the address of DATA, the high byte at that of IER. */
  function WithDivisor(s: State, reg: nat, v: byte): (s': State) {
    s.(baud := if reg == DATA then s.baud / 256 * 256 + v else s.baud % 256 + 256 * v)
  }

  function WithRegister(s: State, reg: nat, v: byte): (s': State) {
    if reg == IER then s.(ier := v % 0x10)
    else if reg == LCR then s.(lcr := v)
    else if reg == MCR then s.(mcr := v)
    else if reg == SCR then s.(scr := v)
    else s
  }

  function HandleWrite(s: State, reg: nat, v: byte, io: Io): (r: (State, bool)) {
    if (reg == DATA || reg == IER) && s.Dlab() then (WithDivisor(s, reg, v), true)
    else if reg == DATA then Transmit(s, v, io)
    else (WithRegister(s, reg, v), true)
  }

  /** A bus write; a failure is logged and forgotten. */
  function BusWrite(s: State, offset: u64, data: seq<byte>, io: Io): (s': State) {
    if |data| != 1 then s else HandleWrite(s, offset % 256, data[0], io).0
  }

  /** What the registers say once the next byte is taken. */
  function Acknowledged(s: State): (s': State) {
    s.(iir := s.iir.DelRecv(), ready := s.ready && |s.input| > 1)
  }

  function ReceivedByte(s: State): (r: (State, byte)) {
    if s.input == [] then (Acknowledged(s), 0) else (Acknowledged(s).(input := s.input[1..]), s.input[0])
  }

  /** The value of a register that reading does not change. */
  function Register(s: State, reg: nat): (v: byte) {
    if reg == DATA then s.baud % 256
    else if reg == IER && s.Dlab() then s.baud / 256 % 256
    else if reg == IER then s.ier
    else if reg == LCR then s.lcr
    else if reg == MCR then s.mcr
    else if reg == LSR then LineStatus(s.ready)
    else if reg == MSR then MODEM_STATUS
    else if reg == SCR then s.scr
    else 0
  }

  function ReadReg(s: State, reg: nat): (r: (State, byte)) {
    if reg == DATA && !s.Dlab() then ReceivedByte(s)
    else if reg == IIR then (s.(iir := NO_INTERRUPT), 0xc0 + s.iir.Byte())
    else (s, Register(s, reg))
  }

  function BusRead(s: State, offset: u64, data: seq<byte>): (r: (State, seq<byte>)) {
    if |data| != 1 then (s, data)
    else
      var (s', v) := ReadReg(s, offset % 256);
      (s', [v])
  }

  function Step(s: State, op: Op): (s': State) {
    match op
    case Queue(bytes, evt) => QueueInput(s, bytes, evt).0
    case Write(offset, data, io) => BusWrite(s, offset, data, io)
    case Read(offset, data) => BusRead(s, offset, data).0
  }

  // ---------------------------------------------------------------------------
  // The port, updated in place
  // ---------------------------------------------------------------------------

  class Port {
    var ier: byte
    var iir: Iir
    var lcr: byte
    var ready: bool
    var mcr: byte
    var scr: byte
    var baud: nat
    var input: seq<byte>
    /** What has reached the output. */
    var output: seq<byte>
    var raised: nat

    function Value(): (s: State)
      reads this
    {
      State(ier, iir, lcr, ready, mcr, scr, baud, input, output, raised)
    }

    constructor ()
      ensures Value() == Reset()
    {
      ier, iir, lcr, ready, mcr, scr, baud := 0, NO_INTERRUPT, 0x3, false, 0x8, 0, 12;
      input, output, raised := [], [], 0;
    }

    method Receive(evt: bool) returns (ok: bool)
      modifies this
      ensures (Value(), ok) == RecvData(old(Value()), evt)
    {
      if ier % 2 == 1 {
        iir := iir.AddRecv();
        if !evt {
          return false;
        }
        raised := raised + 1;
      }
      ready := true;
      return true;
    }

    method QueueInputBytes(bytes: seq<byte>, evt: bool) returns (ok: bool)
      modifies this
      ensures (Value(), ok) == QueueInput(old(Value()), bytes, evt)
    {
      ok := true;
      if mcr / 0x10 % 2 == 0 {
        input := input + bytes;
        ok := Receive(evt);
      }
    }

    method TransmitByte(v: byte, io: Io) returns (ok: bool)
      modifies this
      ensures (Value(), ok) == Transmit(old(Value()), v, io)
    {
      ok := true;
      if mcr / 0x10 % 2 == 1 {
        if |input| < LOOP_SIZE {
          input := input + [v];
          ok := Receive(io.evt);
        }
        return;
      }
      if io.sink != NoOutput {
        if io.sink == WriteFails {
          return false;
        }
        output := output + [v];
        if io.sink == FlushFails {
          return false;
        }
      }
      if ier / 2 % 2 == 1 {
        iir := iir.AddThr();
        ok := io.evt;
        if io.evt {
          raised := raised + 1;
        }
      }
    }

    method SetDivisor(reg: nat, v: byte)
      requires reg == DATA || reg == IER
      modifies this
      ensures Value() == WithDivisor(old(Value()), reg, v)
    {
      if reg == DATA {
        baud := baud / 256 * 256 + v;
      } else {
        baud := baud % 256 + 256 * v;
      }
    }

    method SetRegister(reg: nat, v: byte)
      modifies this
      ensures Value() == WithRegister(old(Value()), reg, v)
    {
      if reg == IER {
        ier := v % 0x10;
      } else if reg == LCR {
        lcr := v;
      } else if reg == MCR {
        mcr := v;
      } else if reg == SCR {
        scr := v;
      }
    }

    method Write(offset: u64, data: seq<byte>, io: Io)
      modifies this
      ensures Value() == BusWrite(old(Value()), offset, data, io)
    {
      if |data| != 1 {
        return;
      }
      var reg := offset % 256;
      if (reg == DATA || reg == IER) && lcr >= 0x80 {
        SetDivisor(reg, data[0]);
      } else if reg == DATA {
        var _ := TransmitByte(data[0], io);
      } else {
        SetRegister(reg, data[0]);
      }
    }

    method Acknowledge()
      modifies this
      ensures Value() == Acknowledged(old(Value()))
    {
      iir := iir.DelRecv();
      if |input| <= 1 {
        ready := false;
      }
    }

    method TakeByte() returns (v: byte)
      modifies this
      ensures Value() == ReceivedByte(old(Value())).0
      ensures v == ReceivedByte(old(Value())).1
    {
      Acknowledge();
      v := 0;
      if input != [] {
        v := input[0];
        input := input[1..];
      }
    }

    method ReadRegister(reg: nat) returns (v: byte)
      modifies this
      ensures Value() == ReadReg(old(Value()), reg).0
      ensures v == ReadReg(old(Value()), reg).1
    {
      if reg == DATA && lcr < 0x80 {
        v := TakeByte();
      } else if reg == IIR {
        v := 0xc0 + iir.Byte();
        iir := NO_INTERRUPT;
      } else {
        v := Register(Value(), reg);
      }
    }

    method Read(offset: u64, data: array<byte>)
      modifies this, data
      ensures Value() == BusRead(old(Value()), offset, old(data[..])).0
      ensures data[..] == BusRead(old(Value()), offset, old(data[..])).1
    {
      if data.Length == 1 {
        var v := ReadRegister(offset % 256);
        data[0] := v;
        assert data[..] == [v];
      }
    }
  }
}
