/**
 The 24-byte datagrams between a proxy device and the child process that runs the device, and
 what the child does with one of them. Native byte order is little endian.
 */
module ProxyWire {
  import opened Arithmetic
  import opened Common

  const MSG_SIZE: nat := 24

  type Msg = m: seq<byte> | |m| == 24 witness seq(24, _ => 0)

  const READ: nat := 0
  const WRITE: nat := 1
  const READ_CONFIG: nat := 2
  const WRITE_CONFIG: nat := 3
  const SHUTDOWN: nat := 4

  // ---------------------------------------------------------------------------
  // Little-endian integers
  // ---------------------------------------------------------------------------

  /** The low `width` bytes of `n`, least significant first. */
  function Le(n: nat, width: nat): (s: seq<byte>)
    ensures |s| == width
  {
    if width == 0 then [] else [n % 256] + Le(n / 256, width - 1)
  }

  function FromLe(s: seq<byte>): (n: nat) {
    if s == [] then 0 else s[0] + 256 * FromLe(s[1..])
  }

  /** The width of a `u32`. */
  function Width(): (n: nat) { 4 }

  /** `write_u32` and `read_u32`; the cast to `u32` keeps the low bytes. */
  function Le32(n: nat): (s: seq<byte>)
    ensures |s| == 4
  {
    Le(n, Width())
  }

  function From32(s: seq<byte>): (n: nat)
    requires |s| == 4
  {
    FromLe(s)
  }

  /** `write_u64` and `read_u64`. */
  function Le64(n: nat): (s: seq<byte>)
    ensures |s| == 8
  {
    Le32(n) + Le32(n / 0x1_0000_0000)
  }

  function From64(s: seq<byte>): (n: nat)
    requires |s| == 8
  {
    From32(s[..4]) + 0x1_0000_0000 * From32(s[4..])
  }

  function Range(width: nat): (n: nat)
    ensures n > 0
  {
    if width == 0 then 1 else 256 * Range(width - 1)
  }

  /** Reading back what was written keeps the low bytes. */
  lemma {:induction false} LeRoundTrip(n: nat, width: nat)
    ensures FromLe(Le(n, width)) == n % Range(width)
  {
    if width > 0 {
      LeRoundTrip(n / 256, width - 1);
      var s := Le(n, width);
      assert s[1..] == Le(n / 256, width - 1);
      ModSplit(n, 256, Range(width - 1));
      assert FromLe(s) == n % 256 + 256 * FromLe(s[1..]);
    }
  }

  lemma RoundTrip32(n: nat)
    ensures From32(Le32(n)) == n % 0x1_0000_0000
  {
    assert Range(4) == 0x1_0000_0000 by {
      assert Range(2) == 65536;
      assert Range(4) == 65536 * Range(2);
    }
    LeRoundTrip(n, Width());
  }

  lemma RoundTrip64(n: nat)
    requires n < U64_END
    ensures From64(Le64(n)) == n
  {
    assert Le64(n)[..4] == Le32(n) && Le64(n)[4..] == Le32(n / 0x1_0000_0000);
    RoundTrip32(n);
    RoundTrip32(n / 0x1_0000_0000);
  }

  // ---------------------------------------------------------------------------
  // Devices and the calls made on them
  // ---------------------------------------------------------------------------

  /** A `BusDevice` with state of type S. A read is handed the caller's buffer and fills it in place. */
  datatype Device<!S(!new)> = Device(
    read: (S, nat, seq<byte>) -> (S, seq<byte>),
    write: (S, nat, seq<byte>) -> S,
    configWrite: (S, nat, nat, seq<byte>) -> S,
    configRead: (S, nat) -> u32)

  /** Filling a buffer in place does not change its length. */
  ghost predicate Lawful<S(!new)>(dev: Device<S>) {
    forall s, offset, buf :: |dev.read(s, offset, buf).1| == |buf|
  }

  /** One call on a device. */
  datatype Call =
    | Read(offset: nat, buf: seq<byte>)
    | Write(offset: nat, data: seq<byte>)
    | ReadConfig(reg: nat)
    | WriteConfig(reg: nat, offset: nat, data: seq<byte>)
  {
    /** Sizes the 24-byte datagram has room for. */
    predicate Fits() {
      match this
      case Read(_, buf) => |buf| <= 8
      case Write(_, data) => |data| <= 8
      case ReadConfig(_) => true
      case WriteConfig(_, _, data) => |data| <= 4
    }

    /** A call the parent can make: it fits, and its integers are `u64` and `usize`. */
    predicate InRange() {
      && Fits()
      && match this
         case Read(offset, _) => offset < U64_END
         case Write(offset, _) => offset < U64_END
         case ReadConfig(reg) => reg < U64_END
         case WriteConfig(reg, offset, _) => reg < U64_END && offset < U64_END
    }
  }

  /** The call made directly on the device: its next state and the bytes the caller gets. */
  function Apply<S(!new)>(dev: Device<S>, s: S, call: Call): (r: (S, seq<byte>)) {
    match call
    case Read(offset, buf) => dev.read(s, offset, buf)
    case Write(offset, data) => (dev.write(s, offset, data), [])
    case ReadConfig(reg) => (s, Le32(dev.configRead(s, reg)))
    case WriteConfig(reg, offset, data) => (dev.configWrite(s, reg, offset, data), [])
  }

  function Zeros(n: nat): (s: seq<byte>)
    ensures |s| == n
  {
    seq(n, _ => 0)
  }

  /**
   The call that arrives at the device: a read starts from a zeroed buffer, and register indexes
   and configuration offsets lose all but 32 bits.
   */
  function Wired(call: Call): (w: Call) {
    match call
    case Read(offset, buf) => Read(offset, Zeros(|buf|))
    case Write(offset, data) => call
    case ReadConfig(reg) => ReadConfig(reg % 0x1_0000_0000)
    case WriteConfig(reg, offset, data) => WriteConfig(reg % 0x1_0000_0000, offset % 0x1_0000_0000, data)
  }

  // ---------------------------------------------------------------------------
  // Datagrams
  // ---------------------------------------------------------------------------

  /** `send_cmd` */
  function CmdMsg(cmd: nat, offset: nat, len: nat, data: seq<byte>): (m: Msg)
    requires |data| <= 8
  {
    Le32(cmd) + Le32(len) + Le64(offset) + data + Zeros(8 - |data|)
  }

  /** `send_config_cmd` */
  function ConfigMsg(cmd: nat, reg: nat, offset: nat, data: seq<byte>): (m: Msg)
    requires |data| <= 4
  {
    Le32(cmd) + Le32(reg) + Le64(offset) + Le32(|data|) + data + Zeros(4 - |data|)
  }

  function Encode(call: Call): (m: Msg)
    requires call.InRange()
  {
    match call
    case Read(offset, buf) => CmdMsg(READ, offset, |buf|, [])
    case Write(offset, data) => CmdMsg(WRITE, offset, |data|, data)
    case ReadConfig(reg) => ConfigMsg(READ_CONFIG, reg, 0, [])
    case WriteConfig(reg, offset, data) => ConfigMsg(WRITE_CONFIG, reg, offset, data)
  }

  const SHUTDOWN_MSG: Msg := CmdMsg(SHUTDOWN, 0, 0, [])

  /** What the child makes of a datagram. */
  datatype Request = Serve(call: Call) | Stop | Reject

  /** `child_proc`, decoding. Lengths that reach past the datagram panic there: `Reject`. */
  function Decode(m: Msg): (r: Request)
    ensures r.Serve? ==> r.call.Fits()
  {
    var cmd := From32(m[0..4]);
    if cmd == READ then
      var len := From32(m[4..8]);
      if len > 8 then Reject else Serve(Read(From64(m[8..16]), m[16..16 + len]))
    else if cmd == WRITE then
      var len := From32(m[4..8]);
      if len > 8 then Reject else Serve(Write(From64(m[8..16]), m[16..16 + len]))
    else if cmd == READ_CONFIG then
      Serve(ReadConfig(From32(m[4..8])))
    else if cmd == WRITE_CONFIG then
      var len := From32(m[16..20]);
      if len > 4 then Reject else Serve(WriteConfig(From32(m[4..8]), From32(m[8..12]), m[20..20 + len]))
    else if cmd == SHUTDOWN then Stop
    else Reject
  }

  /** The message with its bytes from 16 on replaced by `result`, as far as it goes. */
  function Overlay(m: Msg, result: seq<byte>): (r: Msg)
    requires |result| <= 8
  {
    m[..16] + result + m[16 + |result|..]
  }

  /** How many bytes a call gives back to its caller. */
  function ResultSize(call: Call): (n: nat)
    requires call.Fits()
    ensures n <= 8
  {
    match call
    case Read(_, buf) => |buf|
    case ReadConfig(_) => 4
    case _ => 0
  }

  /** The child's buffer after serving `call`, which it sends back: results start at byte 16. */
  function ReplyMsg(m: Msg, call: Call, result: seq<byte>): (r: Msg)
    requires call.Fits() && |result| == ResultSize(call)
  {
    Overlay(m, result)
  }

  /** The last eight bytes of the reply to `call`: its result, over what the message had there. */
  function Body(call: Call, result: seq<byte>): (r: seq<byte>)
    requires call.Fits() && |result| == ResultSize(call)
    ensures |r| == 8
  {
    match call
    case Read(_, _) => result + Zeros(8 - |result|)
    case Write(_, data) => data + Zeros(8 - |data|)
    case ReadConfig(_) => result + Zeros(4)
    case WriteConfig(_, _, data) => Le32(|data|) + data + Zeros(4 - |data|)
  }

  /** What the parent takes out of a reply to `call`. */
  function Taken(call: Call, m: Msg): (r: seq<byte>)
    requires call.Fits()
  {
    m[16..16 + ResultSize(call)]
  }

  lemma CmdSlices(cmd: nat, offset: nat, len: nat, data: seq<byte>)
    requires |data| <= 8
    ensures var m := CmdMsg(cmd, offset, len, data);
            && m[0..4] == Le32(cmd) && m[4..8] == Le32(len) && m[8..16] == Le64(offset)
            && m[16..16 + |data|] == data && m[16 + |data|..] == Zeros(8 - |data|)
  {
  }

  lemma ConfigSlices(cmd: nat, reg: nat, offset: nat, data: seq<byte>)
    requires |data| <= 4
    ensures var m := ConfigMsg(cmd, reg, offset, data);
            && m[0..4] == Le32(cmd) && m[4..8] == Le32(reg) && m[8..12] == Le32(offset)
            && m[16..20] == Le32(|data|) && m[20..20 + |data|] == data
  {
  }

  lemma OverlayTail(m: Msg, result: seq<byte>)
    requires |result| <= 8
    ensures Overlay(m, result)[16..] == result + m[16..][|result|..]
  {
  }

  lemma CmdTail(cmd: nat, offset: nat, len: nat, data: seq<byte>)
    requires |data| <= 8
    ensures CmdMsg(cmd, offset, len, data)[16..] == data + Zeros(8 - |data|)
  {
  }

  lemma ConfigTail(cmd: nat, reg: nat, offset: nat, data: seq<byte>)
    requires |data| <= 4
    ensures ConfigMsg(cmd, reg, offset, data)[16..] == Le32(|data|) + data + Zeros(4 - |data|)
  {
  }

  /** What a reply carries, and that it begins with the result. */
  lemma ReplyBody(call: Call, result: seq<byte>)
    requires call.InRange() && |result| == ResultSize(call)
    ensures ReplyMsg(Encode(call), call, result)[16..] == Body(call, result)
    ensures Body(call, result)[..ResultSize(call)] == result
  {
    OverlayTail(Encode(call), result);
    match call
    case Read(offset, buf) =>
      CmdTail(READ, offset, |buf|, []);
      assert ([] + Zeros(8))[|result|..] == Zeros(8 - |result|);
    case Write(offset, data) =>
      CmdTail(WRITE, offset, |data|, data);
      assert [] + Body(call, [])[0..] == Body(call, []);
    case ReadConfig(reg) =>
      ConfigTail(READ_CONFIG, reg, 0, []);
      assert (Le32(0) + [] + Zeros(4))[4..] == Zeros(4);
    case WriteConfig(reg, offset, data) =>
      ConfigTail(WRITE_CONFIG, reg, offset, data);
      assert [] + Body(call, [])[0..] == Body(call, []);
  }

  /** A number below 256 takes the first of four bytes. */
  lemma SmallLe32(n: byte)
    ensures Le32(n) == [n, 0, 0, 0]
  {
    assert Le(0, 3) == [0, 0, 0];
    assert Le(n, Width()) == [n] + Le(0, 3);
  }

  lemma CmdLayout(cmd: byte, offset: nat, data: seq<byte>, len: nat)
    requires |data| <= 8 && len <= 8
    ensures var m := CmdMsg(cmd, offset, len, data);
            && m[..4] == [cmd, 0, 0, 0] && m[4..8] == [len, 0, 0, 0] && m[8..16] == Le64(offset)
            && m[16..] == data + Zeros(8 - |data|)
  {
    CmdTail(cmd, offset, len, data);
    SmallLe32(cmd);
    SmallLe32(len);
  }

  lemma ConfigLayout(cmd: byte, reg: nat, offset: nat, data: seq<byte>)
    requires |data| <= 4
    ensures var m := ConfigMsg(cmd, reg, offset, data);
            && m[..4] == [cmd, 0, 0, 0] && m[4..8] == Le32(reg) && m[8..16] == Le64(offset)
            && m[16..] == [|data|, 0, 0, 0] + data + Zeros(4 - |data|)
  {
    ConfigTail(cmd, reg, offset, data);
    SmallLe32(cmd);
    SmallLe32(|data|);
  }

  /** The layout of the messages: command, length or register, offset, data. */
  lemma Layout(call: Call)
    requires call.InRange()
    ensures var m := Encode(call);
            match call
            case Read(offset, buf) =>
              m[..4] == [0, 0, 0, 0] && m[4..8] == [|buf|, 0, 0, 0] && m[8..16] == Le64(offset) && m[16..] == Zeros(8)
            case Write(offset, data) =>
              && m[..4] == [1, 0, 0, 0] && m[4..8] == [|data|, 0, 0, 0] && m[8..16] == Le64(offset)
              && m[16..] == data + Zeros(8 - |data|)
            case ReadConfig(reg) => m[..4] == [2, 0, 0, 0] && m[4..8] == Le32(reg)
            case WriteConfig(reg, offset, data) =>
              && m[..4] == [3, 0, 0, 0] && m[4..8] == Le32(reg) && m[8..16] == Le64(offset)
              && m[16..] == [|data|, 0, 0, 0] + data + Zeros(4 - |data|)
  {
    match call
    case Read(offset, buf) =>
      CmdLayout(READ, offset, [], |buf|);
      assert [] + Zeros(8) == Zeros(8);
    case Write(offset, data) => CmdLayout(WRITE, offset, data, |data|);
    case ReadConfig(reg) => ConfigLayout(READ_CONFIG, reg, 0, []);
    case WriteConfig(reg, offset, data) => ConfigLayout(WRITE_CONFIG, reg, offset, data);
  }

  lemma Field32(m: Msg, at: nat, n: nat)
    requires at + 4 <= 24 && m[at..at + 4] == Le32(n)
    ensures From32(m[at..at + 4]) == n % 0x1_0000_0000
  {
    RoundTrip32(n);
  }

  /** The fields of a command message read back. */
  lemma CmdFields(cmd: nat, offset: nat, len: nat, data: seq<byte>)
    requires cmd < U32_END && len < U32_END && offset < U64_END && |data| <= 8
    ensures var m := CmdMsg(cmd, offset, len, data);
            From32(m[0..4]) == cmd && From32(m[4..8]) == len && From64(m[8..16]) == offset
  {
    CmdSlices(cmd, offset, len, data);
    Field32(CmdMsg(cmd, offset, len, data), 0, cmd);
    Field32(CmdMsg(cmd, offset, len, data), 4, len);
    RoundTrip64(offset);
  }

  lemma ConfigFieldsOf(m: Msg, cmd: nat, reg: nat, offset: nat, len: nat)
    requires cmd < U32_END && len < U32_END && m[0..4] == Le32(cmd) && m[4..8] == Le32(reg)
    requires m[8..12] == Le32(offset) && m[16..20] == Le32(len)
    ensures From32(m[0..4]) == cmd && From32(m[4..8]) == reg % 0x1_0000_0000
    ensures From32(m[8..12]) == offset % 0x1_0000_0000 && From32(m[16..20]) == len
  {
    Field32(m, 0, cmd);
    Field32(m, 4, reg);
    Field32(m, 8, offset);
    Field32(m, 16, len);
  }

  /** The fields of a configuration message read back, as far as 32 bits go. */
  lemma ConfigFields(cmd: nat, reg: nat, offset: nat, data: seq<byte>)
    requires cmd < U32_END && |data| <= 4
    ensures var m := ConfigMsg(cmd, reg, offset, data);
            && From32(m[0..4]) == cmd && From32(m[4..8]) == reg % 0x1_0000_0000
            && From32(m[8..12]) == offset % 0x1_0000_0000 && From32(m[16..20]) == |data| && m[20..20 + |data|] == data
  {
    ConfigSlices(cmd, reg, offset, data);
    ConfigFieldsOf(ConfigMsg(cmd, reg, offset, data), cmd, reg, offset, |data|);
  }

  lemma ReadOf(m: Msg, offset: nat, buf: seq<byte>)
    requires |buf| <= 8 && From32(m[0..4]) == READ && From32(m[4..8]) == |buf|
    requires From64(m[8..16]) == offset && m[16..16 + |buf|] == buf
    ensures Decode(m) == Serve(Read(offset, buf))
  {
  }

  lemma DecodeRead(offset: nat, buf: seq<byte>)
    requires Read(offset, buf).InRange()
    ensures Decode(CmdMsg(READ, offset, |buf|, [])) == Serve(Read(offset, Zeros(|buf|)))
  {
    var m := CmdMsg(READ, offset, |buf|, []);
    CmdFields(READ, offset, |buf|, []);
    CmdTail(READ, offset, |buf|, []);
    assert m[16..16 + |buf|] == m[16..][..|buf|] == Zeros(|buf|);
    ReadOf(m, offset, Zeros(|buf|));
  }

  lemma WriteOf(m: Msg, offset: nat, data: seq<byte>)
    requires |data| <= 8 && From32(m[0..4]) == WRITE && From32(m[4..8]) == |data|
    requires From64(m[8..16]) == offset && m[16..16 + |data|] == data
    ensures Decode(m) == Serve(Write(offset, data))
  {
  }

  lemma DecodeWrite(offset: nat, data: seq<byte>)
    requires Write(offset, data).InRange()
    ensures Decode(CmdMsg(WRITE, offset, |data|, data)) == Serve(Write(offset, data))
  {
    CmdFields(WRITE, offset, |data|, data);
    CmdSlices(WRITE, offset, |data|, data);
    WriteOf(CmdMsg(WRITE, offset, |data|, data), offset, data);
  }

  lemma ReadConfigOf(m: Msg, reg: nat)
    requires From32(m[0..4]) == READ_CONFIG && From32(m[4..8]) == reg
    ensures Decode(m) == Serve(ReadConfig(reg))
  {
  }

  lemma DecodeReadConfig(reg: nat)
    ensures Decode(ConfigMsg(READ_CONFIG, reg, 0, [])) == Serve(ReadConfig(reg % 0x1_0000_0000))
  {
    ConfigFields(READ_CONFIG, reg, 0, []);
    ReadConfigOf(ConfigMsg(READ_CONFIG, reg, 0, []), reg % 0x1_0000_0000);
  }

  lemma WriteConfigOf(m: Msg, reg: nat, offset: nat, data: seq<byte>)
    requires |data| <= 4 && From32(m[0..4]) == WRITE_CONFIG && From32(m[4..8]) == reg
    requires From32(m[8..12]) == offset && From32(m[16..20]) == |data| && m[20..20 + |data|] == data
    ensures Decode(m) == Serve(WriteConfig(reg, offset, data))
  {
  }

  lemma DecodeWriteConfig(reg: nat, offset: nat, data: seq<byte>)
    requires |data| <= 4
    ensures Decode(ConfigMsg(WRITE_CONFIG, reg, offset, data))
         == Serve(WriteConfig(reg % 0x1_0000_0000, offset % 0x1_0000_0000, data))
  {
    ConfigFields(WRITE_CONFIG, reg, offset, data);
    WriteConfigOf(ConfigMsg(WRITE_CONFIG, reg, offset, data), reg % 0x1_0000_0000, offset % 0x1_0000_0000, data);
  }

  /** The child decodes exactly the wired form of every call. */
  lemma DecodeEncode(call: Call)
    requires call.InRange()
    ensures Decode(Encode(call)) == Serve(Wired(call))
  {
    match call
    case Read(offset, buf) => DecodeRead(offset, buf);
    case Write(offset, data) => DecodeWrite(offset, data);
    case ReadConfig(reg) => DecodeReadConfig(reg);
    case WriteConfig(reg, offset, data) => DecodeWriteConfig(reg, offset, data);
  }

  lemma StopOf(m: Msg)
    requires From32(m[0..4]) == SHUTDOWN
    ensures Decode(m) == Stop
  {
  }

  lemma DecodeShutdown()
    ensures Decode(SHUTDOWN_MSG) == Stop
  {
    CmdFields(SHUTDOWN, 0, 0, []);
    StopOf(SHUTDOWN_MSG);
  }

  /** The device sees the caller's own call exactly when nothing in it is zeroed or cut off. */
  lemma WiredIsExact(call: Call)
    requires call.InRange()
    ensures Wired(call) == call <==>
            match call
            case Read(_, buf) => forall i :: 0 <= i < |buf| ==> buf[i] == 0
            case Write(_, _) => true
            case ReadConfig(reg) => reg < U32_END
            case WriteConfig(reg, offset, _) => reg < U32_END && offset < U32_END
  {
  }

  // ---------------------------------------------------------------------------
  // Buffers filled in place
  // ---------------------------------------------------------------------------

  /** The first bytes of a zeroed buffer have been filled with `done`. */
  ghost predicate Filled(buf: seq<byte>, done: seq<byte>) {
    |done| <= |buf| && buf == done + Zeros(|buf| - |done|)
  }

  /** Copies `data` into the buffer behind what is filled. */
  method PutBytes(buf: array<byte>, ghost done: seq<byte>, at: nat, data: seq<byte>)
    requires at == |done| && at + |data| <= buf.Length && Filled(buf[..], done)
    modifies buf
    ensures Filled(buf[..], done + data)
  {
    forall i | 0 <= i < |data| {
      buf[at + i] := data[i];
    }
    forall i | 0 <= i < |data| ensures buf[..][at + i] == data[i] {
      assert buf[at + i] == data[i];
    }
    assert buf[..] == done + data + Zeros(buf.Length - at - |data|);
  }

  lemma NextByte(data: seq<byte>, n: nat, width: nat)
    requires width > 0
    ensures data + Le(n, width) == (data + [n % 256]) + Le(n / 256, width - 1)
  {
  }

  /** `write_u32`: stores the low bytes of `n` one after the other behind what is filled. */
  method PutU32(buf: array<byte>, ghost done: seq<byte>, at: nat, n: nat)
    requires at == |done| && at + 4 <= buf.Length && Filled(buf[..], done)
    modifies buf
    ensures Filled(buf[..], done + Le32(n))
  {
    var rest, data: seq<byte> := n, [];
    for i := 0 to 4
      invariant rest >= 0 && |data| == i && data + Le(rest, Width() - i) == Le(n, Width())
      invariant Filled(buf[..], done)
    {
      NextByte(data, rest, Width() - i);
      data, rest := data + [rest % 256], rest / 256;
    }
    assert data + [] == data;
    PutBytes(buf, done, at, data);
  }

  function Head(cmd: nat, second: nat, offset: nat): (r: seq<byte>)
    ensures |r| == 16
  {
    Le32(cmd) + Le32(second) + Le64(offset)
  }

  /** The sixteen bytes that every message starts with. */
  method PutHead(buf: array<byte>, cmd: nat, second: nat, offset: nat)
    requires buf.Length == 24 && Filled(buf[..], [])
    modifies buf
    ensures Filled(buf[..], Head(cmd, second, offset))
  {
    PutU32(buf, [], 0, cmd);
    PutU32(buf, [] + Le32(cmd), 4, second);
    PutU32(buf, [] + Le32(cmd) + Le32(second), 8, offset);
    PutU32(buf, [] + Le32(cmd) + Le32(second) + Le32(offset), 12, offset / 0x1_0000_0000);
    assert [] + Le32(cmd) + Le32(second) + Le32(offset) + Le32(offset / 0x1_0000_0000) == Head(cmd, second, offset);
  }

  /** `send_cmd` up to the send. */
  method BuildCmd(cmd: nat, offset: nat, len: nat, data: seq<byte>) returns (m: Msg)
    requires |data| <= 8
    ensures m == CmdMsg(cmd, offset, len, data)
  {
    var buf := new byte[24](_ => 0);
    assert Filled(buf[..], []);
    PutHead(buf, cmd, len, offset);
    PutBytes(buf, Head(cmd, len, offset), 16, data);
    m := buf[..];
  }

  /** `send_config_cmd` up to the send. */
  method BuildConfigCmd(cmd: nat, reg: nat, offset: nat, data: seq<byte>) returns (m: Msg)
    requires |data| <= 4
    ensures m == ConfigMsg(cmd, reg, offset, data)
  {
    var buf := new byte[24](_ => 0);
    assert Filled(buf[..], []);
    PutHead(buf, cmd, reg, offset);
    PutU32(buf, Head(cmd, reg, offset), 16, |data|);
    PutBytes(buf, Head(cmd, reg, offset) + Le32(|data|), 20, data);
    m := buf[..];
  }
}
