/**
 The proxy device: `Channel` with the child process of `child_proc` as the server and 24-byte
 datagrams as messages, compared with calls made directly on the device.
 */
module Proxy {
  import opened Common
  import opened ProxyWire
  import C = Channel

  lemma ResultFits<S(!new)>(dev: Device<S>, s: S, call: Call)
    requires Lawful(dev) && call.Fits()
    ensures |Apply(dev, s, call).1| == ResultSize(call)
  {
  }

  /** One iteration of `child_proc`: decode, call the device, answer with the same buffer. */
  function ChildServe<S(!new)>(dev: Device<S>, s: S, m: Msg): (r: C.Served<S, Msg>)
    requires Lawful(dev)
  {
    match Decode(m)
    case Serve(call) =>
      ResultFits(dev, s, call);
      var (s', result) := Apply(dev, s, call);
      C.Reply(s', ReplyMsg(m, call, result), false)
    case Stop => C.Reply(s, m, true)
    case Reject => C.Quit
  }

  function Child<S(!new)>(dev: Device<S>): (srv: C.Server<S, Msg>)
    requires Lawful(dev)
  {
    C.Server((s: S, m: Msg) => ChildServe(dev, s, m))
  }

  // ---------------------------------------------------------------------------
  // The child's loop
  // ---------------------------------------------------------------------------

  method Overwrite(buf: array<byte>, at: nat, data: seq<byte>)
    requires at + |data| <= buf.Length
    modifies buf
    ensures buf[..] == old(buf[..at]) + data + old(buf[at + |data|..])
  {
    ghost var before := buf[..];
    forall i | 0 <= i < |data| {
      buf[at + i] := data[i];
    }
    forall i | 0 <= i < buf.Length ensures buf[..][i] == (before[..at] + data + before[at + |data|..])[i] {
      if at <= i < at + |data| {
        assert buf[at + (i - at)] == data[i - at];
      }
    }
  }

  /**
   What serving datagram `m` comes to, on the device's own operations: reads and writes of up to eight bytes, reads of
   a register and writes to one of up to four bytes are made with the fields of the message, results are put where the
   data is, and everything else in the message is sent back as it came.
   */
  ghost predicate ServedAs<S(!new)>(dev: Device<S>, s: S, m: Msg, r: C.Served<S, Msg>) {
    var cmd, second := From32(m[0..4]), From32(m[4..8]);
    if cmd == 0 && second <= 8 then
      var (s', data) := dev.read(s, From64(m[8..16]), m[16..16 + second]);
      r == C.Reply(s', m[..16] + data + m[16 + second..], false)
    else if cmd == 1 && second <= 8 then
      r == C.Reply(dev.write(s, From64(m[8..16]), m[16..16 + second]), m, false)
    else if cmd == 2 then
      && r.Reply? && !r.last && r.state == s && r.msg[..16] == m[..16] && r.msg[20..] == m[20..]
      && From32(r.msg[16..20]) == dev.configRead(s, second)
    else if cmd == 3 && From32(m[16..20]) <= 4 then
      r == C.Reply(dev.configWrite(s, second, From32(m[8..12]), m[20..20 + From32(m[16..20])]), m, false)
    else if cmd == 4 then r == C.Reply(s, m, true)
    else r == C.Quit
  }

  lemma ServesDatagram<S(!new)>(dev: Device<S>, s: S, m: Msg)
    requires Lawful(dev)
    ensures ServedAs(dev, s, m, ChildServe(dev, s, m))
  {
    var cmd := From32(m[0..4]);
    if cmd == 1 || cmd == 3 {
      assert m[..16] + [] + m[16..] == m;
    } else if cmd == 2 {
      RoundTrip32(dev.configRead(s, From32(m[4..8])));
    }
  }

  /** The body of the loop in `child_proc`: works on the buffer the datagram was received into. */
  method ServeBuffer<S(!new)>(dev: Device<S>, s: S, buf: array<byte>) returns (r: C.Served<S, Msg>)
    requires Lawful(dev) && buf.Length == 24
    modifies buf
    ensures r == ChildServe(dev, s, old(buf[..])) && ServedAs(dev, s, old(buf[..]), r)
    ensures r.Reply? ==> r.msg == buf[..]
  {
    ServesDatagram(dev, s, buf[..]);
    var cmd := From32(buf[0..4]);
    ghost var m: Msg := buf[..];
    assert buf[0..4] == m[0..4] && buf[4..8] == m[4..8] && buf[8..16] == m[8..16];
    if cmd == READ {
      var len := From32(buf[4..8]);
      if len > 8 { return C.Quit; }
      var (s', data) := dev.read(s, From64(buf[8..16]), buf[16..16 + len]);
      assert |data| == len;
      Overwrite(buf, 16, data);
      r := C.Reply(s', buf[..], false);
    } else if cmd == WRITE {
      var len := From32(buf[4..8]);
      if len > 8 { return C.Quit; }
      r := C.Reply(dev.write(s, From64(buf[8..16]), buf[16..16 + len]), buf[..], false);
      assert m[..16] + [] + m[16..] == m;
    } else if cmd == READ_CONFIG {
      Overwrite(buf, 16, Le32(dev.configRead(s, From32(buf[4..8]))));
      r := C.Reply(s, buf[..], false);
    } else if cmd == WRITE_CONFIG {
      var len := From32(buf[16..20]);
      if len > 4 { return C.Quit; }
      r := C.Reply(dev.configWrite(s, From32(buf[4..8]), From32(buf[8..12]), buf[20..20 + len]), buf[..], false);
      assert m[..16] + [] + m[16..] == m;
    } else if cmd == SHUTDOWN {
      r := C.Reply(s, buf[..], true);
    } else {
      r := C.Quit;
    }
  }

  /** The device and the replies after the datagrams received, up to one the child stops on. */
  function ChildRun<S(!new)>(dev: Device<S>, s: S, incoming: seq<seq<byte>>): (r: (S, seq<Msg>))
    requires Lawful(dev)
  {
    if incoming == [] || |incoming[0]| != MSG_SIZE then (s, [])
    else
      match ChildServe(dev, s, incoming[0])
      case Quit => (s, [])
      case Reply(s', reply, last) =>
        if last then (s', [reply])
        else var (s'', replies) := ChildRun(dev, s', incoming[1..]); (s'', [reply] + replies)
  }

  /** What the child does with the datagram at `k` and those behind it. */
  lemma RunNext<S(!new)>(dev: Device<S>, s: S, incoming: seq<seq<byte>>, k: nat)
    requires Lawful(dev) && k < |incoming| && |incoming[k]| == MSG_SIZE
    ensures var r := ChildServe(dev, s, incoming[k]);
            if r.Quit? then ChildRun(dev, s, incoming[k..]) == (s, [])
            else
              var rest := if r.last then (r.state, []) else ChildRun(dev, r.state, incoming[k + 1..]);
              ChildRun(dev, s, incoming[k..]) == (rest.0, [r.msg] + rest.1)
  {
    assert incoming[k..][0] == incoming[k] && incoming[k..][1..] == incoming[k + 1..];
    assert forall m: Msg :: [m] + [] == [m];
  }

  ghost predicate Follows<S(!new)>(all: (S, seq<Msg>), replies: seq<Msg>, rest: (S, seq<Msg>)) {
    all.0 == rest.0 && all.1 == replies + rest.1
  }

  lemma FollowsNext<S(!new)>(all: (S, seq<Msg>), replies: seq<Msg>, reply: Msg, rest: (S, seq<Msg>))
    requires Follows(all, replies, (rest.0, [reply] + rest.1))
    ensures Follows(all, replies + [reply], rest)
  {
    assert replies + ([reply] + rest.1) == (replies + [reply]) + rest.1;
  }

  /** `child_proc`: `incoming` is what the socket delivers before a receive fails. */
  method ChildProc<S(!new)>(dev: Device<S>, s0: S, incoming: seq<seq<byte>>) returns (s: S, replies: seq<Msg>)
    requires Lawful(dev)
    ensures var run := ChildRun(dev, s0, incoming); s == run.0 && replies == run.1
  {
    s, replies := s0, [];
    var running, k := true, 0;
    ghost var all := ChildRun(dev, s0, incoming);
    assert incoming[0..] == incoming;
    while running
      invariant 0 <= k <= |incoming|
      invariant running ==> Follows(all, replies, ChildRun(dev, s, incoming[k..]))
      invariant !running ==> all.0 == s && all.1 == replies
      decreases if running then 1 + |incoming| - k else 0
    {
      if k == |incoming| || |incoming[k]| != MSG_SIZE { break; }
      var buf := new byte[24](i requires 0 <= i < 24 => incoming[k][i]);
      assert buf[..] == incoming[k];
      var r := ServeBuffer(dev, s, buf);
      RunNext(dev, s, incoming, k);
      if r.Quit? { break; }
      FollowsNext(all, replies, r.msg, if r.last then (r.state, []) else ChildRun(dev, r.state, incoming[k + 1..]));
      s, replies, k := r.state, replies + [r.msg], k + 1;
      running := !r.last;
    }
  }

  // ---------------------------------------------------------------------------
  // The reference: the same calls made directly on the device
  // ---------------------------------------------------------------------------

  predicate AllInRange(calls: seq<Call>) {
    forall i :: 0 <= i < |calls| ==> calls[i].InRange()
  }

  /** The device after the calls, in the form that reaches it, made directly and in order. */
  function DirectState<S(!new)>(dev: Device<S>, s0: S, calls: seq<Call>): (s: S) {
    if calls == [] then s0
    else Apply(dev, DirectState(dev, s0, calls[..|calls| - 1]), Wired(calls[|calls| - 1])).0
  }

  /** What call `i` returns when made directly after the calls before it. */
  function DirectResult<S(!new)>(dev: Device<S>, s0: S, calls: seq<Call>, i: nat): (r: seq<byte>)
    requires i < |calls|
  {
    Apply(dev, DirectState(dev, s0, calls[..i]), Wired(calls[i])).1
  }

  function Encoded(calls: seq<Call>): (m: seq<Msg>)
    requires AllInRange(calls)
    ensures |m| == |calls|
    ensures forall i :: 0 <= i < |calls| ==> m[i] == Encode(calls[i])
  {
    seq(|calls|, i requires 0 <= i < |calls| => Encode(calls[i]))
  }

  /** The child makes exactly the wired call, and the answer carries exactly its result. */
  lemma ServesCall<S(!new)>(dev: Device<S>, s: S, call: Call)
    requires Lawful(dev) && call.InRange()
    ensures var r := ChildServe(dev, s, Encode(call));
            r.Reply? && !r.last && r.state == Apply(dev, s, Wired(call)).0
            && Taken(call, r.msg) == Apply(dev, s, Wired(call)).1
  {
    DecodeEncode(call);
    ResultFits(dev, s, Wired(call));
    assert ResultSize(Wired(call)) == ResultSize(call);
  }

  // ---------------------------------------------------------------------------
  // What reaches the device, on the device's own operations
  // ---------------------------------------------------------------------------

  /** A read arrives at the device with the offset whole and a zeroed buffer, and its bytes come back. */
  lemma ReadReaches<S(!new)>(dev: Device<S>, s: S, offset: nat, buf: seq<byte>)
    requires Lawful(dev) && Read(offset, buf).InRange()
    ensures var r, (s', data) := ChildServe(dev, s, Encode(Read(offset, buf))), dev.read(s, offset, Zeros(|buf|));
            r.Reply? && !r.last && r.state == s' && r.msg[16..16 + |buf|] == data
  {
    ServesCall(dev, s, Read(offset, buf));
  }

  /** A write arrives with offset and bytes whole. */
  lemma WriteReaches<S(!new)>(dev: Device<S>, s: S, offset: nat, data: seq<byte>)
    requires Lawful(dev) && Write(offset, data).InRange()
    ensures var r := ChildServe(dev, s, Encode(Write(offset, data)));
            r.Reply? && !r.last && r.state == dev.write(s, offset, data) && r.msg == Encode(Write(offset, data))
  {
    ServesCall(dev, s, Write(offset, data));
    var m := Encode(Write(offset, data));
    DecodeEncode(Write(offset, data));
    assert m[..16] + [] + m[16..] == m;
  }

  /** A configuration read asks for the register's low 32 bits, brings back its value and leaves the device alone. */
  lemma ConfigReadReaches<S(!new)>(dev: Device<S>, s: S, reg: nat)
    requires Lawful(dev) && ReadConfig(reg).InRange()
    ensures var r := ChildServe(dev, s, Encode(ReadConfig(reg)));
            && r.Reply? && !r.last && r.state == s
            && From32(r.msg[16..20]) == dev.configRead(s, reg % 0x1_0000_0000)
  {
    ServesCall(dev, s, ReadConfig(reg));
    RoundTrip32(dev.configRead(s, reg % 0x1_0000_0000));
  }

  /** A configuration write arrives with the low 32 bits of register and offset and with its bytes whole. */
  lemma ConfigWriteReaches<S(!new)>(dev: Device<S>, s: S, reg: nat, offset: nat, data: seq<byte>)
    requires Lawful(dev) && WriteConfig(reg, offset, data).InRange()
    ensures var r := ChildServe(dev, s, Encode(WriteConfig(reg, offset, data)));
            && r.Reply? && !r.last && r.msg == Encode(WriteConfig(reg, offset, data))
            && r.state == dev.configWrite(s, reg % 0x1_0000_0000, offset % 0x1_0000_0000, data)
  {
    ServesCall(dev, s, WriteConfig(reg, offset, data));
    var m := Encode(WriteConfig(reg, offset, data));
    DecodeEncode(WriteConfig(reg, offset, data));
    assert m[..16] + [] + m[16..] == m;
  }

  /** The shutdown message is echoed, leaves the device as it is and is the last one served. */
  lemma ShutdownReaches<S(!new)>(dev: Device<S>, s: S)
    requires Lawful(dev)
    ensures ChildServe(dev, s, SHUTDOWN_MSG) == C.Reply(s, SHUTDOWN_MSG, true)
  {
    DecodeShutdown();
  }

  lemma BodyOfAnswer<S(!new)>(dev: Device<S>, s: S, call: Call)
    requires Lawful(dev) && call.InRange()
    ensures var r, result := ChildServe(dev, s, Encode(call)), Apply(dev, s, Wired(call)).1;
            r.Reply? && |result| == ResultSize(call) && r.msg[16..] == Body(call, result)
  {
    DecodeEncode(call);
    ResultFits(dev, s, Wired(call));
    ReplyBody(call, Apply(dev, s, Wired(call)).1);
  }

  lemma StepOfCall<S(!new)>(dev: Device<S>, s: S, call: Call)
    requires Lawful(dev) && call.InRange()
    ensures C.Step(Child(dev), s, Encode(call)) == Apply(dev, s, Wired(call)).0
  {
    ServesCall(dev, s, call);
  }

  lemma EncodedLast(calls: seq<Call>)
    requires AllInRange(calls) && calls != []
    ensures Encoded(calls) == Encoded(calls[..|calls| - 1]) + [Encode(calls[|calls| - 1])]
  {
  }

  lemma {:induction false} StateOfCalls<S(!new)>(dev: Device<S>, s0: S, calls: seq<Call>)
    requires Lawful(dev) && AllInRange(calls)
    ensures C.After(Child(dev), s0, Encoded(calls)) == DirectState(dev, s0, calls)
  {
    if calls != [] {
      var init, last := calls[..|calls| - 1], calls[|calls| - 1];
      StateOfCalls(dev, s0, init);
      StepOfCall(dev, DirectState(dev, s0, init), last);
      EncodedLast(calls);
      C.AfterOneMore(Child(dev), s0, Encoded(init), Encode(last));
    }
  }

  /** The answer to call `i` carries exactly the result of the call made directly. */
  lemma AnswerOfCall<S(!new)>(dev: Device<S>, s0: S, calls: seq<Call>, i: nat)
    requires Lawful(dev) && AllInRange(calls) && i < |calls|
    ensures var r, m := DirectResult(dev, s0, calls, i), C.Answers(Child(dev), s0, Encoded(calls))[i];
            |r| == ResultSize(calls[i]) && m[16..] == Body(calls[i], r)
  {
    C.AnswerAt(Child(dev), s0, Encoded(calls), i);
    assert Encoded(calls)[..i] == Encoded(calls[..i]);
    StateOfCalls(dev, s0, calls[..i]);
    BodyOfAnswer(dev, DirectState(dev, s0, calls[..i]), calls[i]);
  }

  /** Datagrams of another size end the loop, with nothing done. */
  lemma WrongSizeStops<S(!new)>(dev: Device<S>, s: S, m: seq<byte>, rest: seq<seq<byte>>)
    requires Lawful(dev) && |m| != 24
    ensures ChildRun(dev, s, [m] + rest) == (s, [])
  {
  }

  /** What the child is given when the parent makes `calls` and drops the device, with more behind it. */
  function Incoming(calls: seq<Call>, rest: seq<seq<byte>>): (incoming: seq<seq<byte>>)
    requires AllInRange(calls)
    ensures |incoming| == |calls| + 1 + |rest|
    ensures forall i :: 0 <= i < |calls| ==> incoming[i] == Encode(calls[i])
    ensures incoming[|calls|] == SHUTDOWN_MSG
  {
    Encoded(calls) + [SHUTDOWN_MSG] + rest
  }

  /** Call `k` takes the device to its next state and gives answer `k`. */
  lemma ServesNext<S(!new)>(dev: Device<S>, s0: S, calls: seq<Call>, k: nat)
    requires Lawful(dev) && AllInRange(calls) && k < |calls|
    ensures var r := ChildServe(dev, DirectState(dev, s0, calls[..k]), Encode(calls[k]));
            && r.Reply? && !r.last && r.state == DirectState(dev, s0, calls[..k + 1])
            && r.msg == C.Answers(Child(dev), s0, Encoded(calls))[k]
  {
    ServesCall(dev, DirectState(dev, s0, calls[..k]), calls[k]);
    assert calls[..k + 1][..k] == calls[..k];
    C.AnswerAt(Child(dev), s0, Encoded(calls), k);
    assert Encoded(calls)[..k] == Encoded(calls[..k]);
    StateOfCalls(dev, s0, calls[..k]);
  }

  lemma TailFrom(answers: seq<Msg>, k: nat, last: Msg)
    requires k < |answers|
    ensures answers[k..] + [last] == [answers[k]] + (answers[k + 1..] + [last])
  {
  }

  lemma {:induction false} ServesFrom<S(!new)>(dev: Device<S>, s0: S, calls: seq<Call>, rest: seq<seq<byte>>, k: nat)
    requires Lawful(dev) && AllInRange(calls) && k <= |calls|
    ensures var run := ChildRun(dev, DirectState(dev, s0, calls[..k]), Incoming(calls, rest)[k..]);
            && run.0 == DirectState(dev, s0, calls)
            && run.1 == C.Answers(Child(dev), s0, Encoded(calls))[k..] + [SHUTDOWN_MSG]
    decreases |calls| - k
  {
    RunNext(dev, DirectState(dev, s0, calls[..k]), Incoming(calls, rest), k);
    if k < |calls| {
      ServesNext(dev, s0, calls, k);
      ServesFrom(dev, s0, calls, rest, k + 1);
      TailFrom(C.Answers(Child(dev), s0, Encoded(calls)), k, SHUTDOWN_MSG);
    } else {
      assert calls[..k] == calls;
      ShutdownReaches(dev, DirectState(dev, s0, calls));
    }
  }

  /** Given any calls and then the shutdown, the child makes them all, answers each and ends, whatever comes behind. */
  lemma ServesAllCalls<S(!new)>(dev: Device<S>, s0: S, calls: seq<Call>, rest: seq<seq<byte>>)
    requires Lawful(dev) && AllInRange(calls)
    ensures var run := ChildRun(dev, s0, Incoming(calls, rest));
            && run.0 == DirectState(dev, s0, calls)
            && run.1 == C.Answers(Child(dev), s0, Encoded(calls)) + [SHUTDOWN_MSG]
  {
    ServesFrom(dev, s0, calls, rest, 0);
    assert Incoming(calls, rest)[0..] == Incoming(calls, rest);
  }

  // ---------------------------------------------------------------------------
  // Runs of the proxy
  // ---------------------------------------------------------------------------

  /** What happens in a run: the parent makes a call, drops the device, or anything else happens. */
  datatype Event = Make(call: Call) | Drop | Other(a: C.Action<Msg>)

  predicate Possible(e: Event) {
    match e
    case Make(call) => call.InRange()
    case Drop => true
    case Other(a) => !a.Send? && !a.Post?
  }

  function Act(e: Event): (a: C.Action<Msg>)
    requires Possible(e)
  {
    match e
    case Make(call) => C.Send(Encode(call))
    case Drop => C.Post(SHUTDOWN_MSG)
    case Other(a) => a
  }

  predicate AllPossible(events: seq<Event>) {
    forall i :: 0 <= i < |events| ==> Possible(events[i])
  }

  function Acts(events: seq<Event>): (run: seq<C.Action<Msg>>)
    requires AllPossible(events)
    ensures |run| == |events|
  {
    if events == [] then [] else [Act(events[0])] + Acts(events[1..])
  }

  /** The calls the parent put on the socket. */
  function CallsOf(events: seq<Event>): (calls: seq<Call>)
    requires AllPossible(events)
    ensures AllInRange(calls)
  {
    if events == [] then []
    else if events[0].Make? then [events[0].call] + CallsOf(events[1..])
    else CallsOf(events[1..])
  }

  ghost function Posted<S>(st: C.State<S, Msg>): (posted: seq<Msg>) {
    if st.client == C.Dropped(true) then [SHUTDOWN_MSG] else []
  }

  lemma EncodedCons(call: Call, calls: seq<Call>)
    requires call.InRange() && AllInRange(calls)
    ensures Encoded([call] + calls) == [Encode(call)] + Encoded(calls)
  {
  }

  lemma {:induction false} RequestsAreCalls(events: seq<Event>)
    requires AllPossible(events)
    ensures C.Requests(Acts(events)) == Encoded(CallsOf(events)) && C.Posts(Acts(events), SHUTDOWN_MSG)
  {
    if events != [] {
      RequestsAreCalls(events[1..]);
      assert Acts(events)[1..] == Acts(events[1..]);
      if events[0].Make? {
        EncodedCons(events[0].call, CallsOf(events[1..]));
      }
    }
  }

  lemma SentIsCalls<S(!new)>(dev: Device<S>, s0: S, events: seq<Event>, st: C.State<S, Msg>)
    requires Lawful(dev) && AllPossible(events) && C.Runs(Child(dev), C.Init(s0), Acts(events), st)
    ensures st.sent == Encoded(CallsOf(events)) + Posted(st) && C.Requested(st) == |CallsOf(events)|
  {
    RequestsAreCalls(events);
    C.SentInRun(Child(dev), C.Init(s0), Acts(events), st, SHUTDOWN_MSG);
  }

  /** The shutdown leaves the device as it was. */
  lemma ServedState<S(!new)>(dev: Device<S>, s0: S, calls: seq<Call>, served: seq<Msg>, posted: seq<Msg>)
    requires Lawful(dev) && AllInRange(calls) && (posted == [] || posted == [SHUTDOWN_MSG])
    requires served <= Encoded(calls) + posted
    ensures C.After(Child(dev), s0, served) == DirectState(dev, s0, calls[..Min(|served|, |calls|)])
  {
    if |served| <= |calls| {
      assert served == Encoded(calls[..|served|]);
      StateOfCalls(dev, s0, calls[..|served|]);
    } else {
      assert served == Encoded(calls) + [SHUTDOWN_MSG];
      C.AfterOneMore(Child(dev), s0, Encoded(calls), SHUTDOWN_MSG);
      DecodeShutdown();
      StateOfCalls(dev, s0, calls);
      assert calls[..|calls|] == calls;
    }
  }

  /** In every run, whatever fails or times out, the device makes the parent's calls, each once and in order. */
  lemma DeviceMakesTheCalls<S(!new)>(dev: Device<S>, s0: S, events: seq<Event>, st: C.State<S, Msg>)
    requires Lawful(dev) && AllPossible(events) && C.Runs(Child(dev), C.Init(s0), Acts(events), st)
    ensures var calls, served := CallsOf(events), |st.served|;
            && served <= |calls| + |Posted(st)|
            && st.server == DirectState(dev, s0, calls[..Min(served, |calls|)])
  {
    SentIsCalls(dev, s0, events, st);
    C.RepliesLagByTimeouts(Child(dev), s0, Acts(events), st);
    ServedState(dev, s0, CallsOf(events), st.served, Posted(st));
  }

  /** `reply` gives the caller of call `n` what call `k` returns, and more of its message, cut to the size of `n`. */
  ghost predicate Gives<S(!new)>(dev: Device<S>, s0: S, calls: seq<Call>, n: nat, k: nat, reply: Msg)
    requires AllInRange(calls) && n < |calls| && k < |calls|
  {
    var r := DirectResult(dev, s0, calls, k);
    |r| == ResultSize(calls[k]) && Taken(calls[n], reply) == Body(calls[k], r)[..ResultSize(calls[n])]
  }

  lemma TakenFromBody(call: Call, m: Msg)
    requires call.Fits()
    ensures Taken(call, m) == m[16..][..ResultSize(call)]
  {
  }

  lemma AnswersOfPrefix<S(!new)>(dev: Device<S>, s0: S, calls: seq<Call>, posted: seq<Msg>, i: nat)
    requires Lawful(dev) && AllInRange(calls) && i < |calls|
    ensures C.Answers(Child(dev), s0, Encoded(calls) + posted)[i] == C.Answers(Child(dev), s0, Encoded(calls))[i]
  {
    var sent := Encoded(calls) + posted;
    C.AnswerAt(Child(dev), s0, sent, i);
    C.AnswerAt(Child(dev), s0, Encoded(calls), i);
    assert sent[..i] == Encoded(calls)[..i];
  }

  lemma AnswerOfSent<S(!new)>(dev: Device<S>, s0: S, calls: seq<Call>, posted: seq<Msg>, i: nat)
    requires Lawful(dev) && AllInRange(calls) && i < |calls|
    ensures var r, m := DirectResult(dev, s0, calls, i), C.Answers(Child(dev), s0, Encoded(calls) + posted)[i];
            |r| == ResultSize(calls[i]) && m[16..] == Body(calls[i], r)
  {
    AnswersOfPrefix(dev, s0, calls, posted, i);
    AnswerOfCall(dev, s0, calls, i);
  }

  lemma {:induction false} LateReply<S(!new)>(dev: Device<S>, s0: S, calls: seq<Call>, posted: seq<Msg>, sent: seq<Msg>,
                                              n: nat, k: nat, reply: Msg)
    requires Lawful(dev) && AllInRange(calls) && sent == Encoded(calls) + posted && n < |calls| && k < |calls|
    requires reply == C.Answers(Child(dev), s0, sent)[k]
    ensures Gives(dev, s0, calls, n, k, reply)
  {
    AnswerOfSent(dev, s0, calls, posted, k);
    TakenFromBody(calls[n], reply);
  }

  /**
   In every run, what the caller of call n gets is what call n - t returns when made directly on the device,
   followed by the rest of that call's own message, cut to the size of call n; t counts the timeouts before.
   */
  lemma {:induction false} ReplyLagsByTimeouts<S(!new)>(dev: Device<S>, s0: S, events: seq<Event>,
                                                        st: C.State<S, Msg>, i: nat)
    requires Lawful(dev) && AllPossible(events) && C.Runs(Child(dev), C.Init(s0), Acts(events), st)
    requires i < |st.outcomes| && st.outcomes[i].Replied?
    ensures var calls, n, t := CallsOf(events), st.outcomes[i].request, C.Timeouts(st.outcomes[..i]);
            t <= n < |calls| && Gives(dev, s0, calls, n, n - t, st.outcomes[i].reply)
  {
    var o, t := st.outcomes[i], C.Timeouts(st.outcomes[..i]);
    SentIsCalls(dev, s0, events, st);
    C.ReplyLagsInRun(Child(dev), s0, Acts(events), st, i);
    LateReply(dev, s0, CallsOf(events), Posted(st), st.sent, o.request, o.request - t, o.reply);
  }

  lemma OwnReply<S(!new)>(dev: Device<S>, s0: S, calls: seq<Call>, n: nat, reply: Msg)
    requires AllInRange(calls) && n < |calls| && Gives(dev, s0, calls, n, n, reply)
    ensures Taken(calls[n], reply) == DirectResult(dev, s0, calls, n)
  {
    ReplyBody(calls[n], DirectResult(dev, s0, calls, n));
  }

  /** As long as nothing times out, each call returns what it returns when made directly on the device. */
  lemma {:induction false} ReplyIsOwn<S(!new)>(dev: Device<S>, s0: S, events: seq<Event>, st: C.State<S, Msg>, i: nat)
    requires Lawful(dev) && AllPossible(events) && C.Runs(Child(dev), C.Init(s0), Acts(events), st)
    requires C.Timeouts(st.outcomes) == 0 && i < |st.outcomes| && st.outcomes[i].Replied?
    ensures var calls, n := CallsOf(events), st.outcomes[i].request;
            n < |calls| && Taken(calls[n], st.outcomes[i].reply) == DirectResult(dev, s0, calls, n)
  {
    C.TimeoutsMonotone(st.outcomes, i);
    ReplyLagsByTimeouts(dev, s0, events, st, i);
    OwnReply(dev, s0, CallsOf(events), st.outcomes[i].request, st.outcomes[i].reply);
  }

  /** As long as nothing times out, between calls nothing is under way and the device has made them all. */
  lemma QuietBetweenCalls<S(!new)>(dev: Device<S>, s0: S, events: seq<Event>, st: C.State<S, Msg>)
    requires Lawful(dev) && AllPossible(events) && C.Runs(Child(dev), C.Init(s0), Acts(events), st)
    requires C.Timeouts(st.outcomes) == 0 && st.client.Idle?
    ensures st.toServer == [] && st.toClient == [] && !st.process.Replying?
    ensures st.server == DirectState(dev, s0, CallsOf(events))
  {
    SentIsCalls(dev, s0, events, st);
    C.Lockstep(Child(dev), s0, Acts(events), st);
    assert st.sent == Encoded(CallsOf(events));
    StateOfCalls(dev, s0, CallsOf(events));
  }

  // ---------------------------------------------------------------------------
  // Every list of calls can be completed
  // ---------------------------------------------------------------------------

  /** One call with nothing in its way, before `rest`. */
  function WithCall(call: Call, rest: seq<Event>): (events: seq<Event>) {
    [Make(call)] + ([Other(C.ServerRecv)] + ([Other(C.ServerSend)] + ([Other(C.Recv)] + rest)))
  }

  lemma ActsCons(e: Event, rest: seq<Event>)
    requires Possible(e) && AllPossible(rest)
    ensures AllPossible([e] + rest) && Acts([e] + rest) == [Act(e)] + Acts(rest)
    ensures CallsOf([e] + rest) == if e.Make? then [e.call] + CallsOf(rest) else CallsOf(rest)
  {
    assert ([e] + rest)[1..] == rest;
  }

  lemma WithCallActs(call: Call, rest: seq<Event>)
    requires call.InRange() && AllPossible(rest)
    ensures AllPossible(WithCall(call, rest)) && CallsOf(WithCall(call, rest)) == [call] + CallsOf(rest)
    ensures Acts(WithCall(call, rest)) ==
            [C.Send(Encode(call))] + ([C.ServerRecv] + ([C.ServerSend] + ([C.Recv] + Acts(rest))))
  {
    var r1 := [Other(C.Recv)] + rest;
    var r2 := [Other(C.ServerSend)] + r1;
    var r3 := [Other(C.ServerRecv)] + r2;
    ActsCons(Other(C.Recv), rest);
    ActsCons(Other(C.ServerSend), r1);
    ActsCons(Other(C.ServerRecv), r2);
    ActsCons(Make(call), r3);
  }

  /** `st'` has a reply for each of `n` more requests. */
  ghost predicate AllAnswered<S>(st: C.State<S, Msg>, st': C.State<S, Msg>, n: nat) {
    && C.Quiet(st') && st'.timeouts == st.timeouts && |st'.sent| == |st.sent| + n
    && |st'.outcomes| == |st.outcomes| + n
    && (forall i :: 0 <= i < |st.outcomes| ==> st'.outcomes[i] == st.outcomes[i])
    && forall i :: |st.outcomes| <= i < |st'.outcomes| ==>
         st'.outcomes[i].Replied? && st'.outcomes[i].request == |st.sent| + i - |st.outcomes|
  }

  lemma OneMoreAnswered<S>(st: C.State<S, Msg>, mid: C.State<S, Msg>, st': C.State<S, Msg>, n: nat, reply: Msg)
    requires mid.outcomes == st.outcomes + [C.Replied(|st.sent|, st.timeouts, reply)]
    requires |mid.sent| == |st.sent| + 1 && mid.timeouts == st.timeouts && AllAnswered(mid, st', n)
    ensures AllAnswered(st, st', n + 1)
  {
    assert st'.outcomes[|st.outcomes|] == mid.outcomes[|st.outcomes|];
  }

  lemma {:induction false} CompletesFrom<S(!new)>(dev: Device<S>, st: C.State<S, Msg>, calls: seq<Call>)
    returns (events: seq<Event>, st': C.State<S, Msg>)
    requires Lawful(dev) && AllInRange(calls) && C.Quiet(st)
    ensures AllPossible(events) && CallsOf(events) == calls && C.Runs(Child(dev), st, Acts(events), st')
    ensures AllAnswered(st, st', |calls|)
    decreases |calls|
  {
    if calls == [] {
      events, st' := [], st;
    } else {
      ServesCall(dev, st.server, calls[0]);
      var mid := C.Exchanged(Child(dev), st, Encode(calls[0]));
      var rest;
      rest, st' := CompletesFrom(dev, mid, calls[1..]);
      C.Exchange(Child(dev), st, Encode(calls[0]), Acts(rest), st');
      WithCallActs(calls[0], rest);
      events := WithCall(calls[0], rest);
      OneMoreAnswered(st, mid, st', |calls| - 1, C.Answer(Child(dev), st.server, Encode(calls[0])));
    }
  }

  /** Any list of calls has a run in which every one returns, each with what it returns when made directly. */
  lemma AllCallsComplete<S(!new)>(dev: Device<S>, s0: S, calls: seq<Call>)
    returns (events: seq<Event>, st: C.State<S, Msg>)
    requires Lawful(dev) && AllInRange(calls)
    ensures AllPossible(events) && CallsOf(events) == calls && C.Runs(Child(dev), C.Init(s0), Acts(events), st)
    ensures st.server == DirectState(dev, s0, calls) && |st.outcomes| == |calls|
    ensures forall i :: 0 <= i < |calls| ==>
              && st.outcomes[i].Replied? && st.outcomes[i].request == i
              && Taken(calls[i], st.outcomes[i].reply) == DirectResult(dev, s0, calls, i)
  {
    events, st := CompletesFrom(dev, C.Init(s0), calls);
    C.ReachableInv(Child(dev), s0, Acts(events), st);
    QuietBetweenCalls(dev, s0, events, st);
    forall i | 0 <= i < |calls|
      ensures st.outcomes[i].Replied? && st.outcomes[i].request == i
      ensures Taken(calls[i], st.outcomes[i].reply) == DirectResult(dev, s0, calls, i)
    {
      ReplyIsOwn(dev, s0, events, st, i);
    }
  }
}
