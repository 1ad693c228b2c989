/**
 A client and a server process joined by two datagram queues, as one transition system: any
 interleaving of their steps, with sends and receives that may fail at any point. The client waits
 for one reply per request, up to a timeout; a last message is posted without waiting.
 Messages and the server's work on them are parameters.
 */
module Channel {

  /** What the server does with one message: a reply, after which it may stop, or stopping at once. */
  datatype Served<+S, +M> = Reply(state: S, msg: M, last: bool) | Quit

  datatype Server<!S(!new), !M(!new)> = Server(serve: (S, M) -> Served<S, M>)

  // ---------------------------------------------------------------------------
  // The reference: the messages served one after the other
  // ---------------------------------------------------------------------------

  function Step<S(!new), M(!new)>(srv: Server<S, M>, s: S, m: M): (s': S) {
    match srv.serve(s, m)
    case Reply(s', _, _) => s'
    case Quit => s
  }

  function Answer<S(!new), M(!new)>(srv: Server<S, M>, s: S, m: M): (r: M) {
    match srv.serve(s, m)
    case Reply(_, r, _) => r
    case Quit => m
  }

  /** The server's state after `sent`, in order. */
  function After<S(!new), M(!new)>(srv: Server<S, M>, s0: S, sent: seq<M>): (s: S) {
    if sent == [] then s0 else Step(srv, After(srv, s0, sent[..|sent| - 1]), sent[|sent| - 1])
  }

  /** The reply to each message of `sent`. */
  function Answers<S(!new), M(!new)>(srv: Server<S, M>, s0: S, sent: seq<M>): (r: seq<M>)
    ensures |r| == |sent|
  {
    if sent == [] then []
    else Answers(srv, s0, sent[..|sent| - 1]) + [Answer(srv, After(srv, s0, sent[..|sent| - 1]), sent[|sent| - 1])]
  }

  lemma AfterOneMore<S(!new), M(!new)>(srv: Server<S, M>, s0: S, sent: seq<M>, m: M)
    ensures After(srv, s0, sent + [m]) == Step(srv, After(srv, s0, sent), m)
  {
    assert (sent + [m])[..|sent|] == sent;
  }

  lemma {:induction false} AnswerAt<S(!new), M(!new)>(srv: Server<S, M>, s0: S, sent: seq<M>, i: nat)
    requires i < |sent|
    ensures Answers(srv, s0, sent)[i] == Answer(srv, After(srv, s0, sent[..i]), sent[i])
    decreases |sent|
  {
    if i < |sent| - 1 {
      var init := sent[..|sent| - 1];
      AnswerAt(srv, s0, init, i);
      assert init[..i] == sent[..i];
    }
  }

  // ---------------------------------------------------------------------------
  // The two processes
  // ---------------------------------------------------------------------------

  datatype Client = Idle | Waiting(request: nat) | Dropped(posted: bool)

  datatype Process<+M> = Receiving | Replying(reply: M, last: bool) | Exited

  /** How a request ended for the client. A reply is recorded with the number of timeouts before it. */
  datatype Outcome<+M> = NotSent | TimedOut(request: nat) | Replied(request: nat, lag: nat, reply: M)

  /** `served` lists the messages the server has worked on. */
  datatype State<+S, +M> = State(
    client: Client, process: Process<M>, server: S,
    toServer: seq<M>, toClient: seq<M>,
    sent: seq<M>, timeouts: nat, outcomes: seq<Outcome<M>>, served: seq<M>)

  datatype Action<+M> =
    | Send(m: M) | SendFails
    | Post(m: M) | PostFails
    | Recv | Timeout
    | ServerRecv | ServerRecvFails
    | ServerSend | ServerSendFails

  function Init<S, M>(s0: S): (st: State<S, M>) {
    State(Idle, Receiving, s0, [], [], [], 0, [], [])
  }

  predicate Enabled<S, M>(st: State<S, M>, a: Action<M>) {
    match a
    case Send(_) => st.client.Idle?
    case SendFails => st.client.Idle?
    case Post(_) => st.client.Idle?
    case PostFails => st.client.Idle?
    case Recv => st.client.Waiting? && |st.toClient| > 0
    case Timeout => st.client.Waiting?
    case ServerRecv => st.process.Receiving? && |st.toServer| > 0
    case ServerRecvFails => st.process.Receiving?
    case ServerSend => st.process.Replying?
    case ServerSendFails => st.process.Replying?
  }

  function Next<S(!new), M(!new)>(srv: Server<S, M>, st: State<S, M>, a: Action<M>): (st': State<S, M>)
    requires Enabled(st, a)
  {
    match a
    case Send(m) => st.(client := Waiting(|st.sent|), toServer := st.toServer + [m], sent := st.sent + [m])
    case SendFails => st.(outcomes := st.outcomes + [NotSent])
    case Post(m) => st.(client := Dropped(true), toServer := st.toServer + [m], sent := st.sent + [m])
    case PostFails => st.(client := Dropped(false))
    case Recv =>
      st.(client := Idle, toClient := st.toClient[1..],
          outcomes := st.outcomes + [Replied(st.client.request, st.timeouts, st.toClient[0])])
    case Timeout =>
      st.(client := Idle, timeouts := st.timeouts + 1, outcomes := st.outcomes + [TimedOut(st.client.request)])
    case ServerRecv =>
      var m := st.toServer[0];
      st.(toServer := st.toServer[1..], served := st.served + [m], server := Step(srv, st.server, m),
          process := match srv.serve(st.server, m)
            case Reply(_, r, last) => Replying(r, last)
            case Quit => Exited)
    case ServerRecvFails => st.(process := Exited)
    case ServerSend =>
      st.(toClient := st.toClient + [st.process.reply], process := if st.process.last then Exited else Receiving)
    case ServerSendFails => st.(process := Exited)
  }

  /** `st'` is reached from `st` by the actions of `run`, each enabled where it is taken. */
  ghost predicate Runs<S(!new), M(!new)>(srv: Server<S, M>, st: State<S, M>, run: seq<Action<M>>, st': State<S, M>)
    decreases |run|
  {
    if run == [] then st == st'
    else Enabled(st, run[0]) && Runs(srv, Next(srv, st, run[0]), run[1..], st')
  }

  // ---------------------------------------------------------------------------
  // The invariant of every run
  // ---------------------------------------------------------------------------

  /** Messages the server has taken off its queue. */
  function Handled<S, M>(st: State<S, M>): (n: int) {
    |st.sent| - |st.toServer|
  }

  /** Messages the client sent as requests, that is, all but one it posted. */
  function Requested<S, M>(st: State<S, M>): (n: int) {
    |st.sent| - if st.client == Dropped(true) then 1 else 0
  }

  /** Replies the client has taken off its queue: one for each message sent but those that timed out,
      the one it waits for, and the one it posted. */
  function Consumed<S, M>(st: State<S, M>): (n: int) {
    Requested(st) - st.timeouts - if st.client.Waiting? then 1 else 0
  }

  function Produced<S, M>(st: State<S, M>): (n: int) {
    Consumed(st) + |st.toClient|
  }

  ghost predicate Shape<S, M>(st: State<S, M>) {
    && (st.client.Waiting? ==> st.client.request == |st.sent| - 1)
    && 0 <= Consumed(st) && Produced(st) <= Handled(st)
    && (st.process.Receiving? ==> Produced(st) == Handled(st))
    && (st.process.Replying? ==> Produced(st) + 1 == Handled(st))
  }

  /** Of all the answers, those on their way back. */
  ghost predicate Returning<S, M>(all: seq<M>, st: State<S, M>)
    requires Shape(st) && |all| == |st.sent|
  {
    && st.toClient == all[Consumed(st)..Produced(st)]
    && (st.process.Replying? ==> st.process.reply == all[Produced(st)])
  }

  ghost predicate Queues<S(!new), M(!new)>(srv: Server<S, M>, s0: S, st: State<S, M>)
    requires Shape(st)
  {
    && st.toServer == st.sent[Handled(st)..] && st.served == st.sent[..Handled(st)]
    && st.server == After(srv, s0, st.served)
    && Returning(Answers(srv, s0, st.sent), st)
  }

  /** Every reply taken answers the request as many requests back as there were timeouts. */
  ghost predicate Lagging<S(!new), M(!new)>(srv: Server<S, M>, s0: S, st: State<S, M>) {
    forall i :: 0 <= i < |st.outcomes| && st.outcomes[i].Replied? ==>
      var o := st.outcomes[i];
      && o.lag <= o.request < Requested(st) && o.lag <= st.timeouts
      && o.reply == Answers(srv, s0, st.sent)[o.request - o.lag]
  }

  ghost predicate Inv<S(!new), M(!new)>(srv: Server<S, M>, s0: S, st: State<S, M>) {
    Shape(st) && Queues(srv, s0, st) && Lagging(srv, s0, st)
  }

  /** Sending more changes nothing about the messages before. */
  lemma SendMore<S(!new), M(!new)>(srv: Server<S, M>, s0: S, sent: seq<M>, m: M)
    ensures Answers(srv, s0, sent + [m])[..|sent|] == Answers(srv, s0, sent)
  {
    assert (sent + [m])[..|sent|] == sent;
  }

  lemma SendKeepsShape<S(!new), M(!new)>(srv: Server<S, M>, st: State<S, M>, a: Action<M>)
    requires Shape(st) && (a.Send? || a.Post?) && Enabled(st, a)
    ensures var st' := Next(srv, st, a);
            && Shape(st') && st'.sent == st.sent + [a.m]
            && Handled(st') == Handled(st) && Consumed(st') == Consumed(st) && Produced(st') == Produced(st)
  {
  }

  lemma SamePrefix<T>(more: seq<T>, s: seq<T>, lo: nat, hi: nat)
    requires |s| <= |more| && more[..|s|] == s && lo <= hi <= |s|
    ensures more[lo..hi] == s[lo..hi]
    ensures hi < |s| ==> more[hi] == s[hi]
  {
    forall i | 0 <= i < |s| ensures more[i] == s[i] {
      assert more[i] == more[..|s|][i];
    }
  }

  lemma SendKeepsReturning<S(!new), M(!new)>(srv: Server<S, M>, st: State<S, M>, a: Action<M>, all: seq<M>,
                                             more: seq<M>)
    requires Shape(st) && (a.Send? || a.Post?) && Enabled(st, a) && Shape(Next(srv, st, a))
    requires |all| == |st.sent| && |more| == |all| + 1 && more[..|all|] == all && Returning(all, st)
    ensures Returning(more, Next(srv, st, a))
  {
    SendKeepsShape(srv, st, a);
    SamePrefix(more, all, Consumed(st), Produced(st));
  }

  lemma SendKeepsQueues<S(!new), M(!new)>(srv: Server<S, M>, s0: S, st: State<S, M>, a: Action<M>)
    requires Shape(st) && Queues(srv, s0, st) && (a.Send? || a.Post?) && Enabled(st, a)
    ensures Shape(Next(srv, st, a)) && Queues(srv, s0, Next(srv, st, a))
  {
    var st', h := Next(srv, st, a), Handled(st);
    SendKeepsShape(srv, st, a);
    SendMore(srv, s0, st.sent, a.m);
    SendKeepsReturning(srv, st, a, Answers(srv, s0, st.sent), Answers(srv, s0, st'.sent));
    SamePrefix(st'.sent, st.sent, 0, h);
    assert st'.sent[h..] == st.sent[h..] + [a.m];
  }

  lemma SendKeepsLagging<S(!new), M(!new)>(srv: Server<S, M>, s0: S, st: State<S, M>, a: Action<M>)
    requires Lagging(srv, s0, st) && (a.Send? || a.Post?) && Enabled(st, a)
    ensures Lagging(srv, s0, Next(srv, st, a))
  {
    var new' := Answers(srv, s0, st.sent + [a.m]);
    SendMore(srv, s0, st.sent, a.m);
    assert forall k :: 0 <= k < |st.sent| ==> new'[k] == new'[..|st.sent|][k];
  }

  lemma RecvKeepsQueues<S(!new), M(!new)>(srv: Server<S, M>, s0: S, st: State<S, M>)
    requires Shape(st) && Queues(srv, s0, st) && Enabled(st, Recv)
    ensures Shape(Next(srv, st, Recv)) && Queues(srv, s0, Next(srv, st, Recv))
    ensures Consumed(st) < |st.sent| && st.toClient[0] == Answers(srv, s0, st.sent)[Consumed(st)]
  {
    var st', all, c, p := Next(srv, st, Recv), Answers(srv, s0, st.sent), Consumed(st), Produced(st);
    assert st.toClient[0] == all[c] && st'.toClient == all[c + 1..p];
    assert Shape(st') && Handled(st') == Handled(st) && Consumed(st') == c + 1 && Produced(st') == p;
  }

  lemma RecvKeepsLagging<S(!new), M(!new)>(srv: Server<S, M>, s0: S, st: State<S, M>)
    requires Shape(st) && Lagging(srv, s0, st) && Enabled(st, Recv)
    requires Consumed(st) < |st.sent| && st.toClient[0] == Answers(srv, s0, st.sent)[Consumed(st)]
    ensures Lagging(srv, s0, Next(srv, st, Recv))
  {
    var st' := Next(srv, st, Recv);
    assert st.client.request - st.timeouts == Consumed(st) && Requested(st') == Requested(st);
    forall i | 0 <= i < |st'.outcomes| && st'.outcomes[i].Replied?
      ensures var o := st'.outcomes[i];
              && o.lag <= o.request < Requested(st') && o.lag <= st'.timeouts
              && o.reply == Answers(srv, s0, st'.sent)[o.request - o.lag]
    {
      assert i < |st.outcomes| ==> st'.outcomes[i] == st.outcomes[i];
    }
  }

  lemma ServeKeepsShape<S(!new), M(!new)>(srv: Server<S, M>, st: State<S, M>)
    requires Shape(st) && Enabled(st, ServerRecv)
    ensures var st' := Next(srv, st, ServerRecv);
            && Shape(st') && Handled(st') == Handled(st) + 1
            && Consumed(st') == Consumed(st) && Produced(st') == Produced(st)
  {
  }

  lemma MoveOne<T>(s: seq<T>, h: nat)
    requires h < |s|
    ensures s[h..][0] == s[h] && s[h..][1..] == s[h + 1..] && s[..h] + [s[h]] == s[..h + 1]
  {
  }

  lemma ServeKeepsQueues<S(!new), M(!new)>(srv: Server<S, M>, s0: S, st: State<S, M>)
    requires Shape(st) && Queues(srv, s0, st) && Enabled(st, ServerRecv)
    ensures Shape(Next(srv, st, ServerRecv)) && Queues(srv, s0, Next(srv, st, ServerRecv))
  {
    var h := Handled(st);
    ServeKeepsShape(srv, st);
    MoveOne(st.sent, h);
    AnswerAt(srv, s0, st.sent, h);
    AfterOneMore(srv, s0, st.served, st.toServer[0]);
  }

  lemma ReplyKeepsShape<S(!new), M(!new)>(srv: Server<S, M>, st: State<S, M>)
    requires Shape(st) && Enabled(st, ServerSend)
    ensures var st' := Next(srv, st, ServerSend);
            && Shape(st') && Handled(st') == Handled(st)
            && Consumed(st') == Consumed(st) && Produced(st') == Produced(st) + 1
  {
  }

  lemma OneMoreOf<T>(all: seq<T>, lo: nat, hi: nat)
    requires lo <= hi < |all|
    ensures all[lo..hi] + [all[hi]] == all[lo..hi + 1]
  {
  }

  lemma ReplyKeepsQueues<S(!new), M(!new)>(srv: Server<S, M>, s0: S, st: State<S, M>)
    requires Shape(st) && Queues(srv, s0, st) && Enabled(st, ServerSend)
    ensures Shape(Next(srv, st, ServerSend)) && Queues(srv, s0, Next(srv, st, ServerSend))
  {
    ReplyKeepsShape(srv, st);
    OneMoreOf(Answers(srv, s0, st.sent), Consumed(st), Produced(st));
  }

  lemma FailureKeepsShape<S(!new), M(!new)>(srv: Server<S, M>, st: State<S, M>, a: Action<M>)
    requires Shape(st) && Enabled(st, a)
    requires a.SendFails? || a.PostFails? || a.Timeout? || a.ServerRecvFails? || a.ServerSendFails?
    ensures var st' := Next(srv, st, a);
            && Shape(st') && Handled(st') == Handled(st)
            && Consumed(st') == Consumed(st) && Produced(st') == Produced(st)
  {
  }

  lemma ClientFailureKeepsQueues<S(!new), M(!new)>(srv: Server<S, M>, s0: S, st: State<S, M>, a: Action<M>)
    requires Shape(st) && Queues(srv, s0, st) && Enabled(st, a) && (a.SendFails? || a.PostFails? || a.Timeout?)
    ensures Shape(Next(srv, st, a)) && Queues(srv, s0, Next(srv, st, a))
  {
    FailureKeepsShape(srv, st, a);
  }

  lemma ClientFailureKeepsLagging<S(!new), M(!new)>(srv: Server<S, M>, s0: S, st: State<S, M>, a: Action<M>)
    requires Lagging(srv, s0, st) && Enabled(st, a) && (a.SendFails? || a.PostFails? || a.Timeout?)
    ensures Lagging(srv, s0, Next(srv, st, a))
  {
    var st' := Next(srv, st, a);
    assert forall i :: 0 <= i < |st'.outcomes| && st'.outcomes[i].Replied? ==>
      i < |st.outcomes| && st'.outcomes[i] == st.outcomes[i];
  }

  lemma ServerFailureKeepsQueues<S(!new), M(!new)>(srv: Server<S, M>, s0: S, st: State<S, M>, a: Action<M>)
    requires Shape(st) && Queues(srv, s0, st) && Enabled(st, a) && (a.ServerRecvFails? || a.ServerSendFails?)
    ensures Shape(Next(srv, st, a)) && Queues(srv, s0, Next(srv, st, a))
  {
    FailureKeepsShape(srv, st, a);
  }

  lemma LaggingFrame<S(!new), M(!new)>(srv: Server<S, M>, s0: S, st: State<S, M>, st': State<S, M>)
    requires Lagging(srv, s0, st) && st'.sent == st.sent && st'.outcomes == st.outcomes && st'.timeouts == st.timeouts
    requires st'.client == st.client
    ensures Lagging(srv, s0, st')
  {
  }

  lemma StepKeepsInv<S(!new), M(!new)>(srv: Server<S, M>, s0: S, st: State<S, M>, a: Action<M>)
    requires Inv(srv, s0, st) && Enabled(st, a)
    ensures Inv(srv, s0, Next(srv, st, a))
  {
    match a
    case Send(_) => SendKeepsQueues(srv, s0, st, a); SendKeepsLagging(srv, s0, st, a);
    case Post(_) => SendKeepsQueues(srv, s0, st, a); SendKeepsLagging(srv, s0, st, a);
    case Recv => RecvKeepsQueues(srv, s0, st); RecvKeepsLagging(srv, s0, st);
    case ServerRecv => ServeKeepsQueues(srv, s0, st); LaggingFrame(srv, s0, st, Next(srv, st, a));
    case ServerSend => ReplyKeepsQueues(srv, s0, st); LaggingFrame(srv, s0, st, Next(srv, st, a));
    case ServerRecvFails => ServerFailureKeepsQueues(srv, s0, st, a); LaggingFrame(srv, s0, st, Next(srv, st, a));
    case ServerSendFails => ServerFailureKeepsQueues(srv, s0, st, a); LaggingFrame(srv, s0, st, Next(srv, st, a));
    case _ => ClientFailureKeepsQueues(srv, s0, st, a); ClientFailureKeepsLagging(srv, s0, st, a);
  }

  lemma {:induction false} RunKeepsInv<S(!new), M(!new)>(srv: Server<S, M>, s0: S, st: State<S, M>,
                                                         run: seq<Action<M>>, st': State<S, M>)
    requires Inv(srv, s0, st) && Runs(srv, st, run, st')
    ensures Inv(srv, s0, st')
    decreases |run|
  {
    if run != [] {
      StepKeepsInv(srv, s0, st, run[0]);
      RunKeepsInv(srv, s0, Next(srv, st, run[0]), run[1..], st');
    }
  }

  lemma InitInv<S(!new), M(!new)>(srv: Server<S, M>, s0: S)
    ensures Inv(srv, s0, Init<S, M>(s0))
  {
  }

  // ---------------------------------------------------------------------------
  // What holds of every run
  // ---------------------------------------------------------------------------

  /** How many of the requests ended in a timeout. */
  function Timeouts<M>(outcomes: seq<Outcome<M>>): (n: nat) {
    if outcomes == [] then 0
    else Timeouts(outcomes[..|outcomes| - 1]) + if outcomes[|outcomes| - 1].TimedOut? then 1 else 0
  }

  /** Every reply is recorded with the number of timeouts before it. */
  ghost predicate Counted<M>(timeouts: nat, outcomes: seq<Outcome<M>>) {
    && timeouts == Timeouts(outcomes)
    && forall i :: 0 <= i < |outcomes| && outcomes[i].Replied? ==> outcomes[i].lag == Timeouts(outcomes[..i])
  }

  ghost predicate LagsCount<S, M>(st: State<S, M>) {
    Counted(st.timeouts, st.outcomes)
  }

  lemma OneMoreCounted<M>(timeouts: nat, outcomes: seq<Outcome<M>>, o: Outcome<M>)
    requires Counted(timeouts, outcomes) && (o.Replied? ==> o.lag == timeouts)
    ensures Counted(if o.TimedOut? then timeouts + 1 else timeouts, outcomes + [o])
  {
    var after := outcomes + [o];
    assert after[..|outcomes|] == outcomes;
    forall i | 0 <= i < |after| && after[i].Replied?
      ensures after[i].lag == Timeouts(after[..i])
    {
      assert i < |outcomes| ==> after[..i] == outcomes[..i];
    }
  }

  lemma StepCounts<S(!new), M(!new)>(srv: Server<S, M>, st: State<S, M>, a: Action<M>)
    requires LagsCount(st) && Enabled(st, a)
    ensures LagsCount(Next(srv, st, a))
  {
    if a.SendFails? {
      OneMoreCounted(st.timeouts, st.outcomes, NotSent);
    } else if a.Recv? {
      OneMoreCounted(st.timeouts, st.outcomes, Replied(st.client.request, st.timeouts, st.toClient[0]));
    } else if a.Timeout? {
      OneMoreCounted(st.timeouts, st.outcomes, TimedOut(st.client.request));
    }
  }

  lemma {:induction false} RunCounts<S(!new), M(!new)>(srv: Server<S, M>, st: State<S, M>, run: seq<Action<M>>,
                                                       st': State<S, M>)
    requires LagsCount(st) && Runs(srv, st, run, st')
    ensures LagsCount(st')
    decreases |run|
  {
    if run != [] {
      StepCounts(srv, st, run[0]);
      RunCounts(srv, Next(srv, st, run[0]), run[1..], st');
    }
  }

  lemma {:induction false} ReachableInv<S(!new), M(!new)>(srv: Server<S, M>, s0: S, run: seq<Action<M>>,
                                                          st: State<S, M>)
    requires Runs(srv, Init(s0), run, st)
    ensures Inv(srv, s0, st) && LagsCount(st)
  {
    InitInv(srv, s0);
    RunKeepsInv(srv, s0, Init(s0), run, st);
    RunCounts(srv, Init(s0), run, st);
  }

  /** Reply `i` answers the request as many requests back as there were timeouts before it. */
  ghost predicate Late<S(!new), M(!new)>(srv: Server<S, M>, s0: S, st: State<S, M>, i: nat)
    requires i < |st.outcomes| && st.outcomes[i].Replied?
  {
    var n, t := st.outcomes[i].request, Timeouts(st.outcomes[..i]);
    t <= n < Requested(st) && st.outcomes[i].reply == Answers(srv, s0, st.sent)[n - t]
  }

  lemma {:induction false} ReplyLags<S(!new), M(!new)>(srv: Server<S, M>, s0: S, st: State<S, M>, i: nat)
    requires Inv(srv, s0, st) && LagsCount(st) && i < |st.outcomes| && st.outcomes[i].Replied?
    ensures Late(srv, s0, st, i)
  {
  }

  lemma {:induction false} ReplyLagsInRun<S(!new), M(!new)>(srv: Server<S, M>, s0: S, run: seq<Action<M>>,
                                                            st: State<S, M>, i: nat)
    requires Runs(srv, Init(s0), run, st) && i < |st.outcomes| && st.outcomes[i].Replied?
    ensures Late(srv, s0, st, i)
  {
    ReachableInv(srv, s0, run, st);
    ReplyLags(srv, s0, st, i);
  }

  /**
   The server works on the messages in the order sent, and a reply the client takes for request n is
   the reply to request n - t, where t counts the timeouts before it. So it is its own reply exactly
   as long as nothing has timed out.
   */
  lemma {:induction false} RepliesLagByTimeouts<S(!new), M(!new)>(srv: Server<S, M>, s0: S, run: seq<Action<M>>,
                                                                  st: State<S, M>)
    requires Runs(srv, Init(s0), run, st)
    ensures st.served <= st.sent && st.server == After(srv, s0, st.served)
    ensures forall i :: 0 <= i < |st.outcomes| && st.outcomes[i].Replied? ==> Late(srv, s0, st, i)
  {
    ReachableInv(srv, s0, run, st);
    forall i | 0 <= i < |st.outcomes| && st.outcomes[i].Replied?
      ensures Late(srv, s0, st, i)
    {
      ReplyLags(srv, s0, st, i);
    }
  }

  lemma {:induction false} OwnReplies<S(!new), M(!new)>(srv: Server<S, M>, s0: S, st: State<S, M>)
    requires Inv(srv, s0, st) && LagsCount(st) && st.timeouts == 0
    ensures forall i :: 0 <= i < |st.outcomes| && st.outcomes[i].Replied? ==>
              var n := st.outcomes[i].request;
              n < Requested(st) && st.outcomes[i].reply == Answers(srv, s0, st.sent)[n]
  {
  }

  lemma {:induction false} QuietWhenIdle<S(!new), M(!new)>(srv: Server<S, M>, s0: S, st: State<S, M>)
    requires Inv(srv, s0, st) && st.timeouts == 0 && st.client.Idle?
    ensures st.toServer == [] && st.toClient == [] && !st.process.Replying? && st.server == After(srv, s0, st.sent)
  {
    assert st.sent[..|st.sent|] == st.sent;
  }

  /** Without timeouts the queues are empty whenever no request is under way. */
  lemma {:induction false} Lockstep<S(!new), M(!new)>(srv: Server<S, M>, s0: S, run: seq<Action<M>>, st: State<S, M>)
    requires Runs(srv, Init(s0), run, st) && Timeouts(st.outcomes) == 0
    ensures forall i :: 0 <= i < |st.outcomes| && st.outcomes[i].Replied? ==>
              var n := st.outcomes[i].request;
              n < Requested(st) && st.outcomes[i].reply == Answers(srv, s0, st.sent)[n]
    ensures st.client.Idle? ==>
              st.toServer == [] && st.toClient == [] && !st.process.Replying? && st.server == After(srv, s0, st.sent)
  {
    ReachableInv(srv, s0, run, st);
    OwnReplies(srv, s0, st);
    if st.client.Idle? {
      QuietWhenIdle(srv, s0, st);
    }
  }

  /** The requests of a run, in order. */
  function Requests<M>(run: seq<Action<M>>): (r: seq<M>) {
    if run == [] then []
    else if run[0].Send? then [run[0].m] + Requests(run[1..])
    else Requests(run[1..])
  }

  /** The only message a run posts. */
  ghost predicate Posts<M>(run: seq<Action<M>>, last: M) {
    forall i :: 0 <= i < |run| && run[i].Post? ==> run[i].m == last
  }

  /** The messages sent in a run are its requests and then, if it got so far, the message posted. */
  lemma {:induction false} SentInRun<S(!new), M(!new)>(srv: Server<S, M>, st: State<S, M>, run: seq<Action<M>>,
                                                       st': State<S, M>, last: M)
    requires Runs(srv, st, run, st') && Posts(run, last)
    ensures st.client.Dropped? ==> Requests(run) == [] && st'.sent == st.sent && st'.client == st.client
    ensures !st.client.Dropped? ==>
              st'.sent == st.sent + Requests(run) + if st'.client == Dropped(true) then [last] else []
    decreases |run|
  {
    if run != [] {
      SentInRun(srv, Next(srv, st, run[0]), run[1..], st', last);
    }
  }

  /** Once the server has taken a message it stops on, it works on nothing any more. */
  lemma {:induction false} QuietAfterLast<S(!new), M(!new)>(srv: Server<S, M>, st: State<S, M>, run: seq<Action<M>>,
                                                            st': State<S, M>)
    requires Runs(srv, st, run, st') && (st.process.Exited? || (st.process.Replying? && st.process.last))
    ensures st'.served == st.served && st'.server == st.server
    decreases |run|
  {
    if run != [] {
      QuietAfterLast(srv, Next(srv, st, run[0]), run[1..], st');
    }
  }

  lemma RunsCons<S(!new), M(!new)>(srv: Server<S, M>, st: State<S, M>, a: Action<M>, run: seq<Action<M>>,
                                   st': State<S, M>) returns (run': seq<Action<M>>)
    requires Enabled(st, a) && Runs(srv, Next(srv, st, a), run, st')
    ensures run' == [a] + run && Runs(srv, st, run', st')
  {
    run' := [a] + run;
    assert run'[1..] == run;
  }

  /** Nothing is under way, and the server waits for a message. */
  ghost predicate Quiet<S, M>(st: State<S, M>) {
    st.client.Idle? && st.process.Receiving? && st.toServer == [] && st.toClient == []
  }

  /** One request sent, served, answered and received. */
  ghost function Exchanged<S(!new), M(!new)>(srv: Server<S, M>, st: State<S, M>, m: M): (st': State<S, M>)
    requires srv.serve(st.server, m).Reply?
  {
    var r := srv.serve(st.server, m);
    st.(server := r.state, sent := st.sent + [m], served := st.served + [m],
        outcomes := st.outcomes + [Replied(|st.sent|, st.timeouts, r.msg)])
  }

  /** From a quiet state, a request that the server answers can be completed, and the state is quiet again. */
  lemma Exchange<S(!new), M(!new)>(srv: Server<S, M>, st: State<S, M>, m: M, run: seq<Action<M>>, st': State<S, M>)
    requires Quiet(st) && srv.serve(st.server, m).Reply? && !srv.serve(st.server, m).last
    requires Runs(srv, Exchanged(srv, st, m), run, st')
    ensures Quiet(Exchanged(srv, st, m))
    ensures Runs(srv, st, [Send(m)] + ([ServerRecv] + ([ServerSend] + ([Recv] + run))), st')
  {
    var s1 := Next(srv, st, Send(m));
    var s2 := Next(srv, s1, ServerRecv);
    var s3 := Next(srv, s2, ServerSend);
    assert Next(srv, s3, Recv) == Exchanged(srv, st, m);
    var r3 := RunsCons(srv, s3, Recv, run, st');
    var r2 := RunsCons(srv, s2, ServerSend, r3, st');
    var r1 := RunsCons(srv, s1, ServerRecv, r2, st');
    var r0 := RunsCons(srv, st, Send(m), r1, st');
  }

  /** How often the client tried to send a request. */
  function Attempts<M>(run: seq<Action<M>>): (n: nat) {
    if run == [] then 0 else Attempts(run[1..]) + if run[0].Send? || run[0].SendFails? then 1 else 0
  }

  /** In every run each attempt has exactly one outcome, but for the one the client waits for. */
  lemma {:induction false} OneOutcomeEach<S(!new), M(!new)>(srv: Server<S, M>, st: State<S, M>, run: seq<Action<M>>,
                                                            st': State<S, M>)
    requires Runs(srv, st, run, st')
    ensures |st'.outcomes| + (if st'.client.Waiting? then 1 else 0) ==
            |st.outcomes| + (if st.client.Waiting? then 1 else 0) + Attempts(run)
    decreases |run|
  {
    if run != [] {
      OneOutcomeEach(srv, Next(srv, st, run[0]), run[1..], st');
    }
  }

  /** A run in which a timeout makes the client take the first reply for the second request. */
  lemma StaleReply<S(!new), M(!new)>(srv: Server<S, M>, s0: S, m0: M, m1: M)
    requires srv.serve(s0, m0).Reply? && !srv.serve(s0, m0).last
    ensures exists run, st :: Runs(srv, Init(s0), run, st) && st.sent == [m0, m1] &&
                              st.outcomes == [TimedOut(0), Replied(1, 1, srv.serve(s0, m0).msg)]
  {
    var s1 := Next(srv, Init(s0), Send(m0));
    var s2 := Next(srv, s1, Timeout);
    var s3 := Next(srv, s2, ServerRecv);
    var s4 := Next(srv, s3, ServerSend);
    var s5 := Next(srv, s4, Send(m1));
    var s6 := Next(srv, s5, Recv);
    var r5 := RunsCons(srv, s5, Recv, [], s6);
    var r4 := RunsCons(srv, s4, Send(m1), r5, s6);
    var r3 := RunsCons(srv, s3, ServerSend, r4, s6);
    var r2 := RunsCons(srv, s2, ServerRecv, r3, s6);
    var r1 := RunsCons(srv, s1, Timeout, r2, s6);
    var r0 := RunsCons(srv, Init(s0), Send(m0), r1, s6);
  }

  lemma {:induction false} TimeoutsMonotone<M>(outcomes: seq<Outcome<M>>, i: nat)
    requires i <= |outcomes|
    ensures Timeouts(outcomes[..i]) <= Timeouts(outcomes)
    decreases |outcomes|
  {
    if i < |outcomes| {
      TimeoutsMonotone(outcomes[..|outcomes| - 1], i);
      assert outcomes[..|outcomes| - 1][..i] == outcomes[..i];
    } else {
      assert outcomes[..i] == outcomes;
    }
  }
}
