/**
Resolver.Lookup (resolver.go) as a transition system: the spawning caller, one worker goroutine per
nameserver, the closer goroutine, the wait group, the result channel of capacity one and the context.
A run is any sequence of enabled steps, so every statement below is about every interleaving.
*/
module LookupProtocol {
  import opened Messages
  import RttTable

  datatype Config = Config(servers: seq<string>, timeout: nat, loadBalance: bool, dnssec: bool,
                           rtts: RttTable.Table)

  /** What an exchange with one server yields; a message may be absent even without an error. */
  datatype Reply = Failure | Answer(msg: Option<Message>, rtt: nat)

  datatype Response = Response(msg: Message, server: string, rtt: nat)

  datatype Outcome = Skipped | Failed | Unusable | Delivered(resp: Response)

  datatype Worker =
    | Unspawned
    | Starting
    | Exchanging
    | Penalising
    | Sending(resp: Response)
    | Leaving(outcome: Outcome)
    | Exited(outcome: Outcome)

  datatype Result = Ok(msg: Message) | ClosedError | TimedOut

  datatype Caller =
    | Spawning(next: nat)
    | Selecting
    | Received(resp: Response)
    | Leaving(result: Result)
    | Returned(result: Result)

  datatype Closer = Absent | Waiting | Closing | Finished

  datatype State = State(
    workers: seq<Worker>,
    wg: int,
    buffer: Option<Response>,
    closed: bool,
    caller: Caller,
    closer: Closer,
    cancelled: bool,
    panicked: bool,
    rtts: RttTable.Table)

  datatype Step =
    | Spawn
    | SpawnCloser
    | CheckContext(i: nat)
    | Exchange(i: nat, reply: Reply)
    | Penalise(i: nat)
    | Send(i: nat)
    | Done(i: nat)
    | WaitOver
    | Close
    | Receive
    | Timeout
    | Finish(valid: bool)
    | Cancel
    | Foreign(update: RttTable.Update)   // another Lookup writes the shared round-trip times

  predicate Usable(r: Reply) {
    r.Answer? && r.msg.Some? && r.msg.value.rcode != RCODE_SERVFAIL
  }

  function Init(c: Config): State {
    State(seq(|c.servers|, _ => Unspawned), 0, None, false, Spawning(0), Absent, false, false, c.rtts)
  }

  predicate Enabled(c: Config, s: State, step: Step) {
    match step
    case Spawn => s.caller.Spawning? && s.caller.next < |s.workers|
    case SpawnCloser => s.caller.Spawning? && s.caller.next >= |s.workers|
    case CheckContext(i) => i < |s.workers| && s.workers[i].Starting?
    case Exchange(i, _) => i < |s.workers| && s.workers[i].Exchanging?
    case Penalise(i) => i < |s.workers| && s.workers[i].Penalising? && i < |c.servers|
    case Send(i) => i < |s.workers| && s.workers[i].Sending? && (s.closed || s.buffer.None?)
    case Done(i) => i < |s.workers| && s.workers[i].Leaving?
    case WaitOver => s.closer.Waiting? && s.wg <= 0
    case Close => s.closer.Closing?
    case Receive => s.caller.Selecting? && (s.closed || s.buffer.Some?)
    case Timeout => s.caller.Selecting?
    case Finish(_) => s.caller.Received?
    case Cancel => s.caller.Leaving?
    case Foreign(_) => true
  }

  function AfterExchange(c: Config, i: nat, r: Reply): Worker
  {
    if r.Failure? then Penalising
    else if Usable(r) && i < |c.servers| then Sending(Response(r.msg.value, c.servers[i], r.rtt))
    else Worker.Leaving(Unusable)
  }

  function AfterFinish(c: Config, s: State, resp: Response, valid: bool): RttTable.Table {
    if (c.dnssec && !valid) || !c.loadBalance then s.rtts
    else RttTable.Apply(s.rtts, c.timeout, RttTable.Sample(resp.server, resp.rtt))
  }

  function Next(c: Config, s: State, step: Step): State
    requires Enabled(c, s, step)
  {
    match step
    case Spawn =>
      s.(workers := s.workers[s.caller.next := Starting], wg := s.wg + 1, caller := Spawning(s.caller.next + 1))
    case SpawnCloser =>
      s.(closer := Waiting, caller := Selecting)
    case CheckContext(i) =>
      s.(workers := s.workers[i := if s.cancelled then Worker.Leaving(Skipped) else Exchanging])
    case Exchange(i, r) =>
      s.(workers := s.workers[i := AfterExchange(c, i, r)])
    case Penalise(i) =>
      s.(workers := s.workers[i := Worker.Leaving(Failed)],
         rtts := RttTable.Apply(s.rtts, c.timeout, RttTable.Penalty(c.servers[i])))
    case Send(i) =>
      if s.closed then s.(panicked := true)
      else s.(workers := s.workers[i := Worker.Leaving(Delivered(s.workers[i].resp))],
              buffer := Some(s.workers[i].resp))
    case Done(i) =>
      s.(workers := s.workers[i := Exited(s.workers[i].outcome)], wg := s.wg - 1)
    case WaitOver => s.(closer := Closing)
    case Close => s.(closer := Finished, panicked := s.panicked || s.closed, closed := true)
    case Receive =>
      if s.buffer.Some? then s.(buffer := None, caller := Received(s.buffer.value))
      else s.(caller := Caller.Leaving(ClosedError))
    case Timeout => s.(caller := Caller.Leaving(TimedOut))
    case Finish(valid) =>
      s.(caller := Caller.Leaving(Ok(s.caller.resp.msg)), rtts := AfterFinish(c, s, s.caller.resp, valid))
    case Cancel => s.(caller := Returned(s.caller.result), cancelled := true)
    case Foreign(u) => s.(rtts := RttTable.Apply(s.rtts, c.timeout, u))
  }

  /** The state after a run, None when some step of it was not enabled. */
  function Exec(c: Config, run: seq<Step>): Option<State> {
    if run == [] then Some(Init(c))
    else
      var last := run[|run| - 1];
      match Exec(c, run[..|run| - 1])
      case None => None
      case Some(s) => if Enabled(c, s, last) then Some(Next(c, s, last)) else None
  }

  // ---------------------------------------------------------------- counting workers

  function Count(ws: seq<Worker>, p: Worker -> bool): nat {
    if ws == [] then 0 else (if p(ws[0]) then 1 else 0) + Count(ws[1..], p)
  }

  predicate Live(w: Worker) { !w.Unspawned? && !w.Exited? }
  predicate HasDelivered(w: Worker) { (w.Leaving? || w.Exited?) && w.outcome.Delivered? }
  predicate HasSkipped(w: Worker) { (w.Leaving? || w.Exited?) && w.outcome.Skipped? }
  predicate IsSending(w: Worker) { w.Sending? }
  predicate ReachedSend(w: Worker) { w.Sending? || HasDelivered(w) }

  lemma {:induction false} CountUpdate(ws: seq<Worker>, p: Worker -> bool, i: nat, w: Worker)
    requires i < |ws|
    ensures Count(ws[i := w], p) == Count(ws, p) - (if p(ws[i]) then 1 else 0) + (if p(w) then 1 else 0)
  {
    if i == 0 {
      assert ws[0 := w][1..] == ws[1..];
    } else {
      assert ws[i := w][1..] == ws[1..][i - 1 := w];
      CountUpdate(ws[1..], p, i - 1, w);
    }
  }

  lemma {:induction false} CountZero(ws: seq<Worker>, p: Worker -> bool)
    ensures Count(ws, p) == 0 <==> forall i :: 0 <= i < |ws| ==> !p(ws[i])
  {
    if ws != [] {
      CountZero(ws[1..], p);
      assert forall i :: 0 <= i < |ws[1..]| ==> ws[1..][i] == ws[i + 1];
      if Count(ws, p) == 0 {
        forall i | 0 <= i < |ws| ensures !p(ws[i]) {
          if i > 0 { assert ws[i] == ws[1..][i - 1]; }
        }
      }
    }
  }

  lemma {:induction false} CountSplit(ws: seq<Worker>)
    ensures Count(ws, ReachedSend) == Count(ws, IsSending) + Count(ws, HasDelivered)
  {
    if ws != [] { CountSplit(ws[1..]); }
  }

  // ---------------------------------------------------------------- the invariant

  predicate GotReply(m: Caller) {
    m.Received? || ((m.Leaving? || m.Returned?) && m.result.Ok?)
  }

  predicate GotClosed(m: Caller) {
    (m.Leaving? || m.Returned?) && m.result.ClosedError?
  }

  ghost predicate Spawned(s: State) {
    if s.caller.Spawning? then
      && s.caller.next <= |s.workers|
      && s.closer.Absent?
      && (forall i :: 0 <= i < |s.workers| ==> (s.workers[i].Unspawned? <==> s.caller.next <= i))
    else
      && !s.closer.Absent?
      && (forall i :: 0 <= i < |s.workers| ==> !s.workers[i].Unspawned?)
  }

  ghost predicate ChannelSound(s: State) {
    && !s.panicked
    && (s.closed <==> s.closer.Finished?)
    && (s.closer.Closing? || s.closer.Finished? ==> forall i :: 0 <= i < |s.workers| ==> s.workers[i].Exited?)
    && Count(s.workers, HasDelivered) == (if s.buffer.Some? then 1 else 0) + (if GotReply(s.caller) then 1 else 0)
  }

  ghost predicate ResultSound(s: State) {
    && (s.cancelled ==> s.caller.Returned?)
    && (forall i :: 0 <= i < |s.workers| && HasSkipped(s.workers[i]) ==> s.cancelled)
    && (GotClosed(s.caller) ==> forall i :: 0 <= i < |s.workers| ==>
          s.workers[i].Exited? && (s.workers[i].outcome.Failed? || s.workers[i].outcome.Unusable?))
  }

  ghost predicate Inv(c: Config, s: State) {
    && |s.workers| == |c.servers|
    && s.wg == Count(s.workers, Live)
    && Spawned(s)
    && ChannelSound(s)
    && ResultSound(s)
  }

  lemma {:induction false} AllUnspawned(ws: seq<Worker>)
    requires forall i :: 0 <= i < |ws| ==> ws[i].Unspawned?
    ensures Count(ws, Live) == 0 && Count(ws, HasDelivered) == 0
  {
    CountZero(ws, Live);
    CountZero(ws, HasDelivered);
  }

  lemma InitInv(c: Config)
    ensures Inv(c, Init(c))
  {
    AllUnspawned(Init(c).workers);
  }

  /** The worker a step moves, if it moves one. */
  function Mover(s: State, step: Step): Option<nat> {
    match step
    case Spawn => if s.caller.Spawning? then Some(s.caller.next) else None
    case CheckContext(i) => Some(i)
    case Exchange(i, _) => Some(i)
    case Penalise(i) => Some(i)
    case Send(i) => Some(i)
    case Done(i) => Some(i)
    case _ => None
  }

  lemma StepCounts(c: Config, s: State, step: Step)
    requires Inv(c, s) && Enabled(c, s, step)
    ensures var t := Next(c, s, step);
            && |t.workers| == |s.workers|
            && t.wg == Count(t.workers, Live)
  {
    var t := Next(c, s, step);
    var m := Mover(s, step);
    if m.Some? {
      assert t.workers == s.workers[m.value := t.workers[m.value]];
      CountUpdate(s.workers, Live, m.value, t.workers[m.value]);
    }
  }

  lemma StepChannel(c: Config, s: State, step: Step)
    requires Inv(c, s) && Enabled(c, s, step)
    ensures ChannelSound(Next(c, s, step))
  {
    var t := Next(c, s, step);
    var m := Mover(s, step);
    if step.Send? { assert s.workers[step.i].Sending?; }
    if m.Some? {
      assert t.workers == s.workers[m.value := t.workers[m.value]];
      CountUpdate(s.workers, HasDelivered, m.value, t.workers[m.value]);
    }
    if step.WaitOver? { CountZero(s.workers, Live); }
  }

  lemma StepSpawned(c: Config, s: State, step: Step)
    requires Inv(c, s) && Enabled(c, s, step)
    ensures Spawned(Next(c, s, step))
  {
  }

  lemma StepResult(c: Config, s: State, step: Step)
    requires Inv(c, s) && Enabled(c, s, step)
    ensures ResultSound(Next(c, s, step))
  {
    if step.Receive? && s.buffer.None? {
      CountZero(s.workers, HasDelivered);
    }
  }

  lemma StepInv(c: Config, s: State, step: Step)
    requires Inv(c, s) && Enabled(c, s, step)
    ensures Inv(c, Next(c, s, step))
  {
    StepCounts(c, s, step);
    StepSpawned(c, s, step);
    StepChannel(c, s, step);
    StepResult(c, s, step);
  }

  lemma {:induction false} RunInv(c: Config, run: seq<Step>)
    requires Exec(c, run).Some?
    ensures Inv(c, Exec(c, run).value)
  {
    if run == [] {
      InitInv(c);
    } else {
      RunInv(c, run[..|run| - 1]);
      StepInv(c, Exec(c, run[..|run| - 1]).value, run[|run| - 1]);
    }
  }

  // ---------------------------------------------------------------- where results come from

  /** Worker i asked its server in this run and got reply r. */
  ghost predicate Asked(run: seq<Step>, i: nat, r: Reply) {
    exists k :: 0 <= k < |run| && run[k] == Exchange(i, r)
  }

  ghost predicate WasAsked(run: seq<Step>, i: nat) {
    exists r :: Asked(run, i, r)
  }

  ghost predicate Answered(c: Config, run: seq<Step>, i: nat, resp: Response) {
    && i < |c.servers| && resp.server == c.servers[i]
    && Usable(Answer(Some(resp.msg), resp.rtt))
    && Asked(run, i, Answer(Some(resp.msg), resp.rtt))
  }

  ghost predicate AnsweredBySome(c: Config, run: seq<Step>, resp: Response) {
    exists i :: Answered(c, run, i, resp)
  }

  ghost predicate AskedInVain(run: seq<Step>, i: nat) {
    exists r :: !Usable(r) && Asked(run, i, r)
  }

  ghost predicate WorkerHistory(c: Config, run: seq<Step>, i: nat, w: Worker) {
    match w
    case Penalising => AskedInVain(run, i)
    case Sending(resp) => Answered(c, run, i, resp)
    case Leaving(o) => OutcomeHistory(c, run, i, o)
    case Exited(o) => OutcomeHistory(c, run, i, o)
    case _ => true
  }

  ghost predicate OutcomeHistory(c: Config, run: seq<Step>, i: nat, o: Outcome) {
    match o
    case Skipped => true
    case Delivered(resp) => Answered(c, run, i, resp)
    case _ => AskedInVain(run, i)
  }

  ghost predicate History(c: Config, run: seq<Step>, s: State) {
    && (forall i :: 0 <= i < |s.workers| ==> WorkerHistory(c, run, i, s.workers[i]))
    && (s.buffer.Some? ==> AnsweredBySome(c, run, s.buffer.value))
    && (s.caller.Received? ==> AnsweredBySome(c, run, s.caller.resp))
    && ((s.caller.Leaving? || s.caller.Returned?) && s.caller.result.Ok? ==>
          exists resp: Response :: resp.msg == s.caller.result.msg && AnsweredBySome(c, run, resp))
  }

  lemma AskedExtends(run: seq<Step>, step: Step, i: nat, r: Reply)
    requires Asked(run, i, r)
    ensures Asked(run + [step], i, r)
  {
    var k :| 0 <= k < |run| && run[k] == Exchange(i, r);
    assert (run + [step])[k] == Exchange(i, r);
  }

  lemma AnsweredExtends(c: Config, run: seq<Step>, step: Step, resp: Response)
    requires AnsweredBySome(c, run, resp)
    ensures AnsweredBySome(c, run + [step], resp)
  {
    var i :| Answered(c, run, i, resp);
    AskedExtends(run, step, i, Answer(Some(resp.msg), resp.rtt));
    assert Answered(c, run + [step], i, resp);
  }

  lemma WorkerHistoryExtends(c: Config, run: seq<Step>, step: Step, i: nat, w: Worker)
    requires WorkerHistory(c, run, i, w)
    ensures WorkerHistory(c, run + [step], i, w)
  {
    if AskedInVain(run, i) {
      var r :| !Usable(r) && Asked(run, i, r);
      AskedExtends(run, step, i, r);
    }
    var o := if w.Leaving? || w.Exited? then w.outcome else Skipped;
    var resp := if w.Sending? then Some(w.resp) else if o.Delivered? then Some(o.resp) else None;
    if resp.Some? {
      AskedExtends(run, step, i, Answer(Some(resp.value.msg), resp.value.rtt));
    }
  }

  lemma MovedWorkerHistory(c: Config, run: seq<Step>, s: State, step: Step, i: nat)
    requires |s.workers| == |c.servers| && !s.closed
    requires History(c, run, s) && Enabled(c, s, step) && Mover(s, step) == Some(i)
    ensures i < |s.workers| && WorkerHistory(c, run + [step], i, Next(c, s, step).workers[i])
  {
    WorkerHistoryExtends(c, run, step, i, s.workers[i]);
    if step.Exchange? {
      assert (run + [step])[|run|] == step;
      assert Asked(run + [step], i, step.reply);
    }
  }

  lemma StepHistory(c: Config, run: seq<Step>, s: State, step: Step)
    requires Inv(c, s) && History(c, run, s) && Enabled(c, s, step)
    ensures History(c, run + [step], Next(c, s, step))
  {
    var t := Next(c, s, step);
    var m := Mover(s, step);
    forall i | 0 <= i < |t.workers| ensures WorkerHistory(c, run + [step], i, t.workers[i]) {
      WorkerHistoryExtends(c, run, step, i, s.workers[i]);
      if m == Some(i) {
        assert !s.workers[i].Exited?;
        MovedWorkerHistory(c, run, s, step, i);
      }
    }
    if step.Send? {
      assert Answered(c, run, step.i, s.workers[step.i].resp);
      AnsweredExtends(c, run, step, s.workers[step.i].resp);
    }
    if s.buffer.Some? { AnsweredExtends(c, run, step, s.buffer.value); }
    if s.caller.Received? { AnsweredExtends(c, run, step, s.caller.resp); }
    if (s.caller.Leaving? || s.caller.Returned?) && s.caller.result.Ok? {
      var resp: Response :| resp.msg == s.caller.result.msg && AnsweredBySome(c, run, resp);
      AnsweredExtends(c, run, step, resp);
    }
  }

  lemma {:induction false} RunHistory(c: Config, run: seq<Step>)
    requires Exec(c, run).Some?
    ensures History(c, run, Exec(c, run).value)
  {
    if run != [] {
      var before, step := run[..|run| - 1], run[|run| - 1];
      RunHistory(c, before);
      RunInv(c, before);
      StepHistory(c, before, Exec(c, before).value, step);
      assert run == before + [step];
    }
  }

  // ---------------------------------------------------------------- each worker asks at most once

  predicate BeforeExchange(w: Worker) {
    w.Unspawned? || w.Starting? || w.Exchanging? || HasSkipped(w)
  }

  lemma BeforeExchangeStep(c: Config, s: State, step: Step, i: nat)
    requires |s.workers| == |c.servers| && Spawned(s) && Enabled(c, s, step) && i < |s.workers|
    requires BeforeExchange(Next(c, s, step).workers[i])
    ensures BeforeExchange(s.workers[i]) && !(step.Exchange? && step.i == i)
  {
  }

  lemma {:induction false} NotYetAsked(c: Config, run: seq<Step>, i: nat, r: Reply)
    requires Exec(c, run).Some? && i < |c.servers|
    requires |Exec(c, run).value.workers| == |c.servers| && BeforeExchange(Exec(c, run).value.workers[i])
    ensures !Asked(run, i, r)
  {
    if run != [] {
      var before, step := run[..|run| - 1], run[|run| - 1];
      RunInv(c, before);
      BeforeExchangeStep(c, Exec(c, before).value, step, i);
      NotYetAsked(c, before, i, r);
      assert run == before + [step];
    }
  }

  lemma {:induction false} ExecPrefix(c: Config, run: seq<Step>, n: nat)
    requires Exec(c, run).Some? && n <= |run|
    ensures Exec(c, run[..n]).Some?
  {
    if n < |run| {
      ExecPrefix(c, run[..|run| - 1], n);
      assert run[..|run| - 1][..n] == run[..n];
    } else {
      assert run[..n] == run;
    }
  }

  /** No worker asks its server twice. */
  lemma AskedAtMostOnce(c: Config, run: seq<Step>, a: nat, b: nat)
    requires Exec(c, run).Some? && a < |run| && b < |run|
    requires run[a].Exchange? && run[b].Exchange? && run[a].i == run[b].i
    ensures a == b
  {
    if a < b {
      AskedNotBefore(c, run, a, b);
    } else if b < a {
      AskedNotBefore(c, run, b, a);
    }
  }

  lemma AskedNotBefore(c: Config, run: seq<Step>, a: nat, b: nat)
    requires Exec(c, run).Some? && a < b < |run| && run[b].Exchange?
    ensures !(run[a].Exchange? && run[a].i == run[b].i)
  {
    ExecPrefix(c, run, b);
    ExecPrefix(c, run, b + 1);
    assert run[..b + 1][..b] == run[..b];
    RunInv(c, run[..b]);
    assert Exec(c, run[..b]).value.workers[run[b].i].Exchanging?;
    if run[a].Exchange? {
      NotYetAsked(c, run[..b], run[b].i, run[a].reply);
      assert run[..b][a] == run[a];
    }
  }

  /** Hence a worker that got an unusable reply got no usable one. */
  lemma InVainOnly(c: Config, run: seq<Step>, i: nat, r: Reply)
    requires Exec(c, run).Some? && AskedInVain(run, i) && Asked(run, i, r)
    ensures !Usable(r)
  {
    var q :| !Usable(q) && Asked(run, i, q);
    var a :| 0 <= a < |run| && run[a] == Exchange(i, q);
    var b :| 0 <= b < |run| && run[b] == Exchange(i, r);
    AskedAtMostOnce(c, run, a, b);
  }

  /**
  Safety of every interleaving: no send or close can hit a closed channel; the channel is closed only
  after all workers have finished; a returned message is a reply that one of the chosen servers gave
  in this run and its code is not 2 (SERVFAIL in section 4.1.1 of RFC 1035); and the closed-channel
  error means that every server was asked and each reply was a failure, empty or a SERVFAIL.
  */
  lemma LookupSafety(c: Config, run: seq<Step>)
    requires Exec(c, run).Some?
    ensures var s := Exec(c, run).value;
      && !s.panicked
      && 0 <= s.wg
      && (s.closed ==> !Enabled(c, s, Close) && forall i :: 0 <= i < |s.workers| ==> s.workers[i].Exited? && !Enabled(c, s, Send(i)))
      && (s.caller.Returned? && s.caller.result.Ok? ==>
            && s.caller.result.msg.rcode != 2
            && exists i: nat, t :: i < |c.servers| && Asked(run, i, Answer(Some(s.caller.result.msg), t)))
      && (s.caller.Returned? && s.caller.result.ClosedError? ==>
            && (forall i: nat :: i < |c.servers| ==> WasAsked(run, i))
            && (forall i: nat, r :: i < |c.servers| && Asked(run, i, r) ==>
                  r.Failure? || r.msg.None? || r.msg.value.rcode == 2))
  {
    RunInv(c, run);
    RunHistory(c, run);
    var s := Exec(c, run).value;
    if s.caller.Returned? && s.caller.result.Ok? {
      ReturnedWasReplied(c, run, s);
    }
    if s.caller.Returned? && s.caller.result.ClosedError? {
      ClosedInVain(c, run);
    }
  }

  lemma ReturnedWasReplied(c: Config, run: seq<Step>, s: State)
    requires History(c, run, s) && s.caller.Returned? && s.caller.result.Ok?
    ensures s.caller.result.msg.rcode != 2
    ensures exists i: nat, t :: i < |c.servers| && Asked(run, i, Answer(Some(s.caller.result.msg), t))
  {
    var resp: Response :| resp.msg == s.caller.result.msg && AnsweredBySome(c, run, resp);
    var i :| Answered(c, run, i, resp);
  }

  lemma ClosedInVain(c: Config, run: seq<Step>)
    requires Exec(c, run).Some? && GotClosed(Exec(c, run).value.caller)
    ensures forall i: nat :: i < |c.servers| ==> WasAsked(run, i)
    ensures forall i: nat, r :: i < |c.servers| && Asked(run, i, r) ==> r.Failure? || r.msg.None? || r.msg.value.rcode == 2
  {
    RunInv(c, run);
    RunHistory(c, run);
    forall i: nat | i < |c.servers| ensures AskedInVain(run, i) && WasAsked(run, i) {
      assert WorkerHistory(c, run, i, Exec(c, run).value.workers[i]);
      var r :| !Usable(r) && Asked(run, i, r);
    }
    forall i: nat, r | i < |c.servers| && Asked(run, i, r) ensures !Usable(r) {
      InVainOnly(c, run, i, r);
    }
  }

  // ---------------------------------------------------------------- what a reply leads to

  predicate Ended(w: Worker, o: Outcome) {
    w == Worker.Leaving(o) || w == Exited(o)
  }

  /** Where worker i stands once it got r: a failure is penalised, a usable message sent, the rest dropped. */
  ghost predicate Placed(c: Config, run: seq<Step>, i: nat, r: Reply, w: Worker)
    requires i < |c.servers|
  {
    match r
    case Failure => w.Penalising? || (Ended(w, Failed) && Penalise(i) in run)
    case Answer(None, _) => Ended(w, Unusable)
    case Answer(Some(m), t) =>
      if m.rcode == 2 then Ended(w, Unusable)
      else var resp := Response(m, c.servers[i], t); w == Sending(resp) || Ended(w, Delivered(resp))
  }

  lemma PlacedStep(c: Config, run: seq<Step>, s: State, step: Step, i: nat, r: Reply)
    requires Inv(c, s) && i < |c.servers| && Enabled(c, s, step)
    requires Placed(c, run, i, r, s.workers[i])
    ensures Placed(c, run + [step], i, r, Next(c, s, step).workers[i])
  {
    assert forall x :: x in run ==> x in run + [step];
    assert step in run + [step];
    if Mover(s, step) == Some(i) {
      assert step == Penalise(i) || step == Send(i) || step == Done(i);
    }
  }

  /** The reply a worker got decides, in every later state of every run, what becomes of it. */
  lemma {:induction false} ReplyDecides(c: Config, run: seq<Step>, i: nat, r: Reply)
    requires Exec(c, run).Some? && i < |c.servers| && Asked(run, i, r)
    ensures |Exec(c, run).value.workers| == |c.servers| && Placed(c, run, i, r, Exec(c, run).value.workers[i])
  {
    var before, step := run[..|run| - 1], run[|run| - 1];
    RunInv(c, run);
    RunInv(c, before);
    assert run == before + [step];
    var k :| 0 <= k < |run| && run[k] == Exchange(i, r);
    if k < |before| {
      assert before[k] == run[k];
      ReplyDecides(c, before, i, r);
      PlacedStep(c, before, Exec(c, before).value, step, i, r);
    }
  }

  // ---------------------------------------------------------------- which reply is returned

  /** The response of the first send of a run. */
  ghost function FirstSent(c: Config, run: seq<Step>): Option<Response>
    requires Exec(c, run).Some?
  {
    if run == [] then None
    else
      var before, step := run[..|run| - 1], run[|run| - 1];
      if FirstSent(c, before).Some? then FirstSent(c, before)
      else if step.Send? then Some(Exec(c, before).value.workers[step.i].resp)
      else None
  }

  /** Until the caller receives, the channel holds the first response sent; afterwards the caller has it. */
  ghost predicate FirstHeld(s: State, f: Option<Response>) {
    match s.caller
    case Received(resp) => f == Some(resp)
    case Leaving(Ok(m)) => f.Some? && f.value.msg == m
    case Returned(Ok(m)) => f.Some? && f.value.msg == m
    case _ => f == s.buffer
  }

  lemma {:induction false} FirstSentHeld(c: Config, run: seq<Step>)
    requires Exec(c, run).Some?
    ensures FirstHeld(Exec(c, run).value, FirstSent(c, run))
  {
    if run != [] {
      var before, step := run[..|run| - 1], run[|run| - 1];
      RunInv(c, before);
      FirstSentHeld(c, before);
      if step.Send? { assert !Exec(c, before).value.workers[step.i].Exited?; }
    }
  }

  /** Lookup returns the first usable reply that was sent, and the closed-channel error only if none was. */
  lemma FirstReplyWins(c: Config, run: seq<Step>)
    requires Exec(c, run).Some? && Exec(c, run).value.caller.Returned?
    ensures match Exec(c, run).value.caller.result
      case Ok(m) => FirstSent(c, run).Some? && FirstSent(c, run).value.msg == m
      case ClosedError => FirstSent(c, run).None?
      case TimedOut => FirstSent(c, run) == Exec(c, run).value.buffer
  {
    RunInv(c, run);
    FirstSentHeld(c, run);
    CountZero(Exec(c, run).value.workers, HasDelivered);
  }

  function ResultOf(m: Caller): Option<Result> {
    if m.Leaving? || m.Returned? then Some(m.result) else None
  }

  lemma ResultStep(c: Config, s: State, step: Step)
    requires Enabled(c, s, step)
    ensures step.Timeout? || step.Finish? || step.Receive? ==> ResultOf(s.caller).None?
    ensures var r := ResultOf(Next(c, s, step).caller);
      match step
      case Timeout => r == Some(TimedOut)
      case Finish(_) => r.Some? && r.value.Ok?
      case Receive => r == None || r == Some(ClosedError)
      case _ => r == ResultOf(s.caller)
  {
  }

  /** The step that decided the result: a time-out exactly for TimedOut, a received reply exactly for Ok. */
  lemma {:induction false} ResultCause(c: Config, run: seq<Step>)
    requires Exec(c, run).Some?
    ensures var r := ResultOf(Exec(c, run).value.caller);
      && ((exists k :: 0 <= k < |run| && run[k].Timeout?) <==> r == Some(TimedOut))
      && ((exists k :: 0 <= k < |run| && run[k].Finish?) <==> r.Some? && r.value.Ok?)
  {
    if run != [] {
      var before, step := run[..|run| - 1], run[|run| - 1];
      ResultCause(c, before);
      ResultStep(c, Exec(c, before).value, step);
      assert forall k :: 0 <= k < |before| ==> run[k] == before[k];
    }
  }

  // ---------------------------------------------------------------- cancellation

  lemma CancelStep(c: Config, s: State, step: Step)
    requires Enabled(c, s, step) && (s.cancelled || step.Cancel?)
    ensures Next(c, s, step).cancelled
  {
  }

  lemma {:induction false} CancelStays(c: Config, run: seq<Step>, a: nat)
    requires Exec(c, run).Some? && a < |run| && run[a] == Cancel
    ensures Exec(c, run).value.cancelled
  {
    var before, step := run[..|run| - 1], run[|run| - 1];
    if a < |before| { CancelStays(c, before, a); }
    CancelStep(c, Exec(c, before).value, step);
  }

  lemma {:induction false} LateWorkerSkips(c: Config, run: seq<Step>, a: nat, b: nat)
    requires Exec(c, run).Some? && a < b < |run| && run[a] == Cancel && run[b].CheckContext?
    ensures run[b].i < |Exec(c, run).value.workers| && HasSkipped(Exec(c, run).value.workers[run[b].i])
  {
    var before := run[..|run| - 1];
    RunInv(c, before);
    if b == |run| - 1 {
      CancelStays(c, before, a);
    } else {
      LateWorkerSkips(c, before, a, b);
    }
  }

  /** A worker that looks at the context after the caller has returned never asks its server. */
  lemma CancelledWorkerNeverAsks(c: Config, run: seq<Step>, a: nat, b: nat, r: Reply)
    requires Exec(c, run).Some? && a < b < |run| && run[a] == Cancel && run[b].CheckContext?
    ensures !Asked(run, run[b].i, r)
  {
    RunInv(c, run);
    LateWorkerSkips(c, run, a, b);
    NotYetAsked(c, run, run[b].i, r);
  }

  // ---------------------------------------------------------------- quiescence

  /** No goroutine of this Lookup can take another step. */
  ghost predicate Quiet(c: Config, s: State) {
    forall step: Step :: !step.Foreign? ==> !Enabled(c, s, step)
  }

  lemma QuietWorkers(c: Config, s: State)
    requires Inv(c, s) && Quiet(c, s)
    ensures s.caller.Returned?
    ensures forall i :: 0 <= i < |s.workers| ==> s.workers[i].Exited? || (s.workers[i].Sending? && s.buffer.Some?)
  {
    assert !Enabled(c, s, Spawn) && !Enabled(c, s, SpawnCloser);
    assert !Enabled(c, s, Timeout) && !Enabled(c, s, Finish(true)) && !Enabled(c, s, Cancel);
    forall i | 0 <= i < |s.workers|
      ensures s.workers[i].Exited? || (s.workers[i].Sending? && s.buffer.Some?)
    {
      assert !Enabled(c, s, CheckContext(i)) && !Enabled(c, s, Exchange(i, Failure));
      assert !Enabled(c, s, Penalise(i)) && !Enabled(c, s, Send(i)) && !Enabled(c, s, Done(i));
    }
  }

  /**
  Conservation: when nothing can move, the caller has returned, and of the workers that reached the
  send all but one, and one more if a reply was received, are blocked on the channel for good. The
  closer finishes exactly when none is blocked.
  */
  lemma QuietConservation(c: Config, run: seq<Step>)
    requires Exec(c, run).Some? && Quiet(c, Exec(c, run).value)
    ensures var s := Exec(c, run).value;
      var sent := Count(s.workers, ReachedSend);
      var received := if GotReply(s.caller) then 1 else 0;
      var blocked := Count(s.workers, IsSending);
      && s.caller.Returned?
      && blocked == (if sent > 1 + received then sent - 1 - received else 0)
      && (s.closer.Finished? <==> blocked == 0)
  {
    RunInv(c, run);
    var s := Exec(c, run).value;
    QuietWorkers(c, s);
    CountSplit(s.workers);
    CountZero(s.workers, IsSending);
    CountZero(s.workers, Live);
    assert !Enabled(c, s, WaitOver) && !Enabled(c, s, Close);
  }

  // ---------------------------------------------------------------- termination

  function WorkerRank(w: Worker): nat {
    match w
    case Unspawned => 6
    case Starting => 5
    case Exchanging => 4
    case Penalising => 3
    case Sending(_) => 3
    case Leaving(_) => 2
    case Exited(_) => 1
  }

  function Ranks(ws: seq<Worker>): nat {
    if ws == [] then 0 else WorkerRank(ws[0]) + Ranks(ws[1..])
  }

  function Rank(s: State): nat {
    Ranks(s.workers)
    + (match s.caller case Spawning(_) => 4 case Selecting => 3 case Received(_) => 2 case Leaving(_) => 1 case Returned(_) => 0)
    + (match s.closer case Absent => 2 case Waiting => 2 case Closing => 1 case Finished => 0)
  }

  lemma {:induction false} RanksUpdate(ws: seq<Worker>, i: nat, w: Worker)
    requires i < |ws|
    ensures Ranks(ws[i := w]) == Ranks(ws) - WorkerRank(ws[i]) + WorkerRank(w)
  {
    if i == 0 {
      assert ws[0 := w][1..] == ws[1..];
    } else {
      assert ws[i := w][1..] == ws[1..][i - 1 := w];
      RanksUpdate(ws[1..], i - 1, w);
    }
  }

  lemma MovedRanks(c: Config, s: State, step: Step)
    requires Inv(c, s) && Enabled(c, s, step) && Mover(s, step).Some?
    ensures Ranks(Next(c, s, step).workers) < Ranks(s.workers)
  {
    var t := Next(c, s, step);
    var i := Mover(s, step).value;
    assert !s.workers[i].Exited?;
    assert t.workers == s.workers[i := t.workers[i]];
    RanksUpdate(s.workers, i, t.workers[i]);
  }

  lemma StepRank(c: Config, s: State, step: Step)
    requires Inv(c, s) && Enabled(c, s, step)
    ensures if step.Foreign? then Rank(Next(c, s, step)) == Rank(s) else Rank(Next(c, s, step)) < Rank(s)
  {
    if Mover(s, step).Some? {
      MovedRanks(c, s, step);
    }
  }

  function OwnSteps(run: seq<Step>): nat {
    if run == [] then 0 else OwnSteps(run[..|run| - 1]) + if run[|run| - 1].Foreign? then 0 else 1
  }

  lemma {:induction false} UnspawnedRanks(ws: seq<Worker>)
    requires forall i :: 0 <= i < |ws| ==> ws[i].Unspawned?
    ensures Ranks(ws) == 6 * |ws|
  {
    if ws != [] { UnspawnedRanks(ws[1..]); }
  }

  /** Every run ends: a Lookup on n servers takes at most 6n + 6 steps of its own, whatever the schedule. */
  lemma {:induction false} LookupTerminates(c: Config, run: seq<Step>)
    requires Exec(c, run).Some?
    ensures OwnSteps(run) + Rank(Exec(c, run).value) <= 6 * |c.servers| + 6
  {
    if run == [] {
      UnspawnedRanks(Init(c).workers);
    } else {
      var before := run[..|run| - 1];
      LookupTerminates(c, before);
      RunInv(c, before);
      StepRank(c, Exec(c, before).value, run[|run| - 1]);
    }
  }

  // ---------------------------------------------------------------- leaked workers

  /** Worker i is blocked on the full channel and nobody will receive any more. */
  ghost predicate Leaked(s: State, i: nat) {
    s.caller.Returned? && s.buffer.Some? && i < |s.workers| && s.workers[i].Sending?
  }

  /** A leaked worker stays leaked, whatever else happens. */
  lemma LeakedForever(c: Config, s: State, step: Step, i: nat)
    requires Inv(c, s) && Enabled(c, s, step) && Leaked(s, i)
    ensures Leaked(Next(c, s, step), i)
  {
    assert !s.workers[i].Exited?;
  }

  lemma LeakNeedsTwo(c: Config, run: seq<Step>, i: nat)
    requires Exec(c, run).Some? && Leaked(Exec(c, run).value, i)
    ensures |c.servers| >= 2
  {
    RunInv(c, run);
    var s := Exec(c, run).value;
    CountZero(s.workers, HasDelivered);
    var j :| 0 <= j < |s.workers| && HasDelivered(s.workers[j]);
    assert i != j;
  }

  lemma ExecSnoc(c: Config, run: seq<Step>, step: Step)
    requires Exec(c, run).Some? && Enabled(c, Exec(c, run).value, step)
    ensures Exec(c, run + [step]) == Some(Next(c, Exec(c, run).value, step))
  {
    assert (run + [step])[..|run|] == run;
  }

  lemma {:induction false} SpawnAll(c: Config, k: nat) returns (run: seq<Step>)
    requires k <= |c.servers|
    ensures Exec(c, run) == Some(Init(c).(
              workers := seq(|c.servers|, i => if i < k then Starting else Unspawned), wg := k, caller := Spawning(k)))
  {
    if k == 0 {
      run := [];
      assert Init(c).workers == seq(|c.servers|, i => if i < 0 then Starting else Unspawned);
    } else {
      run := SpawnAll(c, k - 1);
      var s := Exec(c, run).value;
      ExecSnoc(c, run, Spawn);
      run := run + [Spawn];
      assert s.workers[k - 1 := Starting] == seq(|c.servers|, i => if i < k then Starting else Unspawned);
    }
  }

  /** With two or more servers some schedule leaks a worker: two usable replies arrive after the time-out. */
  lemma LeakWithTwo(c: Config, m: Message) returns (run: seq<Step>)
    requires |c.servers| >= 2 && m.rcode != RCODE_SERVFAIL
    ensures Exec(c, run).Some? && Leaked(Exec(c, run).value, 1)
  {
    run := SpawnAll(c, |c.servers|);
    var reply := Answer(Some(m), 0);
    assert Usable(reply);
    ExecSnoc(c, run, SpawnCloser);
    run := run + [SpawnCloser];
    ExecSnoc(c, run, CheckContext(0));
    run := run + [CheckContext(0)];
    ExecSnoc(c, run, CheckContext(1));
    run := run + [CheckContext(1)];
    ExecSnoc(c, run, Timeout);
    run := run + [Timeout];
    ExecSnoc(c, run, Cancel);
    run := run + [Cancel];
    ExecSnoc(c, run, Exchange(0, reply));
    run := run + [Exchange(0, reply)];
    ExecSnoc(c, run, Exchange(1, reply));
    run := run + [Exchange(1, reply)];
    ExecSnoc(c, run, Send(0));
    run := run + [Send(0)];
  }

  /** The context does not prevent leaks: a Lookup can leak a worker exactly when it asks two or more servers. */
  lemma CanLeakIffTwoServers(c: Config)
    ensures (exists run, i :: Exec(c, run).Some? && Leaked(Exec(c, run).value, i)) <==> |c.servers| >= 2
  {
    if run, i :| Exec(c, run).Some? && Leaked(Exec(c, run).value, i) {
      LeakNeedsTwo(c, run, i);
    }
    if |c.servers| >= 2 {
      var run := LeakWithTwo(c, Message(0, RCODE_NOERROR, false, [], ""));
      assert Leaked(Exec(c, run).value, 1);
    }
  }

  lemma {:induction false} CountBound(ws: seq<Worker>)
    ensures Count(ws, IsSending) + Count(ws, HasDelivered) <= |ws|
  {
    if ws != [] { CountBound(ws[1..]); }
  }

  /** Of n workers at most n - 1 are ever blocked for good, in any run. */
  lemma LeaksAtMost(c: Config, run: seq<Step>)
    requires Exec(c, run).Some? && Exec(c, run).value.caller.Returned? && Exec(c, run).value.buffer.Some?
    ensures Count(Exec(c, run).value.workers, IsSending) <= |c.servers| - 1
  {
    RunInv(c, run);
    CountBound(Exec(c, run).value.workers);
  }

  function Offer(c: Config, m: Message, i: nat): Worker
    requires i < |c.servers|
  {
    Sending(Response(m, c.servers[i], 0))
  }

  /** All workers are spawned and the first k hold a usable reply nobody has taken yet. */
  ghost predicate Offering(c: Config, m: Message, s: State, k: nat) {
    && |s.workers| == |c.servers| && s.caller.Selecting? && s.buffer.None? && !s.closed && !s.cancelled
    && (forall i :: 0 <= i < |s.workers| ==> s.workers[i] == if i < k then Offer(c, m, i) else Starting)
  }

  lemma {:induction false} OfferAll(c: Config, m: Message, k: nat) returns (run: seq<Step>)
    requires k <= |c.servers| && m.rcode != RCODE_SERVFAIL
    ensures Exec(c, run).Some? && Offering(c, m, Exec(c, run).value, k)
  {
    if k == 0 {
      run := SpawnAll(c, |c.servers|);
      ExecSnoc(c, run, SpawnCloser);
      run := run + [SpawnCloser];
    } else {
      var i: nat := k - 1;
      run := OfferAll(c, m, i);
      var s := Exec(c, run).value;
      var reply := Answer(Some(m), 0);
      ExecSnoc(c, run, CheckContext(i));
      ExecSnoc(c, run + [CheckContext(i)], Exchange(i, reply));
      run := run + [CheckContext(i)] + [Exchange(i, reply)];
      assert Exec(c, run).value.workers == s.workers[i := Exchanging][i := Offer(c, m, i)];
    }
  }

  lemma {:induction false} CountAll(ws: seq<Worker>)
    requires forall i :: 0 <= i < |ws| ==> IsSending(ws[i])
    ensures Count(ws, IsSending) == |ws|
  {
    if ws != [] { CountAll(ws[1..]); }
  }

  /** The worst case: with all replies after the time-out, n - 1 of n workers are blocked for good. */
  lemma WorstLeak(c: Config, m: Message) returns (run: seq<Step>)
    requires |c.servers| >= 1 && m.rcode != RCODE_SERVFAIL
    ensures Exec(c, run).Some? && Exec(c, run).value.caller.Returned? && Exec(c, run).value.buffer.Some?
    ensures Count(Exec(c, run).value.workers, IsSending) == |c.servers| - 1
    ensures forall i :: 1 <= i < |c.servers| ==> Leaked(Exec(c, run).value, i)
  {
    run := OfferAll(c, m, |c.servers|);
    var s := Exec(c, run).value;
    ExecSnoc(c, run, Timeout);
    ExecSnoc(c, run + [Timeout], Cancel);
    ExecSnoc(c, run + [Timeout] + [Cancel], Send(0));
    run := run + [Timeout] + [Cancel] + [Send(0)];
    CountAll(s.workers);
    var sent := Worker.Leaving(Delivered(s.workers[0].resp));
    assert Exec(c, run).value.workers == s.workers[0 := sent];
    CountUpdate(s.workers, IsSending, 0, sent);
  }

  /** Only worker i has been asked; it holds a usable reply. */
  lemma OfferOne(c: Config, i: nat, m: Message, t: nat) returns (run: seq<Step>)
    requires i < |c.servers| && m.rcode != 2
    ensures Exec(c, run).Some?
    ensures var s := Exec(c, run).value;
      && |s.workers| == |c.servers| && s.caller.Selecting? && s.buffer.None? && !s.closed
      && (forall j :: 0 <= j < |c.servers| ==> s.workers[j] == if j == i then Sending(Response(m, c.servers[i], t)) else Starting)
  {
    run := SpawnAll(c, |c.servers|);
    ExecSnoc(c, run, SpawnCloser);
    run := run + [SpawnCloser];
    ExecSnoc(c, run, CheckContext(i));
    run := run + [CheckContext(i)];
    ExecSnoc(c, run, Exchange(i, Answer(Some(m), t)));
    run := run + [Exchange(i, Answer(Some(m), t))];
  }

  /** Any usable reply can win at once, with the other workers not yet started and whatever DNSSEC validation says. */
  lemma AnyReplyCanWin(c: Config, i: nat, m: Message, t: nat, valid: bool) returns (run: seq<Step>)
    requires i < |c.servers| && m.rcode != 2
    ensures Exec(c, run).Some? && Exec(c, run).value.caller == Returned(Ok(m))
    ensures |Exec(c, run).value.workers| == |c.servers| && Finish(valid) in run
    ensures forall j :: 0 <= j < |c.servers| && j != i ==> Exec(c, run).value.workers[j].Starting?
  {
    run := OfferOne(c, i, m, t);
    ExecSnoc(c, run, Send(i));
    run := run + [Send(i)];
    ExecSnoc(c, run, Receive);
    run := run + [Receive];
    ExecSnoc(c, run, Finish(valid));
    run := run + [Finish(valid)];
    ExecSnoc(c, run, Cancel);
    run := run + [Cancel];
  }

  /** The select has no preference: the time-out can win although a usable reply lies in the channel. */
  lemma TimeoutCanWin(c: Config, i: nat, m: Message, t: nat) returns (run: seq<Step>)
    requires i < |c.servers| && m.rcode != 2
    ensures Exec(c, run).Some? && Exec(c, run).value.caller == Returned(TimedOut)
    ensures Exec(c, run).value.buffer == Some(Response(m, c.servers[i], t))
  {
    run := OfferOne(c, i, m, t);
    ExecSnoc(c, run, Send(i));
    run := run + [Send(i)];
    ExecSnoc(c, run, Timeout);
    run := run + [Timeout];
    ExecSnoc(c, run, Cancel);
    run := run + [Cancel];
  }

  // ---------------------------------------------------------------- round-trip times

  /** What a step does to the time of one server. */
  lemma RttAfterStep(c: Config, s: State, step: Step, server: string)
    requires Enabled(c, s, step) && server in s.rtts
    ensures server in Next(c, s, step).rtts
    ensures var was, now := s.rtts[server], Next(c, s, step).rtts[server];
      if step.Penalise? && c.servers[step.i] == server then now == c.timeout
      else if step.Finish? && c.loadBalance && (c.dnssec ==> step.valid) && s.caller.resp.server == server then
        now == (9 * was + s.caller.resp.rtt) / 10
      else if step.Foreign? && step.update.server == server then
        now == if step.update.Penalty? then c.timeout else (9 * was + step.update.rtt) / 10
      else now == was
  {
  }

  /** The update of the shared times a step makes: a penalty, a measured sample, or another lookup's. */
  function Effect(c: Config, s: State, step: Step): seq<RttTable.Update>
    requires Enabled(c, s, step)
  {
    match step
    case Penalise(i) => [RttTable.Penalty(c.servers[i])]
    case Finish(valid) =>
      if c.loadBalance && (!c.dnssec || valid) then [RttTable.Sample(s.caller.resp.server, s.caller.resp.rtt)] else []
    case Foreign(u) => [u]
    case _ => []
  }

  function Effects(c: Config, run: seq<Step>): seq<RttTable.Update>
    requires Exec(c, run).Some?
  {
    if run == [] then []
    else Effects(c, run[..|run| - 1]) + Effect(c, Exec(c, run[..|run| - 1]).value, run[|run| - 1])
  }

  /** A run changes the times by its updates, in order, and by nothing else. */
  lemma {:induction false} RttsFollowUpdates(c: Config, run: seq<Step>)
    requires Exec(c, run).Some?
    ensures Exec(c, run).value.rtts == RttTable.ApplyAll(c.rtts, c.timeout, Effects(c, run))
  {
    if run != [] {
      var before, step := run[..|run| - 1], run[|run| - 1];
      RttsFollowUpdates(c, before);
      var s := Exec(c, before).value;
      var us, e := Effects(c, before), Effect(c, s, step);
      if e == [] {
        assert us + e == us;
      } else {
        RttTable.ApplyAllSnoc(c.rtts, c.timeout, us, e[0]);
        assert us + e == us + [e[0]];
      }
    }
  }

  ghost predicate RttsMeasured(run: seq<Step>, bound: nat) {
    forall k :: 0 <= k < |run| ==>
      && (run[k].Exchange? && run[k].reply.Answer? ==> run[k].reply.rtt <= bound)
      && (run[k].Foreign? && run[k].update.Sample? ==> run[k].update.rtt <= bound)
  }

  /**
  Whatever this Lookup and its concurrent siblings do, the set of servers with a round-trip time is
  fixed, and while no measured time exceeds bound (at least the time-out) no entry does.
  */
  lemma {:induction false} RttsStayWithin(c: Config, run: seq<Step>, bound: nat)
    requires Exec(c, run).Some? && RttsMeasured(run, bound)
    requires c.timeout <= bound && RttTable.Within(c.rtts, bound)
    ensures RttTable.Within(Exec(c, run).value.rtts, bound)
    ensures Exec(c, run).value.rtts.Keys == c.rtts.Keys
  {
    if run != [] {
      var before, step := run[..|run| - 1], run[|run| - 1];
      RttsStayWithin(c, before, bound);
      var s := Exec(c, before).value;
      match step
      case Penalise(i) =>
        RttTable.ApplyKeeps(s.rtts, c.timeout, RttTable.Penalty(c.servers[i]), bound);
      case Foreign(u) =>
        RttTable.ApplyKeeps(s.rtts, c.timeout, u, bound);
      case Finish(_) =>
        RunHistory(c, before);
        ReceivedRttWithin(c, before, s.caller.resp, bound);
        RttTable.ApplyKeeps(s.rtts, c.timeout, RttTable.Sample(s.caller.resp.server, s.caller.resp.rtt), bound);
      case _ =>
    }
  }

  lemma ReceivedRttWithin(c: Config, run: seq<Step>, resp: Response, bound: nat)
    requires RttsMeasured(run, bound) && AnsweredBySome(c, run, resp)
    ensures resp.rtt <= bound
  {
    var i :| Answered(c, run, i, resp);
    var k :| 0 <= k < |run| && run[k] == Exchange(i, Answer(Some(resp.msg), resp.rtt));
  }
}
