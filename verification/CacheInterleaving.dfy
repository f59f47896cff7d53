/**
The memory cache under concurrency (cache.go): every critical section and every clock reading is one
step, and the steps of concurrent Get, Set and Remove calls interleave freely. Histories of what was
written and answered are part of the state.
*/
module CacheInterleaving {
  import opened Messages
  import opened MemoryCaches

  /** sets is the largest number of Set calls ever in flight at once. */
  datatype Config = Config(limits: Limits, sets: nat)

  datatype Call =
    | SetFull(key: string, msg: Option<Message>)                // about to ask Full
    | SetExists(key: string, msg: Option<Message>)              // Full said yes, about to ask Exists
    | SetClock(key: string, msg: Option<Message>)               // will write, about to read the clock
    | SetWrite(key: string, msg: Option<Message>, readAt: int)  // about to write
    | GetRead(key: string)                                      // about to read the backend
    | GetCheck(key: string, entry: Entry)                       // holds a copy, about to read the clock
    | GetRemove(key: string)                                    // copy was stale, about to Remove
    | RemoveNow(key: string)

  datatype Written = Written(key: string, msg: Option<Message>, readAt: int)
  datatype Answered = Answered(key: string, msg: Option<Message>, at: int)

  datatype State = State(
    backend: Backend,
    clock: int,
    calls: map<nat, Call>,
    written: set<Written>,
    answered: set<Answered>)

  datatype Step = Begin(id: nat, call: Call) | Move(id: nat) | Tick(d: nat)

  const INIT := State(map[], 0, map[], {}, {})

  predicate IsSet(c: Call) { c.SetFull? || c.SetExists? || c.SetClock? || c.SetWrite? }

  /** Past its checks: this call will write its key. */
  predicate Committed(c: Call) { c.SetClock? || c.SetWrite? }

  function SetCalls(calls: map<nat, Call>): set<nat> {
    set id | id in calls && IsSet(calls[id])
  }

  predicate Enabled(c: Config, s: State, step: Step) {
    match step
    case Begin(id, call) =>
      && id !in s.calls
      && (call.SetFull? || call.GetRead? || call.RemoveNow?)
      && (call.SetFull? ==> |SetCalls(s.calls)| < c.sets)
    case Move(id) => id in s.calls
    case Tick(_) => true
  }

  function Moved(c: Config, s: State, id: nat): State
    requires id in s.calls
  {
    match s.calls[id]
    case SetFull(k, m) =>
      s.(calls := s.calls[id := if Full(s.backend, c.limits) then SetExists(k, m) else SetClock(k, m)])
    case SetExists(k, m) =>
      s.(calls := if k in s.backend then s.calls[id := SetClock(k, m)] else s.calls - {id})
    case SetClock(k, m) =>
      s.(calls := s.calls[id := SetWrite(k, m, s.clock)])
    case SetWrite(k, m, t) =>
      s.(backend := s.backend[k := Entry(m, t + c.limits.expire)],
         written := s.written + {Written(k, m, t)},
         calls := s.calls - {id})
    case GetRead(k) =>
      s.(calls := if k in s.backend then s.calls[id := GetCheck(k, s.backend[k])] else s.calls - {id})
    case GetCheck(k, e) =>
      if Stale(e, s.clock) then s.(calls := s.calls[id := GetRemove(k)])
      else s.(calls := s.calls - {id}, answered := s.answered + {Answered(k, e.msg, s.clock)})
    case GetRemove(k) => s.(backend := s.backend - {k}, calls := s.calls - {id})
    case RemoveNow(k) => s.(backend := s.backend - {k}, calls := s.calls - {id})
  }

  function Next(c: Config, s: State, step: Step): State
    requires Enabled(c, s, step)
  {
    match step
    case Begin(id, call) => s.(calls := s.calls[id := call])
    case Move(id) => Moved(c, s, id)
    case Tick(d) => s.(clock := s.clock + d)
  }

  function Exec(c: Config, run: seq<Step>): Option<State> {
    if run == [] then Some(INIT)
    else
      var last := run[|run| - 1];
      match Exec(c, run[..|run| - 1])
      case None => None
      case Some(s) => if Enabled(c, s, last) then Some(Next(c, s, last)) else None
  }

  // ---------------------------------------------------------------- capacity

  function Pending(calls: map<nat, Call>): set<string> {
    set id | id in calls && Committed(calls[id]) :: calls[id].key
  }

  /** Stored keys and keys about to be stored together stay below maxcount + sets. */
  ghost predicate CapacityInv(c: Config, s: State) {
    && |SetCalls(s.calls)| <= c.sets
    && (c.limits.maxcount >= 1 ==> |s.backend.Keys + Pending(s.calls)| <= c.limits.maxcount + c.sets - 1)
    && (c.limits.maxcount < 0 ==> s.backend.Keys + Pending(s.calls) == {})
  }

  lemma {:induction false} ImageCard(ids: set<nat>, calls: map<nat, Call>)
    requires ids <= calls.Keys
    ensures |set id | id in ids :: calls[id].key| <= |ids|
    decreases |ids|
  {
    var image := set id | id in ids :: calls[id].key;
    if ids == {} {
      assert image == {};
    } else {
      var x :| x in ids;
      var rest := ids - {x};
      ImageCard(rest, calls);
      assert image == (set id | id in rest :: calls[id].key) + {calls[x].key};
    }
  }

  lemma PendingCard(calls: map<nat, Call>)
    ensures |Pending(calls)| <= |SetCalls(calls)|
  {
    var ids := set id | id in calls && Committed(calls[id]);
    ImageCard(ids, calls);
    assert Pending(calls) == set id | id in ids :: calls[id].key;
    CardSubset(ids, SetCalls(calls));
  }

  lemma SetCallsStep(c: Config, s: State, step: Step)
    requires Enabled(c, s, step) && |SetCalls(s.calls)| <= c.sets
    ensures |SetCalls(Next(c, s, step).calls)| <= c.sets
  {
    var t := Next(c, s, step);
    if step.Begin? && step.call.SetFull? {
      assert SetCalls(t.calls) == SetCalls(s.calls) + {step.id};
    } else {
      CardSubset(SetCalls(t.calls), SetCalls(s.calls));
    }
  }

  /** Passing the Full check: the one step that can enlarge the union. */
  lemma PassedFull(c: Config, s: State, id: nat)
    requires CapacityInv(c, s) && id in s.calls && s.calls[id].SetFull? && !Full(s.backend, c.limits)
    requires c.limits.maxcount >= 1
    ensures var t := Moved(c, s, id); |t.backend.Keys + Pending(t.calls)| <= c.limits.maxcount + c.sets - 1
  {
    var t := Moved(c, s, id);
    assert |SetCalls(t.calls)| <= c.sets by { SetCallsStep(c, s, Move(id)); }
    PendingCard(t.calls);
    CardUnion(t.backend.Keys, Pending(t.calls));
  }

  lemma CardUnion<T>(a: set<T>, b: set<T>)
    ensures |a + b| <= |a| + |b|
  {
    assert |a + b| == |a| + |b| - |a * b|;
  }

  predicate PassesFull(c: Config, s: State, step: Step) {
    step.Move? && step.id in s.calls && s.calls[step.id].SetFull? && !Full(s.backend, c.limits)
  }

  /** A call committed after any other step was committed before, or found its key stored. */
  lemma CommittedBefore(c: Config, s: State, step: Step, id: nat)
    requires Enabled(c, s, step) && !PassesFull(c, s, step)
    requires id in Next(c, s, step).calls && Committed(Next(c, s, step).calls[id])
    ensures Next(c, s, step).calls[id].key in s.backend.Keys + Pending(s.calls)
  {
    if step != Move(id) {
      assert id in s.calls && s.calls[id] == Next(c, s, step).calls[id];
      assert s.calls[id].key in Pending(s.calls);
    } else if s.calls[id].SetClock? {
      assert s.calls[id].key in Pending(s.calls);
    } else {
      assert s.calls[id].SetExists?;
    }
  }

  lemma UnionShrinks(c: Config, s: State, step: Step)
    requires Enabled(c, s, step) && !PassesFull(c, s, step)
    ensures var t := Next(c, s, step);
            t.backend.Keys + Pending(t.calls) <= s.backend.Keys + Pending(s.calls)
  {
    var t := Next(c, s, step);
    forall k | k in Pending(t.calls) ensures k in s.backend.Keys + Pending(s.calls) {
      var id :| id in t.calls && Committed(t.calls[id]) && t.calls[id].key == k;
      CommittedBefore(c, s, step, id);
    }
    if step.Move? && s.calls[step.id].SetWrite? {
      assert s.calls[step.id].key in Pending(s.calls);
    }
  }

  lemma CapacityStep(c: Config, s: State, step: Step)
    requires CapacityInv(c, s) && Enabled(c, s, step)
    ensures CapacityInv(c, Next(c, s, step))
  {
    var t := Next(c, s, step);
    SetCallsStep(c, s, step);
    if PassesFull(c, s, step) {
      if c.limits.maxcount >= 1 { PassedFull(c, s, step.id); }
    } else {
      UnionShrinks(c, s, step);
      CardSubset(t.backend.Keys + Pending(t.calls), s.backend.Keys + Pending(s.calls));
    }
  }

  lemma {:induction false} RunCapacity(c: Config, run: seq<Step>)
    requires Exec(c, run).Some?
    ensures CapacityInv(c, Exec(c, run).value)
  {
    if run != [] {
      RunCapacity(c, run[..|run| - 1]);
      CapacityStep(c, Exec(c, run[..|run| - 1]).value, run[|run| - 1]);
    }
  }

  /** In every interleaving with at most sets concurrent Set calls the cache holds at most maxcount + sets - 1 entries. */
  lemma CapacityUnderConcurrency(c: Config, run: seq<Step>)
    requires Exec(c, run).Some? && c.limits.maxcount >= 1
    ensures |Exec(c, run).value.backend| <= c.limits.maxcount + c.sets - 1
  {
    RunCapacity(c, run);
    var s := Exec(c, run).value;
    CardSubset(s.backend.Keys, s.backend.Keys + Pending(s.calls));
  }

  // ---------------------------------------------------------------- the bound is reached

  /** Distinct keys for the construction. */
  function Name(i: nat): (k: string)
    ensures |k| == i
  {
    seq(i, _ => 'k')
  }

  /** n keys, all shorter than n, so that Name(n) is new. */
  ghost predicate Holds(b: Backend, n: nat) {
    |b| == n && forall k :: k in b ==> |k| < n
  }

  lemma ExecSnoc(c: Config, run: seq<Step>, step: Step)
    requires Exec(c, run).Some? && Enabled(c, Exec(c, run).value, step)
    ensures Exec(c, run + [step]) == Some(Next(c, Exec(c, run).value, step))
  {
    assert (run + [step])[..|run|] == run;
  }

  /** One undisturbed Set stores its key when the cache has room. */
  lemma StoreOne(c: Config, run: seq<Step>, id: nat, k: string) returns (more: seq<Step>)
    requires Exec(c, run).Some? && Exec(c, run).value.calls == map[] && c.sets >= 1
    requires !Full(Exec(c, run).value.backend, c.limits)
    ensures Exec(c, more).Some? && Exec(c, more).value.calls == map[]
    ensures Exec(c, more).value.backend.Keys == Exec(c, run).value.backend.Keys + {k}
  {
    var s := Exec(c, run).value;
    assert SetCalls(s.calls) == {};
    ExecSnoc(c, run, Begin(id, SetFull(k, None)));
    more := run + [Begin(id, SetFull(k, None))];
    ExecSnoc(c, more, Move(id));
    more := more + [Move(id)];
    ExecSnoc(c, more, Move(id));
    more := more + [Move(id)];
    ExecSnoc(c, more, Move(id));
    more := more + [Move(id)];
    assert Exec(c, more).value.calls == map[];
  }

  lemma {:induction false} FillTo(c: Config, n: nat) returns (run: seq<Step>)
    requires c.sets >= 1 && c.limits.maxcount >= 1 && n < c.limits.maxcount
    ensures Exec(c, run).Some? && Exec(c, run).value.calls == map[]
    ensures Holds(Exec(c, run).value.backend, n)
  {
    if n == 0 {
      run := [];
    } else {
      run := FillTo(c, n - 1);
      run := StoreOne(c, run, 0, Name(n - 1));
    }
  }

  /** Calls lo..hi have all passed the Full check and are about to write distinct new keys. */
  ghost predicate Racing(calls: map<nat, Call>, base: nat, lo: nat, hi: nat) {
    && (forall id :: id in calls <==> lo <= id < hi)
    && (forall id :: id in calls ==> calls[id] == SetClock(Name(base + id), None))
  }

  lemma {:induction false} CallsBelow(calls: map<nat, Call>, n: nat)
    requires forall id :: id in calls ==> id < n
    ensures |SetCalls(calls)| <= n
    decreases n
  {
    if n == 0 {
      assert SetCalls(calls) == {};
    } else {
      CallsBelow(calls - {n - 1}, n - 1);
      CardSubset(SetCalls(calls), SetCalls(calls - {n - 1}) + {n - 1});
    }
  }

  lemma JoinState(c: Config, s: State, base: nat, id: nat)
    requires Racing(s.calls, base, 0, id) && id < c.sets && !Full(s.backend, c.limits)
    ensures var call := SetFull(Name(base + id), None);
      && Enabled(c, s, Begin(id, call))
      && var t := Next(c, s, Begin(id, call));
      && Enabled(c, t, Move(id))
      && Racing(Next(c, t, Move(id)).calls, base, 0, id + 1)
      && Next(c, t, Move(id)).backend == s.backend
  {
    CallsBelow(s.calls, id);
  }

  lemma LeaveState(c: Config, s: State, base: nat, id: nat, hi: nat)
    requires id < hi && Racing(s.calls, base, id, hi) && Holds(s.backend, base + id)
    ensures Enabled(c, s, Move(id)) && Enabled(c, Next(c, s, Move(id)), Move(id))
    ensures var u := Next(c, Next(c, s, Move(id)), Move(id));
      && Racing(u.calls, base, id + 1, hi)
      && Holds(u.backend, base + id + 1)
  {
    var k := Name(base + id);
    var t := Next(c, s, Move(id));
    ClockStep(c, s, id);
    WriteStep(c, t, id);
    HoldsMore(s.backend, k, Entry(None, s.clock + c.limits.expire));
    RacingRest(s.calls, t.calls[id], base, id, hi);
  }

  lemma ClockStep(c: Config, s: State, id: nat)
    requires id in s.calls && s.calls[id].SetClock?
    ensures var t := Next(c, s, Move(id));
      && t.calls == s.calls[id := SetWrite(s.calls[id].key, s.calls[id].msg, s.clock)]
      && t.backend == s.backend && t.clock == s.clock
  {
  }

  lemma WriteStep(c: Config, s: State, id: nat)
    requires id in s.calls && s.calls[id].SetWrite?
    ensures var t := Next(c, s, Move(id));
      && t.calls == s.calls - {id}
      && t.backend == s.backend[s.calls[id].key := Entry(s.calls[id].msg, s.calls[id].readAt + c.limits.expire)]
      && t.clock == s.clock
  {
  }

  lemma RacingRest(calls: map<nat, Call>, moved: Call, base: nat, id: nat, hi: nat)
    requires id < hi && Racing(calls, base, id, hi)
    ensures Racing(calls[id := moved] - {id}, base, id + 1, hi)
  {
  }

  lemma HoldsMore(b: Backend, k: string, e: Entry)
    requires Holds(b, |k|)
    ensures Holds(b[k := e], |k| + 1)
  {
    assert b[k := e].Keys == b.Keys + {k};
  }

  lemma ExecTwo(c: Config, run: seq<Step>, s: State, a: Step, b: Step)
    requires Exec(c, run) == Some(s) && Enabled(c, s, a) && Enabled(c, Next(c, s, a), b)
    ensures Exec(c, run + [a] + [b]) == Some(Next(c, Next(c, s, a), b))
  {
    ExecSnoc(c, run, a);
    ExecSnoc(c, run + [a], b);
  }

  /** The run stored base + lo keys, and calls lo..hi are racing to store more. */
  ghost predicate RaceAt(c: Config, run: seq<Step>, base: nat, lo: nat, hi: nat) {
    && Exec(c, run).Some?
    && Racing(Exec(c, run).value.calls, base, lo, hi)
    && Holds(Exec(c, run).value.backend, base + lo)
  }

  lemma {:induction false} RaceIn(c: Config, base: nat, n: nat) returns (run: seq<Step>)
    requires c.limits.maxcount == base + 1 && n <= c.sets && c.sets >= 1
    ensures RaceAt(c, run, base, 0, n)
  {
    if n == 0 {
      run := FillTo(c, base);
    } else {
      var id: nat := n - 1;
      run := RaceIn(c, base, id);
      var s := Exec(c, run).value;
      JoinState(c, s, base, id);
      ExecTwo(c, run, s, Begin(id, SetFull(Name(base + id), None)), Move(id));
      run := run + [Begin(id, SetFull(Name(base + id), None))] + [Move(id)];
    }
  }

  lemma {:induction false} RaceOut(c: Config, base: nat, n: nat) returns (run: seq<Step>)
    requires c.limits.maxcount == base + 1 && n <= c.sets && c.sets >= 1
    ensures RaceAt(c, run, base, n, c.sets)
  {
    if n == 0 {
      run := RaceIn(c, base, c.sets);
    } else {
      var id: nat := n - 1;
      run := RaceOut(c, base, id);
      var s := Exec(c, run).value;
      LeaveState(c, s, base, id, c.sets);
      ExecTwo(c, run, s, Move(id), Move(id));
      run := run + [Move(id)] + [Move(id)];
    }
  }

  /** Some interleaving reaches maxcount + sets - 1 entries, so check-then-act costs exactly sets - 1. */
  lemma CapacityBoundReached(c: Config) returns (run: seq<Step>)
    requires c.limits.maxcount >= 1 && c.sets >= 1
    ensures Exec(c, run).Some? && |Exec(c, run).value.backend| == c.limits.maxcount + c.sets - 1
  {
    run := RaceOut(c, c.limits.maxcount - 1, c.sets);
  }

  /** Maxcount is respected by all interleavings exactly when no two Sets ever overlap. */
  lemma MaxcountRespectedIff(c: Config)
    requires c.limits.maxcount >= 1
    ensures (forall run :: Exec(c, run).Some? ==> |Exec(c, run).value.backend| <= c.limits.maxcount) <==> c.sets <= 1
  {
    if c.sets <= 1 {
      forall run | Exec(c, run).Some? ensures |Exec(c, run).value.backend| <= c.limits.maxcount {
        CapacityUnderConcurrency(c, run);
      }
    } else {
      var run := CapacityBoundReached(c);
      assert Exec(c, run).Some? && |Exec(c, run).value.backend| > c.limits.maxcount;
    }
  }

  // ---------------------------------------------------------------- soundness of answers

  ghost predicate Backed(c: Config, s: State, k: string, e: Entry) {
    Written(k, e.msg, e.expire - c.limits.expire) in s.written
  }

  ghost predicate SoundAnswer(c: Config, s: State, a: Answered) {
    exists w :: w in s.written && w.key == a.key && w.msg == a.msg && w.readAt <= a.at <= w.readAt + c.limits.expire
  }

  ghost predicate SoundInv(c: Config, s: State) {
    && (forall k :: k in s.backend ==> Backed(c, s, k, s.backend[k]))
    && (forall id :: id in s.calls && s.calls[id].GetCheck? ==> Backed(c, s, s.calls[id].key, s.calls[id].entry))
    && (forall id :: id in s.calls && s.calls[id].SetWrite? ==> s.calls[id].readAt <= s.clock)
    && (forall w :: w in s.written ==> w.readAt <= s.clock)
    && (forall a :: a in s.answered ==> SoundAnswer(c, s, a))
  }

  lemma SoundStoreStep(c: Config, s: State, step: Step)
    requires SoundInv(c, s) && Enabled(c, s, step)
    ensures var t := Next(c, s, step);
      && (forall k :: k in t.backend ==> Backed(c, t, k, t.backend[k]))
      && (forall w :: w in t.written ==> w.readAt <= t.clock)
  {
  }

  lemma SoundCallsStep(c: Config, s: State, step: Step)
    requires SoundInv(c, s) && Enabled(c, s, step)
    ensures var t := Next(c, s, step);
      && (forall id :: id in t.calls && t.calls[id].GetCheck? ==> Backed(c, t, t.calls[id].key, t.calls[id].entry))
      && (forall id :: id in t.calls && t.calls[id].SetWrite? ==> t.calls[id].readAt <= t.clock)
  {
  }

  lemma SoundAnswersStep(c: Config, s: State, step: Step)
    requires SoundInv(c, s) && Enabled(c, s, step)
    ensures var t := Next(c, s, step); forall a :: a in t.answered ==> SoundAnswer(c, t, a)
  {
    var t := Next(c, s, step);
    forall a | a in t.answered ensures SoundAnswer(c, t, a) {
      if a in s.answered {
        var w :| w in s.written && w.key == a.key && w.msg == a.msg && w.readAt <= a.at <= w.readAt + c.limits.expire;
        assert w in t.written;
      } else {
        var e := s.calls[step.id].entry;
        assert Backed(c, s, a.key, e);
        assert Written(a.key, e.msg, e.expire - c.limits.expire) in t.written;
      }
    }
  }

  lemma SoundStep(c: Config, s: State, step: Step)
    requires SoundInv(c, s) && Enabled(c, s, step)
    ensures SoundInv(c, Next(c, s, step))
  {
    SoundStoreStep(c, s, step);
    SoundCallsStep(c, s, step);
    SoundAnswersStep(c, s, step);
  }

  lemma {:induction false} RunSound(c: Config, run: seq<Step>)
    requires Exec(c, run).Some?
    ensures SoundInv(c, Exec(c, run).value)
  {
    if run != [] {
      RunSound(c, run[..|run| - 1]);
      SoundStep(c, Exec(c, run[..|run| - 1]).value, run[|run| - 1]);
    }
  }

  /** Some caller of this run asked to store m under k. */
  ghost predicate Begun(run: seq<Step>, k: string, m: Option<Message>) {
    exists i :: 0 <= i < |run| && run[i].Begin? && run[i].call == SetFull(k, m)
  }

  ghost predicate Traced(run: seq<Step>, s: State) {
    && (forall id :: id in s.calls && IsSet(s.calls[id]) ==> Begun(run, s.calls[id].key, s.calls[id].msg))
    && (forall w :: w in s.written ==> Begun(run, w.key, w.msg))
  }

  lemma BegunExtends(run: seq<Step>, step: Step, k: string, m: Option<Message>)
    requires Begun(run, k, m)
    ensures Begun(run + [step], k, m)
  {
    var i :| 0 <= i < |run| && run[i].Begin? && run[i].call == SetFull(k, m);
    assert (run + [step])[i] == run[i];
  }

  lemma TracedStep(c: Config, run: seq<Step>, s: State, step: Step)
    requires Traced(run, s) && Enabled(c, s, step)
    ensures Traced(run + [step], Next(c, s, step))
  {
    var t := Next(c, s, step);
    forall id | id in t.calls && IsSet(t.calls[id]) ensures Begun(run + [step], t.calls[id].key, t.calls[id].msg) {
      if step.Begin? && step.id == id {
        assert (run + [step])[|run|] == step;
      } else {
        assert id in s.calls && IsSet(s.calls[id]);
        BegunExtends(run, step, s.calls[id].key, s.calls[id].msg);
      }
    }
    forall w | w in t.written ensures Begun(run + [step], w.key, w.msg) {
      if w !in s.written { assert IsSet(s.calls[step.id]); }
      BegunExtends(run, step, w.key, w.msg);
    }
  }

  lemma {:induction false} RunTraced(c: Config, run: seq<Step>)
    requires Exec(c, run).Some?
    ensures Traced(run, Exec(c, run).value)
  {
    if run != [] {
      var before, step := run[..|run| - 1], run[|run| - 1];
      RunTraced(c, before);
      TracedStep(c, before, Exec(c, before).value, step);
      assert run == before + [step];
    }
  }

  /**
  In every interleaving, whatever Get answers at time t was written under that key by a Set whose
  clock reading t0 satisfies t0 <= t <= t0 + expire, and some caller asked for just that Set.
  */
  lemma AnswersAreSound(c: Config, run: seq<Step>, a: Answered)
    requires Exec(c, run).Some? && a in Exec(c, run).value.answered
    ensures SoundAnswer(c, Exec(c, run).value, a) && Begun(run, a.key, a.msg)
  {
    RunSound(c, run);
    RunTraced(c, run);
  }

  /**
  A Get that found a stale copy may remove the fresh entry a Set stored in between, so a key written
  just now, never removed by a caller, can be absent. EntryLostIff says exactly when this can happen.
  */
  lemma LateExpiryDropsFreshEntry(c: Config, k: string) returns (run: seq<Step>)
    requires c.limits.maxcount >= 0 && c.sets >= 1
    ensures Exec(c, run).Some?
    ensures var s := Exec(c, run).value;
            k !in s.backend && Written(k, None, s.clock) in s.written && s.calls == map[]
    ensures NoRemove(run)
  {
    run := SetFromIdle(c, [], k);
    run := FoundStale(c, run, k);
    run := SetMeanwhile(c, run, k);
    ExecSnoc(c, run, Move(0));
    run := run + [Move(0)];
  }

  ghost predicate NoRemove(run: seq<Step>) {
    forall i :: 0 <= i < |run| && run[i].Begin? ==> !run[i].call.RemoveNow?
  }

  lemma SetFromIdle(c: Config, run: seq<Step>, k: string) returns (more: seq<Step>)
    requires Exec(c, run) == Some(INIT) && NoRemove(run) && c.limits.maxcount >= 0 && c.sets >= 1
    ensures Exec(c, more).Some? && NoRemove(more)
    ensures var s := Exec(c, more).value;
            s.backend == map[k := Entry(None, c.limits.expire)] && s.clock == 0 && s.calls == map[]
  {
    var call := SetFull(k, None);
    assert SetCalls(INIT.calls) == {};
    ExecSnoc(c, run, Begin(0, call));
    var s := INIT.(calls := map[0 := call]);
    assert Exec(c, run + [Begin(0, call)]) == Some(s);
    UndisturbedSet(c, s, 0);
    more := Moves(c, run + [Begin(0, call)], 0, 3);
  }

  lemma FoundStale(c: Config, run: seq<Step>, k: string) returns (more: seq<Step>)
    requires Exec(c, run).Some? && NoRemove(run)
    requires var s := Exec(c, run).value;
             s.backend == map[k := Entry(None, c.limits.expire)] && s.clock == 0 && s.calls == map[]
    ensures Exec(c, more).Some? && NoRemove(more)
    ensures var s := Exec(c, more).value;
            s.backend == map[k := Entry(None, c.limits.expire)] && s.calls == map[0 := GetRemove(k)]
  {
    var s := Exec(c, run).value;
    var tick := Tick(c.limits.expire + 1);
    ExecSnoc(c, run, tick);
    ExecSnoc(c, run + [tick], Begin(0, GetRead(k)));
    var t := s.(clock := c.limits.expire + 1, calls := map[0 := GetRead(k)]);
    more := run + [tick] + [Begin(0, GetRead(k))];
    assert Exec(c, more) == Some(t);
    ExecSnoc(c, more, Move(0));
    ExecSnoc(c, more + [Move(0)], Move(0));
    more := more + [Move(0)] + [Move(0)];
  }

  lemma SetMeanwhile(c: Config, run: seq<Step>, k: string) returns (more: seq<Step>)
    requires Exec(c, run).Some? && NoRemove(run) && c.sets >= 1
    requires var s := Exec(c, run).value; k in s.backend && s.calls == map[0 := GetRemove(k)]
    ensures Exec(c, more).Some? && NoRemove(more)
    ensures var s := Exec(c, more).value;
            s.calls == map[0 := GetRemove(k)] && Written(k, None, s.clock) in s.written
  {
    var s := Exec(c, run).value;
    var call := SetFull(k, None);
    assert SetCalls(s.calls) == {};
    ExecSnoc(c, run, Begin(1, call));
    more := run + [Begin(1, call)];
    var t := s.(calls := s.calls[1 := call]);
    assert Exec(c, more) == Some(t);
    UndisturbedSet(c, t, 1);
    assert t.calls - {1} == s.calls;
    more := Moves(c, more, 1, if Full(t.backend, c.limits) then 4 else 3);
  }

  /** n consecutive steps of one call. */
  function Advanced(c: Config, s: State, id: nat, n: nat): Option<State>
    decreases n
  {
    if n == 0 then Some(s)
    else if id !in s.calls then None
    else Advanced(c, Moved(c, s, id), id, n - 1)
  }

  lemma {:induction false} Moves(c: Config, run: seq<Step>, id: nat, n: nat) returns (more: seq<Step>)
    requires Exec(c, run).Some? && Advanced(c, Exec(c, run).value, id, n).Some?
    ensures Exec(c, more) == Advanced(c, Exec(c, run).value, id, n)
    ensures run <= more && forall i :: |run| <= i < |more| ==> !more[i].Begin?
    decreases n
  {
    if n == 0 {
      more := run;
    } else {
      ExecSnoc(c, run, Move(id));
      more := Moves(c, run + [Move(id)], id, n - 1);
    }
  }

  // ---------------------------------------------------------------- undisturbed calls

  /** A Set whose steps are not interleaved with others does what the sequential Set does. */
  lemma UndisturbedSet(c: Config, s: State, id: nat)
    requires id in s.calls && s.calls[id].SetFull?
    ensures var call := s.calls[id];
      var n := if !Full(s.backend, c.limits) then 3 else if call.key in s.backend then 4 else 2;
      && Advanced(c, s, id, n).Some?
      && Advanced(c, s, id, n).value.backend == AfterSet(s.backend, c.limits, call.key, call.msg, s.clock)
      && Advanced(c, s, id, n).value.calls == s.calls - {id}
      && Advanced(c, s, id, n).value.clock == s.clock
      && (n > 2 ==> Written(call.key, call.msg, s.clock) in Advanced(c, s, id, n).value.written)
  {
    var s1 := Moved(c, s, id);
    var s2 := Moved(c, s1, id);
    if Full(s.backend, c.limits) {
      if s.calls[id].key in s.backend {
        var s3 := Moved(c, s2, id);
        assert Advanced(c, s, id, 4) == Advanced(c, s3, id, 1) == Some(Moved(c, s3, id));
      } else {
        assert Advanced(c, s, id, 2) == Advanced(c, s1, id, 1) == Some(s2);
      }
    } else {
      assert Advanced(c, s, id, 3) == Advanced(c, s2, id, 1) == Some(Moved(c, s2, id));
    }
  }

  /** A Get whose steps are not interleaved with others does what the sequential Get does. */
  lemma UndisturbedGet(c: Config, s: State, id: nat)
    requires id in s.calls && s.calls[id].GetRead?
    ensures var k := s.calls[id].key;
      var g := Got(s.backend, k, s.clock);
      var n := match g case NotFound => 1 case Hit(_) => 2 case Expired => 3;
      && Advanced(c, s, id, n).Some?
      && Advanced(c, s, id, n).value.backend == AfterGet(s.backend, k, s.clock)
      && Advanced(c, s, id, n).value.calls == s.calls - {id}
      && Advanced(c, s, id, n).value.answered ==
           s.answered + (if g.Hit? then {Answered(k, g.msg, s.clock)} else {})
  {
    var k := s.calls[id].key;
    var s1 := Moved(c, s, id);
    if k in s.backend {
      var s2 := Moved(c, s1, id);
      if Stale(s.backend[k], s.clock) {
        assert Advanced(c, s, id, 3) == Advanced(c, s2, id, 1) == Some(Moved(c, s2, id));
      } else {
        assert Advanced(c, s, id, 2) == Advanced(c, s1, id, 1) == Some(s2);
      }
    }
  }

  // ---------------------------------------------------------------- how long an entry stays

  /** A call in flight on k that can undo an entry of k that lasts until the given time. */
  predicate Threat(c: Config, call: Call, k: string, until: int) {
    call.key == k &&
    match call
    case RemoveNow(_) => true
    case GetRemove(_) => true
    case GetCheck(_, e) => e.expire < until
    case SetWrite(_, _, t) => t + c.limits.expire < until
    case _ => false
  }

  ghost predicate Threatened(c: Config, s: State, k: string, until: int) {
    exists id :: id in s.calls && Threat(c, s.calls[id], k, until)
  }

  /** k is stored and lasts at least until the given time. */
  ghost predicate Kept(s: State, k: string, until: int) {
    k in s.backend && until <= s.backend[k].expire
  }

  ghost predicate Guarded(c: Config, s: State, k: string, until: int) {
    Kept(s, k, until) && until <= s.clock + c.limits.expire && !Threatened(c, s, k, until)
  }

  predicate NewRemove(step: Step, k: string) {
    step.Begin? && step.call == RemoveNow(k)
  }

  ghost predicate NoNewRemove(steps: seq<Step>, k: string) {
    forall i :: 0 <= i < |steps| ==> !NewRemove(steps[i], k)
  }

  lemma GuardedMove(c: Config, s: State, id: nat, k: string, until: int)
    requires Guarded(c, s, k, until) && id in s.calls && s.clock <= until
    ensures Kept(Moved(c, s, id), k, until)
    ensures id in Moved(c, s, id).calls ==> !Threat(c, Moved(c, s, id).calls[id], k, until)
  {
    assert !Threat(c, s.calls[id], k, until);
  }

  lemma GuardedStep(c: Config, s: State, step: Step, k: string, until: int)
    requires Guarded(c, s, k, until) && Enabled(c, s, step) && !NewRemove(step, k)
    requires Next(c, s, step).clock <= until
    ensures Guarded(c, Next(c, s, step), k, until)
  {
    var t := Next(c, s, step);
    if step.Move? { GuardedMove(c, s, step.id, k, until); }
    forall id | id in t.calls ensures !Threat(c, t.calls[id], k, until) {
      if id in s.calls && t.calls[id] == s.calls[id] {
        assert !Threat(c, s.calls[id], k, until);
      }
    }
  }

  lemma ClockMonotone(c: Config, s: State, step: Step)
    requires Enabled(c, s, step)
    ensures s.clock <= Next(c, s, step).clock
  {
  }

  /** An entry no call in flight threatens stays, whatever runs, until it expires or a Remove of k begins. */
  lemma {:induction false} GuardedStays(c: Config, run: seq<Step>, more: seq<Step>, k: string, until: int)
    requires Exec(c, run).Some? && Guarded(c, Exec(c, run).value, k, until)
    requires Exec(c, run + more).Some? && NoNewRemove(more, k) && Exec(c, run + more).value.clock <= until
    ensures Guarded(c, Exec(c, run + more).value, k, until)
  {
    if more == [] {
      assert run + more == run;
    } else {
      var before, step := more[..|more| - 1], more[|more| - 1];
      assert (run + more)[..|run + more| - 1] == run + before;
      assert (run + more)[|run + more| - 1] == step;
      var s := Exec(c, run + before).value;
      ClockMonotone(c, s, step);
      GuardedStays(c, run, before, k, until);
      GuardedStep(c, s, step, k, until);
    }
  }

  /** After the further steps, none of them a new Remove of k, the entry is gone or shortened before its time. */
  ghost predicate Loses(c: Config, run: seq<Step>, more: seq<Step>, k: string, until: int) {
    && Exec(c, run + more).Some? && NoNewRemove(more, k)
    && Exec(c, run + more).value.clock <= until
    && !Kept(Exec(c, run + more).value, k, until)
  }

  lemma LoseByMove(c: Config, run: seq<Step>, k: string, until: int, id: nat) returns (more: seq<Step>)
    requires Exec(c, run).Some?
    requires var s := Exec(c, run).value;
      s.clock <= until && id in s.calls && Threat(c, s.calls[id], k, until) && !s.calls[id].GetCheck?
    ensures Loses(c, run, more, k, until)
  {
    ExecSnoc(c, run, Move(id));
    more := [Move(id)];
  }

  lemma LoseByStaleCopy(c: Config, run: seq<Step>, k: string, until: int, id: nat) returns (more: seq<Step>)
    requires Exec(c, run).Some?
    requires var s := Exec(c, run).value;
      s.clock <= until && id in s.calls && Threat(c, s.calls[id], k, until) && s.calls[id].GetCheck?
    ensures Loses(c, run, more, k, until)
  {
    var s := Exec(c, run).value;
    var e := s.calls[id].entry;
    var tick := Tick(if s.clock <= e.expire then e.expire + 1 - s.clock else 0);
    ExecSnoc(c, run, tick);
    var t := s.(clock := s.clock + tick.d);
    assert Exec(c, run + [tick]) == Some(t);
    ExecSnoc(c, run + [tick], Move(id));
    var u := t.(calls := t.calls[id := GetRemove(k)]);
    assert Exec(c, run + [tick] + [Move(id)]) == Some(u);
    ExecSnoc(c, run + [tick] + [Move(id)], Move(id));
    more := [tick, Move(id), Move(id)];
    assert run + more == run + [tick] + [Move(id)] + [Move(id)];
  }

  /**
  Exactly when a stored, unexpired entry can be lost before its time without a Remove of k beginning:
  when a call in flight on k is a removal, holds an older copy, or is about to write an older reading.
  */
  lemma EntryLostIff(c: Config, run: seq<Step>, k: string)
    requires Exec(c, run).Some? && k in Exec(c, run).value.backend
    requires Exec(c, run).value.clock <= Exec(c, run).value.backend[k].expire
    ensures var until := Exec(c, run).value.backend[k].expire;
      (exists more :: Loses(c, run, more, k, until)) <==> Threatened(c, Exec(c, run).value, k, until)
  {
    var s := Exec(c, run).value;
    var until := s.backend[k].expire;
    RunSound(c, run);
    assert Backed(c, s, k, s.backend[k]);
    if id :| id in s.calls && Threat(c, s.calls[id], k, until) {
      var more;
      if s.calls[id].GetCheck? {
        more := LoseByStaleCopy(c, run, k, until, id);
      } else {
        more := LoseByMove(c, run, k, until, id);
      }
      assert Loses(c, run, more, k, until);
    } else {
      assert Guarded(c, s, k, until);
      forall more ensures !Loses(c, run, more, k, until) {
        if Exec(c, run + more).Some? && NoNewRemove(more, k) && Exec(c, run + more).value.clock <= until {
          GuardedStays(c, run, more, k, until);
        }
      }
    }
  }

  /** Alone on its key: no other Get, Set or Remove of that key is in flight. */
  ghost predicate Alone(s: State, id: nat) {
    id in s.calls && forall j :: j in s.calls && j != id ==> s.calls[j].key != s.calls[id].key
  }

  /**
  A Set that writes with no other call on its key in flight is answered until it expires: in every
  later state up to then, as long as no Remove of the key begins, the key is stored and unexpired, a
  Get about to read finds it and a Get that has read it answers with what it read.
  */
  lemma LoneSetIsAnswered(c: Config, run: seq<Step>, id: nat, more: seq<Step>)
    requires Exec(c, run).Some? && Alone(Exec(c, run).value, id) && Exec(c, run).value.calls[id].SetWrite?
    requires Exec(c, run + [Move(id)] + more).Some?
    requires NoNewRemove(more, Exec(c, run).value.calls[id].key)
    requires Exec(c, run + [Move(id)] + more).value.clock <= Exec(c, run).value.calls[id].readAt + c.limits.expire
    ensures var k := Exec(c, run).value.calls[id].key;
      var t := Exec(c, run + [Move(id)] + more).value;
      && Got(t.backend, k, t.clock).Hit?
      && (forall j :: j in t.calls && t.calls[j].key == k && t.calls[j].GetCheck? ==>
            Moved(c, t, j).answered == t.answered + {Answered(k, t.calls[j].entry.msg, t.clock)})
      && (forall j :: j in t.calls && t.calls[j].key == k ==> !t.calls[j].GetRemove? && !t.calls[j].RemoveNow?)
  {
    var s := Exec(c, run).value;
    var k, until := s.calls[id].key, s.calls[id].readAt + c.limits.expire;
    RunSound(c, run);
    WriteStep(c, s, id);
    ExecSnoc(c, run, Move(id));
    assert Guarded(c, Next(c, s, Move(id)), k, until);
    GuardedStays(c, run + [Move(id)], more, k, until);
    var t := Exec(c, run + [Move(id)] + more).value;
    forall j | j in t.calls && t.calls[j].key == k
      ensures !t.calls[j].GetRemove? && !t.calls[j].RemoveNow?
      ensures t.calls[j].GetCheck? ==>
                Moved(c, t, j).answered == t.answered + {Answered(k, t.calls[j].entry.msg, t.clock)}
    {
      assert !Threat(c, t.calls[j], k, until);
    }
  }
}
