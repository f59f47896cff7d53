/**
Round-trip times of the upstream servers (resolver.go). Durations are whole nanoseconds and the
moving average is taken exactly, rounding down, instead of in float64.
*/
module RttTable {
  type Table = map<string, nat>

  datatype Update = Penalty(server: string) | Sample(server: string, rtt: nat)

  function Average(prev: nat, sample: nat): nat {
    (9 * prev + sample) / 10
  }

  /** One write under serversMutex: the time-out after a failed exchange, else the moving average. */
  function Apply(t: Table, timeout: nat, u: Update): Table {
    if u.server !in t then t
    else match u
      case Penalty(s) => t[s := timeout]
      case Sample(s, d) => t[s := Average(t[s], d)]
  }

  function ApplyAll(t: Table, timeout: nat, us: seq<Update>): Table {
    if us == [] then t else ApplyAll(Apply(t, timeout, us[0]), timeout, us[1..])
  }

  ghost predicate Within(t: Table, bound: nat) {
    forall s :: s in t ==> t[s] <= bound
  }

  ghost predicate SamplesWithin(us: seq<Update>, bound: nat) {
    forall i :: 0 <= i < |us| && us[i].Sample? ==> us[i].rtt <= bound
  }

  /** Nine parts old value, one part sample, rounded down; hence between the two. */
  lemma AverageBetween(prev: nat, sample: nat)
    ensures 10 * Average(prev, sample) <= 9 * prev + sample < 10 * Average(prev, sample) + 10
    ensures prev <= sample ==> prev <= Average(prev, sample) <= sample
    ensures sample <= prev ==> sample <= Average(prev, sample) <= prev
    ensures sample < prev ==> Average(prev, sample) < prev
    ensures Average(prev, sample) == prev <==> 0 <= sample - prev <= 9
  {
  }

  lemma ApplyKeeps(t: Table, timeout: nat, u: Update, bound: nat)
    requires Within(t, bound) && timeout <= bound && (u.Sample? ==> u.rtt <= bound)
    ensures Within(Apply(t, timeout, u), bound) && Apply(t, timeout, u).Keys == t.Keys
  {
    if u.Sample? && u.server in t { AverageBetween(t[u.server], u.rtt); }
  }

  /** Over every run of penalties and samples the servers stay the same and no time leaves [0, bound]. */
  lemma {:induction false} RunKeeps(t: Table, timeout: nat, us: seq<Update>, bound: nat)
    requires Within(t, bound) && timeout <= bound && SamplesWithin(us, bound)
    ensures Within(ApplyAll(t, timeout, us), bound) && ApplyAll(t, timeout, us).Keys == t.Keys
  {
    if us != [] {
      assert us[0].Sample? ==> us[0].rtt <= bound;
      ApplyKeeps(t, timeout, us[0], bound);
      RunKeeps(Apply(t, timeout, us[0]), timeout, us[1..], bound);
    }
  }

  function Iterated(prev: nat, sample: nat, n: nat): nat
    decreases n
  {
    if n == 0 then prev else Iterated(Average(prev, sample), sample, n - 1)
  }

  /** Where a constant sample drives the average: to the sample from above, nine below it from below. */
  function Limit(prev: nat, sample: nat): nat {
    if sample <= prev then sample else if sample - prev <= 9 then prev else sample - 9
  }

  lemma AverageKeepsLimit(prev: nat, sample: nat)
    ensures Limit(Average(prev, sample), sample) == Limit(prev, sample)
    ensures Average(prev, sample) != prev ==>
              if sample < prev then Limit(prev, sample) <= Average(prev, sample) < prev
              else prev < Average(prev, sample) <= Limit(prev, sample)
  {
  }

  /** The average never passes its limit and arrives after at most |prev - limit| equal samples. */
  lemma {:induction false} ConstantSampleConverges(prev: nat, sample: nat, n: nat)
    ensures sample <= prev ==> Limit(prev, sample) <= Iterated(prev, sample, n) <= prev
    ensures prev <= sample ==> prev <= Iterated(prev, sample, n) <= Limit(prev, sample)
    ensures n + Limit(prev, sample) >= prev && n + prev >= Limit(prev, sample) ==>
              Iterated(prev, sample, n) == Limit(prev, sample)
    decreases n
  {
    AverageKeepsLimit(prev, sample);
    AverageBetween(prev, sample);
    if n > 0 {
      ConstantSampleConverges(Average(prev, sample), sample, n - 1);
    }
  }

  function Pow(b: nat, n: nat): nat {
    if n == 0 then 1 else b * Pow(b, n - 1)
  }

  function Distance(a: nat, b: nat): nat {
    if a <= b then b - a else a - b
  }

  lemma AverageApproaches(prev: nat, sample: nat)
    ensures 10 * Distance(Average(prev, sample), Limit(prev, sample)) <= 9 * Distance(prev, Limit(prev, sample))
  {
  }

  /** The distance to the limit shrinks by at least a tenth with every equal sample. */
  lemma {:induction false} ConvergesGeometrically(prev: nat, sample: nat, n: nat)
    ensures Pow(10, n) * Distance(Iterated(prev, sample, n), Limit(prev, sample)) <= Pow(9, n) * Distance(prev, Limit(prev, sample))
    decreases n
  {
    if n > 0 {
      var next, l := Average(prev, sample), Limit(prev, sample);
      AverageApproaches(prev, sample);
      AverageKeepsLimit(prev, sample);
      ConvergesGeometrically(next, sample, n - 1);
      OneMoreTenth(Pow(10, n - 1), Pow(9, n - 1), Distance(Iterated(next, sample, n - 1), l), Distance(next, l), Distance(prev, l));
    }
  }

  lemma OneMoreTenth(p: nat, q: nat, x: nat, next: nat, prev: nat)
    requires p * x <= q * next && 10 * next <= 9 * prev
    ensures 10 * p * x <= 9 * q * prev
  {
    assert q * (10 * next) <= q * (9 * prev);
  }

  lemma {:induction false} ApplyAllSnoc(t: Table, timeout: nat, us: seq<Update>, u: Update)
    ensures ApplyAll(t, timeout, us + [u]) == Apply(ApplyAll(t, timeout, us), timeout, u)
  {
    if us == [] {
      assert us + [u] == [u];
    } else {
      assert (us + [u])[1..] == us[1..] + [u];
      ApplyAllSnoc(Apply(t, timeout, us[0]), timeout, us[1..], u);
    }
  }

  /** Updates of other servers leave a server's time alone, so only its own updates matter. */
  function Own(us: seq<Update>, s: string): seq<Update> {
    if us == [] then []
    else (if us[0].server == s then [us[0]] else []) + Own(us[1..], s)
  }

  lemma {:induction false} OnlyOwnUpdatesMatter(t: Table, timeout: nat, us: seq<Update>, s: string)
    requires s in t
    ensures s in ApplyAll(t, timeout, us) && s in ApplyAll(t, timeout, Own(us, s))
    ensures ApplyAll(t, timeout, us)[s] == ApplyAll(t, timeout, Own(us, s))[s]
  {
    if us != [] {
      var t' := Apply(t, timeout, us[0]);
      OnlyOwnUpdatesMatter(t', timeout, us[1..], s);
      if us[0].server == s {
        assert Own(us, s)[1..] == Own(us[1..], s);
      } else {
        SameStart(t, t', timeout, Own(us[1..], s), s);
        assert Own(us, s) == Own(us[1..], s);
      }
    }
  }

  lemma {:induction false} SameStart(t: Table, t': Table, timeout: nat, us: seq<Update>, s: string)
    requires s in t && s in t' && t[s] == t'[s]
    ensures s in ApplyAll(t, timeout, us) && s in ApplyAll(t', timeout, us)
    ensures ApplyAll(t, timeout, us)[s] == ApplyAll(t', timeout, us)[s]
  {
    if us != [] {
      SameStart(Apply(t, timeout, us[0]), Apply(t', timeout, us[0]), timeout, us[1..], s);
    }
  }

  lemma {:induction false} ApplyAllConcat(t: Table, timeout: nat, a: seq<Update>, b: seq<Update>)
    ensures ApplyAll(t, timeout, a + b) == ApplyAll(ApplyAll(t, timeout, a), timeout, b)
  {
    if a == [] {
      assert a + b == b;
    } else {
      assert (a + b)[1..] == a[1..] + b;
      ApplyAllConcat(Apply(t, timeout, a[0]), timeout, a[1..], b);
    }
  }

  /** After a failed exchange a server's time is the time-out until its own next update, whatever other servers do. */
  lemma PenaltyHolds(t: Table, timeout: nat, before: seq<Update>, s: string, after: seq<Update>)
    requires s in t && forall i :: 0 <= i < |after| ==> after[i].server != s
    ensures s in ApplyAll(t, timeout, before + [Penalty(s)] + after)
    ensures ApplyAll(t, timeout, before + [Penalty(s)] + after)[s] == timeout
  {
    ApplyAllConcat(t, timeout, before + [Penalty(s)], after);
    ApplyAllSnoc(t, timeout, before, Penalty(s));
    OnlyOwnUpdatesMatter(t, timeout, before, s);
    OnlyOwnUpdatesMatter(ApplyAll(t, timeout, before + [Penalty(s)]), timeout, after, s);
    NoneOwn(after, s);
  }

  lemma {:induction false} NoneOwn(us: seq<Update>, s: string)
    requires forall i :: 0 <= i < |us| ==> us[i].server != s
    ensures Own(us, s) == []
  {
    if us != [] { NoneOwn(us[1..], s); }
  }
}
