/**
The request handler (handler.go) over memory caches. What the environment contributes to a request
(blocklist verdict, host addresses, upstream result, clock readings) arrives with the request, so a
run is any sequence of requests with any environment.
*/
module Handlers {
  import opened Messages
  import opened MemoryCaches
  import opened DomainNames
  import H = Hosts

  const TYPE_A: nat := 1
  const TYPE_CNAME: nat := 5
  const TYPE_MX: nat := 15
  const TYPE_AAAA: nat := 28

  datatype RawQuestion = RawQuestion(name: string, qtype: nat, qclass: nat)
  datatype Query = Query(id: nat, questions: seq<RawQuestion>)

  datatype Question = Question(qname: string, qtype: string, qclass: string)

  /** hash stands for the MD5 of KeyGen; expire and maxcount are the cache settings. */
  datatype Config = Config(hash: string -> string, classText: nat -> string,
                           hostsEnabled: bool, ttl: nat, expire: nat, maxcount: int)

  /** A request with what its environment does: hostIps is the result of Hosts.Get, [] for no match. */
  datatype Arrival = Arrival(query: Query, blocked: bool, hostIps: seq<IP>, upstream: Option<Message>,
                             getAt: int, negGetAt: int, setAt: int)

  datatype Source = Refused | Blocked | FromHosts | CacheHit | NegativeHit | UpstreamFailed | Upstream | Crashed

  datatype Outcome = Outcome(source: Source, msg: Message)

  datatype Caches = Caches(pos: Backend, neg: Backend)

  predicate Asked(o: Outcome) {
    o.source.UpstreamFailed? || o.source.Upstream?
  }

  // ---------------------------------------------------------------- questions and keys

  function Text(q: Question): string {
    q.qname + " " + q.qclass + " " + q.qtype
  }

  function TypeText(t: nat): string {
    if t == TYPE_A then "A" else if t == TYPE_AAAA then "AAAA" else if t == TYPE_MX then "MX" else "CNAME"
  }

  predicate Handled(q: Query) {
    q.questions != [] &&
    var t := q.questions[0].qtype; t == TYPE_A || t == TYPE_AAAA || t == TYPE_MX || t == TYPE_CNAME
  }

  function QuestionOf(c: Config, q: Query): Question
    requires Handled(q)
  {
    var r := q.questions[0];
    Question(UnFqdn(r.name), TypeText(r.qtype), c.classText(r.qclass))
  }

  function KeyOf(c: Config, q: Query): string
    requires Handled(q)
  {
    c.hash(Text(QuestionOf(c, q)))
  }

  lemma LastField(x: string, t: string, y: string, u: string)
    requires ' ' !in t && ' ' !in u && x + " " + t == y + " " + u
    ensures x == y && t == u
  {
    var s := x + " " + t;
    assert s[|x|] == ' ' && s[|y|] == ' ';
    assert forall i :: |x| < i < |s| ==> s[i] == t[i - |x| - 1];
    assert forall i :: |y| < i < |s| ==> s[i] == u[i - |y| - 1];
    assert |x| == |y|;
    assert x == s[..|x|] && y == s[..|y|] && t == s[|x| + 1..] && u == s[|y| + 1..];
  }

  /** Question.String tells questions apart when class and type contain no space, whatever the names. */
  lemma TextInjective(a: Question, b: Question)
    requires ' ' !in a.qclass && ' ' !in a.qtype && ' ' !in b.qclass && ' ' !in b.qtype
    requires Text(a) == Text(b)
    ensures a == b
  {
    LastField(a.qname + " " + a.qclass, a.qtype, b.qname + " " + b.qclass, b.qtype);
    LastField(a.qname, a.qclass, b.qname, b.qclass);
  }

  /** No MD5 collision, and class names without spaces. */
  ghost predicate CollisionFree(c: Config) {
    && (forall x, y :: c.hash(x) == c.hash(y) ==> x == y)
    && (forall n :: ' ' !in c.classText(n))
  }

  /** The same type and class, and names that agree up to a final separating dot. */
  predicate SameQuestion(c: Config, p: Query, q: Query) {
    && p.questions != [] && q.questions != []
    && p.questions[0].qtype == q.questions[0].qtype
    && UnFqdn(p.questions[0].name) == UnFqdn(q.questions[0].name)
    && c.classText(p.questions[0].qclass) == c.classText(q.questions[0].qclass)
  }

  lemma TypeTextInjective(t: nat, u: nat)
    requires t in {1, 5, 15, 28} && u in {1, 5, 15, 28} && TypeText(t) == TypeText(u)
    ensures t == u
  {
    assert |TypeText(t)| == if t == 1 then 1 else if t == 5 then 5 else if t == 15 then 2 else 4;
    assert |TypeText(u)| == if u == 1 then 1 else if u == 5 then 5 else if u == 15 then 2 else 4;
  }

  /** Two queries share a cache key exactly when they ask the same question. */
  lemma KeyIdentifiesQuestion(c: Config, p: Query, q: Query)
    requires CollisionFree(c) && Handled(p) && Handled(q)
    ensures KeyOf(c, p) == KeyOf(c, q) <==> SameQuestion(c, p, q)
  {
    if KeyOf(c, p) == KeyOf(c, q) {
      TextInjective(QuestionOf(c, p), QuestionOf(c, q));
      TypeTextInjective(p.questions[0].qtype, q.questions[0].qtype);
    }
  }

  // ---------------------------------------------------------------- one request

  function Positive(c: Config): Limits { Limits(c.expire, c.maxcount) }
  function Negative(c: Config): Limits { Limits(c.expire / 2, c.maxcount) }

  function FailedReply(q: Query): Message {
    Message(q.id, RCODE_SERVFAIL, false, [], "")
  }

  function HostRecord(name: string, ttl: nat, ip: IP): Record {
    if ip.V4? then A(name, ttl, ip) else AAAA(name, ttl, ip)
  }

  function HostRecords(name: string, ttl: nat, ips: seq<IP>): seq<Record> {
    seq(|ips|, i requires 0 <= i < |ips| => HostRecord(name, ttl, ips[i]))
  }

  function HostAnswer(c: Config, q: RawQuestion, ips: seq<IP>): seq<Record> {
    var name := Fqdn(UnFqdn(q.name));
    if q.qtype == TYPE_MX then [MX(name, c.ttl, 10, "mail." + name)] else HostRecords(name, c.ttl, ips)
  }

  predicate AnsweredLocally(c: Config, a: Arrival) {
    !Handled(a.query) || a.blocked || (c.hostsEnabled && a.hostIps != [])
  }

  function LocalOutcome(c: Config, a: Arrival): Outcome
    requires AnsweredLocally(c, a)
  {
    if !Handled(a.query) then Outcome(Refused, FailedReply(a.query))
    else if a.blocked then Outcome(Blocked, Message(a.query.id, RCODE_NXDOMAIN, false, [], ""))
    else Outcome(FromHosts, Message(a.query.id, RCODE_NOERROR, true, HostAnswer(c, a.query.questions[0], a.hostIps), ""))
  }

  function Served(c: Config, s: Caches, a: Arrival): Outcome {
    if AnsweredLocally(c, a) then LocalOutcome(c, a)
    else
      var k := KeyOf(c, a.query);
      var g := Got(s.pos, k, a.getAt);
      if g.Hit? then
        (match g.msg
         case None => Outcome(Crashed, FailedReply(a.query))
         case Some(m) => Outcome(CacheHit, m.(id := a.query.id)))
      else if Got(s.neg, k, a.negGetAt).Hit? then Outcome(NegativeHit, FailedReply(a.query))
      else match a.upstream
        case None => Outcome(UpstreamFailed, FailedReply(a.query))
        case Some(m) => Outcome(Upstream, m)
  }

  function After(c: Config, s: Caches, a: Arrival): Caches {
    if AnsweredLocally(c, a) then s
    else
      var k := KeyOf(c, a.query);
      var pos := AfterGet(s.pos, k, a.getAt);
      if Got(s.pos, k, a.getAt).Hit? then Caches(pos, s.neg)
      else
        var neg := AfterGet(s.neg, k, a.negGetAt);
        if Got(s.neg, k, a.negGetAt).Hit? then Caches(pos, neg)
        else match a.upstream
          case None => Caches(pos, AfterSet(neg, Negative(c), k, None, a.setAt))
          case Some(m) => Caches(if m.answer != [] then AfterSet(pos, Positive(c), k, Some(m), a.setAt) else pos, neg)
  }

  // ---------------------------------------------------------------- what a client gets

  predicate Bare(m: Message, id: nat, rcode: nat) {
    m.id == id && m.rcode == rcode && m.answer == [] && !m.authoritative
  }

  /** One record per address, of the type of the address, with the queried name and the configured lifetime. */
  predicate Lists(c: Config, q: RawQuestion, ips: seq<IP>, records: seq<Record>) {
    var name := Fqdn(UnFqdn(q.name));
    if q.qtype == 15 then records == [MX(name, c.ttl, 10, "mail." + name)]
    else
      && |records| == |ips|
      && forall i :: 0 <= i < |ips| ==> records[i] == if ips[i].V4? then A(name, c.ttl, ips[i]) else AAAA(name, c.ttl, ips[i])
  }

  /**
  Who answers before the caches, and with what: only questions of type A, CNAME, MX and AAAA (1, 5, 15
  and 28) are handled; the blocklist goes before host records and gives code 3; host records are
  authoritative; a failure of any kind is code 2; and an upstream answer is passed on as it is.
  */
  predicate ReplyFits(c: Config, a: Arrival, o: Outcome) {
    var q := a.query;
    && (o.source.Refused? <==> q.questions == [] || q.questions[0].qtype !in {1, 5, 15, 28})
    && (o.source.Blocked? <==> !o.source.Refused? && a.blocked)
    && (o.source.FromHosts? <==> !o.source.Refused? && !a.blocked && c.hostsEnabled && a.hostIps != [])
    && (match o.source
        case Upstream => a.upstream == Some(o.msg)
        case UpstreamFailed => a.upstream == None && Bare(o.msg, q.id, 2)
        case CacheHit => o.msg.id == q.id
        case FromHosts =>
          o.msg.id == q.id && o.msg.rcode == 0 && o.msg.authoritative && Lists(c, q.questions[0], a.hostIps, o.msg.answer)
        case Blocked => Bare(o.msg, q.id, 3)
        case _ => Bare(o.msg, q.id, 2))
  }

  /** Every reply fits its request, and requests answered before the caches leave them alone. */
  lemma ServedFits(c: Config, s: Caches, a: Arrival)
    ensures ReplyFits(c, a, Served(c, s, a))
    ensures Served(c, s, a).source in {Refused, Blocked, FromHosts} ==> After(c, s, a) == s
  {
  }

  class Handler {
    const config: Config
    const cache: MemoryCache
    const negCache: MemoryCache

    ghost predicate Valid() {
      cache != negCache && cache.limits == Positive(config) && negCache.limits == Negative(config)
    }

    ghost function Contents(): Caches
      reads cache, negCache
    {
      Caches(cache.backend, negCache.backend)
    }

    constructor (config: Config)
      ensures Valid() && this.config == config && Contents() == CachesAfter(config, [])
    {
      this.config := config;
      cache := new MemoryCache(Positive(config));
      negCache := new MemoryCache(Negative(config));
    }

    method Records(name: string, ips: seq<IP>) returns (records: seq<Record>)
      ensures records == HostRecords(name, config.ttl, ips)
    {
      records := [];
      var i := 0;
      while i < |ips|
        invariant 0 <= i <= |ips|
        invariant records == HostRecords(name, config.ttl, ips[..i])
      {
        if ips[i].V4? {
          records := records + [A(name, config.ttl, ips[i])];
        } else {
          records := records + [AAAA(name, config.ttl, ips[i])];
        }
        i := i + 1;
      }
      assert ips[..i] == ips;
    }

    method Do(a: Arrival) returns (o: Outcome)
      requires Valid()
      modifies cache, negCache
      ensures Contents() == After(config, old(Contents()), a)
      ensures o == Served(config, old(Contents()), a)
      ensures ReplyFits(config, a, o)
    {
      ServedFits(config, Contents(), a);
      if !Handled(a.query) {
        return Outcome(Refused, FailedReply(a.query));
      }
      var q := a.query.questions[0];
      if a.blocked {
        return Outcome(Blocked, Message(a.query.id, RCODE_NXDOMAIN, false, [], ""));
      }
      if config.hostsEnabled && a.hostIps != [] {
        var name := Fqdn(UnFqdn(q.name));
        var records: seq<Record>;
        if q.qtype == TYPE_MX {
          records := [MX(name, config.ttl, 10, "mail." + name)];
        } else {
          records := Records(name, a.hostIps);
        }
        return Outcome(FromHosts, Message(a.query.id, RCODE_NOERROR, true, records, ""));
      }
      var key := KeyOf(config, a.query);
      var got := cache.Get(key, a.getAt);
      if got.Hit? {
        if got.msg.None? {
          return Outcome(Crashed, FailedReply(a.query));
        }
        return Outcome(CacheHit, got.msg.value.(id := a.query.id));
      }
      var neg := negCache.Get(key, a.negGetAt);
      if neg.Hit? {
        return Outcome(NegativeHit, FailedReply(a.query));
      }
      if a.upstream.None? {
        var stored := negCache.Set(key, None, a.setAt);
        return Outcome(UpstreamFailed, FailedReply(a.query));
      }
      if |a.upstream.value.answer| > 0 {
        var stored := cache.Set(key, a.upstream, a.setAt);
      }
      return Outcome(Upstream, a.upstream.value);
    }
  }

  // ---------------------------------------------------------------- whole runs

  function CachesAfter(c: Config, run: seq<Arrival>): Caches {
    if run == [] then Caches(map[], map[]) else After(c, CachesAfter(c, run[..|run| - 1]), run[|run| - 1])
  }

  function OutcomeAt(c: Config, run: seq<Arrival>, i: nat): Outcome
    requires i < |run|
  {
    Served(c, CachesAfter(c, run[..i]), run[i])
  }

  /** One request after the other on a clock that never goes back. */
  ghost predicate Timely(run: seq<Arrival>) {
    && (forall i :: 0 <= i < |run| ==> run[i].getAt <= run[i].negGetAt <= run[i].setAt)
    && (forall i, j :: 0 <= i < j < |run| ==> run[i].setAt <= run[j].getAt)
  }

  lemma RunStep(c: Config, run: seq<Arrival>, i: nat)
    requires i < |run|
    ensures CachesAfter(c, run[..i + 1]) == After(c, CachesAfter(c, run[..i]), run[i])
  {
    assert run[..i + 1][..i] == run[..i];
  }

  /** The other entries leave room for one of k. */
  predicate Room(c: Config, b: Backend, k: string) {
    c.maxcount == 0 || |b| - (if k in b then 1 else 0) < c.maxcount
  }

  lemma RoomAfterMiss(c: Config, b: Backend, l: Limits, k: string, now: int)
    requires l.maxcount == c.maxcount && !Got(b, k, now).Hit?
    ensures AfterGet(b, k, now) == b - {k}
    ensures Accepts(AfterGet(b, k, now), l, k) <==> Room(c, b, k)
  {
    if k in b {
      assert (b - {k}).Keys == b.Keys - {k};
    } else {
      assert b - {k} == b;
    }
  }

  /** Request i asked upstream, got an answer and the positive cache took it. */
  ghost predicate StoresAnswer(c: Config, run: seq<Arrival>, i: nat)
    requires i < |run|
  {
    var a := run[i];
    && OutcomeAt(c, run, i).source.Upstream? && a.upstream.value.answer != []
    && Room(c, CachesAfter(c, run[..i]).pos, KeyOf(c, a.query))
  }

  /** Request i asked upstream in vain and the negative cache took the failure. */
  ghost predicate StoresFailure(c: Config, run: seq<Arrival>, i: nat)
    requires i < |run|
  {
    var a := run[i];
    && OutcomeAt(c, run, i).source.UpstreamFailed?
    && Room(c, CachesAfter(c, run[..i]).neg, KeyOf(c, a.query))
  }

  // ---------------------------------------------------------------- upstream is asked at most once per lifetime

  /** An entry for k lasts until deadline, or deadline has passed. */
  ghost predicate Lasts(b: Backend, k: string, deadline: int, now: int) {
    (k in b && b[k].expire >= deadline) || deadline < now
  }

  /** Requests for other keys, and requests answered before the caches, do not touch k. */
  lemma OtherKeyUntouched(c: Config, s: Caches, a: Arrival, k: string)
    requires AnsweredLocally(c, a) || KeyOf(c, a.query) != k
    ensures k in After(c, s, a).pos <==> k in s.pos
    ensures k in s.pos ==> After(c, s, a).pos[k] == s.pos[k]
    ensures k in After(c, s, a).neg <==> k in s.neg
    ensures k in s.neg ==> After(c, s, a).neg[k] == s.neg[k]
  {
  }

  lemma PositiveLasts(c: Config, s: Caches, a: Arrival, k: string, deadline: int)
    requires Lasts(s.pos, k, deadline, a.getAt) && a.getAt <= a.negGetAt <= a.setAt
    ensures Lasts(After(c, s, a).pos, k, deadline, a.setAt)
    ensures Asked(Served(c, s, a)) && KeyOf(c, a.query) == k ==> deadline < a.getAt
  {
    if AnsweredLocally(c, a) || KeyOf(c, a.query) != k {
      OtherKeyUntouched(c, s, a, k);
    } else {
      match Got(s.pos, k, a.getAt) {
        case Hit(_) => assert After(c, s, a).pos == s.pos;
        case Expired => assert s.pos[k].expire < a.getAt;
        case NotFound =>
      }
    }
  }

  lemma NegativeLasts(c: Config, s: Caches, a: Arrival, k: string, deadline: int)
    requires Lasts(s.neg, k, deadline, a.getAt) && a.getAt <= a.negGetAt <= a.setAt
    ensures Lasts(After(c, s, a).neg, k, deadline, a.setAt)
    ensures Asked(Served(c, s, a)) && KeyOf(c, a.query) == k ==> deadline < a.negGetAt
  {
    if AnsweredLocally(c, a) || KeyOf(c, a.query) != k {
      OtherKeyUntouched(c, s, a, k);
    } else if Got(s.pos, k, a.getAt).Hit? {
      assert After(c, s, a).neg == s.neg;
    } else {
      match Got(s.neg, k, a.negGetAt) {
        case Hit(_) => assert After(c, s, a).neg == s.neg;
        case Expired => assert s.neg[k].expire < a.negGetAt;
        case NotFound =>
      }
    }
  }

  lemma AnswerStored(c: Config, run: seq<Arrival>, i: nat)
    requires i < |run| && StoresAnswer(c, run, i)
    ensures Lasts(CachesAfter(c, run[..i + 1]).pos, KeyOf(c, run[i].query), run[i].setAt + c.expire, run[i].setAt)
  {
    RoomAfterMiss(c, CachesAfter(c, run[..i]).pos, Positive(c), KeyOf(c, run[i].query), run[i].getAt);
    RunStep(c, run, i);
  }

  lemma PositiveLastsInRun(c: Config, run: seq<Arrival>, j: nat, k: string, deadline: int)
    requires Timely(run) && 0 < j < |run|
    requires Lasts(CachesAfter(c, run[..j]).pos, k, deadline, run[j - 1].setAt)
    ensures Lasts(CachesAfter(c, run[..j + 1]).pos, k, deadline, run[j].setAt)
  {
    assert run[j - 1].setAt <= run[j].getAt;
    PositiveLasts(c, CachesAfter(c, run[..j]), run[j], k, deadline);
    RunStep(c, run, j);
  }

  lemma {:induction false} PositiveKept(c: Config, run: seq<Arrival>, i: nat, j: nat, k: string, deadline: int)
    requires Timely(run) && i < j <= |run| && Lasts(CachesAfter(c, run[..i + 1]).pos, k, deadline, run[i].setAt)
    ensures Lasts(CachesAfter(c, run[..j]).pos, k, deadline, run[j - 1].setAt)
  {
    if i + 1 < j {
      PositiveKept(c, run, i, j - 1, k, deadline);
      PositiveLastsInRun(c, run, j - 1, k, deadline);
    }
  }

  lemma AnswerLasts(c: Config, run: seq<Arrival>, i: nat, j: nat)
    requires Timely(run) && i < j <= |run| && StoresAnswer(c, run, i)
    ensures Lasts(CachesAfter(c, run[..j]).pos, KeyOf(c, run[i].query), run[i].setAt + c.expire, run[j - 1].setAt)
  {
    AnswerStored(c, run, i);
    PositiveKept(c, run, i, j, KeyOf(c, run[i].query), run[i].setAt + c.expire);
  }

  /** After an answer is stored at t0, upstream is not asked that question again before t0 + expire has passed. */
  lemma AnswerSuppressesUpstream(c: Config, run: seq<Arrival>, i: nat, j: nat)
    requires Timely(run) && i < j < |run| && StoresAnswer(c, run, i)
    requires Asked(OutcomeAt(c, run, j)) && KeyOf(c, run[j].query) == KeyOf(c, run[i].query)
    ensures run[j].getAt > run[i].setAt + c.expire
  {
    AnswerLasts(c, run, i, j);
    assert run[j - 1].setAt <= run[j].getAt;
    PositiveLasts(c, CachesAfter(c, run[..j]), run[j], KeyOf(c, run[i].query), run[i].setAt + c.expire);
  }

  lemma FailureStored(c: Config, run: seq<Arrival>, i: nat)
    requires i < |run| && StoresFailure(c, run, i)
    ensures Lasts(CachesAfter(c, run[..i + 1]).neg, KeyOf(c, run[i].query), run[i].setAt + c.expire / 2, run[i].setAt)
  {
    RoomAfterMiss(c, CachesAfter(c, run[..i]).neg, Negative(c), KeyOf(c, run[i].query), run[i].negGetAt);
    RunStep(c, run, i);
  }

  lemma NegativeLastsInRun(c: Config, run: seq<Arrival>, j: nat, k: string, deadline: int)
    requires Timely(run) && 0 < j < |run|
    requires Lasts(CachesAfter(c, run[..j]).neg, k, deadline, run[j - 1].setAt)
    ensures Lasts(CachesAfter(c, run[..j + 1]).neg, k, deadline, run[j].setAt)
  {
    assert run[j - 1].setAt <= run[j].getAt;
    NegativeLasts(c, CachesAfter(c, run[..j]), run[j], k, deadline);
    RunStep(c, run, j);
  }

  lemma {:induction false} NegativeKept(c: Config, run: seq<Arrival>, i: nat, j: nat, k: string, deadline: int)
    requires Timely(run) && i < j <= |run| && Lasts(CachesAfter(c, run[..i + 1]).neg, k, deadline, run[i].setAt)
    ensures Lasts(CachesAfter(c, run[..j]).neg, k, deadline, run[j - 1].setAt)
  {
    if i + 1 < j {
      NegativeKept(c, run, i, j - 1, k, deadline);
      NegativeLastsInRun(c, run, j - 1, k, deadline);
    }
  }

  lemma FailureLasts(c: Config, run: seq<Arrival>, i: nat, j: nat)
    requires Timely(run) && i < j <= |run| && StoresFailure(c, run, i)
    ensures Lasts(CachesAfter(c, run[..j]).neg, KeyOf(c, run[i].query), run[i].setAt + c.expire / 2, run[j - 1].setAt)
  {
    FailureStored(c, run, i);
    NegativeKept(c, run, i, j, KeyOf(c, run[i].query), run[i].setAt + c.expire / 2);
  }

  /** After a failure is stored at t0, upstream is not asked that question again before t0 + expire/2 has passed. */
  lemma FailureSuppressesUpstream(c: Config, run: seq<Arrival>, i: nat, j: nat)
    requires Timely(run) && i < j < |run| && StoresFailure(c, run, i)
    requires Asked(OutcomeAt(c, run, j)) && KeyOf(c, run[j].query) == KeyOf(c, run[i].query)
    ensures run[j].negGetAt > run[i].setAt + c.expire / 2
  {
    FailureLasts(c, run, i, j);
    assert run[j - 1].setAt <= run[j].getAt;
    NegativeLasts(c, CachesAfter(c, run[..j]), run[j], KeyOf(c, run[i].query), run[i].setAt + c.expire / 2);
  }

  // ---------------------------------------------------------------- what the caches hold

  ghost predicate AnswerFrom(c: Config, run: seq<Arrival>, i: nat, k: string, e: Entry) {
    && i < |run| && StoresAnswer(c, run, i) && KeyOf(c, run[i].query) == k
    && e == Entry(run[i].upstream, run[i].setAt + c.expire)
  }

  ghost predicate FailureFrom(c: Config, run: seq<Arrival>, i: nat, k: string, e: Entry) {
    && i < |run| && StoresFailure(c, run, i) && KeyOf(c, run[i].query) == k
    && e == Entry(None, run[i].setAt + c.expire / 2)
  }

  /** A request leaves a positive entry alone, removes it, or stores its own upstream answer. */
  lemma PositiveChange(c: Config, s: Caches, a: Arrival, k: string)
    requires k in After(c, s, a).pos
    ensures (k in s.pos && After(c, s, a).pos[k] == s.pos[k]) ||
            (Served(c, s, a).source.Upstream? && a.upstream.value.answer != [] && KeyOf(c, a.query) == k
             && Room(c, s.pos, k)
             && After(c, s, a).pos[k] == Entry(a.upstream, a.setAt + c.expire))
  {
    if AnsweredLocally(c, a) || KeyOf(c, a.query) != k {
      OtherKeyUntouched(c, s, a, k);
    } else if Got(s.pos, k, a.getAt).Hit? || Got(s.neg, k, a.negGetAt).Hit? || a.upstream.None? {
      assert After(c, s, a).pos == AfterGet(s.pos, k, a.getAt);
    } else {
      PositiveStored(c, s, a);
    }
  }

  /** What a request that asks upstream and is answered does to the positive cache. */
  lemma PositiveStored(c: Config, s: Caches, a: Arrival)
    requires !AnsweredLocally(c, a) && a.upstream.Some?
    requires !Got(s.pos, KeyOf(c, a.query), a.getAt).Hit? && !Got(s.neg, KeyOf(c, a.query), a.negGetAt).Hit?
    ensures var k := KeyOf(c, a.query);
      After(c, s, a).pos ==
        if a.upstream.value.answer != [] && Room(c, s.pos, k) then (s.pos - {k})[k := Entry(a.upstream, a.setAt + c.expire)]
        else s.pos - {k}
  {
    RoomAfterMiss(c, s.pos, Positive(c), KeyOf(c, a.query), a.getAt);
  }

  /** A request leaves a negative entry alone, removes it, or stores its own failure. */
  lemma NegativeChange(c: Config, s: Caches, a: Arrival, k: string)
    requires k in After(c, s, a).neg
    ensures (k in s.neg && After(c, s, a).neg[k] == s.neg[k]) ||
            (Served(c, s, a).source.UpstreamFailed? && KeyOf(c, a.query) == k
             && Room(c, s.neg, k)
             && After(c, s, a).neg[k] == Entry(None, a.setAt + c.expire / 2))
  {
    if AnsweredLocally(c, a) || KeyOf(c, a.query) != k {
      OtherKeyUntouched(c, s, a, k);
    } else if !Got(s.neg, k, a.negGetAt).Hit? {
      RoomAfterMiss(c, s.neg, Negative(c), k, a.negGetAt);
    }
  }

  lemma {:induction false} PositiveOrigin(c: Config, run: seq<Arrival>, n: nat, k: string) returns (i: nat)
    requires n <= |run| && k in CachesAfter(c, run[..n]).pos
    ensures i < n && AnswerFrom(c, run, i, k, CachesAfter(c, run[..n]).pos[k])
  {
    var s, a := CachesAfter(c, run[..n - 1]), run[n - 1];
    RunStep(c, run, n - 1);
    PositiveChange(c, s, a, k);
    if k in s.pos && After(c, s, a).pos[k] == s.pos[k] {
      i := PositiveOrigin(c, run, n - 1, k);
    } else {
      i := n - 1;
    }
  }

  lemma {:induction false} NegativeOrigin(c: Config, run: seq<Arrival>, n: nat, k: string) returns (i: nat)
    requires n <= |run| && k in CachesAfter(c, run[..n]).neg
    ensures i < n && FailureFrom(c, run, i, k, CachesAfter(c, run[..n]).neg[k])
  {
    var s, a := CachesAfter(c, run[..n - 1]), run[n - 1];
    RunStep(c, run, n - 1);
    NegativeChange(c, s, a, k);
    if k in s.neg && After(c, s, a).neg[k] == s.neg[k] {
      i := NegativeOrigin(c, run, n - 1, k);
    } else {
      i := n - 1;
    }
  }

  /** Every positive entry is a non-nil message with answers that upstream gave; every negative entry is nil. */
  lemma CacheIntegrity(c: Config, run: seq<Arrival>, k: string)
    ensures k in CachesAfter(c, run).pos ==> CachesAfter(c, run).pos[k].msg.Some? && CachesAfter(c, run).pos[k].msg.value.answer != []
    ensures k in CachesAfter(c, run).pos ==> exists i :: 0 <= i < |run| && AnswerFrom(c, run, i, k, CachesAfter(c, run).pos[k])
    ensures k in CachesAfter(c, run).neg ==> CachesAfter(c, run).neg[k].msg.None?
    ensures k in CachesAfter(c, run).neg ==> exists i :: 0 <= i < |run| && FailureFrom(c, run, i, k, CachesAfter(c, run).neg[k])
  {
    assert run[..|run|] == run;
    if k in CachesAfter(c, run).pos { var i := PositiveOrigin(c, run, |run|, k); }
    if k in CachesAfter(c, run).neg { var i := NegativeOrigin(c, run, |run|, k); }
  }

  /**
  A cache hit replays, with only the id changed, the answer upstream gave to an earlier request for
  the same question no longer than expire ago; and no hit ever finds a nil message.
  */
  lemma HitReplaysUpstream(c: Config, run: seq<Arrival>, j: nat)
    requires CollisionFree(c) && j < |run|
    ensures !OutcomeAt(c, run, j).source.Crashed?
    ensures OutcomeAt(c, run, j).source.CacheHit? ==> exists i ::
      && 0 <= i < j
      && StoresAnswer(c, run, i)
      && SameQuestion(c, run[i].query, run[j].query)
      && OutcomeAt(c, run, j).msg == run[i].upstream.value.(id := run[j].query.id)
      && run[j].getAt <= run[i].setAt + c.expire
  {
    var o := OutcomeAt(c, run, j);
    if o.source.CacheHit? || o.source.Crashed? {
      var k := KeyOf(c, run[j].query);
      var i := PositiveOrigin(c, run, j, k);
      KeyIdentifiesQuestion(c, run[i].query, run[j].query);
    }
  }

  /** A negative hit repeats a failed lookup of the same question no longer than expire/2 ago. */
  lemma NegativeHitRepeatsFailure(c: Config, run: seq<Arrival>, j: nat)
    requires CollisionFree(c) && j < |run| && OutcomeAt(c, run, j).source.NegativeHit?
    ensures exists i ::
      && 0 <= i < j
      && StoresFailure(c, run, i)
      && SameQuestion(c, run[i].query, run[j].query)
      && run[j].negGetAt <= run[i].setAt + c.expire / 2
  {
    var k := KeyOf(c, run[j].query);
    var i := NegativeOrigin(c, run, j, k);
    KeyIdentifiesQuestion(c, run[i].query, run[j].query);
  }

  // ---------------------------------------------------------------- who answers, over whole runs

  /** Request i stored an answer to the question of request j that has not expired when j looks. */
  ghost predicate LiveAnswer(c: Config, run: seq<Arrival>, i: nat, j: nat) {
    && i < j < |run| && StoresAnswer(c, run, i) && SameQuestion(c, run[i].query, run[j].query)
    && run[j].getAt <= run[i].setAt + c.expire
  }

  /** The same for a stored failure. */
  ghost predicate LiveFailure(c: Config, run: seq<Arrival>, i: nat, j: nat) {
    && i < j < |run| && StoresFailure(c, run, i) && SameQuestion(c, run[i].query, run[j].query)
    && run[j].negGetAt <= run[i].setAt + c.expire / 2
  }

  lemma LiveAnswerHits(c: Config, run: seq<Arrival>, i: nat, j: nat)
    requires Timely(run) && CollisionFree(c) && LiveAnswer(c, run, i, j) && !AnsweredLocally(c, run[j])
    ensures OutcomeAt(c, run, j).source in {CacheHit, Crashed}
  {
    KeyIdentifiesQuestion(c, run[i].query, run[j].query);
    AnswerLasts(c, run, i, j);
    assert run[j - 1].setAt <= run[j].getAt;
  }

  /** Two live answers to one question would mean that upstream was asked in vain. */
  lemma LiveAnswerUnique(c: Config, run: seq<Arrival>, i: nat, k: nat, j: nat)
    requires Timely(run) && CollisionFree(c) && LiveAnswer(c, run, i, j) && LiveAnswer(c, run, k, j)
    ensures i == k
  {
    KeyIdentifiesQuestion(c, run[i].query, run[k].query);
    assert run[i].getAt <= run[i].setAt <= run[j].getAt && run[k].getAt <= run[k].setAt <= run[j].getAt;
    if i < k {
      AnswerSuppressesUpstream(c, run, i, k);
    } else if k < i {
      AnswerSuppressesUpstream(c, run, k, i);
    }
  }

  lemma LiveFailureHits(c: Config, run: seq<Arrival>, i: nat, j: nat)
    requires Timely(run) && CollisionFree(c) && LiveFailure(c, run, i, j) && !AnsweredLocally(c, run[j])
    ensures OutcomeAt(c, run, j).source in {CacheHit, NegativeHit, Crashed}
  {
    KeyIdentifiesQuestion(c, run[i].query, run[j].query);
    FailureLasts(c, run, i, j);
    assert run[j - 1].setAt <= run[j].getAt;
  }

  /**
  A request that neither blocklist nor host records answer is answered, in every run, from the one
  live answer to its question if there is one, else with a failure if there is a live one, else from
  upstream.
  */
  lemma WhoAnswers(c: Config, run: seq<Arrival>, j: nat)
    requires Timely(run) && CollisionFree(c) && j < |run| && !AnsweredLocally(c, run[j])
    ensures OutcomeAt(c, run, j).source ==
      if exists i: nat :: LiveAnswer(c, run, i, j) then CacheHit
      else if exists i: nat :: LiveFailure(c, run, i, j) then NegativeHit
      else if run[j].upstream.None? then UpstreamFailed
      else Upstream
    ensures forall i: nat :: LiveAnswer(c, run, i, j) ==>
      OutcomeAt(c, run, j).msg == run[i].upstream.value.(id := run[j].query.id)
  {
    HitReplaysUpstream(c, run, j);
    if OutcomeAt(c, run, j).source.CacheHit? {
      var i := HitIsLive(c, run, j);
      forall k: nat | LiveAnswer(c, run, k, j) ensures k == i { LiveAnswerUnique(c, run, i, k, j); }
    }
    if OutcomeAt(c, run, j).source.NegativeHit? {
      NegativeHitRepeatsFailure(c, run, j);
      var i: nat :| i < j && StoresFailure(c, run, i) && SameQuestion(c, run[i].query, run[j].query)
        && run[j].negGetAt <= run[i].setAt + c.expire / 2;
      assert LiveFailure(c, run, i, j);
    }
    if i: nat :| LiveAnswer(c, run, i, j) { LiveAnswerHits(c, run, i, j); }
    if i: nat :| LiveFailure(c, run, i, j) { LiveFailureHits(c, run, i, j); }
  }

  lemma HitIsLive(c: Config, run: seq<Arrival>, j: nat) returns (i: nat)
    requires CollisionFree(c) && j < |run| && OutcomeAt(c, run, j).source.CacheHit?
    ensures LiveAnswer(c, run, i, j) && OutcomeAt(c, run, j).msg == run[i].upstream.value.(id := run[j].query.id)
  {
    HitReplaysUpstream(c, run, j);
    i :| i < j && StoresAnswer(c, run, i) && SameQuestion(c, run[i].query, run[j].query)
      && OutcomeAt(c, run, j).msg == run[i].upstream.value.(id := run[j].query.id) && run[j].getAt <= run[i].setAt + c.expire;
  }

  // ---------------------------------------------------------------- answers from host records

  function Family(qtype: nat): int {
    if qtype == TYPE_A then H.IP4_QUERY else if qtype == TYPE_AAAA then H.IP6_QUERY else H.NOT_IP_QUERY
  }

  /** The addresses of the request are what Hosts.Get finds for its name and family. */
  ghost predicate HostsConsulted(parse: string -> Option<IP>, file: H.Table, redis: Option<H.Table>, a: Arrival) {
    Handled(a.query) &&
    exists t :: H.Texts(file, redis, UnFqdn(a.query.questions[0].name), t)
      && a.hostIps == (if t.None? then [] else H.Addresses(parse, t.value, Family(a.query.questions[0].qtype)))
  }

  /** Whatever the records, a hosts answer goes to an A or AAAA question: the MX branch is dead. */
  lemma HostsAnswerAddressQuestionsOnly(c: Config, s: Caches, a: Arrival,
                                        parse: string -> Option<IP>, file: H.Table, redis: Option<H.Table>)
    requires HostsConsulted(parse, file, redis, a) && Served(c, s, a).source.FromHosts?
    ensures a.query.questions[0].qtype == TYPE_A || a.query.questions[0].qtype == TYPE_AAAA
    ensures Served(c, s, a).msg.answer == HostRecords(Fqdn(UnFqdn(a.query.questions[0].name)), c.ttl, a.hostIps)
  {
    var q := a.query.questions[0];
    var t :| H.Texts(file, redis, UnFqdn(q.name), t)
      && a.hostIps == (if t.None? then [] else H.Addresses(parse, t.value, Family(q.qtype)));
    if q.qtype != TYPE_A && q.qtype != TYPE_AAAA {
      H.OtherFamilyEmpty(parse, t.value, Family(q.qtype));
    }
  }

  /**
  A record of a parsed hosts file with address ip answers an AAAA question with exactly one record,
  of type AAAA if and only if ip is IPv6, and it answers an A question if and only if ip is IPv4.
  */
  lemma FileRecordReply(c: Config, s: Caches, a: Arrival,
                        parse: string -> Option<IP>, file: H.Table, redis: Option<H.Table>) returns (ip: IP)
    requires HostsConsulted(parse, file, redis, a) && !a.blocked && c.hostsEnabled
    requires H.CleanTable(parse, file) && !H.Answers(file, UnFqdn(a.query.questions[0].name), None)
    ensures exists text :: H.Answers(file, UnFqdn(a.query.questions[0].name), Some(text)) && parse(text) == Some(ip)
    ensures a.query.questions[0].qtype == TYPE_AAAA ==>
      var o := Served(c, s, a);
      o.source.FromHosts? && |o.msg.answer| == 1 && o.msg.answer[0].ip == ip && (o.msg.answer[0].AAAA? <==> ip.V6?)
    ensures a.query.questions[0].qtype == TYPE_A ==>
      var o := Served(c, s, a);
      && (o.source.FromHosts? <==> ip.V4?)
      && (ip.V4? ==> |o.msg.answer| == 1 && o.msg.answer[0].A? && o.msg.answer[0].ip == ip)
  {
    var q := a.query.questions[0];
    var t :| H.Texts(file, redis, UnFqdn(q.name), t)
      && a.hostIps == (if t.None? then [] else H.Addresses(parse, t.value, Family(q.qtype)));
    H.FileRecordAddresses(parse, file, redis, UnFqdn(q.name), t);
    ip := parse(t.value[0]).value;
    assert H.Answers(file, UnFqdn(q.name), Some(t.value[0]));
    if q.qtype == TYPE_AAAA {
      LocalHosts(c, s, a);
    } else if q.qtype == TYPE_A {
      if ip.V4? { LocalHosts(c, s, a); } else { NoLocalHosts(c, s, a); }
    }
  }

  lemma LocalHosts(c: Config, s: Caches, a: Arrival)
    requires Handled(a.query) && !a.blocked && c.hostsEnabled && |a.hostIps| == 1
    requires a.query.questions[0].qtype != TYPE_MX
    ensures Served(c, s, a).source.FromHosts?
    ensures Served(c, s, a).msg.answer == [HostRecord(Fqdn(UnFqdn(a.query.questions[0].name)), c.ttl, a.hostIps[0])]
  {
  }

  lemma NoLocalHosts(c: Config, s: Caches, a: Arrival)
    requires a.hostIps == []
    ensures !Served(c, s, a).source.FromHosts?
  {
  }
}
