/**
The in-memory cache of cache.go, run by one goroutine at a time. Stored messages are optional
because the negative cache stores nil. Clock readings are parameters.
*/
module MemoryCaches {
  import opened Messages

  datatype Entry = Entry(msg: Option<Message>, expire: int)
  type Backend = map<string, Entry>

  /** Expire and Maxcount of a cache; a zero maxcount means unlimited. */
  datatype Limits = Limits(expire: nat, maxcount: int)

  datatype Lookup = Hit(msg: Option<Message>) | NotFound | Expired

  predicate Full(b: Backend, l: Limits) {
    l.maxcount != 0 && |b| >= l.maxcount
  }

  predicate Stale(e: Entry, now: int) {
    e.expire < now
  }

  // ---------------------------------------------------------------- one operation at a time

  function Got(b: Backend, k: string, now: int): Lookup {
    if k !in b then NotFound
    else if Stale(b[k], now) then Expired
    else Hit(b[k].msg)
  }

  function AfterGet(b: Backend, k: string, now: int): Backend {
    if Got(b, k, now).Expired? then b - {k} else b
  }

  predicate Accepts(b: Backend, l: Limits, k: string) {
    !Full(b, l) || k in b
  }

  function AfterSet(b: Backend, l: Limits, k: string, m: Option<Message>, now: int): Backend {
    if Accepts(b, l, k) then b[k := Entry(m, now + l.expire)] else b
  }

  class MemoryCache {
    var backend: Backend
    const limits: Limits

    constructor (limits: Limits)
      ensures backend == map[] && this.limits == limits
    {
      this.limits := limits;
      backend := map[];
    }

    method Get(key: string, now: int) returns (r: Lookup)
      modifies this
      ensures r == Got(old(backend), key, now)
      ensures r.Expired? ==> key !in backend
      ensures backend == AfterGet(old(backend), key, now)
    {
      if key !in backend {
        return NotFound;
      }
      var mesg := backend[key];
      if Stale(mesg, now) {
        Remove(key);
        return Expired;
      }
      return Hit(mesg.msg);
    }

    method Set(key: string, msg: Option<Message>, now: int) returns (ok: bool)
      modifies this
      ensures ok <==> limits.maxcount == 0 || |old(backend)| < limits.maxcount || key in old(backend)
      ensures backend == AfterSet(old(backend), limits, key, msg, now)
    {
      var full := IsFull();
      if full && key !in backend {
        return false;
      }
      backend := backend[key := Entry(msg, now + limits.expire)];
      return true;
    }

    method Remove(key: string)
      modifies this
      ensures backend == old(backend) - {key}
    {
      backend := backend - {key};
    }

    method IsFull() returns (full: bool)
      ensures full == Full(backend, limits)
    {
      if limits.maxcount == 0 {
        return false;
      }
      return |backend| >= limits.maxcount;
    }
  }

  // ---------------------------------------------------------------- the timed map

  datatype Op = Get(key: string, now: int) | Set(key: string, msg: Option<Message>, now: int) | Remove(key: string, now: int)

  function AfterOp(b: Backend, l: Limits, op: Op): Backend {
    match op
    case Get(k, t) => AfterGet(b, k, t)
    case Set(k, m, t) => AfterSet(b, l, k, m, t)
    case Remove(k, _) => b - {k}
  }

  /** The backend after a history, latest operation last, from the empty cache. */
  function Run(l: Limits, ops: seq<Op>): Backend {
    if ops == [] then map[] else AfterOp(Run(l, ops[..|ops| - 1]), l, ops[|ops| - 1])
  }

  predicate Chronological(ops: seq<Op>) {
    forall i, j :: 0 <= i < j < |ops| ==> ops[i].now <= ops[j].now
  }

  datatype Stored = Stored(msg: Option<Message>, at: int)

  /** Unlimited, below the limit, or an update of a stored key. */
  predicate HasRoom(b: Backend, l: Limits, k: string) {
    l.maxcount == 0 || |b| < l.maxcount || k in b
  }

  /** The most recent accepted Set of k that no Remove of k followed; reads leave no trace here. */
  function Latest(l: Limits, ops: seq<Op>, k: string): Option<Stored> {
    if ops == [] then None
    else
      var before, op := ops[..|ops| - 1], ops[|ops| - 1];
      if op.Remove? && op.key == k then None
      else if op.Set? && op.key == k && HasRoom(Run(l, before), l, k) then Some(Stored(op.msg, op.now))
      else Latest(l, before, k)
  }

  /** What a timed map answers: the latest stored message until expire has passed since it was stored. */
  function TimedAnswer(l: Limits, ops: seq<Op>, k: string, now: int): Option<Option<Message>> {
    match Latest(l, ops, k)
    case None => None
    case Some(s) => if now <= s.at + l.expire then Some(s.msg) else None
  }

  /** An entry in the backend is the latest stored one; a stored one that is gone has expired. */
  ghost predicate Agrees(l: Limits, ops: seq<Op>, k: string, now: int) {
    var b := Run(l, ops);
    match Latest(l, ops, k)
    case None => k !in b
    case Some(s) => if k in b then b[k] == Entry(s.msg, s.at + l.expire) else s.at + l.expire < now
  }

  lemma {:induction false} RunAgrees(l: Limits, ops: seq<Op>, k: string, now: int)
    requires Chronological(ops) && (forall i :: 0 <= i < |ops| ==> ops[i].now <= now)
    ensures Agrees(l, ops, k, now)
  {
    if ops != [] {
      var before, op := ops[..|ops| - 1], ops[|ops| - 1];
      assert op.now <= now;
      forall i | 0 <= i < |before| ensures before[i].now <= op.now {
        assert ops[i].now <= ops[|ops| - 1].now;
      }
      RunAgrees(l, before, k, op.now);
    }
  }

  /** Run sequentially, the cache answers exactly like a timed map, expiry by deletion notwithstanding. */
  lemma CacheRefinesTimedMap(l: Limits, ops: seq<Op>, k: string, now: int)
    requires Chronological(ops) && (forall i :: 0 <= i < |ops| ==> ops[i].now <= now)
    ensures Got(Run(l, ops), k, now) ==
              match TimedAnswer(l, ops, k, now)
              case Some(m) => Hit(m)
              case None => if k in Run(l, ops) then Expired else NotFound
  {
    RunAgrees(l, ops, k, now);
  }

  /** A Get leaves no expired entry of its key behind, and no other operation is undone by it. */
  lemma GetDropsExpired(l: Limits, ops: seq<Op>, k: string, now: int)
    ensures var b, a := Run(l, ops), Run(l, ops + [Get(k, now)]);
      && (k in a ==> now <= a[k].expire)
      && (forall x :: x in a <==> x in b && (x == k ==> now <= b[k].expire))
      && (forall x :: x in a ==> a[x] == b[x])
  {
    assert (ops + [Get(k, now)])[..|ops|] == ops;
  }

  /** A sequential history never holds more than maxcount entries; a negative maxcount admits none. */
  lemma {:induction false} RunWithinMaxcount(l: Limits, ops: seq<Op>)
    requires l.maxcount != 0
    ensures |Run(l, ops)| <= if l.maxcount < 0 then 0 else l.maxcount
  {
    if ops != [] {
      var before, op := ops[..|ops| - 1], ops[|ops| - 1];
      RunWithinMaxcount(l, before);
      var b := Run(l, before);
      var a := Run(l, ops);
      if op.Set? {
        if op.key in b { assert a.Keys <= b.Keys; CardSubset(a.Keys, b.Keys); }
      } else {
        CardSubset(a.Keys, b.Keys);
      }
    }
  }

  lemma CardSubset<T>(a: set<T>, b: set<T>)
    requires a <= b
    ensures |a| <= |b|
  {
    assert b == a + (b - a);
  }
}
