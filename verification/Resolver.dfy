/**
Which upstream servers a query goes to (resolver.go): domain rules from the label trie first, then
the configured servers, sorted by round-trip time when load balancing is on.
*/
module Resolvers {
  import opened GoStrings
  import opened SuffixShape
  import opened SuffixTrees
  import RttTable

  const DEFAULT_SERVERS: seq<string> := ["8.8.8.8:53", "8.8.4.4:53"]

  datatype Settings = Settings(servers: seq<string>, timeout: nat, loadBalance: bool, addPort: string -> string)

  class NameserverState {
    const addr: string
    var rtt: nat

    constructor (addr: string, rtt: nat)
      ensures this.addr == addr && this.rtt == rtt
    {
      this.addr, this.rtt := addr, rtt;
    }
  }

  function QueryKeys(qname: string): seq<string> {
    Split(TrimChar(qname, '.'), '.')
  }

  function Upstreams(c: Settings): seq<string> {
    if c.servers != [] then c.servers else DEFAULT_SERVERS
  }

  /** The addresses a domain rule names. */
  function RuleServers(c: Settings, rule: string): (ns: seq<string>)
    ensures |ns| == |Split(rule, ',')|
  {
    var parts := Split(rule, ',');
    seq(|parts|, i requires 0 <= i < |parts| => c.addPort(parts[i]))
  }

  /** The keys of a name are its labels, last one last, with or without the trailing dot. */
  lemma KeysAreLabels(names: seq<string>)
    requires names != [] && names[0] != "" && names[|names| - 1] != ""
    requires forall i :: 0 <= i < |names| ==> '.' !in names[i]
    ensures QueryKeys(Join(names, '.')) == names
    ensures QueryKeys(Join(names, '.') + ".") == names
  {
    var s := Join(names, '.');
    JoinEnds(names, '.');
    assert names[0][0] in names[0] && s[|s| - 1] in names[|names| - 1];
    assert TrimChar(s, '.') == s;
    TrimCharRight(s, '.');
    SplitJoin(names, '.');
  }

  /** A rule that lists addresses separated by commas names each of them, in order, with its port added. */
  lemma RuleNamesAll(c: Settings, parts: seq<string>)
    requires parts != [] && forall i :: 0 <= i < |parts| ==> ',' !in parts[i]
    ensures |RuleServers(c, Join(parts, ','))| == |parts|
    ensures forall i :: 0 <= i < |parts| ==> RuleServers(c, Join(parts, ','))[i] == c.addPort(parts[i])
  {
    SplitJoin(parts, ',');
  }

  ghost predicate Distinct<T>(s: seq<T>) {
    forall i, j :: 0 <= i < j < |s| ==> s[i] != s[j]
  }

  ghost predicate ByRtt(s: seq<NameserverState>)
    reads s
  {
    forall i, j :: 0 <= i < j < |s| ==> s[i].rtt <= s[j].rtt
  }

  /** Each of the servers in rtts once, fastest first. */
  ghost predicate FastestFirst(ns: seq<string>, rtts: RttTable.Table) {
    && Distinct(ns)
    && (forall s :: s in ns <==> s in rtts)
    && (forall i, j :: 0 <= i < j < |ns| ==> ns[i] in rtts && ns[j] in rtts && rtts[ns[i]] <= rtts[ns[j]])
  }

  /** One insertion of a sort by round-trip time. */
  method Place(s: seq<NameserverState>, x: NameserverState) returns (r: seq<NameserverState>)
    requires ByRtt(s)
    ensures ByRtt(r) && multiset(r) == multiset(s) + multiset{x}
  {
    var k := |s|;
    while k > 0 && x.rtt < s[k - 1].rtt
      invariant 0 <= k <= |s|
      invariant forall i :: k <= i < |s| ==> x.rtt <= s[i].rtt
    {
      k := k - 1;
    }
    assert forall i :: 0 <= i < k ==> s[i].rtt <= x.rtt;
    r := s[..k] + [x] + s[k..];
    InsertedElements(s, k, x);
  }

  lemma InsertedElements<T>(s: seq<T>, k: nat, x: T)
    requires k <= |s|
    ensures multiset(s[..k] + [x] + s[k..]) == multiset(s) + multiset{x}
  {
    assert s == s[..k] + s[k..];
  }

  method SortByRtt(s: seq<NameserverState>) returns (r: seq<NameserverState>)
    ensures ByRtt(r) && multiset(r) == multiset(s)
  {
    r := [];
    var i := 0;
    while i < |s|
      invariant 0 <= i <= |s|
      invariant ByRtt(r) && multiset(r) == multiset(s[..i])
    {
      assert s[..i + 1] == s[..i] + [s[i]];
      r := Place(r, s[i]);
      i := i + 1;
    }
    assert s[..i] == s;
  }

  lemma {:induction false} DistinctCounts<T>(s: seq<T>, x: T)
    requires Distinct(s)
    ensures multiset(s)[x] <= 1
  {
    if s != [] {
      assert s == [s[0]] + s[1..];
      DistinctCounts(s[1..], x);
      if x == s[0] { assert forall i :: 0 <= i < |s[1..]| ==> s[1..][i] == s[i + 1]; assert x !in s[1..]; }
    }
  }

  /** A rearrangement of distinct elements is distinct. */
  lemma DistinctRearranged<T>(s: seq<T>, r: seq<T>)
    requires Distinct(s) && multiset(r) == multiset(s)
    ensures Distinct(r) && forall x :: x in r <==> x in s
  {
    forall i, j | 0 <= i < j < |r| ensures r[i] != r[j] {
      DistinctCounts(s, r[j]);
      assert r == r[..j] + r[j..];
      assert r[i] in r[..j] && r[j] in r[j..];
      assert r[..j][i] == r[i] && r[j..][0] == r[j];
    }
    forall x ensures x in r <==> x in s {
      assert x in r <==> x in multiset(r);
      assert x in s <==> x in multiset(s);
    }
  }

  class Resolver {
    const settings: Settings
    const domainServer: SuffixTree
    var rttServers: map<string, NameserverState>

    /** The table always has exactly the configured servers, each under its own address. */
    ghost predicate Valid()
      reads this, rttServers.Values
    {
      && (forall s :: s in rttServers <==> s in Upstreams(settings))
      && (forall s :: s in rttServers ==> rttServers[s].addr == s)
    }

    ghost function Rtts(): RttTable.Table
      reads this, rttServers.Values
    {
      map s | s in rttServers :: rttServers[s].rtt
    }

    constructor (settings: Settings, domainServer: SuffixTree)
      ensures Valid() && fresh(rttServers.Values)
      ensures forall s :: s in Rtts() <==> s in if settings.servers != [] then settings.servers else ["8.8.8.8:53", "8.8.4.4:53"]
      ensures this.settings == settings && this.domainServer == domainServer
      ensures forall s :: s in Rtts() ==> Rtts()[s] == settings.timeout
    {
      this.settings := settings;
      this.domainServer := domainServer;
      rttServers := map[];
      new;
      var all := Upstreams(settings);
      var i := 0;
      while i < |all|
        invariant 0 <= i <= |all|
        invariant forall s :: s in rttServers <==> s in all[..i]
        invariant forall s :: s in rttServers ==>
                    rttServers[s].addr == s && rttServers[s].rtt == settings.timeout && fresh(rttServers[s])
      {
        assert all[..i + 1] == all[..i] + [all[i]];
        var state := new NameserverState(all[i], settings.timeout);
        rttServers := rttServers[all[i] := state];
        i := i + 1;
      }
      assert all[..i] == all;
    }

    /** A failed exchange sets the server's time to the time-out. */
    method Penalise(server: string)
      requires Valid()
      modifies rttServers.Values
      ensures Valid() && Rtts() == RttTable.Apply(old(Rtts()), settings.timeout, RttTable.Penalty(server))
    {
      if server in rttServers {
        SetRtt(server, settings.timeout);
      }
    }

    /** A reply moves the server's time towards the measured one. */
    method Record(server: string, rtt: nat)
      requires Valid()
      modifies rttServers.Values
      ensures Valid() && Rtts() == RttTable.Apply(old(Rtts()), settings.timeout, RttTable.Sample(server, rtt))
    {
      if server in rttServers {
        SetRtt(server, RttTable.Average(rttServers[server].rtt, rtt));
      }
    }

    method SetRtt(server: string, rtt: nat)
      requires Valid() && server in rttServers
      modifies rttServers[server]
      ensures Valid() && Rtts() == old(Rtts())[server := rtt]
    {
      var state := rttServers[server];
      state.rtt := rtt;
      assert forall s :: s in rttServers && s != server ==> rttServers[s] != state;
    }

    method States() returns (states: seq<NameserverState>)
      requires Valid()
      ensures Distinct(states) && forall x :: x in states <==> x in rttServers.Values
    {
      states := [];
      var left := rttServers.Keys;
      while left != {}
        invariant left <= rttServers.Keys
        invariant Distinct(states)
        invariant forall x :: x in states <==> x in rttServers.Values && x.addr !in left
        decreases left
      {
        var s :| s in left;
        states := states + [rttServers[s]];
        left := left - {s};
      }
    }

    /** The configured servers, each once, fastest first; ties in any order. */
    method SortedServers() returns (ns: seq<string>)
      requires Valid()
      ensures FastestFirst(ns, Rtts())
    {
      var unsorted := States();
      var states := SortByRtt(unsorted);
      DistinctRearranged(unsorted, states);
      ns := [];
      var i := 0;
      while i < |states|
        invariant 0 <= i <= |states| && |ns| == i
        invariant forall j :: 0 <= j < i ==> ns[j] == states[j].addr
      {
        ns := ns + [states[i].addr];
        i := i + 1;
      }
      AddressesInOrder(states, ns);
    }

    lemma AddressesInOrder(states: seq<NameserverState>, ns: seq<string>)
      requires Valid() && Distinct(states) && ByRtt(states)
      requires forall x :: x in states <==> x in rttServers.Values
      requires |ns| == |states| && forall j :: 0 <= j < |ns| ==> ns[j] == states[j].addr
      ensures FastestFirst(ns, Rtts())
    {
      forall j | 0 <= j < |ns| ensures ns[j] in rttServers && rttServers[ns[j]] == states[j] {
        assert states[j] in states;
      }
      forall s | s in rttServers ensures s in ns {
        assert rttServers[s] in states;
        var j :| 0 <= j < |states| && states[j] == rttServers[s];
        assert ns[j] == s;
      }
    }

    /**
    A domain rule decides if SearchDomain finds one; otherwise load balancing sorts the configured
    servers; otherwise they come in configured order. The list is never empty.
    */
    method Nameservers(qname: string) returns (ns: seq<string>)
      requires Valid() && domainServer.Valid()
      ensures ns != []
      ensures var rule := Found(domainServer.Shape(), QueryKeys(qname));
              if rule != "" then ns == RuleServers(settings, rule)
              else if settings.loadBalance then FastestFirst(ns, Rtts())
              else ns == if settings.servers != [] then settings.servers else ["8.8.8.8:53", "8.8.4.4:53"]
    {
      var rule, found := domainServer.SearchDomain(QueryKeys(qname));
      if found {
        var parts := Split(rule, ',');
        ns := parts;
        var i := 0;
        while i < |ns|
          invariant 0 <= i <= |ns| == |parts|
          invariant forall j :: 0 <= j < i ==> ns[j] == settings.addPort(parts[j])
          invariant forall j :: i <= j < |ns| ==> ns[j] == parts[j]
        {
          ns := ns[i := settings.addPort(ns[i])];
          i := i + 1;
        }
        return;
      }
      if settings.loadBalance {
        ns := SortedServers();
        assert Upstreams(settings)[0] in Upstreams(settings);
        assert Upstreams(settings)[0] in ns;
        if |ns| > 0 {
          return;
        }
      }
      if settings.servers != [] {
        return settings.servers;
      }
      ns := DEFAULT_SERVERS;
    }
  }
}
