/**
DNSSEC validation (features/dnssec). The network is an arbitrary oracle; signature verification, DS
computation and key tags are arbitrary functions; trust anchors are a map from key tag to key.
*/
module Dnssec {
  import opened Messages
  import opened DomainNames

  const TYPE_DS: nat := 43
  const TYPE_RRSIG: nat := 46
  const TYPE_DNSKEY: nat := 48

  datatype DnsKey = DnsKey(name: string, rrclass: nat, flags: nat, material: string)
  datatype RrSig = RrSig(name: string, rrclass: nat, covered: nat, keyTag: nat, signer: string,
                         inception: nat, expiration: nat, signature: string)
  datatype DsRec = DsRec(name: string, rrclass: nat, keyTag: nat, digestType: nat, digest: string)

  datatype RawRR =
    | DNSKEY(key: DnsKey)
    | RRSIG(sig: RrSig)
    | DS(ds: DsRec)
    | Other(owner: string, rrclass: nat, rrtype: nat, data: string)
  {
    function Name(): string {
      match this case DNSKEY(k) => k.name case RRSIG(s) => s.name case DS(d) => d.name case Other(n, _, _, _) => n
    }
    function Class(): nat {
      match this case DNSKEY(k) => k.rrclass case RRSIG(s) => s.rrclass case DS(d) => d.rrclass case Other(_, c, _, _) => c
    }
    function Type(): nat {
      match this case DNSKEY(_) => TYPE_DNSKEY case RRSIG(_) => TYPE_RRSIG case DS(_) => TYPE_DS case Other(_, _, t, _) => t
    }
  }

  /** A parsed record: the Go type always agrees with the type in the header. */
  type RR = r: RawRR | r.Other? ==> r.rrtype != TYPE_DS && r.rrtype != TYPE_RRSIG && r.rrtype != TYPE_DNSKEY
    witness Other("", 0, 0, "")

  datatype Reply = Reply(answer: seq<RR>, ns: seq<RR>, extra: seq<RR>)

  datatype World = World(
    verify: (RrSig, DnsKey, seq<RR>) -> bool,
    toDs: (DnsKey, nat) -> Option<(nat, string)>,
    keyTag: DnsKey -> nat,
    anchors: map<nat, DnsKey>,
    fetchDs: (string, string) -> Option<Reply>,
    fetchKeys: string -> Option<Reply>)

  datatype Verdict =
    | Valid
    | NothingToValidate | NoSignedSets
    | EmptySet | NoRrsig | SignatureExpired | SignatureNotYetValid | KeyNotFound | SignatureInvalid
    | RootNotAnchor | NoParent | DsFetchFailed | NoDs | NoDsSignature | DsMismatch
    | KeyFetchFailed | NoParentKey | DsSignatureInvalid

  predicate Anchored(w: World, k: DnsKey) {
    w.keyTag(k) in w.anchors
  }

  // ---------------------------------------------------------------- what the loops compute

  function DsSet(rrs: seq<RR>, owner: string): seq<RR> {
    if rrs == [] then []
    else
      var rr := rrs[|rrs| - 1];
      DsSet(rrs[..|rrs| - 1], owner) + if rr.Name() == owner && rr.Type() == TYPE_DS then [rr] else []
  }

  predicate SignsDs(rr: RR, owner: string) {
    rr.RRSIG? && rr.sig.covered == TYPE_DS && rr.sig.name == owner
  }

  /** The last signature over the DS set of owner. */
  function LastDsSig(rrs: seq<RR>, owner: string): Option<RrSig> {
    if rrs == [] then None
    else if SignsDs(rrs[|rrs| - 1], owner) then Some(rrs[|rrs| - 1].sig)
    else LastDsSig(rrs[..|rrs| - 1], owner)
  }

  /** The DS record is the digest of the key: same tag, same digest. */
  predicate DsOf(w: World, k: DnsKey, rr: RR) {
    rr.DS? && w.toDs(k, rr.ds.digestType) == Some((rr.ds.keyTag, rr.ds.digest))
  }

  predicate IsKey(w: World, rr: RR, owner: string, tag: nat) {
    rr.DNSKEY? && rr.key.name == owner && w.keyTag(rr.key) == tag
  }

  function FirstKey(w: World, rrs: seq<RR>, owner: string, tag: nat): Option<DnsKey> {
    if rrs == [] then None
    else if IsKey(w, rrs[0], owner, tag) then Some(rrs[0].key)
    else FirstKey(w, rrs[1..], owner, tag)
  }

  lemma {:induction false} DsSetSound(rrs: seq<RR>, owner: string)
    ensures forall i :: 0 <= i < |DsSet(rrs, owner)| ==>
              var rr := DsSet(rrs, owner)[i]; rr.DS? && rr.ds.name == owner && rr in rrs
  {
    if rrs != [] { DsSetSound(rrs[..|rrs| - 1], owner); }
  }

  lemma {:induction false} LastDsSigSound(rrs: seq<RR>, owner: string)
    requires LastDsSig(rrs, owner).Some?
    ensures var s := LastDsSig(rrs, owner).value; s.covered == TYPE_DS && s.name == owner && RRSIG(s) in rrs
  {
    if !SignsDs(rrs[|rrs| - 1], owner) { LastDsSigSound(rrs[..|rrs| - 1], owner); }
  }

  lemma {:induction false} FirstKeySound(w: World, rrs: seq<RR>, owner: string, tag: nat)
    requires FirstKey(w, rrs, owner, tag).Some?
    ensures var k := FirstKey(w, rrs, owner, tag).value;
            k.name == owner && w.keyTag(k) == tag && DNSKEY(k) in rrs
  {
    if !IsKey(w, rrs[0], owner, tag) { FirstKeySound(w, rrs[1..], owner, tag); }
  }

  /** The DS set keeps every DS record of the owner, in order, and nothing else. */
  lemma {:induction false} DsSetConcat(a: seq<RR>, rr: RR, b: seq<RR>, owner: string)
    ensures DsSet(a + [rr] + b, owner) ==
              DsSet(a, owner) + (if rr.DS? && rr.ds.name == owner then [rr] else []) + DsSet(b, owner)
  {
    var all := a + [rr] + b;
    if b == [] {
      assert all[..|all| - 1] == a;
    } else {
      assert all[..|all| - 1] == a + [rr] + b[..|b| - 1];
      DsSetConcat(a, rr, b[..|b| - 1], owner);
    }
  }

  lemma DsSetHolds(rrs: seq<RR>, owner: string, rr: RR)
    ensures rr in DsSet(rrs, owner) <==> rr in rrs && rr.DS? && rr.ds.name == owner
  {
    DsSetSound(rrs, owner);
    if rr in rrs {
      var i :| 0 <= i < |rrs| && rrs[i] == rr;
      assert rrs == rrs[..i] + [rr] + rrs[i + 1..];
      DsSetConcat(rrs[..i], rr, rrs[i + 1..], owner);
    }
  }

  predicate OverDs(rr: RR, owner: string) {
    rr.RRSIG? && rr.sig.covered == 43 && rr.sig.name == owner
  }

  /** s signs the DS set of owner and no later signature does. */
  ghost predicate LastOver(rrs: seq<RR>, owner: string, s: RrSig) {
    exists i :: 0 <= i < |rrs| && rrs[i] == RRSIG(s) && OverDs(rrs[i], owner) && forall j :: i < j < |rrs| ==> !OverDs(rrs[j], owner)
  }

  lemma {:induction false} LastDsSigIs(rrs: seq<RR>, owner: string)
    ensures match LastDsSig(rrs, owner)
      case Some(s) => LastOver(rrs, owner, s)
      case None => forall i :: 0 <= i < |rrs| ==> !OverDs(rrs[i], owner)
  {
    if rrs != [] && !SignsDs(rrs[|rrs| - 1], owner) {
      var before := rrs[..|rrs| - 1];
      LastDsSigIs(before, owner);
      if LastDsSig(before, owner).Some? {
        var s := LastDsSig(before, owner).value;
        var i :| 0 <= i < |before| && before[i] == RRSIG(s) && OverDs(before[i], owner) && forall j :: i < j < |before| ==> !OverDs(before[j], owner);
        assert rrs[i] == RRSIG(s);
        assert forall j :: i < j < |before| ==> rrs[j] == before[j];
      }
    }
  }

  predicate KeyOfZone(w: World, rr: RR, owner: string, tag: nat) {
    rr.DNSKEY? && rr.key.name == owner && w.keyTag(rr.key) == tag
  }

  /** k has the owner and tag and no earlier key does. */
  ghost predicate FirstOf(w: World, rrs: seq<RR>, owner: string, tag: nat, k: DnsKey) {
    exists i :: 0 <= i < |rrs| && rrs[i] == DNSKEY(k) && KeyOfZone(w, rrs[i], owner, tag)
      && forall j :: 0 <= j < i ==> !KeyOfZone(w, rrs[j], owner, tag)
  }

  lemma {:induction false} FirstKeyIs(w: World, rrs: seq<RR>, owner: string, tag: nat)
    ensures match FirstKey(w, rrs, owner, tag)
      case Some(k) => FirstOf(w, rrs, owner, tag, k)
      case None => forall i :: 0 <= i < |rrs| ==> !KeyOfZone(w, rrs[i], owner, tag)
  {
    if rrs != [] && !IsKey(w, rrs[0], owner, tag) {
      var rest := rrs[1..];
      FirstKeyIs(w, rest, owner, tag);
      assert forall j :: 1 <= j < |rrs| ==> rrs[j] == rest[j - 1];
      if FirstKey(w, rest, owner, tag).Some? {
        var k := FirstKey(w, rest, owner, tag).value;
        var i :| 0 <= i < |rest| && rest[i] == DNSKEY(k) && KeyOfZone(w, rest[i], owner, tag)
          && forall j :: 0 <= j < i ==> !KeyOfZone(w, rest[j], owner, tag);
        assert rrs[i + 1] == DNSKEY(k);
      }
    }
  }

  // ---------------------------------------------------------------- the chain

  /** The outcome of validateChain and how many queries it made. */
  datatype Trail = Trail(verdict: Verdict, dsFetches: nat, keyFetches: nat)

  /** One level of validateChain: the parent's signing key, or the reason to stop. */
  datatype Climb = Stopped(verdict: Verdict, dsFetches: nat, keyFetches: nat) | Climbed(key: DnsKey)

  function Up(w: World, k: DnsKey): Climb {
    if k.name == "." then Stopped(RootNotAnchor, 0, 0)
    else
      var zone := Parent(k.name);
      if zone == "" then Stopped(NoParent, 0, 0)
      else match w.fetchDs(zone, k.name)
        case None => Stopped(DsFetchFailed, 1, 0)
        case Some(m) =>
          var ds := DsSet(m.answer + m.ns, Fqdn(k.name));
          var sig := LastDsSig(m.answer + m.ns, Fqdn(k.name));
          if ds == [] then Stopped(NoDs, 1, 0)
          else if sig.None? then Stopped(NoDsSignature, 1, 0)
          else if forall i :: 0 <= i < |ds| ==> !DsOf(w, k, ds[i]) then Stopped(DsMismatch, 1, 0)
          else match w.fetchKeys(zone)
            case None => Stopped(KeyFetchFailed, 1, 1)
            case Some(km) =>
              match FirstKey(w, km.answer + km.ns, Fqdn(zone), sig.value.keyTag)
              case None => Stopped(NoParentKey, 1, 1)
              case Some(pk) => if w.verify(sig.value, pk, ds) then Climbed(pk) else Stopped(DsSignatureInvalid, 1, 1)
  }

  predicate MatchesDs(w: World, k: DnsKey, rr: RR) {
    rr.DS? && rr.ds.name == Fqdn(k.name) && w.toDs(k, rr.ds.digestType) == Some((rr.ds.keyTag, rr.ds.digest))
  }

  /**
  What the two replies must hold for a step up to pk, in answer and authority section alike: a DS
  record of k, and as the last signature over the DS set one that verifies the set with pk, the first
  key of the parent zone with its tag.
  */
  ghost predicate LeadsUp(w: World, k: DnsKey, pk: DnsKey, m: Reply, km: Reply, sig: RrSig) {
    && (exists rr :: (rr in m.answer || rr in m.ns) && MatchesDs(w, k, rr))
    && LastOver(m.answer + m.ns, Fqdn(k.name), sig)
    && FirstOf(w, km.answer + km.ns, Fqdn(Parent(k.name)), sig.keyTag, pk)
    && w.verify(sig, pk, DsSet(m.answer + m.ns, Fqdn(k.name)))
  }

  lemma LastOverUnique(rrs: seq<RR>, owner: string, s: RrSig)
    requires LastOver(rrs, owner, s)
    ensures LastDsSig(rrs, owner) == Some(s)
  {
    LastDsSigIs(rrs, owner);
  }

  lemma FirstOfUnique(w: World, rrs: seq<RR>, owner: string, tag: nat, k: DnsKey)
    requires FirstOf(w, rrs, owner, tag, k)
    ensures FirstKey(w, rrs, owner, tag) == Some(k)
  {
    FirstKeyIs(w, rrs, owner, tag);
  }

  lemma DsFound(w: World, k: DnsKey, m: Reply)
    ensures var ds := DsSet(m.answer + m.ns, Fqdn(k.name));
      (exists i :: 0 <= i < |ds| && DsOf(w, k, ds[i])) <==> exists rr :: (rr in m.answer || rr in m.ns) && MatchesDs(w, k, rr)
  {
    var rrs, owner := m.answer + m.ns, Fqdn(k.name);
    var ds := DsSet(rrs, owner);
    if i :| 0 <= i < |ds| && DsOf(w, k, ds[i]) {
      DsSetHolds(rrs, owner, ds[i]);
      assert MatchesDs(w, k, ds[i]);
    }
    if rr :| (rr in m.answer || rr in m.ns) && MatchesDs(w, k, rr) {
      DsSetHolds(rrs, owner, rr);
      var i :| 0 <= i < |ds| && ds[i] == rr;
      assert DsOf(w, k, ds[i]);
    }
  }

  /** One level of validateChain climbs to pk exactly on that evidence. */
  lemma UpIff(w: World, k: DnsKey, pk: DnsKey)
    ensures Up(w, k) == Climbed(pk) <==>
      var zone := Parent(k.name);
      && k.name != "." && zone != "" && w.fetchDs(zone, k.name).Some? && w.fetchKeys(zone).Some?
      && exists sig :: LeadsUp(w, k, pk, w.fetchDs(zone, k.name).value, w.fetchKeys(zone).value, sig)
  {
    var zone := Parent(k.name);
    if k.name != "." && zone != "" && w.fetchDs(zone, k.name).Some? && w.fetchKeys(zone).Some? {
      var m, km := w.fetchDs(zone, k.name).value, w.fetchKeys(zone).value;
      DsFound(w, k, m);
      LastDsSigIs(m.answer + m.ns, Fqdn(k.name));
      if Up(w, k) == Climbed(pk) {
        var sig := LastDsSig(m.answer + m.ns, Fqdn(k.name)).value;
        FirstKeyIs(w, km.answer + km.ns, Fqdn(zone), sig.keyTag);
        assert LeadsUp(w, k, pk, m, km, sig);
      }
      if sig :| LeadsUp(w, k, pk, m, km, sig) {
        LastOverUnique(m.answer + m.ns, Fqdn(k.name), sig);
        FirstOfUnique(w, km.answer + km.ns, Fqdn(zone), sig.keyTag, pk);
      }
    }
  }

  /** When a step stops, the reason given is true of the replies. */
  lemma StopIsTruthful(w: World, k: DnsKey)
    requires Up(w, k).Stopped? && w.fetchDs(Parent(k.name), k.name).Some?
    ensures var m := w.fetchDs(Parent(k.name), k.name).value;
      var rrs, owner, v := m.answer + m.ns, Fqdn(k.name), Up(w, k).verdict;
      && (v == NoDs ==> forall rr :: rr in rrs ==> !(rr.DS? && rr.ds.name == owner))
      && (v == NoDsSignature ==> forall i :: 0 <= i < |rrs| ==> !OverDs(rrs[i], owner))
      && (v == DsMismatch ==> forall rr :: rr in rrs ==> !MatchesDs(w, k, rr))
  {
    var m := w.fetchDs(Parent(k.name), k.name).value;
    var rrs := m.answer + m.ns;
    forall rr ensures rr in DsSet(rrs, Fqdn(k.name)) <==> rr in rrs && rr.DS? && rr.ds.name == Fqdn(k.name) {
      DsSetHolds(rrs, Fqdn(k.name), rr);
    }
    LastDsSigIs(rrs, Fqdn(k.name));
    DsFound(w, k, m);
  }

  lemma UpShrinks(w: World, k: DnsKey)
    requires Up(w, k).Climbed?
    ensures Up(w, k).key.name == Fqdn(Parent(k.name)) && Parent(k.name) != "" && k.name != "."
    ensures |Fqdn(Up(w, k).key.name)| < |Fqdn(k.name)|
            || (|Fqdn(Up(w, k).key.name)| == |Fqdn(k.name)| && !IsFqdn(Fqdn(k.name)) && IsFqdn(Fqdn(Up(w, k).key.name)))
  {
    var zone := Parent(k.name);
    var rrs := w.fetchKeys(zone).value.answer + w.fetchKeys(zone).value.ns;
    var m := w.fetchDs(zone, k.name).value;
    FirstKeySound(w, rrs, Fqdn(zone), LastDsSig(m.answer + m.ns, Fqdn(k.name)).value.keyTag);
    ParentShrinks(k.name);
  }

  function Chain(w: World, k: DnsKey): Trail
    decreases |Fqdn(k.name)|, !IsFqdn(Fqdn(k.name))
  {
    match Up(w, k)
    case Stopped(v, d, q) => Trail(v, d, q)
    case Climbed(pk) =>
      UpShrinks(w, k);
      if Anchored(w, pk) then Trail(Valid, 1, 1)
      else
        var rest := Chain(w, pk);
        Trail(rest.verdict, rest.dsFetches + 1, rest.keyFetches + 1)
  }

  /** A non-empty DS set of k's owner that pk signed under its tag and that holds the tag and digest of k. */
  ghost predicate DsEvidence(w: World, pk: DnsKey, k: DnsKey, sig: RrSig, ds: seq<RR>) {
    && ds != []
    && (forall i :: 0 <= i < |ds| ==> ds[i].DS? && ds[i].ds.name == Fqdn(k.name))
    && (exists i :: 0 <= i < |ds| && DsOf(w, k, ds[i]))
    && sig.covered == TYPE_DS && sig.name == Fqdn(k.name) && sig.keyTag == w.keyTag(pk)
    && w.verify(sig, pk, ds)
  }

  /**
  pk vouches for k as section 5.2 of RFC 4035 asks: it is a key of the parent zone and verifies a
  non-empty DS set of k's owner in which some DS record has the tag and digest of k.
  */
  ghost predicate Vouches(w: World, pk: DnsKey, k: DnsKey) {
    && k.name != "." && Parent(k.name) != "" && pk.name == Fqdn(Parent(k.name))
    && exists sig, ds :: DsEvidence(w, pk, k, sig, ds)
  }

  /** Each key is vouched for by the next, and the last carries the tag of a trust anchor. */
  ghost predicate TrustPath(w: World, ks: seq<DnsKey>) {
    && |ks| >= 2
    && Anchored(w, ks[|ks| - 1])
    && forall i :: 0 <= i < |ks| - 1 ==> Vouches(w, ks[i + 1], ks[i])
  }

  lemma UpVouches(w: World, k: DnsKey)
    requires Up(w, k).Climbed?
    ensures Vouches(w, Up(w, k).key, k)
  {
    var zone := Parent(k.name);
    var m := w.fetchDs(zone, k.name).value;
    var km := w.fetchKeys(zone).value;
    var ds := DsSet(m.answer + m.ns, Fqdn(k.name));
    var sig := LastDsSig(m.answer + m.ns, Fqdn(k.name)).value;
    DsSetSound(m.answer + m.ns, Fqdn(k.name));
    LastDsSigSound(m.answer + m.ns, Fqdn(k.name));
    FirstKeySound(w, km.answer + km.ns, Fqdn(zone), sig.keyTag);
    assert DsEvidence(w, Up(w, k).key, k, sig, ds);
  }

  /** The keys validateChain visits from ks[0] up to the first one with the tag of an anchor. */
  ghost predicate Climbs(w: World, ks: seq<DnsKey>) {
    && |ks| >= 2
    && Anchored(w, ks[|ks| - 1])
    && (forall i :: 1 <= i < |ks| - 1 ==> !Anchored(w, ks[i]))
    && (forall i :: 0 <= i < |ks| - 1 ==> Up(w, ks[i]) == Climbed(ks[i + 1]))
  }

  lemma ClimbsLonger(w: World, k: DnsKey, ks: seq<DnsKey>)
    requires Climbs(w, ks) && Up(w, k) == Climbed(ks[0]) && !Anchored(w, ks[0])
    ensures Climbs(w, [k] + ks)
  {
    var all := [k] + ks;
    forall i | 0 <= i < |all| - 1 ensures Up(w, all[i]) == Climbed(all[i + 1]) {
      if i > 0 { assert all[i] == ks[i - 1] && all[i + 1] == ks[i - 1 + 1]; }
    }
  }

  lemma {:induction false} ChainClimbs(w: World, k: DnsKey) returns (ks: seq<DnsKey>)
    requires Chain(w, k).verdict.Valid?
    ensures Climbs(w, ks) && ks[0] == k
    ensures Chain(w, k).dsFetches == Chain(w, k).keyFetches == |ks| - 1
    decreases |Fqdn(k.name)|, !IsFqdn(Fqdn(k.name))
  {
    var pk := Up(w, k).key;
    if Anchored(w, pk) {
      ks := [k, pk];
    } else {
      UpShrinks(w, k);
      var rest := ChainClimbs(w, pk);
      ClimbsLonger(w, k, rest);
      ks := [k] + rest;
    }
  }

  /** Completeness: if climbing from key to key reaches an anchor, validation succeeds. */
  lemma {:induction false} ClimbValidates(w: World, ks: seq<DnsKey>)
    requires Climbs(w, ks)
    ensures Chain(w, ks[0]).verdict.Valid?
  {
    assert Up(w, ks[0]) == Climbed(ks[0 + 1]);
    if |ks| > 2 {
      var rest := ks[1..];
      forall i | 0 <= i < |rest| - 1 ensures Up(w, rest[i]) == Climbed(rest[i + 1]) {
        assert Up(w, ks[i + 1]) == Climbed(ks[i + 1 + 1]);
      }
      assert Climbs(w, rest);
      ClimbValidates(w, rest);
    }
  }

  lemma ClimbIsTrusted(w: World, ks: seq<DnsKey>)
    requires Climbs(w, ks)
    ensures TrustPath(w, ks)
  {
    forall i | 0 <= i < |ks| - 1 ensures Vouches(w, ks[i + 1], ks[i]) {
      assert Up(w, ks[i]) == Climbed(ks[i + 1]);
      UpVouches(w, ks[i]);
    }
  }

  /** Soundness, whatever the network replies: success means a path of vouched keys to an anchor, two queries a step. */
  lemma ChainSound(w: World, k: DnsKey) returns (ks: seq<DnsKey>)
    requires Chain(w, k).verdict.Valid?
    ensures TrustPath(w, ks) && ks[0] == k
    ensures Chain(w, k).dsFetches == Chain(w, k).keyFetches == |ks| - 1
  {
    ks := ChainClimbs(w, k);
    ClimbIsTrusted(w, ks);
  }

  /** Validation succeeds exactly when the keys the replies lead to end at an anchor. */
  lemma ChainValidIff(w: World, k: DnsKey)
    ensures Chain(w, k).verdict.Valid? <==> exists ks :: Climbs(w, ks) && ks[0] == k
  {
    if Chain(w, k).verdict.Valid? {
      var ks := ChainClimbs(w, k);
      assert Climbs(w, ks) && ks[0] == k;
    }
    if ks :| Climbs(w, ks) && ks[0] == k {
      ClimbValidates(w, ks);
    }
  }

  /**
  Termination and reach for a key owned by a proper name of L labels: at most L - 1 queries of each
  kind, and the root case is never met.
  */
  lemma {:induction false} ChainReach(w: World, k: DnsKey)
    requires Proper(k.name)
    ensures Chain(w, k).keyFetches <= Chain(w, k).dsFetches <= |Split(k.name)| - 1
    ensures Chain(w, k).verdict != RootNotAnchor
    decreases |Split(k.name)|
  {
    ParentDropsOneLabel(k.name);
    if Up(w, k).Climbed? {
      UpShrinks(w, k);
      var pk := Up(w, k).key;
      assert pk.name == Parent(k.name);
      if !Anchored(w, pk) {
        ChainReach(w, pk);
      }
    }
  }

  lemma {:induction false} PathLabels(w: World, ks: seq<DnsKey>, i: nat)
    requires TrustPath(w, ks) && Proper(ks[0].name) && i < |ks|
    ensures Proper(ks[i].name) && |Split(ks[i].name)| == |Split(ks[0].name)| - i >= 1
  {
    ParentDropsOneLabel(ks[0].name);
    if i > 0 {
      PathLabels(w, ks, i - 1);
      assert Vouches(w, ks[i - 1 + 1], ks[i - 1]);
      ParentDropsOneLabel(ks[i - 1].name);
      ParentDropsOneLabel(ks[i].name);
    }
  }

  /**
  Every success climbs one label a step and ends, below the root, at a key of a proper zone: the
  last key of the path has at least one label.
  */
  lemma SuccessEndsBelowRoot(w: World, k: DnsKey) returns (ks: seq<DnsKey>)
    requires Proper(k.name) && Chain(w, k).verdict.Valid?
    ensures TrustPath(w, ks) && ks[0] == k
    ensures var last := ks[|ks| - 1];
            Proper(last.name) && |Split(last.name)| == |Split(k.name)| - (|ks| - 1) >= 1
  {
    ks := ChainSound(w, k);
    PathLabels(w, ks, |ks| - 1);
  }

  // ---------------------------------------------------------------- the loops of validateChain

  method CollectDs(rrs: seq<RR>, owner: string) returns (ds: seq<RR>, sig: Option<RrSig>)
    ensures ds == DsSet(rrs, owner) && sig == LastDsSig(rrs, owner)
  {
    ds, sig := [], None;
    var i := 0;
    while i < |rrs|
      invariant 0 <= i <= |rrs|
      invariant ds == DsSet(rrs[..i], owner) && sig == LastDsSig(rrs[..i], owner)
    {
      var rr := rrs[i];
      assert rrs[..i + 1][..i] == rrs[..i];
      if rr.Name() == owner && rr.Type() == TYPE_DS {
        ds := ds + [rr];
      }
      if SignsDs(rr, owner) {
        sig := Some(rr.sig);
      }
      i := i + 1;
    }
    assert rrs[..i] == rrs;
  }

  method MatchDs(w: World, k: DnsKey, ds: seq<RR>) returns (found: bool)
    requires forall i :: 0 <= i < |ds| ==> ds[i].DS?
    ensures found <==> exists i :: 0 <= i < |ds| && DsOf(w, k, ds[i])
  {
    found := false;
    var i := 0;
    while i < |ds|
      invariant 0 <= i <= |ds|
      invariant !found && forall j :: 0 <= j < i ==> !DsOf(w, k, ds[j])
    {
      var generated := w.toDs(k, ds[i].ds.digestType);
      if generated.Some? && ds[i].ds.keyTag == generated.value.0 && ds[i].ds.digest == generated.value.1 {
        assert DsOf(w, k, ds[i]);
        found := true;
        break;
      }
      i := i + 1;
    }
  }

  method FindKey(w: World, rrs: seq<RR>, owner: string, tag: nat) returns (k: Option<DnsKey>)
    ensures k == FirstKey(w, rrs, owner, tag)
  {
    var i := 0;
    while i < |rrs|
      invariant 0 <= i <= |rrs|
      invariant FirstKey(w, rrs, owner, tag) == FirstKey(w, rrs[i..], owner, tag)
    {
      if IsKey(w, rrs[i], owner, tag) {
        return Some(rrs[i].key);
      }
      assert rrs[i..][1..] == rrs[i + 1..];
      i := i + 1;
    }
    k := None;
  }

  method ValidateChain(w: World, k: DnsKey) returns (r: Trail)
    ensures r == Chain(w, k)
    decreases |Fqdn(k.name)|, !IsFqdn(Fqdn(k.name))
  {
    if k.name == "." {
      return Trail(RootNotAnchor, 0, 0);
    }
    var zone := Parent(k.name);
    if zone == "" {
      return Trail(NoParent, 0, 0);
    }
    var m := w.fetchDs(zone, k.name);
    if m.None? {
      return Trail(DsFetchFailed, 1, 0);
    }
    var ds, sig := CollectDs(m.value.answer + m.value.ns, Fqdn(k.name));
    if ds == [] {
      return Trail(NoDs, 1, 0);
    }
    if sig.None? {
      return Trail(NoDsSignature, 1, 0);
    }
    DsSetSound(m.value.answer + m.value.ns, Fqdn(k.name));
    var found := MatchDs(w, k, ds);
    if !found {
      return Trail(DsMismatch, 1, 0);
    }
    var km := w.fetchKeys(zone);
    if km.None? {
      return Trail(KeyFetchFailed, 1, 1);
    }
    var pk := FindKey(w, km.value.answer + km.value.ns, Fqdn(zone), sig.value.keyTag);
    if pk.None? {
      return Trail(NoParentKey, 1, 1);
    }
    if !w.verify(sig.value, pk.value, ds) {
      return Trail(DsSignatureInvalid, 1, 1);
    }
    assert Up(w, k) == Climbed(pk.value);
    UpShrinks(w, k);
    if Anchored(w, pk.value) {
      return Trail(Valid, 1, 1);
    }
    var rest := ValidateChain(w, pk.value);
    return Trail(rest.verdict, rest.dsFetches + 1, rest.keyFetches + 1);
  }
}
