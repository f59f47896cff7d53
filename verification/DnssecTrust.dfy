/**
What a successful validation is worth (features/dnssec). Trust goes by key tag, at two places: the
direct test of validateRRset and the test after each step of validateChain. A success ends at a
configured key only when, at both places, no other key with an anchor's tag can take its part.
*/
module DnssecTrust {
  import opened Messages
  import opened DomainNames
  import opened Dnssec
  import opened DnssecGroups

  type DsOracle = (string, string) -> Option<Reply>
  type KeyOracle = string -> Option<Reply>

  /** The same keys, anchors and cryptography with other replies from the network. */
  ghost function Answering(w: World, f: DsOracle, g: KeyOracle): World {
    w.(fetchDs := f, fetchKeys := g)
  }

  /** k is the very key configured under its tag. */
  predicate Configured(w: World, k: DnsKey) {
    Anchored(w, k) && w.anchors[w.keyTag(k)] == k
  }

  // ---------------------------------------------------------------- replies that show a vouching key

  lemma {:induction false} DsSetOfDs(ds: seq<RR>, owner: string)
    requires forall i :: 0 <= i < |ds| ==> ds[i].DS? && ds[i].ds.name == owner
    ensures DsSet(ds, owner) == ds
  {
    if ds != [] {
      DsSetOfDs(ds[..|ds| - 1], owner);
      assert ds == ds[..|ds| - 1] + [ds[|ds| - 1]];
    }
  }

  lemma SignedDsSet(ds: seq<RR>, sig: RrSig)
    requires forall i :: 0 <= i < |ds| ==> ds[i].DS? && ds[i].ds.name == sig.name
    requires sig.covered == TYPE_DS
    ensures var rrs: seq<RR> := ds + [RRSIG(sig)] + [];
            DsSet(rrs, sig.name) == ds && LastDsSig(rrs, sig.name) == Some(sig)
  {
    var signed: RR := RRSIG(sig);
    var rrs := ds + [signed];
    assert rrs + [] == rrs && rrs[..|ds|] == ds && rrs[|ds|] == signed;
    assert SignsDs(signed, sig.name);
    DsSetOfDs(ds, sig.name);
    assert ds + [] == ds;
  }

  /** Whoever vouches for a key can be what the network leads to. */
  lemma RepliesFor(w: World, pk: DnsKey, k: DnsKey) returns (f: DsOracle, g: KeyOracle)
    requires Vouches(w, pk, k)
    ensures Up(Answering(w, f, g), k) == Climbed(pk)
  {
    var sig, ds :| DsEvidence(w, pk, k, sig, ds);
    var signed: RR := RRSIG(sig);
    var key: RR := DNSKEY(pk);
    f := (zone, name) => Some(Reply(ds + [signed], [], []));
    g := zone => Some(Reply([key], [], []));
    SignedDsSet(ds, sig);
    var v := Answering(w, f, g);
    assert forall i :: 0 <= i < |ds| && DsOf(w, k, ds[i]) ==> DsOf(v, k, ds[i]);
    assert [key] + [] == [key];
    assert IsKey(v, key, pk.name, sig.keyTag);
    assert FirstKey(v, [key], pk.name, sig.keyTag) == Some(pk);
  }

  /** A key with the tag of an anchor that vouches for k makes k validate, under suitable replies. */
  lemma TagSuffices(w: World, pk: DnsKey, k: DnsKey) returns (f: DsOracle, g: KeyOracle)
    requires Vouches(w, pk, k) && Anchored(w, pk)
    ensures Climbs(Answering(w, f, g), [k, pk]) && Chain(Answering(w, f, g), k).verdict.Valid?
  {
    f, g := RepliesFor(w, pk, k);
    assert Climbs(Answering(w, f, g), [k, pk]);
    ClimbValidates(Answering(w, f, g), [k, pk]);
  }

  // ---------------------------------------------------------------- replies for a whole path

  ghost predicate VouchedPath(w: World, ks: seq<DnsKey>) {
    |ks| >= 1 && forall i :: 0 <= i < |ks| - 1 ==> Vouches(w, ks[i + 1], ks[i])
  }

  /** From the second key on, owner names on a path are fully qualified and get shorter. */
  lemma {:induction false} PathShortens(w: World, ks: seq<DnsKey>, i: nat, j: nat)
    requires VouchedPath(w, ks) && 1 <= i <= j < |ks|
    ensures IsFqdn(ks[i].name) && IsFqdn(ks[j].name)
    ensures i < j ==> |ks[j].name| < |ks[i].name|
    ensures |ks[i].name| < |Fqdn(ks[0].name)| || !IsFqdn(Fqdn(ks[0].name))
  {
    assert Vouches(w, ks[j - 1 + 1], ks[j - 1]);
    ParentShrinks(ks[j - 1].name);
    if i < j {
      PathShortens(w, ks, i, j - 1);
    } else if 1 < i {
      PathShortens(w, ks, i - 1, i - 1);
    }
  }

  /** The queries for later keys differ from those for the first. */
  lemma QueriesDiffer(w: World, ks: seq<DnsKey>, i: nat)
    requires VouchedPath(w, ks) && 1 <= i < |ks| - 1
    ensures ks[i].name != ks[0].name && Parent(ks[i].name) != Parent(ks[0].name)
  {
    PathShortens(w, ks, 1, i + 1);
    PathShortens(w, ks, i, i);
    assert Vouches(w, ks[0 + 1], ks[0]) && Vouches(w, ks[i + 1], ks[i]);
  }

  lemma {:induction false} FirstKeySame(v: World, w: World, rrs: seq<RR>, owner: string, tag: nat)
    requires forall k :: v.keyTag(k) == w.keyTag(k)
    ensures FirstKey(v, rrs, owner, tag) == FirstKey(w, rrs, owner, tag)
  {
    if rrs != [] { FirstKeySame(v, w, rrs[1..], owner, tag); }
  }

  /** A step up depends on the replies to its own two queries only. */
  lemma UpSame(w: World, f: DsOracle, g: KeyOracle, f': DsOracle, g': KeyOracle, k: DnsKey)
    requires f(Parent(k.name), k.name) == f'(Parent(k.name), k.name) && g(Parent(k.name)) == g'(Parent(k.name))
    ensures Up(Answering(w, f, g), k) == Up(Answering(w, f', g'), k)
  {
    var v, v' := Answering(w, f, g), Answering(w, f', g');
    var zone := Parent(k.name);
    var m, km := f(zone, k.name), g(zone);
    if m.Some? && km.Some? {
      var sig := LastDsSig(m.value.answer + m.value.ns, Fqdn(k.name));
      if sig.Some? {
        FirstKeySame(v, v', km.value.answer + km.value.ns, Fqdn(zone), sig.value.keyTag);
      }
    }
    assert forall rr: RR :: DsOf(v, k, rr) == DsOf(v', k, rr);
  }

  ghost predicate LeadsAlong(w: World, f: DsOracle, g: KeyOracle, ks: seq<DnsKey>) {
    forall i :: 0 <= i < |ks| - 1 ==> Up(Answering(w, f, g), ks[i]) == Climbed(ks[i + 1])
  }

  /** The network can lead along any path of vouched keys. */
  lemma {:induction false} PathReplies(w: World, ks: seq<DnsKey>) returns (f: DsOracle, g: KeyOracle)
    requires VouchedPath(w, ks)
    ensures LeadsAlong(w, f, g, ks)
  {
    if |ks| == 1 {
      f, g := (zone, name) => None, zone => None;
    } else {
      var rest := ks[1..];
      assert VouchedPath(w, rest) by {
        forall i | 0 <= i < |rest| - 1 ensures Vouches(w, rest[i + 1], rest[i]) {
          assert Vouches(w, ks[i + 1 + 1], ks[i + 1]);
        }
      }
      var f', g' := PathReplies(w, rest);
      assert Vouches(w, ks[0 + 1], ks[0]);
      var f0, g0 := RepliesFor(w, ks[1], ks[0]);
      var n, z := ks[0].name, Parent(ks[0].name);
      f := (zone, name) => if name == n then f0(zone, name) else f'(zone, name);
      g := zone => if zone == z then g0(zone) else g'(zone);
      UpSame(w, f, g, f0, g0, ks[0]);
      forall i | 0 <= i < |ks| - 1 ensures Up(Answering(w, f, g), ks[i]) == Climbed(ks[i + 1]) {
        if i > 0 {
          QueriesDiffer(w, ks, i);
          UpSame(w, f, g, f', g', ks[i]);
          assert Up(Answering(w, f', g'), rest[i - 1]) == Climbed(rest[i - 1 + 1]);
        }
      }
    }
  }

  /** A path of vouched keys that stops at the first key with an anchor's tag. */
  ghost predicate ShortestPath(w: World, ks: seq<DnsKey>) {
    TrustPath(w, ks) && forall i :: 1 <= i < |ks| - 1 ==> !Anchored(w, ks[i])
  }

  lemma ShortestClimbs(w: World, ks: seq<DnsKey>) returns (f: DsOracle, g: KeyOracle)
    requires ShortestPath(w, ks)
    ensures Climbs(Answering(w, f, g), ks)
  {
    f, g := PathReplies(w, ks);
    assert forall i :: 0 <= i < |ks| ==> Anchored(Answering(w, f, g), ks[i]) == Anchored(w, ks[i]);
  }

  lemma {:induction false} Shorten(w: World, ks: seq<DnsKey>) returns (js: seq<DnsKey>)
    requires TrustPath(w, ks)
    ensures ShortestPath(w, js) && js[0] == ks[0]
  {
    if i :| 1 <= i < |ks| - 1 && Anchored(w, ks[i]) {
      assert TrustPath(w, ks[..i + 1]);
      js := Shorten(w, ks[..i + 1]);
    } else {
      js := ks;
    }
  }

  lemma VouchesAnywhere(w: World, f: DsOracle, g: KeyOracle, pk: DnsKey, k: DnsKey)
    requires Vouches(Answering(w, f, g), pk, k)
    ensures Vouches(w, pk, k)
  {
    var v := Answering(w, f, g);
    var sig, ds :| DsEvidence(v, pk, k, sig, ds);
    assert forall i :: 0 <= i < |ds| && DsOf(v, k, ds[i]) ==> DsOf(w, k, ds[i]);
    assert DsEvidence(w, pk, k, sig, ds);
  }

  lemma ClimbIsShortest(w: World, f: DsOracle, g: KeyOracle, ks: seq<DnsKey>)
    requires Climbs(Answering(w, f, g), ks)
    ensures ShortestPath(w, ks)
  {
    var v := Answering(w, f, g);
    ClimbIsTrusted(v, ks);
    forall i | 0 <= i < |ks| - 1 ensures Vouches(w, ks[i + 1], ks[i]) {
      assert Vouches(v, ks[i + 1], ks[i]);
      VouchesAnywhere(w, f, g, ks[i + 1], ks[i]);
    }
    assert forall i :: 0 <= i < |ks| ==> Anchored(v, ks[i]) == Anchored(w, ks[i]);
  }

  /** Some network validates k exactly when vouched keys lead from k to an anchor's tag: sound and complete. */
  lemma CanValidateIff(w: World, k: DnsKey)
    ensures (exists f: DsOracle, g: KeyOracle :: Chain(Answering(w, f, g), k).verdict.Valid?)
            <==> (exists ks :: TrustPath(w, ks) && ks[0] == k)
  {
    if f: DsOracle, g: KeyOracle :| Chain(Answering(w, f, g), k).verdict.Valid? {
      var ks := ChainClimbs(Answering(w, f, g), k);
      ClimbIsShortest(w, f, g, ks);
      assert TrustPath(w, ks) && ks[0] == k;
    }
    if ks :| TrustPath(w, ks) && ks[0] == k {
      var js := Shorten(w, ks);
      var f, g := ShortestClimbs(w, js);
      ClimbValidates(Answering(w, f, g), js);
      assert Chain(Answering(w, f, g), k).verdict.Valid?;
    }
  }

  // ---------------------------------------------------------------- when the chain ends at the configured key

  /** Whatever the network replies, every successful climb ends at a configured key. */
  ghost predicate EndsAtConfigured(w: World) {
    forall f: DsOracle, g: KeyOracle, ks ::
      Climbs(Answering(w, f, g), ks) ==> Configured(w, ks[|ks| - 1])
  }

  /** Among the keys that vouch for another, an anchor's tag belongs to that anchor alone. */
  ghost predicate AnchorTagsUnambiguous(w: World) {
    forall pk, k :: Vouches(w, pk, k) && Anchored(w, pk) ==> Configured(w, pk)
  }

  lemma LastStepVouches(w: World, f: DsOracle, g: KeyOracle, ks: seq<DnsKey>)
    requires Climbs(Answering(w, f, g), ks)
    ensures Vouches(w, ks[|ks| - 1], ks[|ks| - 2]) && Anchored(w, ks[|ks| - 1])
  {
    ClimbIsShortest(w, f, g, ks);
    assert Vouches(w, ks[|ks| - 2 + 1], ks[|ks| - 2]);
  }

  /**
  A climb of validateChain ends at the configured key, for all replies, if and only if no other key
  that carries an anchor's tag vouches for anything. Sets accepted without a climb are the business
  of SetsEndAtConfiguredIff.
  */
  lemma EndsAtConfiguredIff(w: World)
    ensures EndsAtConfigured(w) <==> AnchorTagsUnambiguous(w)
  {
    if AnchorTagsUnambiguous(w) {
      forall f: DsOracle, g: KeyOracle, ks | Climbs(Answering(w, f, g), ks) ensures Configured(w, ks[|ks| - 1]) {
        LastStepVouches(w, f, g, ks);
      }
    }
    if EndsAtConfigured(w) {
      forall pk, k | Vouches(w, pk, k) && Anchored(w, pk) ensures Configured(w, pk) {
        var f, g := TagSuffices(w, pk, k);
        assert Configured(w, [k, pk][1]);
      }
    }
  }

  /** If no two keys share an anchor's tag, every success is a path to a configured key itself. */
  lemma DistinctTagsEndAtConfigured(w: World, k: DnsKey) returns (ks: seq<DnsKey>)
    requires forall x :: Anchored(w, x) ==> w.anchors[w.keyTag(x)] == x
    requires Chain(w, k).verdict.Valid?
    ensures TrustPath(w, ks) && ks[0] == k && Configured(w, ks[|ks| - 1])
  {
    ks := ChainSound(w, k);
  }

  // ---------------------------------------------------------------- when a valid set ends at the configured key

  /** k is the key validateRRset uses for the set at time now, and it verifies the set. */
  ghost predicate Signs(w: World, rrs: seq<RR>, now: nat, k: DnsKey) {
    exists s ::
      && FirstSig(rrs) == Some(s) && s.inception <= now <= s.expiration
      && FirstKey(w, rrs, s.signer, s.keyTag) == Some(k) && w.verify(s, k, rrs)
  }

  /** Where validation of a set signed by k ends under the given replies: at k itself if its tag is an anchor's, else after a climb. */
  ghost predicate EndsConfigured(w: World, f: DsOracle, g: KeyOracle, k: DnsKey) {
    if Anchored(w, k) then Configured(w, k)
    else forall ks :: Climbs(Answering(w, f, g), ks) && ks[0] == k ==> Configured(w, ks[|ks| - 1])
  }

  /** Whatever the network replies, every valid set ends at a configured key. */
  ghost predicate SetsEndAtConfigured(w: World) {
    forall rrs, now, k, f: DsOracle, g: KeyOracle ::
      Signs(w, rrs, now, k) ==> EndsConfigured(w, f, g, k)
  }

  /** The same without a network: k's own tag, or else the end of every path of vouched keys from k. */
  ghost predicate LeadsToConfigured(w: World, k: DnsKey) {
    if Anchored(w, k) then Configured(w, k)
    else forall ks :: ShortestPath(w, ks) && ks[0] == k ==> Configured(w, ks[|ks| - 1])
  }

  ghost predicate SignersUnambiguous(w: World) {
    forall rrs, now, k :: Signs(w, rrs, now, k) ==> LeadsToConfigured(w, k)
  }

  lemma EndsConfiguredIff(w: World, k: DnsKey)
    ensures (forall f: DsOracle, g: KeyOracle :: EndsConfigured(w, f, g, k)) <==> LeadsToConfigured(w, k)
  {
    if LeadsToConfigured(w, k) {
      forall f: DsOracle, g: KeyOracle ensures EndsConfigured(w, f, g, k) {
        forall ks | Climbs(Answering(w, f, g), ks) && ks[0] == k ensures !Anchored(w, k) ==> Configured(w, ks[|ks| - 1]) {
          ClimbIsShortest(w, f, g, ks);
        }
      }
    }
    if forall f: DsOracle, g: KeyOracle :: EndsConfigured(w, f, g, k) {
      if Anchored(w, k) {
        var f: DsOracle, g: KeyOracle := (zone, name) => None, zone => None;
        assert EndsConfigured(w, f, g, k);
      } else {
        forall ks | ShortestPath(w, ks) && ks[0] == k ensures Configured(w, ks[|ks| - 1]) {
          var f, g := ShortestClimbs(w, ks);
          assert EndsConfigured(w, f, g, k);
        }
      }
    }
  }

  /**
  Every valid set ends at a configured key, for all replies, if and only if every key that signs a
  set is itself configured when it has an anchor's tag, and else leads to configured keys only.
  */
  lemma SetsEndAtConfiguredIff(w: World)
    ensures SetsEndAtConfigured(w) <==> SignersUnambiguous(w)
  {
    if SetsEndAtConfigured(w) {
      forall rrs, now, k | Signs(w, rrs, now, k) ensures LeadsToConfigured(w, k) {
        forall f: DsOracle, g: KeyOracle ensures EndsConfigured(w, f, g, k) {
        }
        EndsConfiguredIff(w, k);
      }
    }
    if SignersUnambiguous(w) {
      forall rrs, now, k, f: DsOracle, g: KeyOracle | Signs(w, rrs, now, k) ensures EndsConfigured(w, f, g, k) {
        EndsConfiguredIff(w, k);
      }
    }
  }

  /** The set's key is configured, or heads a path of vouched keys to a configured one. */
  ghost predicate SignedUnderConfigured(w: World, rrs: seq<RR>, now: nat) {
    exists k :: Signs(w, rrs, now, k) &&
      (Configured(w, k) || exists ks :: ShortestPath(w, ks) && ks[0] == k && Configured(w, ks[|ks| - 1]))
  }

  /** Under that condition every accepted response has all its groups signed under configured keys. */
  lemma ValidResponseUnderConfigured(w: World, m: Reply, now: nat, owner: string)
    requires SignersUnambiguous(w) && AllValid(w, m, now) && owner in Signers(AllRecords(m))
    ensures SignedUnderConfigured(w, GroupOf(AllRecords(m), AllRecords(m), owner), now)
  {
    var rrs := GroupOf(AllRecords(m), AllRecords(m), owner);
    var s := FirstSig(rrs).value;
    var k := FirstKey(w, rrs, s.signer, s.keyTag).value;
    assert Signs(w, rrs, now, k);
    assert LeadsToConfigured(w, k);
    if !Anchored(w, k) {
      var ks := ChainClimbs(w, k);
      ClimbIsTrusted(w, ks);
      assert ShortestPath(w, ks);
    }
  }

  // ---------------------------------------------------------------- a small signed zone

  /** One DS record for "b.a." that the verifier accepts alone; every key has tag 7. */
  ghost function ExampleWorld(ds: RR, anchor: DnsKey): World {
    World((s, y, rrs) => rrs == [ds], (y, t) => Some((7, "D")), y => 7, map[7 := anchor], (p, z) => None, p => None)
  }

  lemma ExampleVouches(anchor: DnsKey) returns (w: World, k: DnsKey, pk: DnsKey)
    ensures Proper(k.name) && pk == DnsKey("a.", 1, 257, "P") && Vouches(w, pk, k) && Anchored(w, pk)
    ensures OneTypeOnly(w) && w.keyTag(pk) == 7 && w.anchors == map[7 := anchor]
  {
    k, pk := DnsKey("b.a.", 1, 257, "K"), DnsKey("a.", 1, 257, "P");
    var ds: RR := DS(DsRec("b.a.", 1, 7, 2, "D"));
    var sig := RrSig("b.a.", 1, TYPE_DS, 7, "a.", 0, 1, "S");
    w := ExampleWorld(ds, anchor);
    TwoLabels();
    assert DsOf(w, k, [ds][0]);
    assert DsEvidence(w, pk, k, sig, [ds]);
  }

  lemma TwoLabels()
    ensures Parent("b.a.") == "a." && Proper("b.a.") && Fqdn("b.a.") == "b.a." && Fqdn("a.") == "a."
  {
    var s := "b.a.";
    assert !Separates(s, 0) && Separates(s, 1) && !Separates(s, 2) && Separates(s, 3);
    assert NextLabel(s, 1) == Some(2) && NextLabel(s, 0) == Some(2);
    assert NextLabel(s, 3) == None && NextLabel(s, 2) == None;
    assert Starts(s, 2) == [2];
    assert Starts(s, 0) == [0, 2];
    assert s[2..] == "a.";
    assert Separates("a.", 1);
  }

  lemma OneTypeKept(w: World, f: DsOracle, g: KeyOracle)
    requires OneTypeOnly(w)
    ensures OneTypeOnly(Answering(w, f, g))
  {
  }

  /** The chain is not affected by a verifier that accepts one record type only: it can succeed. */
  lemma ChainCanSucceed() returns (w: World, k: DnsKey)
    ensures OneTypeOnly(w) && Proper(k.name) && Chain(w, k).verdict.Valid?
  {
    var v, pk;
    v, k, pk := ExampleVouches(DnsKey("a.", 1, 257, "P"));
    var f, g := TagSuffices(v, pk, k);
    OneTypeKept(v, f, g);
    w := Answering(v, f, g);
  }

  /** Tags alone decide: with a root key as the only anchor, a key of "b.a." validates through another key. */
  lemma SuccessWithoutConfiguredKey() returns (w: World, k: DnsKey, ks: seq<DnsKey>)
    ensures Proper(k.name) && Chain(w, k).verdict.Valid? && Climbs(w, ks) && ks[0] == k
    ensures forall t :: t in w.anchors ==> w.anchors[t].name == "."
    ensures !Configured(w, ks[|ks| - 1])
  {
    var v, pk;
    v, k, pk := ExampleVouches(DnsKey(".", 1, 257, "R"));
    var f, g := TagSuffices(v, pk, k);
    w, ks := Answering(v, f, g), [k, pk];
  }

  /** A key with the tag of an anchor makes the response of its own self-signature valid. */
  lemma DirectTest(w: World, k: DnsKey, s: RrSig, now: nat) returns (m: Reply)
    requires s.name == s.signer == k.name && s.rrclass == k.rrclass && s.covered == TYPE_DNSKEY
    requires s.inception <= now <= s.expiration && s.keyTag == w.keyTag(k) && Anchored(w, k)
    requires forall rrs :: w.verify(s, k, rrs)
    ensures m.answer != [] && AllRecords(m) == [DNSKEY(k), RRSIG(s)]
    ensures Signers(AllRecords(m)) == {k.name} && AllValid(w, m, now) && Signs(w, AllRecords(m), now, k)
  {
    var key: RR := DNSKEY(k);
    var signed: RR := RRSIG(s);
    var all := [key, signed];
    m := Reply(all, [], []);
    assert AllRecords(m) == all;
    OneKeyGroup(w, key, signed);
    assert Judge(w, all, now).Valid?;
    assert Signers(all) == {k.name} by {
      assert all[1].RRSIG? && all[1].sig.name in Signers(all);
    }
  }

  /**
  The direct test: a response whose only key is not configured is accepted, although nobody vouches
  for anything, because the key has the tag of the anchor.
  */
  lemma SetValidWithoutConfiguredKey() returns (w: World, m: Reply, now: nat)
    ensures m.answer != [] && Signers(AllRecords(m)) != {} && AllValid(w, m, now)
    ensures forall i :: 0 <= i < |AllRecords(m)| && AllRecords(m)[i].DNSKEY? ==> !Configured(w, AllRecords(m)[i].key)
    ensures AnchorTagsUnambiguous(w) && !SignersUnambiguous(w)
  {
    var k := DnsKey("a.", 1, 257, "K");
    var s := RrSig("a.", 1, TYPE_DNSKEY, 7, "a.", 0, 9, "S");
    w := World((s, y, rrs) => true, (y, t) => None, y => 7, map[7 := DnsKey(".", 1, 257, "R")], (p, z) => None, p => None);
    now := 5;
    m := DirectTest(w, k, s, now);
    assert forall pk, y :: !Vouches(w, pk, y);
    assert !LeadsToConfigured(w, k);
  }

  lemma OneKeyGroup(w: World, key: RR, signed: RR)
    requires key.DNSKEY? && signed.RRSIG? && Covers(signed.sig, key) && signed.sig.covered == TYPE_DNSKEY
    requires key.key.name == signed.sig.signer && w.keyTag(key.key) == signed.sig.keyTag
    ensures GroupOf([key, signed], [key, signed], signed.sig.name) == [key, signed]
    ensures FirstSig([key, signed]) == Some(signed.sig)
    ensures FirstKey(w, [key, signed], signed.sig.signer, signed.sig.keyTag) == Some(key.key)
  {
    var all := [key, signed];
    assert all[..1] == [key] && [key][..0] == [];
    assert Covered([key], signed.sig) == [key];
    assert Covered(all, signed.sig) == [key];
    assert GroupOf(all, [key], signed.sig.name) == [];
    assert all[1..] == [signed];
    assert IsKey(w, key, signed.sig.signer, signed.sig.keyTag);
  }
}
