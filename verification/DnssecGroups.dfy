/** Grouping a response into signed sets and judging each of them (features/dnssec). */
module DnssecGroups {
  import opened Messages
  import opened DomainNames
  import opened Dnssec

  function AllRecords(m: Reply): seq<RR> {
    m.answer + m.ns + m.extra
  }

  predicate Covers(s: RrSig, rr: RR) {
    rr.Name() == s.name && rr.Class() == s.rrclass && rr.Type() == s.covered
  }

  function Covered(rrs: seq<RR>, s: RrSig): seq<RR> {
    if rrs == [] then []
    else Covered(rrs[..|rrs| - 1], s) + if Covers(s, rrs[|rrs| - 1]) then [rrs[|rrs| - 1]] else []
  }

  predicate SignsFor(rr: RR, owner: string) {
    rr.RRSIG? && rr.sig.name == owner
  }

  /** The group of one owner: for each of its signatures in scan, in order, the covered records and then the signature. */
  function GroupOf(all: seq<RR>, scan: seq<RR>, owner: string): seq<RR> {
    if scan == [] then []
    else
      var rr := scan[|scan| - 1];
      GroupOf(all, scan[..|scan| - 1], owner) + if SignsFor(rr, owner) then Covered(all, rr.sig) + [rr] else []
  }

  function Signers(rrs: seq<RR>): set<string> {
    set i | 0 <= i < |rrs| && rrs[i].RRSIG? :: rrs[i].sig.name
  }

  // ---------------------------------------------------------------- groupSignedRRsets

  ghost predicate Grouped(groups: map<string, seq<RR>>, all: seq<RR>, scan: seq<RR>) {
    && groups.Keys == Signers(scan)
    && forall n :: n in groups ==> groups[n] == GroupOf(all, scan, n)
  }

  lemma SignersSnoc(scan: seq<RR>, rr: RR)
    ensures Signers(scan + [rr]) == Signers(scan) + if rr.RRSIG? then {rr.sig.name} else {}
  {
    var more := scan + [rr];
    forall n | n in Signers(scan) ensures n in Signers(more) {
      var i :| 0 <= i < |scan| && scan[i].RRSIG? && scan[i].sig.name == n;
      assert more[i] == scan[i];
    }
    forall n | n in Signers(more) ensures n in Signers(scan) || (rr.RRSIG? && n == rr.sig.name) {
      var i :| 0 <= i < |more| && more[i].RRSIG? && more[i].sig.name == n;
      if i < |scan| { assert scan[i] == more[i]; }
    }
    assert more[|scan|] == rr;
  }

  lemma {:induction false} GroupEmpty(all: seq<RR>, scan: seq<RR>, owner: string)
    ensures GroupOf(all, scan, owner) == [] <==> owner !in Signers(scan)
  {
    if scan != [] {
      var before, rr := scan[..|scan| - 1], scan[|scan| - 1];
      GroupEmpty(all, before, owner);
      assert scan == before + [rr];
      SignersSnoc(before, rr);
    }
  }

  function Lookup(groups: map<string, seq<RR>>, n: string): seq<RR> {
    if n in groups then groups[n] else []
  }

  /** The inner loop: append what the signature covers, then the signature. */
  method AddSignature(groups: map<string, seq<RR>>, all: seq<RR>, rr: RR) returns (more: map<string, seq<RR>>)
    requires rr.RRSIG?
    ensures more == groups[rr.sig.name := Lookup(groups, rr.sig.name) + Covered(all, rr.sig) + [rr]]
  {
    more := groups;
    var n := rr.sig.name;
    var j := 0;
    while j < |all|
      invariant 0 <= j <= |all|
      invariant Lookup(more, n) == Lookup(groups, n) + Covered(all[..j], rr.sig)
      invariant more == groups || more == groups[n := Lookup(more, n)]
    {
      assert all[..j + 1][..j] == all[..j];
      if Covers(rr.sig, all[j]) {
        more := more[n := Lookup(more, n) + [all[j]]];
      }
      j := j + 1;
    }
    assert all[..j] == all;
    more := more[n := Lookup(more, n) + [rr]];
  }

  lemma GroupedSnoc(groups: map<string, seq<RR>>, all: seq<RR>, scan: seq<RR>, rr: RR)
    requires Grouped(groups, all, scan)
    ensures Grouped(if rr.RRSIG? then groups[rr.sig.name := Lookup(groups, rr.sig.name) + Covered(all, rr.sig) + [rr]] else groups,
                    all, scan + [rr])
  {
    SignersSnoc(scan, rr);
    forall n ensures GroupOf(all, scan + [rr], n) ==
                       if SignsFor(rr, n) then GroupOf(all, scan, n) + Covered(all, rr.sig) + [rr] else GroupOf(all, scan, n)
    {
      GroupSnoc(all, scan, rr, n);
    }
    if rr.RRSIG? {
      GroupEmpty(all, scan, rr.sig.name);
    }
  }

  lemma GroupSnoc(all: seq<RR>, scan: seq<RR>, rr: RR, owner: string)
    ensures GroupOf(all, scan + [rr], owner) ==
              if SignsFor(rr, owner) then GroupOf(all, scan, owner) + Covered(all, rr.sig) + [rr] else GroupOf(all, scan, owner)
  {
    assert (scan + [rr])[..|scan|] == scan;
    if SignsFor(rr, owner) {
      var g, c := GroupOf(all, scan, owner), Covered(all, rr.sig);
      assert g + (c + [rr]) == g + c + [rr];
    }
  }

  method GroupSigned(m: Reply) returns (groups: map<string, seq<RR>>)
    ensures Grouped(groups, AllRecords(m), AllRecords(m))
  {
    var all := AllRecords(m);
    groups := map[];
    var i := 0;
    assert Signers(all[..0]) == {};
    while i < |all|
      invariant 0 <= i <= |all|
      invariant Grouped(groups, all, all[..i])
    {
      var rr := all[i];
      assert all[..i + 1] == all[..i] + [rr];
      GroupedSnoc(groups, all, all[..i], rr);
      if rr.RRSIG? {
        groups := AddSignature(groups, all, rr);
      }
      i := i + 1;
    }
    assert all[..i] == all;
  }

  // ---------------------------------------------------------------- what a group looks like

  ghost predicate OwnedBy(rrs: seq<RR>, owner: string) {
    forall i :: 0 <= i < |rrs| ==> rrs[i].Name() == owner
  }

  lemma {:induction false} CoveredOwned(rrs: seq<RR>, s: RrSig)
    ensures OwnedBy(Covered(rrs, s), s.name)
  {
    if rrs != [] { CoveredOwned(rrs[..|rrs| - 1], s); }
  }

  /** Every group of a response is non-empty, has one owner and holds a signature. */
  lemma {:induction false} GroupShape(all: seq<RR>, scan: seq<RR>, owner: string)
    requires owner in Signers(scan)
    ensures var g := GroupOf(all, scan, owner); g != [] && g[|g| - 1].RRSIG? && OwnedBy(g, owner)
  {
    var before, rr := scan[..|scan| - 1], scan[|scan| - 1];
    assert scan == before + [rr];
    SignersSnoc(before, rr);
    if SignsFor(rr, owner) {
      CoveredOwned(all, rr.sig);
    }
    if owner in Signers(before) {
      GroupShape(all, before, owner);
    } else {
      GroupEmpty(all, before, owner);
    }
  }

  /** sig is a signature over records like rr: same owner, same class, and it covers the type of rr. */
  predicate SignsRecord(sig: RR, rr: RR) {
    sig.RRSIG? && sig.sig.name == rr.Name() && sig.sig.rrclass == rr.Class() && sig.sig.covered == rr.Type()
  }

  function CoverCount(scan: seq<RR>, rr: RR): nat {
    if scan == [] then 0
    else CoverCount(scan[..|scan| - 1], rr) + if SignsRecord(scan[|scan| - 1], rr) then 1 else 0
  }

  lemma {:induction false} CoverCountZero(scan: seq<RR>, rr: RR)
    ensures CoverCount(scan, rr) == 0 <==> forall sig :: sig in scan ==> !SignsRecord(sig, rr)
  {
    if scan != [] {
      CoverCountZero(scan[..|scan| - 1], rr);
      assert scan == scan[..|scan| - 1] + [scan[|scan| - 1]];
    }
  }

  lemma {:induction false} CoveredCount(rrs: seq<RR>, sig: RR, rr: RR)
    requires sig.RRSIG?
    ensures multiset(Covered(rrs, sig.sig))[rr] == if SignsRecord(sig, rr) then multiset(rrs)[rr] else 0
  {
    if rrs != [] {
      CoveredCount(rrs[..|rrs| - 1], sig, rr);
      assert rrs == rrs[..|rrs| - 1] + [rrs[|rrs| - 1]];
    }
  }

  /**
  What a group is made of, record by record: its own signatures, and each record as often as the
  response has it, once per signature over it.
  */
  lemma {:induction false} GroupCount(all: seq<RR>, scan: seq<RR>, owner: string, rr: RR)
    ensures multiset(GroupOf(all, scan, owner))[rr] ==
      if rr.Name() != owner then 0
      else (if rr.RRSIG? then multiset(scan)[rr] else 0) + CoverCount(scan, rr) * multiset(all)[rr]
  {
    if scan != [] {
      var before, last := scan[..|scan| - 1], scan[|scan| - 1];
      assert scan == before + [last];
      GroupCount(all, before, owner, rr);
      if last.RRSIG? { CoveredCount(all, last, rr); }
      assert (CoverCount(before, rr) + 1) * multiset(all)[rr] == CoverCount(before, rr) * multiset(all)[rr] + multiset(all)[rr];
    }
  }

  /** s claims to sign signatures (type 46) of the owner and class of sig. */
  predicate OverSignature(s: RR, sig: RR)
    requires sig.RRSIG?
  {
    s.RRSIG? && s.sig.name == sig.sig.name && s.sig.rrclass == sig.sig.rrclass && s.sig.covered == 46
  }

  /** A signature is in its group as often as in the response, exactly when no signature is over it. */
  lemma SignatureCountIff(all: seq<RR>, sig: RR)
    requires sig.RRSIG? && sig in all
    ensures multiset(GroupOf(all, all, sig.sig.name))[sig] == multiset(all)[sig] <==> forall s :: s in all ==> !OverSignature(s, sig)
  {
    GroupCount(all, all, sig.sig.name, sig);
    CoverCountZero(all, sig);
    NoProduct(CoverCount(all, sig), multiset(all)[sig]);
    assert forall s :: SignsRecord(s, sig) <==> OverSignature(s, sig);
  }

  lemma NoProduct(n: nat, m: nat)
    requires m > 0
    ensures n * m == 0 <==> n == 0
  {
  }

  /** The failing case: a signature that covers signatures is in its group twice. */
  lemma SignatureTwice()
    ensures var sig: RR := RRSIG(RrSig("a.", 1, 46, 7, "a.", 0, 9, "S"));
            multiset(GroupOf([sig], [sig], "a."))[sig] == 2
  {
    var sig: RR := RRSIG(RrSig("a.", 1, 46, 7, "a.", 0, 9, "S"));
    GroupCount([sig], [sig], "a.", sig);
    assert [sig][..0] == [];
    assert CoverCount([sig], sig) == 1;
  }

  lemma {:induction false} CoveredHas(rrs: seq<RR>, sig: RR, j: nat)
    requires j < |rrs| && SignsRecord(sig, rrs[j])
    ensures rrs[j] in Covered(rrs, sig.sig)
  {
    if j < |rrs| - 1 { CoveredHas(rrs[..|rrs| - 1], sig, j); }
  }

  /** Every record with a signature over it is in the group, before that signature. */
  lemma {:induction false} GroupHolds(all: seq<RR>, scan: seq<RR>, i: nat, j: nat) returns (p: nat, q: nat)
    requires i < |scan| && j < |all| && SignsRecord(scan[i], all[j])
    ensures var g := GroupOf(all, scan, scan[i].sig.name); p < q < |g| && g[p] == all[j] && g[q] == scan[i]
  {
    var before, last := scan[..|scan| - 1], scan[|scan| - 1];
    if i < |before| {
      p, q := GroupHolds(all, before, i, j);
    } else {
      var g, c := GroupOf(all, before, last.sig.name), Covered(all, last.sig);
      CoveredHas(all, last, j);
      var n :| 0 <= n < |c| && c[n] == all[j];
      p, q := |g| + n, |g| + |c|;
      assert GroupOf(all, scan, last.sig.name) == g + (c + [last]);
    }
  }

  /** And nothing else is in it. */
  lemma GroupHoldsOnly(all: seq<RR>, owner: string, rr: RR)
    requires rr in GroupOf(all, all, owner)
    ensures rr in all && rr.Name() == owner
    ensures rr.RRSIG? || exists sig :: sig in all && SignsRecord(sig, rr)
  {
    GroupCount(all, all, owner, rr);
    CoverCountZero(all, rr);
    assert multiset(GroupOf(all, all, owner))[rr] > 0;
    assert rr !in all ==> multiset(all)[rr] == 0;
  }

  // ---------------------------------------------------------------- validateRRset

  function FirstSig(rrs: seq<RR>): Option<RrSig> {
    if rrs == [] then None else if rrs[0].RRSIG? then Some(rrs[0].sig) else FirstSig(rrs[1..])
  }

  /** The verdict on one signed set at time now (seconds). */
  function Judge(w: World, rrs: seq<RR>, now: nat): Verdict {
    if rrs == [] then EmptySet
    else match FirstSig(rrs)
      case None => NoRrsig
      case Some(s) =>
        if s.expiration < now then SignatureExpired
        else if s.inception > now then SignatureNotYetValid
        else match FirstKey(w, rrs, s.signer, s.keyTag)
          case None => KeyNotFound
          case Some(k) =>
            if !w.verify(s, k, rrs) then SignatureInvalid
            else if Anchored(w, k) then Valid
            else Chain(w, k).verdict
  }

  /** The first signature of a set, by position. */
  lemma {:induction false} FirstSigIs(rrs: seq<RR>)
    ensures match FirstSig(rrs)
      case Some(s) => exists i :: 0 <= i < |rrs| && rrs[i] == RRSIG(s) && forall j :: 0 <= j < i ==> !rrs[j].RRSIG?
      case None => forall i :: 0 <= i < |rrs| ==> !rrs[i].RRSIG?
  {
    if rrs != [] && !rrs[0].RRSIG? {
      var rest := rrs[1..];
      FirstSigIs(rest);
      assert forall j :: 1 <= j < |rrs| ==> rrs[j] == rest[j - 1];
      if FirstSig(rest).Some? {
        var i :| 0 <= i < |rest| && rest[i] == RRSIG(FirstSig(rest).value) && forall j :: 0 <= j < i ==> !rest[j].RRSIG?;
        assert rrs[i + 1] == rest[i];
      }
    }
  }

  lemma {:induction false} FirstSigIn(rrs: seq<RR>)
    requires FirstSig(rrs).Some?
    ensures RRSIG(FirstSig(rrs).value) in rrs
  {
    if !rrs[0].RRSIG? { FirstSigIn(rrs[1..]); }
  }

  /** k is trusted: it has an anchor's tag or heads a path of vouched keys to one that has. */
  ghost predicate Trusted(w: World, k: DnsKey) {
    Anchored(w, k) || exists ks :: TrustPath(w, ks) && ks[0] == k
  }

  /** s, in the set and in its period, verifies the set with k, in the set, under the named signer; k is trusted. */
  ghost predicate SignedBy(w: World, rrs: seq<RR>, now: nat, s: RrSig, k: DnsKey) {
    && RRSIG(s) in rrs && DNSKEY(k) in rrs
    && s.inception <= now <= s.expiration
    && k.name == s.signer && w.keyTag(k) == s.keyTag
    && w.verify(s, k, rrs)
    && Trusted(w, k)
  }

  ghost predicate Authentic(w: World, rrs: seq<RR>, now: nat) {
    exists s, k :: SignedBy(w, rrs, now, s, k)
  }

  /** What a valid verdict guarantees. */
  lemma JudgeSound(w: World, rrs: seq<RR>, now: nat)
    requires Judge(w, rrs, now).Valid?
    ensures Authentic(w, rrs, now)
  {
    var s := FirstSig(rrs).value;
    var k := FirstKey(w, rrs, s.signer, s.keyTag).value;
    FirstSigIn(rrs);
    FirstKeySound(w, rrs, s.signer, s.keyTag);
    if !Anchored(w, k) {
      var ks := ChainSound(w, k);
    }
    assert SignedBy(w, rrs, now, s, k);
  }

  /** A set is valid exactly when its first signature is current and verifies with its first matching key, which leads to an anchor. */
  lemma JudgeValidIff(w: World, rrs: seq<RR>, now: nat)
    ensures Judge(w, rrs, now).Valid? <==> exists s, k ::
      && FirstSig(rrs) == Some(s) && s.inception <= now <= s.expiration
      && FirstKey(w, rrs, s.signer, s.keyTag) == Some(k) && w.verify(s, k, rrs)
      && (Anchored(w, k) || exists ks :: Climbs(w, ks) && ks[0] == k)
  {
    if FirstSig(rrs).Some? {
      var s := FirstSig(rrs).value;
      var k := FirstKey(w, rrs, s.signer, s.keyTag);
      if k.Some? { ChainValidIff(w, k.value); }
    }
  }

  /** Verdicts of validateChain and of the signature test; none of the errors met before a key is found. */
  predicate ChainVerdict(v: Verdict) {
    v !in {EmptySet, NoRrsig, NoSignedSets, NothingToValidate, SignatureExpired, SignatureNotYetValid, KeyNotFound}
  }

  /** A set that is rejected is rejected for the reason given. */
  lemma JudgeIsTruthful(w: World, rrs: seq<RR>, now: nat)
    ensures Judge(w, rrs, now) == EmptySet <==> rrs == []
    ensures Judge(w, rrs, now) == NoRrsig <==> rrs != [] && forall i :: 0 <= i < |rrs| ==> !rrs[i].RRSIG?
    ensures FirstSig(rrs).Some? ==>
      var s, v := FirstSig(rrs).value, Judge(w, rrs, now);
      && (v == SignatureExpired <==> s.expiration < now)
      && (v == SignatureNotYetValid <==> now <= s.expiration && now < s.inception)
      && (v == KeyNotFound <==> s.inception <= now <= s.expiration
                                && forall i :: 0 <= i < |rrs| ==> !KeyOfZone(w, rrs[i], s.signer, s.keyTag))
  {
    FirstSigIs(rrs);
    if FirstSig(rrs).Some? {
      var s := FirstSig(rrs).value;
      FirstKeyIs(w, rrs, s.signer, s.keyTag);
      var k := FirstKey(w, rrs, s.signer, s.keyTag);
      if k.Some? { ChainVerdictKind(w, k.value); }
    }
  }

  method FindRrsig(rrs: seq<RR>) returns (s: Option<RrSig>)
    ensures s == FirstSig(rrs)
  {
    var i := 0;
    while i < |rrs|
      invariant 0 <= i <= |rrs|
      invariant FirstSig(rrs) == FirstSig(rrs[i..])
    {
      if rrs[i].RRSIG? {
        return Some(rrs[i].sig);
      }
      assert rrs[i..][1..] == rrs[i + 1..];
      i := i + 1;
    }
    s := None;
  }

  method ValidateSet(w: World, rrs: seq<RR>, now: nat) returns (v: Verdict)
    ensures v == Judge(w, rrs, now)
    ensures v.Valid? ==> Authentic(w, rrs, now)
  {
    v := JudgeSet(w, rrs, now);
    if v.Valid? {
      JudgeSound(w, rrs, now);
    }
  }

  method JudgeSet(w: World, rrs: seq<RR>, now: nat) returns (v: Verdict)
    ensures v == Judge(w, rrs, now)
  {
    if rrs == [] {
      return EmptySet;
    }
    var s := FindRrsig(rrs);
    if s.None? {
      return NoRrsig;
    }
    if s.value.expiration < now {
      return SignatureExpired;
    }
    if s.value.inception > now {
      return SignatureNotYetValid;
    }
    var k := FindKey(w, rrs, s.value.signer, s.value.keyTag);
    if k.None? {
      return KeyNotFound;
    }
    if !w.verify(s.value, k.value, rrs) {
      return SignatureInvalid;
    }
    if Anchored(w, k.value) {
      return Valid;
    }
    var r := ValidateChain(w, k.value);
    return r.verdict;
  }

  // ---------------------------------------------------------------- Validate

  /** Every owner that signs something in the response has a valid group. */
  ghost predicate AllValid(w: World, m: Reply, now: nat) {
    var all := AllRecords(m);
    forall n :: n in Signers(all) ==> Judge(w, GroupOf(all, all, n), now).Valid?
  }

  /** Every owner that signs something in the response has an authentic group. */
  ghost predicate AllAuthentic(w: World, m: Reply, now: nat) {
    var all := AllRecords(m);
    forall n :: n in Signers(all) ==> Authentic(w, GroupOf(all, all, n), now)
  }

  predicate InReply(m: Reply, rr: RR) {
    rr in m.answer || rr in m.ns || rr in m.extra
  }

  /** rr was verified, in a set with the signature over it. */
  ghost predicate Verified(w: World, rr: RR, sig: RR, now: nat) {
    exists rrs :: rr in rrs && sig in rrs && Authentic(w, rrs, now)
  }

  /** Every record of the response, in any section, that has a signature over it was verified. */
  ghost predicate SignedRecordsVerified(w: World, m: Reply, now: nat) {
    forall sig, rr :: InReply(m, sig) && InReply(m, rr) && SignsRecord(sig, rr) ==> Verified(w, rr, sig, now)
  }

  lemma NoSignedRecordSkipped(w: World, m: Reply, now: nat)
    requires AllAuthentic(w, m, now)
    ensures SignedRecordsVerified(w, m, now)
  {
    var all := AllRecords(m);
    forall sig, rr | InReply(m, sig) && InReply(m, rr) && SignsRecord(sig, rr) ensures Verified(w, rr, sig, now) {
      assert sig in all && rr in all;
      var i :| 0 <= i < |all| && all[i] == sig;
      var j :| 0 <= j < |all| && all[j] == rr;
      var p, q := GroupHolds(all, all, i, j);
      assert sig.sig.name in Signers(all);
    }
  }

  lemma AllValidSound(w: World, m: Reply, now: nat)
    requires AllValid(w, m, now)
    ensures AllAuthentic(w, m, now)
  {
    var all := AllRecords(m);
    forall n | n in Signers(all) ensures Authentic(w, GroupOf(all, all, n), now) {
      JudgeSound(w, GroupOf(all, all, n), now);
    }
  }

  /**
  Validate picks the groups in any order. It accepts exactly when there is a record in the first two
  sections, something is signed and all groups are valid, so its success does not depend on the
  order; and it never fails for an empty set or a missing signature.
  */
  method Validate(w: World, m: Reply, now: nat) returns (v: Verdict)
    ensures v.Valid? <==> (m.answer != [] || m.ns != []) && Signers(AllRecords(m)) != {} && AllValid(w, m, now)
    ensures v.Valid? ==> AllAuthentic(w, m, now) && SignedRecordsVerified(w, m, now)
    ensures v != EmptySet && v != NoRrsig
    ensures v == NothingToValidate <==> m.answer == [] && m.ns == []
    ensures v == NoSignedSets <==> (m.answer != [] || m.ns != []) && Signers(AllRecords(m)) == {}
  {
    if m.answer == [] && m.ns == [] {
      return NothingToValidate;
    }
    var all := AllRecords(m);
    var groups := GroupSigned(m);
    if |groups.Keys| == 0 {
      return NoSignedSets;
    }
    var left := groups.Keys;
    while left != {}
      invariant left <= groups.Keys
      invariant forall n :: n in groups && n !in left ==> Judge(w, GroupOf(all, all, n), now).Valid?
      decreases left
    {
      var n :| n in left;
      v := ValidateSet(w, groups[n], now);
      if !v.Valid? {
        GroupShape(all, all, n);
        SignatureFound(groups[n]);
        ChainVerdicts(w, groups[n], now);
        return;
      }
      left := left - {n};
    }
    AllValidSound(w, m, now);
    NoSignedRecordSkipped(w, m, now);
    v := Valid;
  }

  lemma {:induction false} SignatureFound(rrs: seq<RR>)
    requires rrs != [] && rrs[|rrs| - 1].RRSIG?
    ensures FirstSig(rrs).Some?
  {
    if !rrs[0].RRSIG? {
      assert rrs[1..][|rrs| - 2] == rrs[|rrs| - 1];
      SignatureFound(rrs[1..]);
    }
  }

  lemma {:induction false} ChainVerdictKind(w: World, k: DnsKey)
    ensures ChainVerdict(Chain(w, k).verdict)
    decreases |Fqdn(k.name)|, !IsFqdn(Fqdn(k.name))
  {
    if Up(w, k).Climbed? {
      UpShrinks(w, k);
      ChainVerdictKind(w, Up(w, k).key);
    }
  }

  lemma ChainVerdicts(w: World, rrs: seq<RR>, now: nat)
    requires rrs != [] && FirstSig(rrs).Some?
    ensures Judge(w, rrs, now) !in {EmptySet, NoRrsig, NoSignedSets, NothingToValidate}
  {
    var s := FirstSig(rrs).value;
    var k := FirstKey(w, rrs, s.signer, s.keyTag);
    if k.Some? { ChainVerdictKind(w, k.value); }
  }

  // ---------------------------------------------------------------- a verifier that wants one record type

  /** Signature verification that, like section 3.1.8.1 of RFC 4034, only signs records of one type. */
  ghost predicate OneTypeOnly(w: World) {
    forall s, k, rrs: seq<RR> :: w.verify(s, k, rrs) ==>
      forall i, j :: 0 <= i < |rrs| && 0 <= j < |rrs| ==> rrs[i].Type() == rrs[j].Type()
  }

  /**
  validateRRset hands Verify a set that holds both the signature and the signing key. With a verifier
  that accepts records of one type only, no set and hence no response is ever valid.
  */
  lemma NoSetValidWithOneType(w: World, rrs: seq<RR>, now: nat)
    requires OneTypeOnly(w)
    ensures !Judge(w, rrs, now).Valid?
  {
    if FirstSig(rrs).Some? {
      var s := FirstSig(rrs).value;
      FirstSigIn(rrs);
      if FirstKey(w, rrs, s.signer, s.keyTag).Some? {
        FirstKeySound(w, rrs, s.signer, s.keyTag);
      }
    }
  }

  lemma NoResponseValidWithOneType(w: World, m: Reply, now: nat)
    requires OneTypeOnly(w) && Signers(AllRecords(m)) != {}
    ensures !AllValid(w, m, now)
  {
    var all := AllRecords(m);
    var n :| n in Signers(all);
    NoSetValidWithOneType(w, GroupOf(all, all, n), now);
  }
}
