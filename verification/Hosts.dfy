/**
Static host records (hosts.go): matching a domain against a table with wildcards, parsing a hosts
file, and filtering addresses by family. net.ParseIP is an arbitrary function from text to addresses.
*/
module Hosts {
  import opened Messages
  import opened GoStrings

  type Table = map<string, string>

  const NOT_IP_QUERY := 0
  const IP4_QUERY := 4
  const IP6_QUERY := 6

  // ---------------------------------------------------------------- matching

  /** The test of the wildcard loops: strip the star and compare as a string suffix. */
  predicate WildcardMatches(host: string, domain: string) {
    HasPrefix(host, "*.") && HasSuffix(domain, host[1..])
  }

  function Labels(s: string): seq<string> {
    Split(s, '.')
  }

  /** One or more labels followed by those of rest. */
  predicate Below(domain: string, rest: string) {
    var d, r := Labels(domain), Labels(rest);
    |r| < |d| && d[|d| - |r|..] == r
  }

  /** The string test is exactly the label test. */
  lemma WildcardIsLabelSuffix(rest: string, domain: string)
    ensures WildcardMatches("*." + rest, domain) <==> Below(domain, rest)
  {
    var host := "*." + rest;
    assert host[1..] == "." + rest;
    if WildcardMatches(host, domain) {
      var a := domain[..|domain| - |rest| - 1];
      assert domain == a + "." + rest;
      SplitConcat(a, rest, '.');
    }
    if Below(domain, rest) {
      var d, r := Labels(domain), Labels(rest);
      var x := d[..|d| - |r|];
      assert d == x + r;
      JoinConcat(x, r, '.');
      JoinSplit(domain, '.');
      JoinSplit(rest, '.');
      assert domain == Join(x, '.') + "." + rest;
    }
  }

  /** Only entries that begin with a star and a dot match more than themselves. */
  lemma WildcardMatchesIff(host: string, domain: string)
    ensures WildcardMatches(host, domain) <==> |host| >= 2 && host[0] == '*' && host[1] == '.' && Below(domain, host[2..])
  {
    if |host| >= 2 && host[0] == '*' && host[1] == '.' {
      assert host == "*." + host[2..];
      WildcardIsLabelSuffix(host[2..], domain);
    }
  }

  /** A lookup may yield r: the exact entry if there is one, else that of some matching wildcard. */
  ghost predicate Answers(hosts: Table, domain: string, r: Option<string>) {
    var d := Lower(domain);
    if d in hosts then r == Some(hosts[d])
    else match r
      case Some(v) => exists h :: h in hosts && WildcardMatches(h, d) && v == hosts[h]
      case None => forall h :: h in hosts ==> !WildcardMatches(h, d)
  }

  /** Map iteration order matters only when several wildcards match. */
  lemma AnswerUnique(hosts: Table, domain: string, r: Option<string>, q: Option<string>)
    requires Answers(hosts, domain, r) && Answers(hosts, domain, q)
    requires Lower(domain) in hosts ||
             forall g, h :: g in hosts && h in hosts && WildcardMatches(g, Lower(domain)) && WildcardMatches(h, Lower(domain)) ==> g == h
    ensures r == q
  {
  }

  /** Names that differ in case only have the same answers. */
  lemma CaseIsIgnored(hosts: Table, a: string, b: string, r: Option<string>)
    requires |a| == |b|
    requires forall i :: 0 <= i < |a| ==> a[i] == b[i] || ('A' <= a[i] <= 'Z' && b[i] as int == a[i] as int + 32)
    ensures Answers(hosts, a, r) <==> Answers(hosts, b, r)
  {
    assert Lower(a) == Lower(b);
  }

  method Find(hosts: Table, domain: string) returns (r: Option<string>)
    ensures Answers(hosts, domain, r)
  {
    var d := Lower(domain);
    if d in hosts {
      return Some(hosts[d]);
    }
    var left := hosts.Keys;
    while left != {}
      invariant left <= hosts.Keys
      invariant forall h :: h in hosts && h !in left ==> !WildcardMatches(h, d)
      decreases left
    {
      var host :| host in left;
      if WildcardMatches(host, d) {
        return Some(hosts[host]);
      }
      left := left - {host};
    }
    r := None;
  }

  // ---------------------------------------------------------------- parsing a hosts file

  datatype Pair = Pair(domain: string, ip: string)

  function DomainPairs(parts: seq<string>, ip: string): seq<Pair> {
    if parts == [] then []
    else
      var d := TrimSpace(parts[|parts| - 1]);
      DomainPairs(parts[..|parts| - 1], ip) + if d == "" then [] else [Pair(Lower(d), ip)]
  }

  function Cleaned(line: string): string {
    ReplaceChar(TrimSpace(line), '\t', ' ')
  }

  predicate IsIP(parse: string -> Option<IP>, s: string) {
    parse(s).Some?
  }

  /** The records a line defines, in order. */
  function LinePairs(parse: string -> Option<IP>, line: string): seq<Pair> {
    var t := Cleaned(line);
    var parts := Split(t, ' ');
    if t == "" || HasPrefix(t, "#") || |parts| < 2 || !IsIP(parse, parts[0]) then []
    else DomainPairs(parts[1..], parts[0])
  }

  function FilePairs(parse: string -> Option<IP>, lines: seq<string>): seq<Pair> {
    if lines == [] then []
    else FilePairs(parse, lines[..|lines| - 1]) + LinePairs(parse, lines[|lines| - 1])
  }

  function Stored(t: Table, ps: seq<Pair>): Table {
    if ps == [] then t else Stored(t, ps[..|ps| - 1])[ps[|ps| - 1].domain := ps[|ps| - 1].ip]
  }

  lemma {:induction false} StoredConcat(t: Table, a: seq<Pair>, b: seq<Pair>)
    ensures Stored(t, a + b) == Stored(Stored(t, a), b)
  {
    if b == [] {
      assert a + b == a;
    } else {
      assert (a + b)[..|a + b| - 1] == a + b[..|b| - 1];
      StoredConcat(t, a, b[..|b| - 1]);
    }
  }

  lemma StoredSnoc(t: Table, ps: seq<Pair>, p: Pair)
    ensures Stored(t, ps + [p]) == Stored(t, ps)[p.domain := p.ip] && ps + [] == ps
  {
    assert (ps + [p])[..|ps|] == ps;
  }

  // ---------------------------------------------------------------- what a line names

  predicate IsBlank(c: char) {
    c == ' ' || c == '\t'
  }

  /** t[i..j] is a maximal run of characters other than blank and tab. */
  ghost predicate Field(t: string, i: int, j: int) {
    && 0 <= i < j <= |t|
    && (forall k :: i <= k < j ==> !IsBlank(t[k]))
    && (i == 0 || IsBlank(t[i - 1]))
    && (j == |t| || IsBlank(t[j]))
  }

  /** The first field of t, up to first, is the address ip, and a later field is d up to case and outer white space. */
  ghost predicate NamesAt(parse: string -> Option<IP>, t: string, d: string, ip: string, first: int, a: int, b: int) {
    && Field(t, 0, first) && t[0] != '#' && ip == t[..first] && parse(ip).Some?
    && first < a && Field(t, a, b) && TrimSpace(t[a..b]) != "" && d == Lower(TrimSpace(t[a..b]))
  }

  /** The line gives domain d the address ip. */
  ghost predicate Names(parse: string -> Option<IP>, line: string, d: string, ip: string) {
    exists first, a, b :: NamesAt(parse, TrimSpace(line), d, ip, first, a, b)
  }

  /** Fields separated by blanks or tabs are the non-empty parts once tabs are blanks. */
  lemma FieldIsPart(t: string, i: int, j: int)
    ensures var u := ReplaceChar(t, '\t', ' ');
      && (Field(t, i, j) <==> i < j && Part(u, ' ', i, j))
      && (Field(t, i, j) ==> t[i..j] == u[i..j])
  {
    var u := ReplaceChar(t, '\t', ' ');
    assert forall k :: 0 <= k < |t| ==> (u[k] == ' ' <==> IsBlank(t[k]));
    if i < j && Part(u, ' ', i, j) {
      assert forall k :: i <= k < j ==> u[k] != ' ';
    }
  }

  /** Part n is d up to case and outer white space, and not blank. */
  ghost predicate ListedAt(parts: seq<string>, n: int, d: string) {
    0 <= n < |parts| && TrimSpace(parts[n]) != "" && d == Lower(TrimSpace(parts[n]))
  }

  lemma {:induction false} DomainPairsIff(parts: seq<string>, ip: string, d: string, x: string)
    ensures Pair(d, x) in DomainPairs(parts, ip) <==> x == ip && exists n :: ListedAt(parts, n, d)
  {
    if parts != [] {
      var k := |parts| - 1;
      var before := parts[..k];
      DomainPairsIff(before, ip, d, x);
      if n :| ListedAt(before, n, d) { assert ListedAt(parts, n, d); }
      if n :| ListedAt(parts, n, d) && n < k { assert ListedAt(before, n, d); }
      assert ListedAt(parts, k, d) <==> TrimSpace(parts[k]) != "" && d == Lower(TrimSpace(parts[k]));
    }
  }

  lemma PairsOfParts(parse: string -> Option<IP>, line: string, parts: seq<string>)
    requires parts == Split(Cleaned(line), ' ') && |parts| >= 2 && parse(parts[0]).Some?
    requires Cleaned(line) != "" && Cleaned(line)[0] != '#'
    ensures LinePairs(parse, line) == DomainPairs(parts[1..], parts[0])
  {
  }

  lemma NamedIsPaired(parse: string -> Option<IP>, line: string, d: string, ip: string)
    requires Names(parse, line, d, ip)
    ensures Pair(d, ip) in LinePairs(parse, line)
  {
    var t, u := TrimSpace(line), Cleaned(line);
    var first, a, b :| NamesAt(parse, t, d, ip, first, a, b);
    FieldIsPart(t, 0, first);
    FieldIsPart(t, a, b);
    var parts := Split(u, ' ');
    SplitFirst(u, ' ');
    PartUnique(u, ' ', 0, first, |parts[0]|);
    SplitFinds(u, ' ', a, b);
    var n :| 0 <= n < |parts[1..]| && parts[1..][n] == u[a..b];
    assert ListedAt(parts[1..], n, d);
    DomainPairsIff(parts[1..], parts[0], d, ip);
    assert u[0] == t[0];
    PairsOfParts(parse, line, parts);
  }

  lemma FirstField(line: string)
    requires TrimSpace(line) != ""
    ensures var t, first := TrimSpace(line), Split(Cleaned(line), ' ')[0];
      Field(t, 0, |first|) && first == t[..|first|] && Cleaned(line)[0] == t[0]
  {
    var t, u := TrimSpace(line), Cleaned(line);
    var l, r := TrimSpaceCuts(line);
    assert !IsSpace(t[0]) && u[0] == t[0];
    SplitFirst(u, ' ');
    FieldIsPart(t, 0, |Split(u, ' ')[0]|);
  }

  lemma LaterField(line: string, n: nat) returns (a: int, b: int)
    requires 0 < n < |Split(Cleaned(line), ' ')| && Split(Cleaned(line), ' ')[n] != ""
    ensures var t, parts := TrimSpace(line), Split(Cleaned(line), ' ');
      |parts[0]| < a && Field(t, a, b) && t[a..b] == parts[n]
  {
    var u := Cleaned(line);
    SplitFirst(u, ' ');
    a, b := SplitPart(u, ' ', n);
    FieldIsPart(TrimSpace(line), a, b);
  }

  lemma PairedIsNamed(parse: string -> Option<IP>, line: string, d: string, ip: string)
    requires Pair(d, ip) in LinePairs(parse, line)
    ensures Names(parse, line, d, ip)
  {
    var parts := Split(Cleaned(line), ' ');
    DomainPairsIff(parts[1..], parts[0], d, ip);
    var n :| ListedAt(parts[1..], n, d);
    assert parts[1..][n] == parts[n + 1];
    FirstField(line);
    var a, b := LaterField(line, n + 1);
    assert NamesAt(parse, TrimSpace(line), d, ip, |parts[0]|, a, b);
  }

  /** A line yields exactly the records it names, for every line whatsoever. */
  lemma LinePairsIff(parse: string -> Option<IP>, line: string, d: string, ip: string)
    ensures Pair(d, ip) in LinePairs(parse, line) <==> Names(parse, line, d, ip)
  {
    if Names(parse, line, d, ip) { NamedIsPaired(parse, line, d, ip); }
    if Pair(d, ip) in LinePairs(parse, line) { PairedIsNamed(parse, line, d, ip); }
  }

  /** Line n names d with ip, and no later line names d. */
  ghost predicate LastNaming(parse: string -> Option<IP>, lines: seq<string>, n: int, d: string, ip: string) {
    && 0 <= n < |lines| && Names(parse, lines[n], d, ip)
    && forall m, x :: n < m < |lines| ==> !Names(parse, lines[m], d, x)
  }

  ghost predicate LastNamed(parse: string -> Option<IP>, lines: seq<string>, d: string, ip: string) {
    exists n :: LastNaming(parse, lines, n, d, ip)
  }

  /** Records of one line share their address, so their order does not matter. */
  lemma {:induction false} StoredLine(t: Table, ps: seq<Pair>, d: string, ip: string)
    requires forall i :: 0 <= i < |ps| ==> ps[i].ip == ip
    ensures if Pair(d, ip) in ps then d in Stored(t, ps) && Stored(t, ps)[d] == ip
            else (d in Stored(t, ps) <==> d in t) && (d in t ==> Stored(t, ps)[d] == t[d])
  {
    if ps != [] { StoredLine(t, ps[..|ps| - 1], d, ip); }
  }

  lemma OneAddress(parse: string -> Option<IP>, line: string)
    ensures forall i :: 0 <= i < |LinePairs(parse, line)| ==> LinePairs(parse, line)[i].ip == Split(Cleaned(line), ' ')[0]
  {
    var ps := LinePairs(parse, line);
    var parts := Split(Cleaned(line), ' ');
    forall i | 0 <= i < |ps| ensures ps[i].ip == parts[0] {
      assert Pair(ps[i].domain, ps[i].ip) in ps;
      DomainPairsIff(parts[1..], parts[0], ps[i].domain, ps[i].ip);
    }
  }

  /** The line set d to the address it gives d, or left d alone because it does not name d. */
  ghost predicate LineDone(parse: string -> Option<IP>, line: string, before: Table, after: Table, d: string) {
    && (forall ip :: Names(parse, line, d, ip) ==> d in after && after[d] == ip)
    && ((forall ip :: !Names(parse, line, d, ip)) ==> (d in after <==> d in before) && (d in after ==> after[d] == before[d]))
  }

  lemma LineStored(parse: string -> Option<IP>, line: string, t: Table, d: string)
    ensures LineDone(parse, line, t, Stored(t, LinePairs(parse, line)), d)
    ensures forall x, y :: Names(parse, line, d, x) && Names(parse, line, d, y) ==> x == y
  {
    var ps := LinePairs(parse, line);
    OneAddress(parse, line);
    StoredLine(t, ps, d, Split(Cleaned(line), ' ')[0]);
    forall ip ensures Names(parse, line, d, ip) <==> Pair(d, ip) in ps { LinePairsIff(parse, line, d, ip); }
  }

  lemma LastNamedSnoc(parse: string -> Option<IP>, lines: seq<string>, line: string, d: string, ip: string)
    ensures LastNamed(parse, lines + [line], d, ip) <==>
      Names(parse, line, d, ip) || (LastNamed(parse, lines, d, ip) && forall x :: !Names(parse, line, d, x))
  {
    var all := lines + [line];
    if LastNamed(parse, all, d, ip) {
      var n :| LastNaming(parse, all, n, d, ip);
      if n < |lines| {
        assert all[|lines|] == line;
        assert forall m :: n < m < |lines| ==> all[m] == lines[m];
        assert LastNaming(parse, lines, n, d, ip);
      }
    }
    if Names(parse, line, d, ip) {
      assert LastNaming(parse, all, |lines|, d, ip);
    } else if LastNamed(parse, lines, d, ip) && forall x :: !Names(parse, line, d, x) {
      var n :| LastNaming(parse, lines, n, d, ip);
      assert LastNaming(parse, all, n, d, ip);
    }
  }

  /** The table of a file: d has address ip exactly when the last line that names d gives it ip. */
  lemma {:induction false} RefreshedIff(parse: string -> Option<IP>, lines: seq<string>, d: string, ip: string)
    ensures var t := Stored(map[], FilePairs(parse, lines));
            d in t && t[d] == ip <==> LastNamed(parse, lines, d, ip)
  {
    if lines != [] {
      var before, line := lines[..|lines| - 1], lines[|lines| - 1];
      var t := Stored(map[], FilePairs(parse, before));
      RefreshedIff(parse, before, d, ip);
      StoredConcat(map[], FilePairs(parse, before), LinePairs(parse, line));
      LineStored(parse, line, t, d);
      assert lines == before + [line];
      LastNamedSnoc(parse, before, line, d, ip);
    }
  }

  /** Every domain some line names is in the table. */
  lemma {:induction false} NamedIsStored(parse: string -> Option<IP>, lines: seq<string>, n: nat, d: string, ip: string) returns (last: string)
    requires n < |lines| && Names(parse, lines[n], d, ip)
    ensures LastNamed(parse, lines, d, last)
    ensures var t := Stored(map[], FilePairs(parse, lines)); d in t && t[d] == last
    decreases |lines| - n
  {
    if m, x :| n < m < |lines| && Names(parse, lines[m], d, x) {
      last := NamedIsStored(parse, lines, m, d, x);
    } else {
      last := ip;
      assert LastNaming(parse, lines, n, d, ip);
      RefreshedIff(parse, lines, d, last);
    }
  }

  // ---------------------------------------------------------------- lines as people write them

  /** Not empty and without white space. */
  predicate IsWord(s: string) {
    s != "" && forall i :: 0 <= i < |s| ==> !IsSpace(s[i])
  }

  /** One record per domain, in order. */
  ghost predicate PairsEach(ps: seq<Pair>, ds: seq<string>, ip: string) {
    |ps| == |ds| && forall i :: 0 <= i < |ds| ==> ps[i] == Pair(Lower(ds[i]), ip)
  }

  lemma {:induction false} PairsOfWords(ds: seq<string>, ip: string)
    requires forall i :: 0 <= i < |ds| ==> IsWord(ds[i])
    ensures PairsEach(DomainPairs(ds, ip), ds, ip)
  {
    if ds != [] {
      PairsOfWords(ds[..|ds| - 1], ip);
      WordIsTrimmed(ds[|ds| - 1]);
    }
  }

  lemma WordIsTrimmed(s: string)
    requires IsWord(s)
    ensures TrimSpace(s) == s
  {
    TrimSpaceUnique("", s, "");
    assert "" + s + "" == s;
  }

  /** An address and one or more domains, joined by blanks or tabs: one record per domain, in order. */
  lemma WrittenLine(parse: string -> Option<IP>, line: string, ip: string, ds: seq<string>)
    requires IsWord(ip) && ip[0] != '#' && parse(ip).Some? && ds != [] && forall i :: 0 <= i < |ds| ==> IsWord(ds[i])
    requires ReplaceChar(line, '\t', ' ') == Join([ip] + ds, ' ')
    ensures PairsEach(LinePairs(parse, line), ds, ip)
  {
    var parts := [ip] + ds;
    JoinOfWords(parts);
    TrimmedWithTabs(line);
    forall i | 0 <= i < |parts| ensures ' ' !in parts[i] {
      WordHasNoBlank(parts[i]);
    }
    SplitJoin(parts, ' ');
    assert Cleaned(line)[0] == line[0];
    PairsOfParts(parse, line, parts);
    assert parts[1..] == ds;
    PairsOfWords(ds, ip);
  }

  lemma WordHasNoBlank(s: string)
    requires IsWord(s)
    ensures ' ' !in s
  {
  }

  lemma JoinOfWords(parts: seq<string>)
    requires |parts| >= 2 && forall i :: 0 <= i < |parts| ==> IsWord(parts[i])
    ensures var s := Join(parts, ' '); parts[0] != "" && s != "" && s[0] == parts[0][0] && Trimmed(s)
  {
    JoinEnds(parts, ' ');
    assert IsWord(parts[0]) && IsWord(parts[|parts| - 1]);
  }

  lemma TrimmedWithTabs(line: string)
    requires var u := ReplaceChar(line, '\t', ' '); u != "" && Trimmed(u)
    ensures TrimSpace(line) == line && ReplaceChar(line, '\t', ' ')[0] == line[0]
  {
    TrimSpaceUnique("", line, "");
    assert "" + line + "" == line;
  }

  /** Blank lines and comments define nothing. */
  lemma NothingOnLine(parse: string -> Option<IP>, line: string, lead: string, rest: string)
    requires AllSpace(lead) && (line == lead || line == lead + "#" + rest)
    ensures LinePairs(parse, line) == []
  {
    if line == lead {
      TrimLeftSkips(lead, "");
      assert lead + "" == lead;
    } else {
      var x := "#" + rest;
      assert line == lead + x;
      TrimLeftSkips(lead, x);
      var r := TrimRightCuts(x);
      var t := TrimRight(x);
      assert x[0] == '#';
      assert t != "" && t[0] == '#';
    }
  }

  class FileHosts {
    var hosts: Table
    const parse: string -> Option<IP>

    constructor (parse: string -> Option<IP>)
      ensures hosts == map[] && this.parse == parse
    {
      this.parse := parse;
      hosts := map[];
    }

    /** lines is the file's content, None when it cannot be opened. */
    method Refresh(lines: Option<seq<string>>)
      modifies this
      ensures lines.None? ==> hosts == old(hosts)
      ensures lines.Some? ==> hosts == Stored(map[], FilePairs(parse, lines.value))
      ensures lines.Some? ==> forall d, ip :: d in hosts && hosts[d] == ip <==> LastNamed(parse, lines.value, d, ip)
    {
      if lines.None? {
        return;
      }
      hosts := map[];
      var i := 0;
      while i < |lines.value|
        invariant 0 <= i <= |lines.value|
        invariant hosts == Stored(map[], FilePairs(parse, lines.value[..i]))
      {
        ghost var ps := FilePairs(parse, lines.value[..i]);
        assert lines.value[..i + 1][..i] == lines.value[..i];
        StoredConcat(map[], ps, LinePairs(parse, lines.value[i]));
        AddLine(lines.value[i]);
        i := i + 1;
      }
      assert lines.value[..i] == lines.value;
      forall d, ip ensures d in hosts && hosts[d] == ip <==> LastNamed(parse, lines.value, d, ip) {
        RefreshedIff(parse, lines.value, d, ip);
      }
    }

    method AddLine(raw: string)
      modifies this
      ensures hosts == Stored(old(hosts), LinePairs(parse, raw))
      ensures forall d :: LineDone(parse, raw, old(hosts), hosts, d)
    {
      forall d ensures LineDone(parse, raw, hosts, Stored(hosts, LinePairs(parse, raw)), d) {
        LineStored(parse, raw, hosts, d);
      }
      var line := ReplaceChar(TrimSpace(raw), '\t', ' ');
      if HasPrefix(line, "#") || line == "" {
        return;
      }
      var parts := Split(line, ' ');
      if |parts| < 2 {
        return;
      }
      var ip := parts[0];
      if !IsIP(parse, ip) {
        return;
      }
      AddDomains(parts[1..], ip);
    }

    /** The rest of a line: one or more domains, blanks between them skipped. */
    method AddDomains(domains: seq<string>, ip: string)
      modifies this
      ensures hosts == Stored(old(hosts), DomainPairs(domains, ip))
    {
      var i := 0;
      while i < |domains|
        invariant 0 <= i <= |domains|
        invariant hosts == Stored(old(hosts), DomainPairs(domains[..i], ip))
      {
        assert domains[..i + 1][..i] == domains[..i];
        var domain := TrimSpace(domains[i]);
        StoredSnoc(old(hosts), DomainPairs(domains[..i], ip), Pair(Lower(domain), ip));
        if domain != "" {
          hosts := hosts[Lower(domain) := ip];
        }
        i := i + 1;
      }
      assert domains[..i] == domains;
    }

    method Get(domain: string) returns (r: Option<seq<string>>)
      ensures exists v :: Answers(hosts, domain, v) && r == match v case None => None case Some(ip) => Some([ip])
    {
      var v := Find(hosts, domain);
      r := match v case None => None case Some(ip) => Some([ip]);
    }
  }

  /** The address of the last record for d. */
  function LastFor(ps: seq<Pair>, d: string): Option<string> {
    if ps == [] then None
    else if ps[|ps| - 1].domain == d then Some(ps[|ps| - 1].ip)
    else LastFor(ps[..|ps| - 1], d)
  }

  /** The table holds exactly the domains of the file, each with its last address. */
  lemma {:induction false} LastLineWins(ps: seq<Pair>, d: string)
    ensures d in Stored(map[], ps) <==> LastFor(ps, d).Some?
    ensures d in Stored(map[], ps) ==> Stored(map[], ps)[d] == LastFor(ps, d).value
  {
    if ps != [] { LastLineWins(ps[..|ps| - 1], d); }
  }

  /** Non-empty, lower-case, without blanks or tabs. */
  predicate CleanDomain(d: string) {
    d != "" && Lower(d) == d && ' ' !in d && '\t' !in d
  }

  ghost predicate CleanPairs(parse: string -> Option<IP>, ps: seq<Pair>) {
    forall i :: 0 <= i < |ps| ==> CleanDomain(ps[i].domain) && IsIP(parse, ps[i].ip)
  }

  lemma TrimmedClean(p: string)
    requires ' ' !in p && '\t' !in p && TrimSpace(p) != ""
    ensures CleanDomain(Lower(TrimSpace(p)))
  {
    var d := TrimSpace(p);
    TrimSubset(TrimLeft(p), ' ');
    TrimSubset(p, ' ');
    TrimSubset(TrimLeft(p), '\t');
    TrimSubset(p, '\t');
    LowerIdempotent(d);
    assert forall i :: 0 <= i < |d| ==> d[i] in d && Lower(d)[i] != ' ' && Lower(d)[i] != '\t';
  }

  lemma {:induction false} DomainPairsClean(parse: string -> Option<IP>, parts: seq<string>, ip: string)
    requires IsIP(parse, ip) && forall i :: 0 <= i < |parts| ==> ' ' !in parts[i] && '\t' !in parts[i]
    ensures CleanPairs(parse, DomainPairs(parts, ip))
  {
    if parts != [] {
      DomainPairsClean(parse, parts[..|parts| - 1], ip);
      var p := parts[|parts| - 1];
      if TrimSpace(p) != "" { TrimmedClean(p); }
    }
  }

  lemma LinePairsClean(parse: string -> Option<IP>, line: string)
    ensures CleanPairs(parse, LinePairs(parse, line))
  {
    var t := Cleaned(line);
    var parts := Split(t, ' ');
    SplitFree(t, ' ', '\t');
    if |parts| >= 2 && IsIP(parse, parts[0]) {
      DomainPairsClean(parse, parts[1..], parts[0]);
    }
  }

  lemma {:induction false} FilePairsClean(parse: string -> Option<IP>, lines: seq<string>)
    ensures CleanPairs(parse, FilePairs(parse, lines))
  {
    if lines != [] {
      FilePairsClean(parse, lines[..|lines| - 1]);
      LinePairsClean(parse, lines[|lines| - 1]);
    }
  }

  /** What a parsed file can contain: clean keys and addresses only. */
  ghost predicate CleanTable(parse: string -> Option<IP>, t: Table) {
    forall d :: d in t ==> CleanDomain(d) && IsIP(parse, t[d])
  }

  lemma {:induction false} StoredClean(parse: string -> Option<IP>, ps: seq<Pair>)
    requires CleanPairs(parse, ps)
    ensures CleanTable(parse, Stored(map[], ps))
  {
    if ps != [] { StoredClean(parse, ps[..|ps| - 1]); }
  }

  lemma RefreshedTableClean(parse: string -> Option<IP>, lines: seq<string>)
    ensures CleanTable(parse, Stored(map[], FilePairs(parse, lines)))
  {
    FilePairsClean(parse, lines);
    StoredClean(parse, FilePairs(parse, lines));
  }

  // ---------------------------------------------------------------- Hosts.Get

  /** The form of an address a family asks for: To4, To16, or nothing for any other family. */
  function InFamily(ip: IP, family: int): Option<IP> {
    if family == IP4_QUERY then (if ip.V4? then Some(ip) else None)
    else if family == IP6_QUERY then Some(ip)
    else None
  }

  function Addresses(parse: string -> Option<IP>, sips: seq<string>, family: int): seq<IP> {
    if sips == [] then []
    else
      var ip := parse(sips[|sips| - 1]);
      Addresses(parse, sips[..|sips| - 1], family) +
        if ip.Some? && InFamily(ip.value, family).Some? then [InFamily(ip.value, family).value] else []
  }

  /** The texts Hosts.Get works on: the file's record, else that of Redis split at commas. */
  ghost predicate Texts(file: Table, redis: Option<Table>, domain: string, r: Option<seq<string>>) {
    exists v :: Answers(file, domain, v) &&
      match v
      case Some(ip) => r == Some([ip])
      case None =>
        if redis.None? then r == None
        else exists u :: Answers(redis.value, domain, u) &&
               r == match u case None => None case Some(ips) => Some(Split(ips, ','))
  }

  method Get(parse: string -> Option<IP>, file: Table, redis: Option<Table>, domain: string, family: int)
    returns (ips: seq<IP>, ok: bool)
    ensures exists t :: Texts(file, redis, domain, t) && ips == (if t.None? then [] else Addresses(parse, t.value, family))
    ensures ok <==> ips != []
  {
    var v := Find(file, domain);
    var sips: Option<seq<string>> := None;
    if v.Some? {
      sips := Some([v.value]);
    } else if redis.Some? {
      var u := Find(redis.value, domain);
      sips := match u case None => None case Some(text) => Some(Split(text, ','));
    }
    assert Texts(file, redis, domain, sips);
    ips := [];
    if sips.None? {
      return [], false;
    }
    var i := 0;
    while i < |sips.value|
      invariant 0 <= i <= |sips.value|
      invariant ips == Addresses(parse, sips.value[..i], family)
    {
      assert sips.value[..i + 1][..i] == sips.value[..i];
      var parsed := parse(sips.value[i]);
      if parsed.Some? {
        var ip := InFamily(parsed.value, family);
        if ip.Some? {
          ips := ips + [ip.value];
        }
      }
      i := i + 1;
    }
    assert sips.value[..i] == sips.value;
    ok := ips != [];
  }

  /** Each text that parses gives its address to family 6, and to family 4 if it is IPv4, in order of the texts. */
  lemma {:induction false} AddressesConcat(parse: string -> Option<IP>, a: seq<string>, s: string, b: seq<string>, family: int)
    ensures Addresses(parse, a + [s] + b, family) ==
      Addresses(parse, a, family)
      + (if parse(s).Some? && (family == 6 || (family == 4 && parse(s).value.V4?)) then [parse(s).value] else [])
      + Addresses(parse, b, family)
  {
    var all := a + [s] + b;
    if b == [] {
      assert all[..|all| - 1] == a;
    } else {
      assert all[..|all| - 1] == a + [s] + b[..|b| - 1];
      AddressesConcat(parse, a, s, b[..|b| - 1], family);
    }
  }

  /** Redis is asked only when the file has no answer; its record lists addresses separated by commas. */
  lemma RedisSecond(file: Table, redis: Table, domain: string, ips: seq<string>, t: Option<seq<string>>)
    requires Lower(domain) in redis && ips != [] && (forall i :: 0 <= i < |ips| ==> ',' !in ips[i])
    requires redis[Lower(domain)] == Join(ips, ',') && Texts(file, Some(redis), domain, t)
    ensures t.Some?
    ensures if Answers(file, domain, None) then t.value == ips
            else |t.value| == 1 && Answers(file, domain, Some(t.value[0]))
  {
    SplitJoin(ips, ',');
  }

  /** No address belongs to a family other than 4 and 6, so such queries never match. */
  lemma {:induction false} OtherFamilyEmpty(parse: string -> Option<IP>, sips: seq<string>, family: int)
    requires family != IP4_QUERY && family != IP6_QUERY
    ensures Addresses(parse, sips, family) == []
  {
    if sips != [] { OtherFamilyEmpty(parse, sips[..|sips| - 1], family); }
  }

  /** A record of a parsed file yields one address to an AAAA query, and to an A query exactly if it is IPv4. */
  lemma FileRecordAddresses(parse: string -> Option<IP>, file: Table, redis: Option<Table>, domain: string, t: Option<seq<string>>)
    requires CleanTable(parse, file) && Texts(file, redis, domain, t) && !Answers(file, domain, None)
    ensures t.Some? && |t.value| == 1 && parse(t.value[0]).Some?
    ensures Addresses(parse, t.value, IP6_QUERY) == [parse(t.value[0]).value]
    ensures Addresses(parse, t.value, IP4_QUERY) == if parse(t.value[0]).value.V4? then [parse(t.value[0]).value] else []
  {
    assert t.value[..0] == [];
  }
}
