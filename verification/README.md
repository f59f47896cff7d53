# A verified model of GoDNS

GoDNS is a caching DNS forwarder. This project models its resolver, caches, label trie, DNSSEC
validator, host records and request handler in Dafny 4.11 and proves properties of them; check it
with `dafny verify dfyconfig.toml`.

| file | part of GoDNS |
|---|---|
| LookupProtocol.dfy | `Resolver.Lookup` as a transition system over all interleavings |
| RttTable.dfy, Resolver.dfy | round-trip times, choice and order of upstream servers |
| MemoryCache.dfy | the memory cache, one call at a time |
| CacheInterleaving.dfy | the memory cache with every critical section as one step |
| Handler.dfy | the request handler and whole runs of requests |
| SuffixShape.dfy, SuffixTree.dfy | the label trie: on values, and as a pointer structure |
| DomainNames.dfy, Dnssec.dfy, DnssecGroups.dfy, DnssecTrust.dfy | zone names, the chain of trust, grouping and validation, what success is worth |
| GoStrings.dfy, Hosts.dfy | string functions, hosts-file parsing, wildcard matching |
| Messages.dfy | shared values |

## Where the code and its comments disagree

The model follows the code.

- resolver.go:138-140 says the context prevents leaked goroutines. It does not: a worker blocked on
  the channel never looks at the context. `CanLeakIffTwoServers` shows that a leak is possible
  exactly when two or more servers are asked, and `QuietConservation` counts the leaked workers. Of n
  workers at most n - 1 leak (`LeaksAtMost`), and some run reaches that (`WorstLeak`).
- resolver.go:228-234 validates DNSSEC, but a failed validation only skips the round-trip time: the
  message is returned all the same (`AnyReplyCanWin`).
- sfx_tree.go:76 calls the last value the most specific. When the whole query has a node without a
  value, the best match collected on the way is dropped;
  `SearchIsLongestSuffixUnlessShadowed` gives the exact set of queries.
- cache.go checks capacity before it writes, under separate locks. `CapacityUnderConcurrency` and
  `CapacityBoundReached` give the exact excess over `Maxcount`; `MaxcountRespectedIff` shows that the
  limit holds exactly when no two Sets overlap.
- cache.go:82-85 removes an expired key after releasing the lock, so a fresh entry can be dropped
  (`LateExpiryDropsFreshEntry`). `EntryLostIff` says exactly which calls in flight make that possible.
- helper.go:33-47 keeps the signatures of a group once each unless one covers type RRSIG; then they
  are repeated (`SignatureTwice`, exact condition in `SignatureCountIff`).
- dnssec.go:147-151 handles the root zone as the base case of the recursion, but `parent` of a
  one-label name is empty, so the recursion ends one level below the root (`ChainReach`).
- dnssec.go:126 passes a set that holds the signature and the signing key to `Verify`. With a
  verifier that insists on one record type, no response is ever valid
  (`NoResponseValidWithOneType`); the chain itself is not affected, since it verifies DS sets.
- A key is trusted when its tag equals that of an anchor (dnssec.go:131 and 229); the keys themselves
  are not compared. At both places a success can end at a key other than the configured one:
  `SetValidWithoutConfiguredKey` (line 131) and `SuccessWithoutConfiguredKey` (line 229) give the
  inputs. `SetsEndAtConfiguredIff` says exactly when that cannot happen to a valid set, and
  `EndsAtConfiguredIff` when it cannot happen to a climb of `validateChain`.
- handler.go:165-180 answers an AAAA question with an A record when the host record is IPv4
  (`FileRecordReply`).

## Assumptions made explicit

- Environment: clock readings, network replies, the blocklist verdict, file content and map iteration
  order are parameters or arbitrary choices; every statement holds for all of them.
- `CollisionFree` names the two facts cache integrity rests on: no MD5 collision and class names
  without spaces.
- `RR` says that the Go type of a parsed record agrees with the type in its header.
- `Proper` names are fully qualified with at least one label and no empty label, which is what wire
  names are; `ParentIsRootIff` shows why it is needed, and `ParentShrinks` needs nothing.
- Within one `Validate` the clock is read once and the network answers equal queries equally.

## Model

| member | source | states |
|---|---|---|
| `LookupProtocol.RunInv` | resolver.go:141-254 | the protocol invariant holds after every interleaving: wait-group count, spawn order, channel and context state |
| `LookupProtocol.LookupSafety` | resolver.go:146-224 | for every n and schedule: no send or close is possible on a closed channel, close only after all workers finished, a returned message is a reply of a chosen server in this run and not a SERVFAIL, the closed-channel error means that every server was asked and each reply was a failure, empty or a SERVFAIL |
| `LookupProtocol.ReplyDecides` | resolver.go:192-208 | in every later state of every run: a failed exchange is penalised, a message other than SERVFAIL is sent with its server and time, any other reply is dropped |
| `LookupProtocol.FirstReplyWins` | resolver.go:135-148 | the returned message is the first response sent in the run; the closed-channel error means that none was sent |
| `LookupProtocol.ResultCause` | resolver.go:219-254 | a time-out error exactly when the time-out was taken, a message exactly when a reply was received |
| `LookupProtocol.AnyReplyCanWin` | resolver.go:204-248 | any usable reply can be returned while no other worker has started, whatever DNSSEC validation says |
| `LookupProtocol.TimeoutCanWin` | resolver.go:219-254 | a run that times out with a usable reply in the channel |
| `LookupProtocol.AskedAtMostOnce` | resolver.go:153-208 | no worker asks its server twice |
| `LookupProtocol.CancelledWorkerNeverAsks` | resolver.go:158-163 | a worker that looks at the context after cancellation never contacts its server |
| `LookupProtocol.QuietConservation` | resolver.go:148-216 | when nothing can move: the caller has returned, blocked workers = max(0, sent - 1 - received), and the closer finishes iff none is blocked |
| `LookupProtocol.LookupTerminates` | resolver.go:141-254 | every run on n servers has at most 6n + 6 own steps |
| `LookupProtocol.LeakedForever` | resolver.go:204-207 | a worker blocked after the caller returned stays blocked whatever happens |
| `LookupProtocol.LeakWithTwo` | resolver.go:153-209 | a schedule that leaks a worker, for any two or more servers |
| `LookupProtocol.CanLeakIffTwoServers` | resolver.go:138-216 | a leak is possible exactly when two or more servers are asked |
| `LookupProtocol.LeaksAtMost` | resolver.go:148-216 | once the caller has returned with the channel full, at most n - 1 of n workers are blocked, in every run |
| `LookupProtocol.WorstLeak` | resolver.go:153-216 | a run, for every n of at least 1, in which the caller times out and n - 1 workers stay blocked |
| `LookupProtocol.RttsStayWithin` | resolver.go:194-245 | with concurrent lookups writing too, the servers in the table are fixed and no time exceeds a bound on time-out and samples |
| `LookupProtocol.RttsFollowUpdates` | resolver.go:194-245 | a run changes the times by its penalties, its validated sample (load balancing only) and other lookups' updates, in order, and by nothing else |
| `LookupProtocol.RttAfterStep` | resolver.go:194-245 | server by server and step by step: the time-out after a failed exchange, nine tenths old and one tenth new after a validated reply with load balancing on, unchanged otherwise |
| `RttTable.AverageBetween` | resolver.go:240-243 | nine tenths old value and one tenth sample, rounded down; between the two; a fixed point iff the sample is 0 to 9 units above |
| `RttTable.RunKeeps` | resolver.go:194-245 | over every run of penalties and samples the keys are fixed and all times stay in [0, bound] |
| `RttTable.ConstantSampleConverges` | resolver.go:240-243 | under a constant sample: never overshoots, reaches the sample from above and exactly nine below it from below, in at most the distance many steps |
| `RttTable.ConvergesGeometrically` | resolver.go:240-243 | the distance to the limit shrinks by at least a tenth with every equal sample |
| `RttTable.OnlyOwnUpdatesMatter` | resolver.go:197-201 | a server's time is determined by its own updates alone |
| `RttTable.PenaltyHolds` | resolver.go:196-201 | after a penalty the time is the time-out until the server's own next update |
| `Resolvers.Resolver.constructor` | resolver.go:115-133 | one state per distinct configured (or default) server, each at the time-out |
| `Resolvers.Resolver.Penalise` | resolver.go:196-201 | the table changes by exactly one penalty, in place |
| `Resolvers.Resolver.Record` | resolver.go:236-245 | the table changes by exactly one sample, in place |
| `Resolvers.SortByRtt` | resolver.go:283-286 | a permutation in non-decreasing time |
| `Resolvers.Resolver.SortedServers` | resolver.go:274-295 | a permutation of the distinct configured servers, fastest first |
| `Resolvers.Resolver.Nameservers` | resolver.go:259-305 | domain rule, else sorted, else the configured servers or the two defaults in order; never empty |
| `Resolvers.KeysAreLabels` | resolver.go:261 | the search keys of a name are its labels in order, with or without the trailing dot |
| `Resolvers.RuleNamesAll` | resolver.go:266-270 | a comma-separated rule names each address, in order, with its port added |
| `MemoryCaches.MemoryCache.Get` | cache.go:74-88 | answer and new content, an expired entry is dropped |
| `MemoryCaches.MemoryCache.Set` | cache.go:91-102 | accepted unless full and the key is new; new content |
| `MemoryCaches.MemoryCache.Remove` | cache.go:105-110 | exactly the key goes |
| `MemoryCaches.MemoryCache.IsFull` | cache.go:128-134 | full iff limited and at the limit |
| `MemoryCaches.CacheRefinesTimedMap` | cache.go:74-102 | after any chronological history the answer is the latest accepted Set not followed by Remove, until expire has passed |
| `MemoryCaches.GetDropsExpired` | cache.go:74-88 | after any history a Get removes exactly the entry of its key, and that only if expired |
| `MemoryCaches.RunWithinMaxcount` | cache.go:91-134 | sequentially never more than Maxcount entries |
| `CacheInterleaving.CapacityStep` | cache.go:91-134 | stored keys together with keys pending a write stay at most Maxcount + N - 1 across every step |
| `CacheInterleaving.CapacityUnderConcurrency` | cache.go:91-134 | at most Maxcount + N - 1 entries in every interleaving with N concurrent Sets |
| `CacheInterleaving.CapacityBoundReached` | cache.go:91-102 | some interleaving reaches that bound, for every Maxcount and N |
| `CacheInterleaving.MaxcountRespectedIff` | cache.go:91-134 | all interleavings respect Maxcount exactly when no two Sets overlap |
| `CacheInterleaving.AnswersAreSound` | cache.go:74-102 | whatever Get answers at t was written under that key by a Set some caller began with that message, with a clock reading t0, t0 <= t <= t0 + Expire |
| `CacheInterleaving.LateExpiryDropsFreshEntry` | cache.go:82-85 | for every key and limits, a run in which a late expiry removal drops an entry just written |
| `CacheInterleaving.GuardedStays` | cache.go:74-110 | an entry no call in flight threatens stays in every continuation until it expires or a Remove of its key begins |
| `CacheInterleaving.EntryLostIff` | cache.go:74-110 | an unexpired entry can be lost early without a new Remove exactly when a call in flight on its key is a removal, holds an older copy, or is about to write an older reading |
| `CacheInterleaving.LoneSetIsAnswered` | cache.go:74-102 | a Set alone on its key is answered by every Get until it expires, whatever else runs |
| `CacheInterleaving.UndisturbedSet` | cache.go:91-102 | the steps of a Set, undisturbed, amount to the sequential Set |
| `CacheInterleaving.UndisturbedGet` | cache.go:74-88 | the steps of a Get, undisturbed, amount to the sequential Get |
| `Handlers.TextInjective` | handler.go:25-27 | question text identifies the question when class and type have no space |
| `Handlers.KeyIdentifiesQuestion` | cache.go:287-293 | two queries share a key iff type, class text and name up to a final separating dot are equal |
| `Handlers.Handler.Do` | handler.go:130-230 | reply and both caches' new content for every request and environment; the reply fits the request: code 2 for refusals and failures, 3 for blocked names, host records address by address, the upstream message as it is |
| `Handlers.ServedFits` | handler.go:130-230 | which requests are refused, blocked or answered from host records, and with what; those leave the caches alone |
| `Handlers.WhoAnswers` | handler.go:189-230 | over every run: the one live answer to the same question if there is one, else a failure if one is live, else upstream |
| `Handlers.Handler.Records` | handler.go:167-181 | one record per address, typed by the address |
| `Handlers.AnswerSuppressesUpstream` | handler.go:189-229 | after an answer stored at t0 the next upstream lookup of that key is later than t0 + Expire |
| `Handlers.FailureSuppressesUpstream` | handler.go:189-219 | after a failure stored at t0 it is later than t0 + Expire/2 |
| `Handlers.CacheIntegrity` | handler.go:208-229 | positive entries are upstream answers with records, negative entries are nil, each traced to the request that stored it |
| `Handlers.HitReplaysUpstream` | handler.go:199-206 | a hit replays an upstream answer to the same question with only the id changed, within Expire; a nil message is never dereferenced |
| `Handlers.NegativeHitRepeatsFailure` | handler.go:191-198 | a negative hit repeats a failure of the same question within Expire/2 |
| `Handlers.HostsAnswerAddressQuestionsOnly` | handler.go:153-187 | hosts answers only go to A and AAAA questions, so the MX branch is dead |
| `Handlers.FileRecordReply` | handler.go:153-187 | a parsed record answers AAAA with exactly one record, of type AAAA iff IPv6, and A iff IPv4 |
| `SuffixShape.InsertedEntries` | sfx_tree.go:38-49 | on any tree the table gains exactly the name; an empty value removes it |
| `SuffixShape.DeletedEntries` | sfx_tree.go:82-115 | on any tree the table loses exactly the name |
| `SuffixShape.InsertedCanon` | sfx_tree.go:38-49 | insertion keeps trees minimal |
| `SuffixShape.PrunedCanon` | sfx_tree.go:101-114 | the prune loop removes precisely the nodes that support no stored name |
| `SuffixShape.DeletedCanon` | sfx_tree.go:82-115 | deletion keeps trees minimal |
| `SuffixShape.RunRefines` | sfx_tree.go:38-115 | every run of operations refines the run on plain maps |
| `SuffixShape.RunCanonical` | sfx_tree.go:38-115 | every reachable tree is the minimal tree of its table |
| `SuffixShape.RunMinimal` | sfx_tree.go:101-114 | no reachable tree has a node, but the root, without value and children |
| `SuffixShape.LongestWins` | sfx_tree.go:60-74 | the reference search gives the value of the longest stored suffix |
| `SuffixShape.ShapeDeterminedByTable` | sfx_tree.go:38-115 | equal tables, equal trees, whatever the history |
| `SuffixShape.InsertDeleteRestores` | sfx_tree.go:38-115 | inserting a new name and deleting it restores the tree exactly |
| `SuffixShape.SearchIsLongestSuffixUnlessShadowed` | sfx_tree.go:55-78 | longest-suffix match iff the query is not shadowed; shadowed queries report nothing |
| `SuffixShape.ReachableSearch` | sfx_tree.go:55-78 | the same on every reachable tree |
| `SuffixShape.ShadowedExample` | sfx_tree.go:76-77 | a concrete shadowed query |
| `SuffixTrees.SuffixTree.constructor` | sfx_tree.go:15-21 | a valid tree of one empty root |
| `SuffixTrees.SuffixTree.EnsureSubTree` | sfx_tree.go:25-33 | adds the child without value if missing, keeps all other nodes |
| `SuffixTrees.SuffixTree.InsertDomain` | sfx_tree.go:38-49 | the pointer tree becomes the tree with the name inserted; nodes stay unshared and correctly keyed |
| `SuffixTrees.SuffixTree.SearchDomain` | sfx_tree.go:55-78 | the loop returns the search result of the tree's shape |
| `SuffixTrees.SuffixTree.Delete` | sfx_tree.go:82-115 | the pointer tree becomes the tree with the name deleted; surviving nodes are the same objects |
| `SuffixTrees.SuffixTree.Prune` | sfx_tree.go:101-114 | path indexed forward and keys backward prune the shape as specified |
| `DomainNames.ParentDropsOneLabel` | features/dnssec/helper.go:74-84 | the parent of a proper name is proper with exactly one label fewer; one label has none |
| `DomainNames.ParentShrinks` | features/dnssec/helper.go:74-84 | walking up ends for every name at all |
| `DomainNames.ParentIsRootIff` | features/dnssec/helper.go:74-84 | the parent is the root exactly for names of one label followed by an empty one |
| `DomainNames.ParentCutsFirstLabel` | features/dnssec/helper.go:74-84 | the parent is what follows the first separating dot |
| `DomainNames.FinalDot` | handler.go:242-247 | a final dot is dropped iff an even number of backslashes stands before it; nothing else is dropped |
| `Dnssec.ChainSound` | features/dnssec/dnssec.go:145-236 | whatever the replies, success yields a finite path of vouched keys from the key to one with an anchor's tag, with one query of each kind a step |
| `Dnssec.UpVouches` | features/dnssec/dnssec.go:159-226 | each next key belongs to the parent zone and verifies a non-empty DS set with the tag and digest of the previous key |
| `Dnssec.UpIff` | features/dnssec/dnssec.go:145-226 | a step up to a key happens iff answer or authority section hold a matching DS record and the last signature over the DS set verifies it with that key, the first of the parent zone with its tag |
| `Dnssec.StopIsTruthful` | features/dnssec/dnssec.go:168-198 | no DS, no DS signature and DS mismatch are reported only when true of both sections |
| `Dnssec.DsSetConcat` | features/dnssec/dnssec.go:168-177 | the DS set is every DS record of the owner, in order |
| `Dnssec.LastDsSigIs` | features/dnssec/dnssec.go:168-177 | the signature used is the last one over the DS set, by position |
| `Dnssec.FirstKeyIs` | features/dnssec/helper.go:62-72 | the key used is the first with the owner and tag, by position |
| `Dnssec.ChainValidIff` | features/dnssec/dnssec.go:145-236 | success exactly when the keys the replies lead to end at an anchor |
| `Dnssec.ChainReach` | features/dnssec/dnssec.go:145-236 | an L-label key causes at most L - 1 queries of each kind and never meets the root case |
| `Dnssec.SuccessEndsBelowRoot` | features/dnssec/dnssec.go:146-157 | every success is a path that drops one label a step and ends at a key whose zone has at least one label |
| `DnssecTrust.TagSuffices` | features/dnssec/dnssec.go:228-232 | any key with an anchor's tag that vouches for k makes k validate under some replies |
| `DnssecTrust.PathReplies` | features/dnssec/dnssec.go:145-226 | for every path of vouched keys there are replies that lead the recursion along it, key by key |
| `DnssecTrust.CanValidateIff` | features/dnssec/dnssec.go:145-236 | some network makes a key validate if and only if a path of vouched keys leads from it to an anchor's tag |
| `DnssecTrust.EndsAtConfiguredIff` | features/dnssec/dnssec.go:228-232 | for all replies every successful climb of `validateChain` ends at the configured key itself, if and only if no other key with an anchor's tag vouches for anything |
| `DnssecTrust.DistinctTagsEndAtConfigured` | features/dnssec/dnssec.go:228-232 | if no key shares an anchor's tag, every success is a path to a configured key |
| `DnssecTrust.SetsEndAtConfiguredIff` | features/dnssec/dnssec.go:119-139 | for all replies every valid set ends at a configured key, if and only if each key that verifies a set is the configured one when it has an anchor's tag, and otherwise has only paths of vouched keys to configured ones |
| `DnssecTrust.ValidResponseUnderConfigured` | features/dnssec/dnssec.go:84-139 | under that condition each group of an accepted response is signed by a configured key or one with a path of vouched keys to a configured key |
| `DnssecTrust.SetValidWithoutConfiguredKey` | features/dnssec/dnssec.go:130-134 | an accepted response without a configured key, in a world where nobody vouches for anything |
| `DnssecTrust.SuccessWithoutConfiguredKey` | features/dnssec/dnssec.go:228-232 | a world whose only anchor is a root key and in which a key validates through another key |
| `DnssecTrust.ChainCanSucceed` | features/dnssec/dnssec.go:145-236 | a world whose verifier accepts one record type only and in which a two-label key validates |
| `Dnssec.CollectDs` | features/dnssec/dnssec.go:168-177 | all DS records of the owner in order, and the last signature over them |
| `Dnssec.MatchDs` | features/dnssec/dnssec.go:187-195 | found iff some DS equals the key's tag and digest |
| `Dnssec.FindKey` | features/dnssec/helper.go:62-72 | the first key with the owner and tag |
| `Dnssec.ValidateChain` | features/dnssec/dnssec.go:145-236 | the recursive method computes the specified verdict and query counts |
| `DnssecGroups.GroupSigned` | features/dnssec/helper.go:25-49 | per owner, the in-order concatenation over its signatures of covered records and signature |
| `DnssecGroups.GroupShape` | features/dnssec/helper.go:25-49 | each group is non-empty, has one owner and ends in a signature |
| `DnssecGroups.GroupHolds` | features/dnssec/helper.go:33-47 | every record with a signature over it, by owner, class and covered type, is in the group before that signature |
| `DnssecGroups.GroupHoldsOnly` | features/dnssec/helper.go:33-47 | a group holds only signatures of its owner and records they are over |
| `DnssecGroups.GroupCount` | features/dnssec/helper.go:33-47 | the exact number of times each record is in a group |
| `DnssecGroups.SignatureCountIff` | features/dnssec/helper.go:33-47 | a signature is in its group as often as in the response iff none of its owner and class covers type RRSIG |
| `DnssecGroups.SignatureTwice` | features/dnssec/helper.go:33-47 | a response whose signature is in its group twice |
| `DnssecGroups.FirstSigIs` | features/dnssec/helper.go:52-59 | the signature used is the first of the set, by position |
| `DnssecGroups.FindRrsig` | features/dnssec/helper.go:52-59 | the first signature of a set |
| `DnssecGroups.JudgeSound` | features/dnssec/dnssec.go:100-140 | a valid set holds a current signature and a key of its signer and tag that verify it, and the key is anchored or heads a path of vouched keys to an anchor |
| `DnssecGroups.JudgeValidIff` | features/dnssec/dnssec.go:100-140 | valid exactly when the first signature is current and verifies with the first matching key, which leads to an anchor |
| `DnssecGroups.JudgeIsTruthful` | features/dnssec/dnssec.go:100-122 | each early rejection happens iff its reason is true of the set |
| `DnssecGroups.ValidateSet` | features/dnssec/dnssec.go:100-140 | the verdict on one set, error by error; a valid set is authentic in the sense of JudgeSound |
| `DnssecGroups.Validate` | features/dnssec/dnssec.go:73-95 | success iff something is signed and all groups are valid, for every iteration order; on success every group is authentic and every record of any section with a signature over it was verified; the empty-set and no-signature errors cannot arise |
| `DnssecGroups.NoSignedRecordSkipped` | features/dnssec/dnssec.go:73-95 | if all groups are authentic, each signed record is in a verified set with its signature |
| `DnssecGroups.NoSetValidWithOneType` | features/dnssec/dnssec.go:119-128 | no set is valid if verification accepts one record type only |
| `DnssecGroups.NoResponseValidWithOneType` | features/dnssec/dnssec.go:84-91 | hence no response with signatures is |
| `Hosts.WildcardIsLabelSuffix` | hosts.go:200-207 | the string suffix test holds iff the domain is one or more labels followed by those of the entry |
| `Hosts.WildcardMatchesIff` | hosts.go:200-207 | an entry matches other names iff it begins with star and dot and the name is below the rest |
| `Hosts.CaseIsIgnored` | hosts.go:194-210 | names that differ in case only have the same answers |
| `Hosts.AnswerUnique` | hosts.go:191-210 | iteration order matters only when several wildcards match |
| `Hosts.Find` | hosts.go:191-210 | the exact entry wins, else some matching wildcard, else nothing |
| `Hosts.FileHosts.Get` | hosts.go:191-210 | the found address as a one-element list |
| `Hosts.FileHosts.Refresh` | hosts.go:213-257 | a domain has an address in the table iff the last line of the file that names the domain gives it that address; the table stays when the file cannot be read |
| `Hosts.FileHosts.AddLine` | hosts.go:228-255 | each domain the line names gets its address, every other entry stays |
| `Hosts.LinePairsIff` | hosts.go:228-254 | for every line: it gives a domain an address iff its first blank- or tab-separated field is that address, it is no comment, and a later field is the domain up to case |
| `Hosts.RefreshedIff` | hosts.go:226-255 | the table of every file, stated on its lines |
| `Hosts.NamedIsStored` | hosts.go:226-255 | every domain some line names is in the table |
| `Hosts.WrittenLine` | hosts.go:228-254 | an address and domains joined by blanks or tabs give one record per domain, in order |
| `Hosts.NothingOnLine` | hosts.go:229-234 | blank lines and comments give nothing |
| `Hosts.LastLineWins` | hosts.go:248-254 | a domain is stored iff the file has it, with its last address |
| `Hosts.RefreshedTableClean` | hosts.go:226-255 | stored values are addresses; keys are non-empty, lower-case, without blanks or tabs |
| `Hosts.Get` | hosts.go:56-96 | file before Redis, parsed addresses of the family in order, found iff there is one |
| `Hosts.AddressesConcat` | hosts.go:73-93 | each text that parses contributes its address, in order, to family 6 always and to family 4 if IPv4 |
| `Hosts.RedisSecond` | hosts.go:63-69 | Redis is asked only when the file has no answer; its record is split at commas |
| `Hosts.OtherFamilyEmpty` | hosts.go:81-88 | families other than 4 and 6 never match |
| `Hosts.FileRecordAddresses` | hosts.go:75-95 | a file record gives one address to family 6, and to family 4 iff IPv4 |
| `GoStrings.TrimSpaceCuts` | hosts.go:229 | only white space is cut and none is left at either end |
| `GoStrings.TrimSpaceUnique` | hosts.go:229 | and the result is determined by that |
| `GoStrings.SplitJoin` | hosts.go:236 | splitting undoes joining |

## Left out

- `RttTable.AverageBetween`: about the exact average rounded down; float64 rounding is not modelled.
- `RttTable.ConstantSampleConverges`: about the exact average rounded down; float64 rounding is not modelled.
- `Resolvers.Resolver.Record`: stores the exact average rounded down; float64 rounding is not modelled.
- `GoStrings.Lower`: lower-cases ASCII letters only, where Go also maps other scripts.
- `GoStrings.IsSpace`: covers white space up to U+00A0 only.
- Redis and Memcached caches: foreign clients; both Redis caches share keys, so the statements are about the memory backend.
- Sockets, DNS exchange and the NS and A queries before a fetch: replaced by arbitrary replies.
- Cryptography, message packing, MD5 and address parsing: arbitrary functions.
- EDNS0 options of the forwarded request and the log output: no influence on the modelled results.
- Blocklist and its refresh: a verdict that arrives with the request.
- `RedisHosts.Set`, `RedisHosts.Refresh`, refresh tickers, settings, server start-up, profiling: plumbing.
- `ReadServerListFile` and `addPort`: string handling over library functions; `addPort` is an arbitrary function.
- `sort.Slice`: any sort by round-trip time; an insertion sort stands for it, ties in any order.
- features/dnssec/cache.go is never used by the validator; features/dnssec/trust_anchor.go is reduced to a map from tag to key.
- `CheckDNSSECValidity` and `CreateDSFromDNSKEY`: not called by the validator, easy.
- The handler is modelled one request at a time; concurrency is covered at the cache and at `Lookup`.
