# Verified models of mirage, samba-webgui and the Android packet builder

The repository holds a Python proxy (`mirage`), a web front end for Samba in Rust (`samba-webgui`) and an
Android client in Kotlin. Inside them are small state machines and codecs on which everything else rests.
This project models those in Dafny, branch by branch, and proves what they are for: that the fast form of a
decision is the plain one, that a protocol delivers to whom it should on every run, that what is written is
what is read back. Objects that change in place are classes whose methods are proved against functions; the
theorems are lemmas about those functions, over every input, every run or every reachable state.

`dafny verify dfyconfig.toml` checks everything.

## The parts

**Routing** (`Regex`, `RegexWords`, `Bloom`, `Rules`, `NetDigits`, `Router`, `RuleMeaning`, `RuleLowering`).
`Rules.Holds` and `Router.NaiveAction` are the plain reading: the first rule whose condition holds decides.
The compiled form (a literal searched for before the regular expression runs, a Bloom filter before the suffix
set, a walk over the dots of a name, a sorted list of address ranges searched by halving) gives the same
action for every rule list and every host. Regular expressions are trees of sequences, branches, repeats,
groups, anchors and lookaheads, with a relational semantics. `RuleMeaning` says what configured entries mean,
value by value; `RuleLowering` flattens them into that rule list and says exactly when this keeps their
meaning.

**Geo data** (`Protobuf`, `GeoData`, `GeoEncoding`). The hand-written readers are total, and any encoding of a table, with
unknown fields at every level, loads as that table.

**DNS upstreams** (`Framing`, `TxIds`, `DnsPipeline`, `DnsDelivery`, `DnsReuse`, `DnsRetry`). Queries share one stream; a cyclic
counter over a pending table renames them (section 4.2.2 of RFC 1035, section 6.2.1.1 of RFC 7766). The state
machine interleaves queries, writes, arbitrary chunks, losses, timeouts and retries.

**Replay cache** (`ReplayCache`). Time buckets with eviction against a timestamp tolerance, with the exact
number of buckets that safety takes, given how far the clock may move between its two readings for a token.

**Outbound groups** (`Groups`, `GroupLaws`, `GroupRules`, `Meters`, `OutboundTable`, `OutboundBuild`). Resolving a group reads
latencies, and reading a latency resolves: the model threads the choices of all groups through every read.
The building loop succeeds exactly when no groups wait only for each other or for nothing: with distinct tags,
exactly for acyclic, fully defined graphs.

**Connection pool** (`ConnPool`). Builders, takers and probes interleave over a queue, a count and a cursor.

**Tunnel and UDP frames** (`Tunnel`, `UdpRelay`). Any record sizes, any cuts, lockstep counters (record shape:
section 5.2 of RFC 8446); the datagrams arrive in order and whole.

**Caches and reload** (`DnsMessage`, `DecisionCache`, `HotReload`). Least-recently-used maps with expiry, the
scans of DNS messages that feed them, and a router that is replaced under them.

**smb.conf and share files** (`ConfText`, `ConfReading`, `GlobalParams`, `GlobalParamsTwice`, `ShareFormat`,
`ShareReading`, `ShareOrder`, `ShareStore`).
What a rewritten [global] section reads as, what it leaves alone, when doing it twice is doing it once; and
fragment files that are saved all or nothing and load as what was saved (`ShareOrder`: in which order).

**Internet checksum** (`Checksum`). RFC 1071 for every header and segment, odd lengths included, and the packets
built with it.

`Basics` and `Text` hold what the others share.

## Where the code is not what its comments say

- A geosite suffix entry matches only names strictly below it; a DOMAIN-SUFFIX rule matches the name too
  (`Rules.GeositeSuffixIsProper`).
- The header of `router.py` calls entries with several fields invalid; the code accepts them, and `mode: and`.
- `invert` is documented as turning the whole rule round. In OR mode every single value is turned round, so an
  inverted entry of two values matches too much (`RuleLowering.InvertedPairIsTorn`); `LoweredExactly` says
  when it does, and `LoweringDiffersExactly` when the router then decides otherwise.
- A selector whose selection names no child would be healthy if any child is, and resolve to its first child,
  healthy or not (`GroupLaws.StaleSelection`). Building and selecting never leave one in that state
  (`OutboundBuild.Build`, `OutboundTable.Outbounds.Select`).
- A tag that a leaf has already is called a duplicate. A group's tag is not: a later group takes over the tag of
  another group, or of a leaf behind it, and earlier groups keep the former node (`OutboundBuild.AddLeaves`,
  `AddAllKeeps`).
- The replay cache's notes call three buckets enough. The clock is read once for the window test and again for
  the bucket; if a second passes in between, three are not (`ReplayCache.TickBetweenReadings`), and
  `ThreeExactlyWithoutLag` says what is.
- A reload empties the response cache so that no address obtained through the former router's outbound stays.
  A question already under way is answered later and its response is kept (`HotReload.LateAnswerIsKept`);
  `AnswersAgreeExactly` says when that happens and `GentleReloadsAgree` when it cannot.
- The comment on the stagger cursor promises a distance between any two builds. It holds for builds that
  reserve their slots under one cursor: `probe_once` reserves none, and a warm-up starts the cursor afresh
  (`ConnPool.ApartUnderOneCursor`). `SlotsApart` speaks of the slots since the last warm-up.
- With probes a pool can hold twice its size (`ConnPool.TwiceFull`).
- Rewriting [global] twice differs from once if there are two [global] headers and a parameter is missing
  from the first (`GlobalParamsTwice.TwiceCanDiffer`); `ApplyTwice` is exact. A deleted parameter still reads
  as present if it also stands behind an include line (`GlobalParams.DeletedIsAbsent`, `DeletedCanStay`).
- A share's name may end in a space that is not the plain one; saved, it comes back without
  (`ShareStore.WideSpaceIsLost`).
- A rejected save restores the aggregate file as an empty one if there was none before, and a save whose
  `testparm` cannot be started reports an error and leaves the new files (`ShareStore.ShareFiles.SaveManaged`).

## Model

| member | source | states |
|---|---|---|
| Regex.ExtractLiteral | mirage/core/router.py:107-132 | the literal is the longest run of literal operations at the top level, lowercased, or empty when too short or without a dot |
| Regex.RunIsSubstring | mirage/core/router.py:107-132 | in any match of any expression the text of any top-level run of literals occurs in the host |
| Regex.PrefilterSound | mirage/core/router.py:378-388 | every lowercase host that the search accepts contains the extracted literal, so the filter never changes the answer |
| Regex.AnchorsAre | mirage/core/router.py:378-388 | where the anchors hold, by what stands before and behind |
| RegexWords.WordSearch | mirage/core/router.py:378-388 | searching for a plain word is looking for it in the host, in any case |
| RegexWords.RepeatMatches | mirage/core/router.py:378-388 | a repeated letter matches a stretch of it within the bounds given |
| Bloom.SetOneBit | mirage/core/bloom.py:66-68 | setting one bit of a byte sets that bit and no other |
| Bloom.BloomFilter.Add | mirage/core/bloom.py:66-68 | adding sets exactly the key's positions and clears none |
| Bloom.BloomFilter.Query | mirage/core/bloom.py:70-71 | membership is that all of the key's positions are set |
| Bloom.BloomFilter.AddKey | mirage/core/bloom.py:58-71 | a key added, and every key added before, is reported as present: no false negatives |
| Rules.GeositeSuffixIsProper | mirage/core/router.py:425-443 | a suffix entry matches what DOMAIN-SUFFIX matches except its own name, which it does not match and at no dot of which the walk finds it |
| Rules.DotWalk | mirage/core/router.py:428-439 | the walk over the dots finds a proper dotted suffix in the set if there is one, through the Bloom filter |
| Rules.MatchSite | mirage/core/router.py:425-443 | exact set, then nearest suffix, then the first keyword contained; a miss exactly if none applies |
| Rules.V4Contains | mirage/core/router.py:478-493 | halving and scanning back decides membership in any overlapping intervals sorted by start |
| Rules.RangeIsNet | mirage/core/router.py:453-467 | an address lies in a network exactly if it lies between its first and last address |
| NetDigits.InNet4 | mirage/core/router.py:391-398 | an IPv4 address is in a network exactly when its first binary digits, as many as the prefix says, are the network's |
| NetDigits.InNet6 | mirage/core/router.py:391-398 | the same for the 128 digits of IPv6; neither version is ever in a network of the other |
| NetDigits.Extremes | mirage/core/router.py:391-398 | the empty prefix takes every address and the full one exactly one |
| NetDigits.Halves | mirage/core/router.py:391-398 | one digit more splits a network into two halves that share nothing |
| Rules.SortRangesSorts | mirage/core/router.py:453-467 | sorting orders by start and keeps every interval |
| Router.BuildSite | mirage/core/router.py:408-423 | the tables hold exactly the lowercased values of each kind, and the filter knows every suffix |
| Router.BuildBloom | mirage/core/router.py:408-423 | a filter built over a set reports every member, whatever its size and hash |
| Router.BuildRanges | mirage/core/router.py:453-467 | the sorted ranges and the IPv6 list contain exactly the addresses of the networks |
| Router.Compile | mirage/core/router.py:348-467 | every criterion is compiled to a matcher that answers for it |
| Router.SiteMeaning | mirage/core/router.py:408-443 | the three tables together match exactly the hosts that some entry matches |
| Router.Inner | mirage/core/router.py:344-476 | the fast form of every kind of rule answers the naive question |
| Router.RuleMatches | mirage/core/router.py:339-343 | one rule, or an AND of groups, with its inversion, matches exactly when its naive meaning holds |
| Router.Router.Add | mirage/core/router.py:549-553 | a rule goes to the end with the next number |
| Router.Router.Match | mirage/core/router.py:568-590 | the action is that of the first rule whose naive meaning holds for the lowercased host without trailing dots, else the default; the rule reported is that rule |
| Router.NaiveActionSkips | mirage/core/router.py:568-590 | rules that do not hold do not matter |
| Router.NormalOfLower | mirage/core/router.py:577-590 | matching a lowercased name is matching the name |
| Router.NormalIs | mirage/core/router.py:577-577 | the name matched is the lowercased name without the dots it ends in, and nothing else is lost |
| RuleLowering.MakeRule | mirage/core/router.py:803-824 | a rule exactly for the values that can be used, compiled from the criterion made of the value |
| RuleLowering.CriterionMeans | mirage/core/router.py:636-690 | what is made of a value of each field answers as the text of the value says, host by host, and something is made of exactly the values that can be used |
| RuleLowering.RefersIs | mirage/core/router.py:636-654 | the part before the first colon names the source, the default without one, and the rest the list |
| RuleLowering.GroupsMean | mirage/core/router.py:728-800 | put in groups or in a row, the criteria of an entry's fields say of a host what the values do |
| RuleLowering.ExpandField | mirage/core/router.py:728-740 | one rule for each usable value of a field, in order |
| RuleLowering.ApplyEntry | mirage/core/router.py:743-800 | an entry appends its lowered rules and nothing else |
| RuleLowering.ApplyStructuredRules | mirage/core/router.py:743-800 | the rule list is the lowered entries in order |
| RuleLowering.LoweredExactly | mirage/core/router.py:743-800 | a lowered entry matches exactly when the entry does, or when it is inverted in OR mode and its values disagree |
| RuleLowering.NeverTorn | mirage/core/router.py:743-800 | without inversion, with a single value, or in AND mode the values cannot disagree in that way |
| RuleLowering.InvertedPairIsTorn | mirage/core/router.py:743-800 | an inverted entry of two domains matches one of them, which as a whole it does not |
| RuleLowering.LoweringDiffersExactly | mirage/core/router.py:743-800 | the flat list decides otherwise than the entries exactly when the first entry that matches or whose values disagree is of the second kind, and the entries behind it give another outbound |
| RuleLowering.LoweringPreserves | mirage/core/router.py:743-800 | on hosts on which no entry's values disagree in that way, the flat list decides as the first matching entry does, else the default |
| RuleLowering.BuildRouter | mirage/core/router.py:903-951 | the router built decides by the entries' meaning on exactly the hosts on which no such entry misleads it, with default over final over the initial action |
| Protobuf.VarintRoundTrip | mirage/core/router.py:142-150 | every number reads back from each of its base-128 forms, padded or shortest, whatever follows |
| Protobuf.FieldsRoundTrip | mirage/core/router.py:142-172 | any series of fields, in any form of its numbers, reads back as exactly those fields |
| Protobuf.ShortestFields | mirage/core/router.py:142-172 | what an encoder writes is one of those forms |
| Protobuf.ReadVarint | mirage/core/router.py:142-150 | the loop reads what the recursive definition says, and fails exactly where it does |
| Protobuf.ReadField | mirage/core/router.py:142-172 | one field by its tag; a length past the end is cut short; an unknown wire type ends the message |
| GeoData.ParseDomainMsg | mirage/core/router.py:160-172 | the last type and the last value count; an empty value is no domain |
| GeoData.ParseSiteMsg | mirage/core/router.py:175-188 | every domain in order under the last code; an exception in any part is one of the whole |
| GeoData.ParseCidrMsg | mirage/core/router.py:217-240 | four or sixteen bytes and a prefix that fits make a network, all else none |
| GeoData.ParseIpMsg | mirage/core/router.py:243-259 | every network in order under the last code, with the inverse flag |
| GeoData.LoadGeosite | mirage/core/router.py:191-212 | the table of all entries up to an exception or an unknown wire type; terminates on every input |
| GeoData.LoadGeoip | mirage/core/router.py:262-286 | the table of all network lists up to an exception or an unknown wire type; terminates on every input |
| GeoData.FromBigReads | mirage/core/router.py:231-238 | the bytes of an address, each given by its place with the most significant first, read as that address |
| GeoData.SiteFileRoundTrip | mirage/core/router.py:160-212 | any encoding of a geosite table with distinct uppercase codes, padded numbers, repeated scalar fields and unknown fields included, loads as that table |
| GeoData.IpFileRoundTrip | mirage/core/router.py:217-286 | any encoding of a geoip table with distinct uppercase codes, likewise padded, repeated and extended, loads as that table |
| GeoEncoding.WrittenSitesLoad | mirage/core/router.py:160-212 | what an encoder writes for a geosite table loads as that table |
| GeoEncoding.WrittenIpsLoad | mirage/core/router.py:217-286 | what an encoder writes for a geoip table loads as that table |
| Framing.SplitIsInverse | mirage/core/dns/upstream.py:145-165 | the bodies split off and the rest are the buffer again |
| Framing.SplitChunk | mirage/core/dns/upstream.py:145-165 | splitting what was left plus a new chunk is splitting everything at once |
| Framing.SplitFrames | mirage/core/dns/upstream.py:145-165 | framed bodies split into exactly those bodies |
| Framing.SplitOfPrefix | mirage/core/dns/upstream.py:145-165 | a prefix of the stream splits into a prefix of the bodies |
| TxIds.AllocateFinds | mirage/core/dns/upstream.py:36-49 | the search stops at the first free identifier from the counter on, and always finds one while fewer than 65535 are pending |
| TxIds.TrackedAllocate | mirage/core/dns/upstream.py:36-49 | every allocation keeps the bookkeeping that reuse distances rest on |
| TxIds.CountRound | mirage/core/dns/upstream.py:36-49 | every identifier the counter has passed was handed out or was pending |
| TxIds.ReuseDistance | mirage/core/dns/upstream.py:36-49 | between two allocations of one identifier lie at least 65535 - MAX_INFLIGHT others |
| DnsPipeline.PipelinedUpstream.AllocateTx | mirage/core/dns/upstream.py:36-49 | the loop with its wrap-around computes the search |
| DnsPipeline.PipelinedUpstream.ReadChunk | mirage/core/dns/upstream.py:145-165 | a chunk completes exactly the frames it completes, each dispatched, and leaves the rest buffered |
| DnsPipeline.PipelinedUpstream.DispatchOne | mirage/core/dns/upstream.py:159-165 | a response goes to the pending entry of its identifier, once; anything else is dropped |
| DnsPipeline.PipelinedUpstream.Complete | mirage/core/dns/upstream.py:131-143 | the entry goes, and the query gets its own identifier before the answer |
| DnsDelivery.AllocationSafety | mirage/core/dns/upstream.py:78-143 | in every reachable state pending identifiers are in range, at most MAX_INFLIGHT and each waited on by its query, allocation never fails, and reuse is far apart |
| DnsDelivery.ArriveDelivers | mirage/core/dns/upstream.py:145-165 | any piece of the stream, however cut, keeps every delivery right |
| DnsDelivery.Delivery | mirage/core/dns/upstream.py:91-183 | on every run where no identifier is reused while an answer to its earlier use is outstanding, a completed query has its own identifier and the answer to its own message |
| DnsDelivery.PromptDelivery | mirage/core/dns/upstream.py:91-183 | a completed query has the answer to its own message on every run where no answer is outstanding for 65535 - MAX_INFLIGHT allocations |
| DnsRetry.NeverSentThrice | mirage/core/dns/upstream.py:91-105 | on every run, whatever fails and when, no query is sent more than twice |
| DnsRetry.SecondChance | mirage/core/dns/upstream.py:91-105 | a first failure drops the tunnel and leaves the query to be sent again, a second one raises, and a timeout raises at once |
| DnsRetry.WorldIsFree | mirage/core/dns/upstream.py:91-183 | tunnels may break, readers die, any bytes arrive and any message be answered at any time |
| DnsRetry.QueriesAreFree | mirage/core/dns/upstream.py:91-183 | any query may fail, time out while it waits, or resume once its future is set |
| DnsRetry.EndsOfTunnels | mirage/core/dns/upstream.py:91-183 | a dying reader fails every pending future, a dropped tunnel leaves the table |
| DnsReuse.LateAnswerGoesToNewQuery | mirage/core/dns/upstream.py:91-183 | from every reachable state in which a query is given the identifier of a message whose answer is outstanding, some run completes the query without any answer to its own message |
| DnsReuse.ReuseIsReached | mirage/core/dns/upstream.py:36-143 | such a state is reached, for every limit on queries: once round the identifiers with the first message unanswered |
| DnsReuse.DeliveryCanFail | mirage/core/dns/upstream.py:91-183 | so there is a run from the start that delivers wrongly |
| DnsReuse.LoneQueryCompletes | mirage/core/dns/upstream.py:91-165 | a lone query, with any message and any answer, does complete with it |
| DnsReuse.RunKeepsWire | mirage/core/dns/upstream.py:131-183 | on every run, orderly or not, buffer and wire together are the frames of the replies not yet read, and the buffer holds no whole one |
| ReplayCache.TokenReplayCache.EvictStale | mirage/core/hello_auth.py:121-125 | exactly the buckets before the bound go, and the count follows |
| ReplayCache.TokenReplayCache.CheckAndMarkToken | mirage/core/hello_auth.py:127-152 | whether the token was in a kept bucket, and the buckets afterwards, a full cache recording nothing |
| ReplayCache.EnoughBuckets | mirage/core/hello_auth.py:118-226 | on every run whose clock never runs back over all its readings, and advances by at most d between the window test and the marking, enough buckets mean a recorded token is never accepted again |
| ReplayCache.TooFewBuckets | mirage/core/hello_auth.py:118-226 | with any fewer buckets there is such a run that accepts a recorded token twice |
| ReplayCache.SafeExactlyWhen | mirage/core/hello_auth.py:73-226 | safety is exactly: buckets >= ceiling of (twice the tolerance plus d) over the width, plus one |
| ReplayCache.ThreeExactlyWithoutLag | mirage/core/hello_auth.py:73-112 | with the source's width and tolerance three buckets are safe exactly when no second passes between the two readings, four for up to a minute, two never |
| ReplayCache.TickBetweenReadings | mirage/core/camouflage.py:79-82 | the source's three buckets accept a token of 119 at 59 and again when tested at 179 and marked at 180 |
| ReplayCache.FirstUseAccepted | mirage/core/hello_auth.py:191-226 | a timely genuine token never seen before is accepted |
| ReplayCache.AcceptedExactly | mirage/core/hello_auth.py:127-226 | an arrival is accepted exactly when its tag is right, its timestamp is within the tolerance of the clock, and its nonce was not recorded within the buckets still kept |
| ReplayCache.RefusedLeavesNoTrace | mirage/core/camouflage.py:79-82 | an arrival with a wrong tag or out of time is refused and leaves the cache as it was |
| ReplayCache.NeverOverfull | mirage/core/hello_auth.py:146-152 | the cache never holds more than its bound |
| GroupLaws.ReadSettled | mirage/core/group.py:43-98 | reading a settled node, at any depth, changes no choice and gives the leaf and latency of the plain definitions |
| GroupLaws.Resolves | mirage/core/group.py:68-98 | one resolution settles the node and everything under it; every choice it changed follows the rule |
| GroupLaws.ResolveTwice | mirage/core/group.py:68-108 | resolving again returns the same leaf and changes no choice |
| GroupLaws.CurrentFollowsRule | mirage/core/group.py:68-98 | after resolving, a urltest group's choice is what the rule chooses from its former one |
| GroupLaws.SwitchReasons | mirage/core/group.py:68-98 | a changed choice is the fastest, and the former one was unhealthy, without sample or at least the tolerance slower |
| GroupLaws.RulePicksFastest | mirage/core/group.py:68-98 | the rule leaves a choice only for the fastest, and only for those reasons |
| GroupLaws.ChooseTwice | mirage/core/group.py:68-98 | the rule is stable: what it chose it keeps |
| GroupLaws.HealthyResolvesToHealthyLeaf | mirage/core/group.py:39-163 | with selections valid, a group of any depth is healthy exactly when it resolves to a healthy real leaf |
| GroupLaws.StaleSelection | mirage/core/group.py:143-163 | without a valid selection a healthy selector resolves to an unhealthy child |
| GroupRules.FallbackTakesFirst | mirage/core/group.py:103-106 | a fallback group resolves as the first of its children that is healthy |
| GroupRules.FallbackWithoutHealthy | mirage/core/group.py:107-108 | without a healthy child as its first, without any child as itself |
| GroupRules.SelectorTakesSelected | mirage/core/group.py:152-163 | a selector resolves as exactly the child selected, as its first if the selection is no child |
| GroupRules.UrlTestTakesFastest | mirage/core/group.py:81-98 | with samples a url-test group takes its former choice if that is healthy, has a sample and is less than the tolerance slower than the fastest, else the fastest, the first of them among equals |
| GroupRules.UrlTestTakesFirst | mirage/core/group.py:75-80 | without samples its former choice if that is healthy, else the first healthy child |
| GroupRules.UrlTestWithoutHealthy | mirage/core/group.py:69-71 | without a healthy child it resolves to itself and changes nothing |
| Meters.HealthyUnlessThreeFailed | mirage/core/outbound.py:180-202 | a tunnel is healthy unless its last three builds all failed |
| Meters.LatencyOfLastTen | mirage/core/outbound.py:180-192 | its latency is the median of the times of its last ten successful builds, if there are any |
| Meters.MedianIsMiddle | mirage/core/outbound.py:192-192 | the median is the middle of the samples put in order, or halfway between the two in the middle |
| OutboundTable.Outbounds.RecordLatency | mirage/core/outbound.py:180-184 | a sample joins the window, the failures restart |
| OutboundTable.Outbounds.RecordFailure | mirage/core/outbound.py:185-188 | a failure is counted, no sample lost |
| OutboundTable.Outbounds.Select | mirage/core/group.py:143-150 | a child is selected, anything else refused, and the validity of all selections and choices survives |
| OutboundTable.Outbounds.LatencyMs | mirage/core/group.py:43-46 | reading a latency resolves the node and changes the choices as resolving does |
| OutboundTable.Outbounds.ResolveLeaf | mirage/core/group.py:68-163 | the node reached and all choices afterwards, for every kind of group |
| OutboundTable.Outbounds.ResolveUrlTestLeaf | mirage/core/group.py:68-98 | the statement by statement form, each latency read twice, computes the same |
| OutboundBuild.AddLeaves | mirage/core/outbound.py:376-409 | leaves enter the table in order, groups wait, and the first item with the tag of a leaf before it is an error |
| OutboundBuild.AddKeeps | mirage/core/outbound.py:428-441 | a group added in any sound table, its tag new or not, stands for its configuration: its kind, nodes of the tags it lists in that order, its default or first child selected; and nothing made before changes |
| OutboundBuild.AddAllKeeps | mirage/core/outbound.py:419-449 | after adding any groups in turn every one of them still stands, and each tag leads to the last node made under it |
| OutboundBuild.RoundsResolve | mirage/core/outbound.py:419-449 | the rounds place all groups exactly when no set of groups is stuck: each with a child that is no leaf and whose tag only groups of the set have |
| OutboundBuild.ResolvableWhenDistinct | mirage/core/outbound.py:443-447 | when no tag is used twice, that means exactly: every group has children, all are defined, and there is no cycle |
| OutboundBuild.DistinctRepresented | mirage/core/outbound.py:419-449 | then every tag leads to its own group, whose children are what its tags lead to |
| OutboundBuild.Round | mirage/core/outbound.py:422-442 | one round adds the groups ready in turn, keeps the others in order, and stops at the first group without children |
| OutboundBuild.Link | mirage/core/outbound.py:419-449 | for any groups the loop ends, succeeds exactly when the configuration is resolvable, and then holds all groups in the order of the rounds; else it names the first group without children, or those left over |
| OutboundBuild.Build | mirage/core/outbound.py:357-449 | the whole: success exactly when no tag repeats a leaf's and the groups are resolvable, and then every group stands for its configuration |
| OutboundBuild.StuckIsCyclic | mirage/core/outbound.py:443-447 | groups that wait only for each other form a cycle |
| OutboundBuild.PositionsFall | mirage/core/outbound.py:419-449 | when every tag leads to its own group, positions fall strictly along every walk from group to child |
| OutboundBuild.OrderIsIrrelevant | mirage/core/outbound.py:419-449 | whether it succeeds does not depend on the order of declaration |
| ConnPool.SlotsApart | mirage/core/conn_pool.py:245-260 | any two slots lie apart by step less jitter for each place between them, whoever reserves and however the clock runs, and none lies in the past |
| ConnPool.ApartUnderOneCursor | mirage/core/conn_pool.py:245-332 | after any reservations, the next two builds are always step less jitter apart exactly when both reserve a slot and no warm-up comes between them |
| ConnPool.RunIsSafe | mirage/core/conn_pool.py:245-386 | over every interleaving that warms the pool up only while it is empty: the count is the number of live builders, at most the size; tunnels and builds stay within the size without probes and twice it with; every tunnel built is queued, taken, handed out or closed, and only one of these |
| ConnPool.SecondWarmup | mirage/core/conn_pool.py:262-280 | warmed up twice it builds twice its size |
| ConnPool.TwiceFull | mirage/core/conn_pool.py:324-386 | the second bound is reached: a run that queues twice the size |
| ConnPool.BrutalPool.ReserveBuildSlot | mirage/core/conn_pool.py:245-260 | the delay leads to the slot, and the cursor moves behind it |
| ConnPool.BrutalPool.StartBuilders | mirage/core/conn_pool.py:271-275 | each new builder is counted and has a slot of its own |
| ConnPool.BrutalPool.ScheduleRefills | mirage/core/conn_pool.py:348-360 | exactly the deficit is started, never a negative one |
| ConnPool.BrutalPool.Warmup | mirage/core/conn_pool.py:262-280 | the cursor starts afresh and the whole size is started |
| ConnPool.BrutalPool.WakeBuilder | mirage/core/conn_pool.py:371-375 | a builder whose slot has come gives up exactly if the pool is full |
| ConnPool.BrutalPool.FinishBuild | mirage/core/conn_pool.py:375-386 | a tunnel built is queued and the builder leaves the count, which it leaves on failure too |
| ConnPool.BrutalPool.Inspect | mirage/core/conn_pool.py:287-307 | a tunnel is handed out exactly if neither stale nor dead, else closed and refilled for |
| ConnPool.BrutalPool.FinishProbe | mirage/core/conn_pool.py:324-345 | a full pool gives up its oldest tunnel for the probe's |
| Tunnel.EncryptedTunnel.Send | mirage/core/tunnel.py:107-130 | whatever sizes are drawn, the records carry the plaintext in order under consecutive nonces |
| Tunnel.EncryptedTunnel.SendCloseNotify | mirage/core/tunnel.py:132-155 | one alert record, and the nonce moves on; nothing at all on a writer that is closing |
| Tunnel.EncryptedTunnel.Receive | mirage/core/tunnel.py:157-181 | one record, or the end, and the nonce moves with it |
| Tunnel.RecvOfRecord | mirage/core/tunnel.py:107-181 | opening undoes sealing under the same nonce |
| Tunnel.RecordLayout | mirage/core/tunnel.py:107-155 | each record byte by byte: its header, and the sealed chunk or alert with its content type |
| Tunnel.RecvOfPartial | mirage/core/tunnel.py:157-181 | part of a record yields nothing |
| Tunnel.RecvAllOfPrefix | mirage/core/tunnel.py:107-181 | any prefix of the records yields a prefix of the chunks |
| Tunnel.RecvAllOfRecords | mirage/core/tunnel.py:107-181 | all records yield all chunks |
| Tunnel.RecvAllThenClose | mirage/core/tunnel.py:132-181 | records followed by a close alert yield all chunks and then the end |
| UdpRelay.PackDefined | mirage/core/utils.py:253-256 | what can be packed: a name of up to 255 bytes, a port and a length of 16 bits |
| UdpRelay.ParsePacked | mirage/core/udp_relay.py:126-168 | a packed datagram parses back to host, port and payload |
| UdpRelay.FrameReader.Feed | mirage/core/udp_relay.py:152-153 | a chunk joins the buffer |
| UdpRelay.FrameReader.Frames | mirage/core/udp_relay.py:155-168 | every complete frame is taken, malformed ones skipped, and what is left has none |
| UdpRelay.RunTakes | mirage/core/udp_relay.py:152-168 | any interleaving of feeding and reading takes the frames that splitting all at once takes |
| UdpRelay.ReaderYieldsPrefix | mirage/core/udp_relay.py:126-168 | at each point a prefix of the datagrams sent has been yielded, and at the end all, with an empty buffer |
| UdpRelay.Delivered | mirage/core/udp_relay.py:126-168 | the same through the encrypted tunnel: any frames, any record sizes, any cut of the stream, any grouping into feeds |
| DnsMessage.ExtractQtype | mirage/core/decision_cache.py:150-169 | the scan computes the definition and stays inside the message |
| DnsMessage.ExtractMinTtl | mirage/core/decision_cache.py:172-231 | the scans of questions and answers compute the definition, end, and stay inside the message |
| DnsMessage.TtlIsLeast | mirage/core/decision_cache.py:172-231 | for every well-formed response, names compressed or not, the result is the least time to live within bounds, or a minute without answers |
| DnsMessage.QtypeIsAsked | mirage/core/decision_cache.py:150-169 | for every well-formed query the type found is the type asked |
| DnsMessage.TtlInRange | mirage/core/decision_cache.py:172-231 | on any bytes the result is zero or between half a minute and an hour |
| DecisionCache.RoutingCache.Get | mirage/core/decision_cache.py:47-62 | a live entry is found and moves to the end, an expired one goes, hits and misses are counted |
| DecisionCache.RoutingCache.Put | mirage/core/decision_cache.py:63-71 | the entry goes to the end with its expiry, the oldest go beyond the bound |
| DecisionCache.RoutingCache.Invalidate | mirage/core/decision_cache.py:73-79 | one entry or all are removed and counted |
| DecisionCache.DnsCache.Put | mirage/core/decision_cache.py:119-129 | kept for the response's own time to live, not at all if that is not positive |
| DecisionCache.RunInOrder | mirage/core/decision_cache.py:47-79 | over every run the map is ordered by last use and within its bound |
| DecisionCache.EvictsLeastRecent | mirage/core/decision_cache.py:63-71 | an evicted entry was used before every entry kept, and only a full map evicts |
| DecisionCache.StaysWhileRecent | mirage/core/decision_cache.py:47-79 | an entry stays while fewer than the bound of other keys have been used since |
| HotReload.KeyDecides | mirage/core/decision_cache.py:47-64 | the lowercased key is routed like the name |
| HotReload.DecideIsTransparent | mirage/client.py:88-101 | a decision through an agreeing cache is the router's, and the cache goes on agreeing |
| HotReload.CacheIsTransparent | mirage/core/reload.py:137-151 | at every point of every run of dispatches, questions, answers and router changes each cached decision is the current router's |
| HotReload.AnswersAgreeExactly | mirage/core/dns_forwarder.py:256-311 | the response cache agrees with the router up to any point of a run exactly when no answer with a positive time to live has been kept for a question under way whose name the routers in force when it was asked and when it was answered send to different outbounds |
| HotReload.KeptLateMeansReload | mirage/core/reload.py:137-151 | such an answer was asked for before a replacement that changed its name's action, was under way then, and came after |
| HotReload.GentleReloadsAgree | mirage/core/reload.py:137-151 | if at every replacement each question under way keeps its action or is never answered, the response cache always agrees |
| HotReload.ReloadUnderWay | mirage/core/dns_forwarder.py:256-311 | for any two routers that differ on a name and any response worth keeping: ask, replace, answer, and the cache disagrees |
| HotReload.LateAnswerIsKept | mirage/core/dns_forwarder.py:308-311 | concretely: one address with a time to live of five minutes, asked for direct and kept when everything goes through a proxy |
| HotReload.Route | mirage/core/dns_forwarder.py:266-277 | cache, then router, then cache, on the objects themselves; with agreement the router's own action |
| HotReload.TakeQuestion | mirage/core/dns_forwarder.py:256-277 | a cached response answers, else the question is routed, and nothing else changes |
| HotReload.InstallRouter | mirage/client.py:552-564 | the new router and two empty caches, in one step |
| ConfText.LinesOfText | samba-webgui/src/samba.rs:482-559 | lines joined and split again are those lines, less one carriage return each |
| ConfText.SetLineSplits | samba-webgui/src/samba.rs:511-551 | a line written splits into the key and the trimmed value |
| ConfText.TextOfInjective | samba-webgui/src/samba.rs:556-558 | joined texts are equal only for equal lines |
| ConfReading.TrimIs | samba-webgui/src/samba.rs:110-122 | trimming takes the white space at both ends and nothing else |
| ConfReading.LinesAre | samba-webgui/src/samba.rs:482-559 | a text is its first line, less a carriage return before the line end, and the lines of the rest; a last line needs no line end |
| ConfReading.ConfLineIs | samba-webgui/src/samba.rs:482-551 | a line is a header, an include, a setting or neither by the texts it is put together from |
| ConfReading.ShareLineIs | samba-webgui/src/samba.rs:109-132 | likewise in a share file, where comments and lines without an equals sign say nothing |
| ConfReading.NameLetThrough | samba-webgui/src/samba.rs:76-88 | which names of shares are let through |
| GlobalParams.SetLineKind | samba-webgui/src/samba.rs:482-551 | a line written is an entry for its key, never a header or an include |
| GlobalParams.FlushLines | samba-webgui/src/samba.rs:510-518 | what is added at the end of a section is the lines of exactly the parameters not met |
| GlobalParams.SetIsRead | samba-webgui/src/samba.rs:482-559 | a parameter set reads as its trimmed value exactly when the file has a [global] header |
| GlobalParams.DeletedIsAbsent | samba-webgui/src/samba.rs:482-559 | a parameter deleted reads as absent exactly when it does not stand behind an include in the section |
| GlobalParams.DeletedCanStay | samba-webgui/src/samba.rs:482-559 | a file with a parameter behind an include: deleted, it is still read |
| GlobalParams.OtherIsKept | samba-webgui/src/samba.rs:482-559 | every other parameter reads as before |
| GlobalParams.OthersStay | samba-webgui/src/samba.rs:504-559 | all lines but the section's lines for these parameters stay, in order, inside the section and out |
| GlobalParams.ApplyGlobalParams | samba-webgui/src/samba.rs:504-559 | the loop computes the rewriting |
| GlobalParams.ReadGlobalParam | samba-webgui/src/samba.rs:482-501 | the loop computes the reading |
| GlobalParamsTwice.TwiceIsOnce | samba-webgui/src/samba.rs:504-559 | a second pass changes nothing exactly when there is no second header or the first section names every parameter set; otherwise it takes lines away |
| GlobalParamsTwice.ApplyTwice | samba-webgui/src/samba.rs:504-559 | the rewritten text rewritten again is the same exactly when the file is stable in that sense and no line that stays ends in a carriage return |
| GlobalParamsTwice.TwiceCanDiffer | samba-webgui/src/samba.rs:504-559 | a file of two [global] headers, rewritten twice with one parameter, differs from the file rewritten once |
| ShareFormat.ParseIni | samba-webgui/src/samba.rs:109-132 | the loop computes the sections |
| ShareFormat.RenderedParses | samba-webgui/src/samba.rs:109-132 | what is rendered for a valid share parses as one section with its settings, under its trimmed name |
| ShareFormat.GetRanked | samba-webgui/src/samba.rs:134-136 | each setting written is found under its key, and nothing under any other key |
| ShareFormat.ShareRoundTrip | samba-webgui/src/samba.rs:156-304 | a valid share rendered, parsed and read is that share, its texts and its name trimmed, with the directory's sticky bit |
| ShareReading.AccessRead | samba-webgui/src/samba.rs:156-163 | `writable`, in either spelling, says the opposite of `read only` and comes before it; without any a share is read-only |
| ShareReading.FlagsRead | samba-webgui/src/samba.rs:175-176 | guests are kept out and a share is listed unless its settings say otherwise |
| ShareReading.TextsRead | samba-webgui/src/samba.rs:167-185 | every text is that of its own key, or empty |
| ShareReading.ModulesRead | samba-webgui/src/samba.rs:164-166 | recycle bin and Time Machine are told by a module's name anywhere in the value, in any case |
| ShareReading.FixedSettings | samba-webgui/src/samba.rs:266-304 | the settings that are written and never read back |
| ShareStore.FragmentFilename | samba-webgui/src/samba.rs:308-320 | whatever the name: extension conf, no separator of either kind, no space or control character, no leading dot, never empty |
| ShareStore.NumberedApart | samba-webgui/src/samba.rs:325-335 | different numbers make different names |
| ShareStore.FirstFree | samba-webgui/src/samba.rs:325-335 | the search ends, at the least free number |
| ShareStore.UniqueFragmentFilename | samba-webgui/src/samba.rs:323-337 | a name not used before, as safe, which is then used |
| ShareStore.FileNameIs | samba-webgui/src/samba.rs:308-320 | the file name character by character |
| ShareStore.UniqueNameIs | samba-webgui/src/samba.rs:323-337 | a taken name gets the least number that makes it new behind its stem, which has no conf ending left |
| ShareStore.FileNamesDistinct | samba-webgui/src/samba.rs:420-434 | every share gets a fragment file of its own |
| ShareStore.OneFragmentEach | samba-webgui/src/samba.rs:420-434 | exactly one fragment for each share and no other |
| ShareStore.AggregateIsEmpty | samba-webgui/src/samba.rs:420-434 | the aggregate file declares no share itself |
| ShareStore.AggregateLines | samba-webgui/src/samba.rs:420-434 | the aggregate's lines are two notes and an include of every fragment, in order, by its full path |
| ShareStore.RefusedFor | samba-webgui/src/samba.rs:396-412 | which share is named and for which reason when saving is refused |
| ShareStore.OwnersPermute | samba-webgui/src/samba.rs:235-262 | in whatever order the files are listed, the shares behind them are the shares saved |
| ShareStore.SaveThenLoadTrimmed | samba-webgui/src/samba.rs:235-471 | what is saved is loaded, trimmed and in some order, exactly when no two shares have one trimmed name |
| ShareStore.SaveThenLoad | samba-webgui/src/samba.rs:76-471 | every share is loaded under its own name exactly when no two have one name and no name begins or ends with white space of any script |
| ShareStore.WideSpaceIsLost | samba-webgui/src/samba.rs:76-132 | a valid name ending in an ideographic space comes back without it |
| ShareStore.ShareFiles.SaveManaged | samba-webgui/src/samba.rs:396-471 | refused with nothing touched, or rolled back to what was, or exactly the shares' fragments and their aggregate |
| ShareStore.ShareFiles.LoadManaged | samba-webgui/src/samba.rs:235-262 | fragments in the order listed, those that cannot be read as empty, then the aggregate, the first section of each name; all sorted by lowercased name |
| ShareOrder.ByNameSorts | samba-webgui/src/samba.rs:260-261 | that list is in order, holds the same shares, and keeps shares of one lowercased name as they came |
| ShareOrder.AtMostIs | samba-webgui/src/samba.rs:260-260 | names are compared at the first character that differs, a beginning coming first |
| ShareStore.Plan | samba-webgui/src/samba.rs:420-434 | the fragments and the aggregate that are written |
| Checksum.FoldKeeps | pyrealiy-android/app/src/main/kotlin/com/pyrealiy/proxy/service/TunPacket.kt:153-163 | folding ends, keeps the remainder modulo 65535, and gives zero only for zero |
| Checksum.SumFits | pyrealiy-android/app/src/main/kotlin/com/pyrealiy/proxy/service/TunPacket.kt:153-163 | the sum of any array stays inside 64 bits |
| Checksum.VerifiesExactly | pyrealiy-android/app/src/main/kotlin/com/pyrealiy/proxy/service/TunPacket.kt:153-163 | data checks out exactly when its words add up to a positive multiple of 65535 |
| Checksum.ChecksumIsOnesComplement | pyrealiy-android/app/src/main/kotlin/com/pyrealiy/proxy/service/TunPacket.kt:153-163 | adding first and folding last is the one's complement sum of section 1 of RFC 1071 |
| Checksum.FilledVerifies | pyrealiy-android/app/src/main/kotlin/com/pyrealiy/proxy/service/TunPacket.kt:146-163 | with the checksum in its field at any even place, data of any length checks out |
| Checksum.DetectsExactly | pyrealiy-android/app/src/main/kotlin/com/pyrealiy/proxy/service/TunPacket.kt:153-163 | one changed word goes unnoticed only between the two zeros of one's complement |
| Checksum.ComputeChecksum | pyrealiy-android/app/src/main/kotlin/com/pyrealiy/proxy/service/TunPacket.kt:153-163 | the two loops compute the checksum |
| Checksum.PutChecksum | pyrealiy-android/app/src/main/kotlin/com/pyrealiy/proxy/service/TunPacket.kt:146-151 | the header checks out afterwards and no other byte has changed |
| Checksum.HeaderLengths | pyrealiy-android/app/src/main/kotlin/com/pyrealiy/proxy/service/TunPacket.kt:19-30 | lengths of headers are read from their half of a byte, in words of four bytes |
| Checksum.TcpHeaderReads | pyrealiy-android/app/src/main/kotlin/com/pyrealiy/proxy/service/TunPacket.kt:26-39 | every header field reads back, cut to its width |
| Checksum.SegmentVerifies | pyrealiy-android/app/src/main/kotlin/com/pyrealiy/proxy/service/TunPacket.kt:108-118 | a segment of any length checks out with its pseudo-header |
| Checksum.BuildTcpPacket | pyrealiy-android/app/src/main/kotlin/com/pyrealiy/proxy/service/TunPacket.kt:58-121 | both checksums check out, and addresses, ports, numbers, flags, window and payload read back |
| Checksum.BuildUdpPacket | pyrealiy-android/app/src/main/kotlin/com/pyrealiy/proxy/service/TunPacket.kt:124-142 | the IP header checks out, and addresses, ports, length and payload read back |

## Left out

- The case of letters beyond ASCII, which stay as they are (but for the Kelvin sign in the keys of share files).
  Python's case-insensitive regular expressions also match a few letters across alphabets, which the prefilter
  then misses. White space and control characters are those of each language in full.
- The parsing of regular expressions; backreferences and conditional groups. The model starts from parsed trees.
- Reading addresses and networks from text: a parameter of `Router.Router.Match` and of the lowering.
- Cryptography: a cipher is two functions with one law, opening undoes sealing under the same nonce. The
  96-bit limit of the counter is not modelled.
- The sizing of the Bloom filter in floating point and its hash: any sizes and any two hash values will do.
- CSV rules, the Clash views of rules, and the cache of geo data between reloads.
- DNS over HTTPS; the limit on response sizes in DNS over TLS, which a 16-bit length cannot exceed.
- Liveness: that readers run, that timeouts fire, that a dropped tunnel is opened again. All of these may
  happen at any step or never.
- The replay cache beyond its size: it then accepts without recording, which is why safety speaks of recorded
  tokens. The clock is assumed not to run back over its readings.
- The checks on the types of configured outbounds.
- ConnPool.RunIsSafe: pools warmed up while not empty (`SecondWarmup`), and cancelled tasks.
- ConnPool.SlotsApart: speaks of slots since the last warm-up (`ApartUnderOneCursor`); how long a sleeping task oversleeps is not modelled.
- DecisionCache.DnsCache.Get: its hit and miss counters, and the caller putting the query's own identifier
  before a cached response.
- Directories, temporary files and file system errors: fragments are a map, the aggregate is a file or none,
  and writes succeed. The migration from the single-file format, the include line in smb.conf and the backup
  are not part of this model.
- The lowercasing of share names beyond ASCII: the order in which shares are listed is proved for any function
  in its place.
- GlobalParams.SetIsRead: for parameters whose keys are trimmed, hold no equals sign or line end, do not begin
  with a bracket or `include`, and differ ignoring case, as the ones the program sets do.
- TLS fingerprints, camouflage, user interfaces, Android services, logging.
