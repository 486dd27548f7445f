# Verified model of tunnelcat-server

A Dafny model of the parts of tunnelcat-server whose correctness spans several
functions or an unbounded run, with proofs that hold for every input, every
interleaving or every reachable state. `dafny verify dfyconfig.toml` checks all of it.

Nothing of the original program is executed. Clocks, network, peers, databases and
signature checks appear as parameters, steps or given predicates.

## What is modelled

| files | component |
|---|---|
| `Common` | the option type and the relay lifetime, shared by the other files |
| `Bytes`, `Words`, `Crc` | bytes, 16-bit words, CRC-16/CCITT-FALSE: table code, bit-serial reference, burst detection |
| `Binlog`, `BinlogRecovery` | log-record framing, the resynchronising decoder, what survives damage |
| `Sni`, `SniEncoder`, `SniExact` | the TLS ClientHello sniffer, an encoder of well-formed hellos to compare it with, and its answer on every input |
| `GossipNode`, `Gossip`, `GossipComplete`, `GossipPeers` | manifest gossip over a network that loses, repeats and reorders messages |
| `RelayStore` | the store of signed relay announcements |
| `NodeIds`, `Routing`, `RoutingEffects`, `RoutingOrder`, `Closest`, `Nearest` | Kademlia identifiers, the routing table, nearest-contact queries |
| `Clubs`, `ClubQuorum`, `ClubRuns` | club membership as an append-only event log |
| `Traffic`, `Sums`, `TrafficStats`, `TrafficTotals`, `TrafficBuckets`, `TrafficMerge` | the restart-proof traffic counter, the bucketed statistics read from it, their totals, and the merge of their two queries |
| `RingBuffer` | the in-memory log ring |
| `RoundTrip` | the mutex, retry-once and watchdog protocol of the protect and UID clients |

Objects that the program updates in place are classes whose methods are proved equal
to a function on an abstract value; the run-level theorems are about those functions.
Loops stay loops and are proved against a specification function. The
`hide` statements in proofs only tell the verifier which definitions a step does not need.

## Where code and comments differ

The model follows the code. For each difference one lemma gives inputs that show it and
another says exactly when the documented behaviour holds.

- The log ring is documented to hold the newest bytes. A write shorter than the buffer that
  ends exactly at the end of a buffer that has not wrapped empties it (`ExactFillLosesAll`,
  `PlainRingExactly`).
- A lifetime byte total is documented to survive restarts. A restart stays unseen when the
  new count has already reached the old one, or bytes went unreported
  (`HiddenRestartLoses`, `TotalExactly`, `NetworkLifetimeExactly`).
- The total of `networkStatsRange` is documented as the sum of the nodes' latest lifetime
  totals, and that of `nodeStatsRange` as the node's lifetime total. The one is a sum of
  bucket deltas, the other a range over the window (`FirstReportUncounted`,
  `RunTotalExactly`, `NodeTotalExactly`).
- Retrying is documented to cure a desynchronised connection. A call whose second attempt
  fails keeps its connection, and the next call reads the late reply
  (`StaleReplyIsRead`, `OwnReplyExactly`).
- A node counts as content-complete only after a download, according to the comments.
  Before any manifest is installed a report for version 0 is accepted
  (`CompleteWithoutContent`, `CompleteWasEarned`, `CompleteExactly`).
- Resynchronisation is documented to recover what follows damage. A frame inside the payload
  of a cut record is read as a record (`EmbeddedFrameIsRead`, `SuffixRecovered`,
  `RecoveredAround`).
- `Closest` is documented to return the nearest contacts, but compares 64 of 256 bits
  (`WrongContactReturned`, `NearestExactly`, `AgreesExactly`).

The two queries of `networkStatsRange` are separate statements. What a sample recorded
between them can cost is stated exactly (`LateReportsDropped`, `DroppedExactly`).

The recommendation threshold is looked at only when a recommendation is recorded, as its
comments say. Recommenders who qualify later therefore admit nobody by themselves
(`LateQuorumWaits`).

The methods of `GossipNode.Node` that have no row below are single comparisons; their
contracts link the code to the functions that `Gossip.Next` is built from.

## Model

| member | source | states |
|---|---|---|
| Crc.BuildEntry | binlog/binlog.go:105-113 | the inner loop of the table builder yields the table entry: eight register shifts of the byte |
| Crc.BuildTable | binlog/binlog.go:103-116 | all 256 entries of the table are right |
| Crc.TableStep | binlog/binlog.go:118-124 | one table step equals feeding the eight bits of a byte into the division register |
| Crc.Crc16 | binlog/binlog.go:118-124 | the table-driven loop computes the bit-by-bit polynomial remainder, for every input |
| Crc.CheckValue | binlog/binlog.go:102-124 | the checksum of "123456789" is the published 0x29B1 of CRC-16/CCITT-FALSE, fixing polynomial and initial value |
| Crc.FeedAllInjective | binlog/binlog.go:118-124 | for fixed input the step is injective on the 16-bit state, so a difference never heals |
| Crc.BurstChangesRemainder | binlog/binlog.go:118-124 | two bit streams that differ only inside 16 consecutive bits never share a remainder |
| Crc.BurstChangesChecksum | binlog/binlog.go:118-124 | the same for byte strings |
| Crc.BytesBurst | binlog/binlog.go:118-124 | changing one byte or two adjacent bytes is such a burst |
| Crc.ResidueZero | binlog/binlog.go:274-278 | a body followed by two bytes leaves remainder zero iff those bytes are its checksum |
| Binlog.UvarintRoundTrip | binlog/binlog.go:129-130 | every value that fits 64 bits is read back from its varint, with its size, whatever follows |
| Binlog.UvarintExactly | binlog/binlog.go:266-270 | the varint reader accepts exactly the varints of at most ten bytes whose seven-bit groups spell a number below 2^64, and returns number and size |
| Binlog.UvarintLocal | binlog/binlog.go:266-270 | the varint reader depends on no byte after the varint |
| Binlog.AppendRecord | binlog/binlog.go:128-147 | appends exactly the frame: start magic, tag, length, payload, checksum, end magic |
| Binlog.DecodeOneRecord | binlog/binlog.go:259-288 | the straight-line decoder equals DecodeOne, with the checksum computed by the table loop |
| Binlog.DecodeOneExact | binlog/binlog.go:255-288 | at a start magic, a record is accepted iff the buffer begins with a well-formed frame of it |
| Binlog.FindMagic | binlog/binlog.go:292-303 | the first offset of the start magic, or -1 iff there is none |
| Binlog.DecodeRecords | binlog/binlog.go:201-221 | jumping from magic to magic finds the same records and corrupt count as trying every offset |
| Binlog.Decode | binlog/binlog.go:238-253 | the text of exactly the validated records, structured ones skipped, marker bytes stripped |
| BinlogRecovery.ScanFrame | binlog/binlog.go:128-147 | a stored record decodes first, and what follows decodes as it would alone |
| BinlogRecovery.StreamRoundTrip | binlog/binlog.go:201-221 | any record list written and read back returns in order with no corruption, before any tail |
| BinlogRecovery.MinimalExact | binlog/binlog.go:266-270 | a varint is what the writer would write iff its last byte is not zero or it is one byte long |
| BinlogRecovery.ReencodeExact | binlog/binlog.go:259-288 | re-encoding an accepted record gives its bytes back iff its length field was minimal |
| Binlog.AcceptedAreScanned | binlog/binlog.go:201-221 | the records of the scan are those of the places (offset and record) at which it accepts |
| BinlogRecovery.JunkSkipped | binlog/binlog.go:201-221 | junk in which nothing validates costs one corrupt count per start magic that begins in it and hides nothing behind it |
| BinlogRecovery.JunkRead | binlog/binlog.go:201-221 | otherwise the first accepted record begins inside the junk |
| BinlogRecovery.AcceptedStream | binlog/binlog.go:128-221 | stored records are accepted each at its own offset, whatever follows |
| BinlogRecovery.DamageRejected | binlog/binlog.go:259-288 | a burst of up to 16 bits from the tag to the stored checksum (length field excepted), or any change of the end magic, is rejected |
| BinlogRecovery.PatchRejected | binlog/binlog.go:259-288 | changing one byte or two neighbours outside start magic and length field makes the decoder reject the record |
| BinlogRecovery.RecoveredAfter | binlog/binlog.go:201-221 | behind junk, exactly the stored records are accepted, each at its own offset, iff no start magic of the junk opens a valid record; then the corrupt count is exact |
| BinlogRecovery.RecoveredBetween | binlog/binlog.go:201-221 | the same for arbitrary bytes between stored records |
| BinlogRecovery.RecoveredAround | binlog/binlog.go:192-221 | in a stream with one damaged record, exactly the other records are accepted, each at its own offset, iff no later start magic of the damaged bytes opens a valid record; then the corrupt count is exact |
| BinlogRecovery.CutSplits | binlog/binlog.go:19-24 | a suffix of a stream is the remnant of one record followed by whole records |
| BinlogRecovery.SuffixRecovered | binlog/binlog.go:19-24 | after a ring buffer overwrote the oldest bytes, exactly the records still whole are accepted, each at its own offset in the stream, iff nothing validates inside the remnant of the cut one; then the corrupt count is exact |
| BinlogRecovery.EmbeddedFrameIsRead | binlog/binlog.go:201-221 | a frame in the payload of a record cut after its length is decoded as a record, for every such record |
| BinlogRecovery.TextExactly | binlog/binlog.go:176-252 | the text of every payload: what follows a first byte 0x00, nothing after a first byte 0x01, and otherwise the whole payload |
| BinlogRecovery.TextRoundTrip | binlog/binlog.go:176-252 | lines stored with the text marker, or without one before there were markers, decode to exactly that text, structured records left out |
| Sni.ScanNames | android-core/sni_sniff.go:132-143 | the inner loop finds the first host_name entry, a malformed entry, or neither |
| Sni.ScanExtensions | android-core/sni_sniff.go:115-146 | the outer loop finds the host of the extensions |
| Sni.SkipToExtensions | android-core/sni_sniff.go:59-113 | the header part reaches the extensions, clipped to what arrived |
| Sni.ExtractSNI | android-core/sni_sniff.go:45-147 | on every byte string the code returns Hostname and never indexes out of bounds |
| Sni.LopHello | android-core/sni_sniff.go:59-104 | losing the last k bytes of a hello moves nothing in front of them |
| Sni.FindHostPrefix | android-core/sni_sniff.go:115-146 | a host found in a prefix of the extensions is the host of the whole |
| Sni.TruncationStable | android-core/sni_sniff.go:40-147 | if a prefix yields a non-empty host name, the whole input yields the same |
| SniEncoder.FindNameEncoded | android-core/sni_sniff.go:128-143 | the name loop on an encoded list finds its first host_name entry, or none |
| SniEncoder.FindHostEncoded | android-core/sni_sniff.go:115-146 | on any prefix of encoded extensions the host is found iff its extension is complete |
| SniEncoder.SkipHelloEncoded | android-core/sni_sniff.go:59-104 | the header part skips exactly the fixed fields and vectors of an encoded hello |
| SniEncoder.HostnameReceived | android-core/sni_sniff.go:45-147 | for every well-formed hello, whatever bytes follow it and however many have arrived, the answer is the requested host from the byte where its extension completes, and nothing before |
| SniExact.ListExactly | android-core/sni_sniff.go:131-143 | the name loop finds a host, a malformed entry or neither exactly by how the list is put together: entries of other types, then a host_name, an overlong entry or fewer than three bytes |
| SniExact.HostnameExactly | android-core/sni_sniff.go:45-147 | on every input: a non-empty host name is returned iff the input is a handshake record with a ClientHello whose clipped extensions are skipped ones, then a server_name with that host, then anything |
| GossipNode.Node.SetContent | dht/dht_content.go:29-39 | installs a newer content manifest only and clears completeness |
| GossipNode.Node.SetContentComplete | dht/dht_content.go:46-53 | sets completeness for the held version only |
| GossipNode.Node.HandleContentHave | dht/dht_content.go:109-134 | records the sender in every case and asks iff newer |
| GossipNode.Node.CompletePeers | dht/dht_content.go:227-238 | exactly the addresses last heard complete for this version within the TTL |
| Gossip.NextGrows | dht/dht_node.go:162-171 | no step lowers a version or changes the bytes of a held version |
| Gossip.RunGrows | dht/dht_node.go:559-621 | over every run versions never decrease |
| Gossip.RunOk | dht/dht_node.go:559-621 | invariant of every run: published pairs only, and every message bounded by its sender's version |
| Gossip.OnlyPublished | dht/dht_node.go:559-621 | every pair held, offered to the callback or in flight was published |
| Gossip.Agreement | dht/dht_node.go:162-171 | nodes at equal versions hold equal bytes if origins never reuse a version |
| Gossip.ExchangeCompletes | dht/dht_node.go:559-621 | a Have, Want, Data exchange accepted by the callback, with arbitrary other steps in between, leaves the receiver at least at the advertised version |
| GossipComplete.HeldWasInstalled | dht/dht_content.go:29-39 | a held version was installed by some step of the run |
| GossipComplete.CompleteExactly | dht/dht_content.go:29-53 | in every run a node is complete iff some step reported the version it holds complete while it held it and no later step reported the contrary |
| GossipComplete.CompleteWasEarned | dht/dht_content.go:41-53 | completeness was earned, by a report after the version was installed, iff the version is above 0 |
| GossipComplete.CompleteWithoutContent | dht/dht_content.go:46-53 | a report for version 0 makes an empty node complete |
| GossipComplete.NothingAdvertisedUninstalled | dht/dht_content.go:80-93 | no Have for version 0 is ever sent |
| GossipComplete.HavesAreTrue | dht/dht_content.go:80-105 | every Have ever sent told its sender's version and completeness of that moment |
| GossipComplete.ListedWasComplete | dht/dht_content.go:219-238 | every address CompletePeers lists belonged to a node that held exactly that version and was complete when it sent the Have |
| GossipPeers.ListedExactly | dht/dht_content.go:109-118 | in every run an address is listed for a version iff the last Have delivered from it said complete for that version, less than 120 seconds ago |
| GossipPeers.SendsExactly | dht/dht_content.go:80-155 | a step sends a Have iff the node advertises a version other than 0, a Want iff a newer version was announced, a Data iff asked and holding bytes |
| GossipPeers.OffersExactly | dht/dht_content.go:157-176 | the callback is offered exactly the newer manifests that are delivered |
| GossipPeers.HoldsExactly | dht/dht_content.go:29-53 | what a node holds changes exactly by installing something newer, which clears completeness, or by a report for the held version |
| RelayStore.RelayStore.constructor | dht/dht_node.go:968-970 | a new store is empty |
| RelayStore.RelayStore.Store | dht/dht_node.go:972-989 | the error (bad signature; more than 120 seconds old or ahead) and the new table; an entry no newer than the one held is ignored without error |
| RelayStore.RelayStore.All | dht/dht_node.go:991-1002 | every entry at most 120 seconds old exactly once |
| RelayStore.Newest | dht/dht_node.go:976-987 | the newest acceptable arrival of a node, the first among equals, or none if there was none |
| RelayStore.TableExactly | dht/dht_node.go:972-989 | whatever the clock does, the table holds exactly that arrival for every node |
| RelayStore.Best | dht/dht_node.go:984-987 | the best arrival of a node has the highest timestamp and is the first among equals |
| RelayStore.BestUnique | dht/dht_node.go:984-987 | there is only one such arrival |
| RelayStore.StoreIsBatch | dht/dht_node.go:972-1002 | with a clock that never runs back, what all reports is the unexpired best entry per node over everything that ever arrived |
| RelayStore.OrderFree | dht/dht_node.go:972-1002 | at one instant and without ties, order and repetition of arrivals do not matter |
| NodeIds.BucketCountsSharedBits | dht/dht.go:89-97 | the bucket number is the number of leading bits shared with this node |
| NodeIds.HigherBucketCloser | dht/dht.go:89-109 | a larger bucket number means closer to this node |
| NodeIds.CloserIsStrictTotalOrder | dht/dht.go:99-109 | for each target Closer is irreflexive, asymmetric, total and transitive |
| NodeIds.NumberOrder | dht/dht.go:171-175 | comparing big-endian numbers is comparing bytes from the left |
| NodeIds.CloserIsNumeric | dht/dht.go:99-109 | Closer compares the distances as 256-bit numbers |
| NodeIds.TieExactly | dht/dht.go:171-175 | two identifiers tie in the sort key iff their first eight bytes agree, whatever the target |
| NodeIds.Distance64Closer | dht/dht.go:171-175 | a smaller 64-bit distance is a smaller full distance |
| Routing.Find | dht/dht.go:240-245 | the first contact with an identifier |
| Routing.Bucket.constructor | dht/dht.go:232-235 | a new bucket is empty |
| Routing.Bucket.Add | dht/dht.go:237-250 | replaces a known contact, or appends and drops the oldest of a full bucket |
| Routing.Bucket.Remove | dht/dht.go:252-261 | removes the contact |
| Routing.Bucket.MarkMissed | dht/dht.go:277-290 | counts a miss, marks suspect, evicts at four |
| Routing.Bucket.ResetMissed | dht/dht.go:292-302 | clears count and mark |
| Routing.RoutingTable.constructor | dht/dht.go:133-139 | 256 distinct empty buckets |
| Routing.RoutingTable.Add | dht/dht.go:141-149 | changes the one bucket the identifier belongs to, and nothing for this node itself |
| Routing.RoutingTable.Remove | dht/dht.go:151-156 | changes that bucket only |
| Routing.RoutingTable.MarkMissed | dht/dht.go:206-211 | changes that bucket only |
| Routing.RoutingTable.ResetMissed | dht/dht.go:213-218 | changes that bucket only |
| Routing.RunKeeps | dht/dht.go:141-156 | every run of calls, with contacts as ContactFromJSON makes them, keeps at most 8 contacts per bucket, no duplicates, never self, right bucket, misses below 4, suspect iff misses |
| Routing.NoDuplicates | dht/dht.go:237-250 | no identifier stands in two places of the table |
| Routing.MissesAreExact | dht/dht.go:277-302 | in every run each contact's counter is its misses in a row since it was last added or reset |
| Routing.FourMissesEvict | dht/dht.go:277-290 | no contact with four misses in a row is in any bucket |
| RoutingEffects.CallEffect | dht/dht.go:141-218 | each call changes what is known about its own contact as stated and forgets another only by pushing it out |
| RoutingOrder.BucketsInOrder | dht/dht.go:237-302 | in every run a bucket lists its contacts in the order of the calls that brought them in |
| RoutingOrder.OldestIsForgotten | dht/dht.go:246-249 | a contact that an Add makes the table forget stood in a full bucket of eight and came in before all others there |
| Closest.SortSorts | dht/dht.go:171-175 | the stand-in sort is a sorted permutation |
| Closest.Filter | dht/dht.go:163-167 | the non-suspect contacts of one bucket, in order |
| Closest.Closest | dht/dht.go:159-180 | a prefix of a sorted permutation of all non-suspect contacts, namely the one insertion sort leaves |
| Closest.GatheredExactly | dht/dht.go:160-169 | gathers exactly the non-suspect contacts of the table |
| Closest.RunGathersDistinct | dht/dht.go:160-169 | in every run the gathered identifiers are distinct |
| Closest.ClosestGuarantee | dht/dht.go:158-180 | min(n, count) contacts, sorted, each closer than every omitted one or sharing its first eight bytes |
| Closest.AgreesExactly | dht/dht.go:171-175 | every legal sort result is ordered by full distance iff no two identifiers share their first eight bytes |
| Nearest.CutMoves | dht/dht.go:171-178 | a distance gap after n contacts in one legal sort result is there in every other |
| Nearest.NearestExactly | dht/dht.go:158-180 | in every legal result the n returned contacts are closer by full distance than all omitted ones iff the cut after n separates no two identifiers that share their first eight bytes |
| Nearest.FartherMayBeReturned | dht/dht.go:158-180 | after two Adds with identifiers that share eight bytes, asking for one contact may return the farther one, whatever the target |
| Nearest.WrongContactReturned | dht/dht.go:158-180 | with insertion sort, which keeps a tied pair in order, it certainly does for one of the two identifiers: asked for that identifier, which is in the table, Closest returns the other contact |
| Nearest.SuchContactsExist | dht/dht.go:113-120 | such contacts exist |
| Clubs.MembersAmong | snc-arbiter/db_clubs.go:370-380 | exactly the listed users who are members now |
| Clubs.RecommendersExactly | snc-arbiter/db_clubs.go:361-364 | the rows are exactly the known actors of recommendations of this candidate for this club |
| Clubs.QualifyingExactly | snc-arbiter/db_clubs.go:357-382 | who counts: users who recommended the candidate at any time and are members of the source club now |
| Clubs.ClubTables.CountQualifying | snc-arbiter/db_clubs.go:360-382 | the loop counts the distinct recommenders who are members of the source club now |
| Clubs.ClubTables.GrantClubMembership | snc-arbiter/db_clubs.go:242-278 | appends one granted row with the assigned number |
| Clubs.ClubTables.RevokeClubMembership | snc-arbiter/db_clubs.go:280-284 | appends a revoked row |
| Clubs.ClubTables.InviteToClub | snc-arbiter/db_clubs.go:286-293 | appends an invite row, which is neither grant nor recommendation |
| Clubs.ClubTables.RecommendClubMembership | snc-arbiter/db_clubs.go:299-304 | records the recommendation, then grants iff the user is no member and a quorum stands; fails on an unknown club |
| Clubs.ClubTables.MaybeAutoGrant | snc-arbiter/db_clubs.go:311-355 | grants iff the user is no member and one of the two thresholds is met |
| Clubs.ClubTables.HasClubAccess | snc-arbiter/db_clubs.go:209-237 | a direct grant, or for the Cat Club a grant of the Elite club |
| ClubRuns.MemberIffLatestGranted | snc-arbiter/db_clubs.go:552-564 | the maximal-id query of ClubMembers agrees with IsClubMember |
| ClubRuns.MembershipStep | snc-arbiter/db_clubs.go:242-355 | each operation changes only its own pair, and a recommendation admits iff already a member or the quorum stands |
| ClubRuns.MemberIffAdmitted | snc-arbiter/db_clubs.go:190-355 | after every run a user is a member iff an admin's grant or a quorum admitted them and no admin revoked the membership since |
| ClubQuorum.QuorumMeans | snc-arbiter/db_clubs.go:108-127 | with the seeded thresholds: Cat Club only, three Cat members or two Elite members |
| ClubQuorum.SponsorsExactly | snc-arbiter/db_clubs.go:299-304 | the sponsors of a candidate are the positive user ids with a Recommend operation for them |
| ClubQuorum.RecommendationsAreOperations | snc-arbiter/db_clubs.go:280-304 | in every run the recommendation rows of a candidate are those of the Recommend operations; invitations and grants are none |
| ClubQuorum.QuorumAtExactly | snc-arbiter/db_clubs.go:306-382 | a step grants by quorum iff it is a Recommend for the Cat Club, the candidate is no member, and three of its members or two Elite members have made a Recommend for them |
| ClubRuns.GrantProvenance | snc-arbiter/db_clubs.go:299-355 | every granted row of every run is an admin's step, or a Cat Club grant by such a quorum of operations |
| ClubRuns.EliteGrantsAreAdmin | snc-arbiter/db_clubs.go:114-127 | every Elite grant is an admin's step |
| ClubRuns.MembersWereAdmitted | snc-arbiter/db_clubs.go:190-204 | until the first automatic grant every member was granted by an admin |
| ClubRuns.QuorumNeedsAdmins | snc-arbiter/db_clubs.go:306-355 | the first automatic grant is preceded by admin grants to at least two different users |
| ClubRuns.NumbersInOrder | snc-arbiter/db_clubs.go:250-278 | in every run each granted row carries the rank of its user in the order of first grants |
| ClubRuns.NumbersAreExact | snc-arbiter/db_clubs.go:532-547 | a member's number is that rank; the numbers are 1..k, one per user |
| ClubRuns.NumberIsPermanent | snc-arbiter/db_clubs.go:250-278 | a user found a member twice has the same number, whatever happened in between |
| ClubRuns.LateQuorumWaits | snc-arbiter/db_clubs.go:299-304 | two recommenders who become Elite members afterwards do not admit the candidate |
| Traffic.TrafficTables.constructor | snc-arbiter/db.go:2436-2438 | no node has a counter at first |
| Traffic.TrafficTables.RecordSample | snc-arbiter/db.go:2421-2463 | folds the raw count into the node's counter and appends the sample |
| Traffic.CumNeverDecreases | snc-arbiter/db.go:2406-2412 | in every run of non-negative reports bytes_cum of a node never goes down |
| Traffic.NodesIndependent | snc-arbiter/db.go:2434-2452 | a node's counter depends on its own reports only |
| Traffic.BytesConserved | snc-arbiter/db.go:2434-2447 | every byte moved is in the total, lost, unsent, or not yet reported |
| Traffic.TotalExactly | snc-arbiter/db.go:2406-2412 | the total never exceeds the bytes moved; a report makes it exact iff every report so far was clean |
| Traffic.TotalNeverDecreases | snc-arbiter/db.go:2406-2412 | no event lowers the total |
| Traffic.RecordedTotalExactly | snc-arbiter/db.go:2421-2463 | the same for one node among others in the database |
| Traffic.HiddenRestartLoses | snc-arbiter/db.go:2441-2446 | a restart whose new count reaches the old one loses the old count |
| Sums.GroupSumTotal | snc-arbiter/db.go:2650-2657 | grouping rows and summing the groups loses nothing |
| TrafficStats.StepBalances | snc-arbiter/db.go:2565-2571 | how one sample moves its bucket delta, its window total and the gaps |
| TrafficStats.CellsAddUp | snc-arbiter/db.go:2562-2590 | all bucket deltas together fall short of all window totals by exactly the growth between buckets |
| TrafficStats.NetworkBucketsAddUp | snc-arbiter/db.go:2617-2685 | bucket sums never exceed the window totals, with equality iff no node grew between its consecutive buckets |
| TrafficStats.RunStatistics | snc-arbiter/db.go:2617-2685 | the same for the samples of every run of reports in time order and every query window |
| TrafficBuckets.SpanExactly | snc-arbiter/db.go:2565-2565 | the timestamps of bucket b: the 600 seconds from b on, with division toward zero below zero |
| TrafficBuckets.BucketAnswer | snc-arbiter/db.go:2650-2657 | the byte query answers for exactly the buckets with a row, each with the sum over the nodes of last total minus first total among their rows of these ten minutes |
| TrafficBuckets.RunBucketAnswer | snc-arbiter/db.go:2617-2657 | the same for every run of reports in time order, node type and window |
| TrafficBuckets.NodeBucketAnswer | snc-arbiter/db.go:2564-2571 | the delta nodeStatsRange gives for a bucket is the growth of the node's total in these ten minutes |
| TrafficStats.SelectKeeps | snc-arbiter/db.go:2654-2655 | the query window selects exactly its rows and keeps their order |
| TrafficTotals.NetworkTotalExactly | snc-arbiter/db.go:2605-2685 | the total never exceeds the sum of the nodes' latest lifetime totals, and is that sum iff the window shows every node from a row of total zero on without growth between buckets, or the node has nothing to show |
| TrafficTotals.RunTotalExactly | snc-arbiter/db.go:2605-2685 | the same for every run of reports in time order, node type and window |
| TrafficTotals.NodeTotalExactly | snc-arbiter/db.go:2557-2589 | the total of one node never exceeds its lifetime total, and is it iff the window begins with a row of total zero, or is empty and the node has no bytes |
| TrafficTotals.FirstReportUncounted | snc-arbiter/db.go:2588-2685 | after one report with bytes both totals are zero |
| TrafficTotals.LatestOfKind | snc-arbiter/db.go:2693-2704 | a node's maximum among the rows of a type is its total after its last report under that type |
| TrafficTotals.LatestIsCounter | snc-arbiter/db.go:2693-2704 | that maximum never exceeds the node's counter, and is it iff the total did not grow after that report |
| TrafficTotals.NetworkLifetimeExactly | snc-arbiter/db.go:2687-2704 | the lifetime total of a type never exceeds the bytes its nodes moved, and is their sum iff every report was clean and no node's total grew after its last report under the type, as it cannot when no node changes its type |
| TrafficMerge.SameBuckets | snc-arbiter/db.go:2620-2657 | on the same samples both queries see the same buckets |
| TrafficMerge.FillBytes | snc-arbiter/db.go:2632-2671 | every bucket of the first query gets the bytes the second has for it, or zero; other rows are ignored |
| TrafficMerge.Merge | snc-arbiter/db.go:2632-2684 | whatever the two queries saw: the buckets of the first in order with the bytes of the second, and a total that sums them |
| TrafficMerge.DroppedExactly | snc-arbiter/db.go:2664-2684 | the total never exceeds the bytes the second query saw, and is short of them iff a bucket the first did not return has bytes |
| TrafficMerge.NothingDropped | snc-arbiter/db.go:2617-2685 | on the same samples the kept rows are all rows |
| TrafficMerge.LateReportsDropped | snc-arbiter/db.go:2664-2671 | two reports of a node that arrive between the queries in a new bucket: the bytes they add go uncounted |
| RingBuffer.RingBuffer.constructor | snc-arbiter/log_uploader.go:28-30 | a new ring is empty |
| RingBuffer.RingBuffer.Write | snc-arbiter/log_uploader.go:32-54 | the linear contents after a write: last bytes of contents plus input, or nothing after an exact fill |
| RingBuffer.RingBuffer.Snapshot | snc-arbiter/log_uploader.go:57-74 | hands out the linear contents and empties the ring |
| RingBuffer.HoldsLast | snc-arbiter/log_uploader.go:32-74 | in every run the ring holds the last min(cap, total) bytes since its last reset point |
| RingBuffer.PlainRingExactly | snc-arbiter/log_uploader.go:19-20 | it is the plain last-cap-bytes buffer iff no exact fill happened since the snapshot or cap bytes followed it |
| RingBuffer.ExactFillLosesAll | snc-arbiter/log_uploader.go:44-52 | two one-byte writes into a two-byte ring leave nothing |
| RoundTrip.NextOk | android-core/protect_linux.go:172-249 | every step keeps the account of what the current connection owes |
| RoundTrip.RunOk | android-core/uid_linux.go:153-194 | the account holds in every interleaving of caller, peer and watchdog, also when the deadline cuts a reply line in two |
| RoundTrip.RetryExactly | android-core/protect_linux.go:198-242 | after an I/O error the first attempt closes its connection and goes on as second attempt on a fresh one, or fails without a connection; the second fails and keeps its connection |
| RoundTrip.RunOthersClosed | android-core/protect_linux.go:97-114 | in every interleaving all connections but the current one are closed |
| RoundTrip.RunWatched | android-core/protect_linux.go:120-147 | in every interleaving the watchdog sees nothing between calls, and the connection in use from the send to the end of an attempt |
| RoundTrip.OrphansAreAbandoned | android-core/protect_linux.go:172-249 | the requests a connection still holds of calls that gave up are counted by the run: give-ups since it was dialed whose request had been delivered |
| RoundTrip.OwnReplyExactly | android-core/protect_linux.go:215-249 | a call reads the reply that is exactly as many requests old as calls gave up on this connection with their request delivered; so its own iff there was none, and then whole |
| RoundTrip.RunNoOrphans | android-core/protect_linux.go:97-114 | if no second attempt ends in an I/O error, no request is left behind on the current connection |
| RoundTrip.RepliesMatch | android-core/protect_linux.go:164-249 | if no second attempt ends in an I/O error, each call consumed its own whole reply and idle connections owe nothing |
| RoundTrip.StaleReplyIsRead | android-core/protect_linux.go:216-224 | after a failed second attempt the next call reads the reply meant for the failed one |

## Left out

- RoundTrip: the clients are modelled as steps over a value, not as a class, because callers, peer and watchdog interleave inside one call; a reply may be read after the connection was closed, and in two parts, which only the buffered line reader of the UID client allows; Connect replacing a connection while calls run is not modelled.
- Closest.Closest: sorts by insertion instead of the library's sort; the guarantee is stated for every sorted permutation. A negative n, which panics, is not modelled.
- Binlog.AppendRecord: buffer growth and capacity are not modelled, byte strings are values.
- Clubs: grants are sequential; two concurrent grants could read the same maximum number, since number and row are not written in one transaction.
- Traffic: integers are unbounded; 64-bit overflow of byte totals is not modelled, nor are two simultaneous heartbeats of one node.
- GossipNode: JSON, encryption, padding and the choice of gossip targets; any address may be a target.
- Node-level ping bookkeeping (pending pings, re-probing suspects): the four-miss rule is stated for buckets.
- Persistence of peers and relays, hole punching and mirror punching: I/O without a deep invariant.
- Averages of round-trip time, CPU, memory and disk, and the count of online nodes: only easy facts.
- Signature verification of relay entries: a given predicate.
- HTTP handlers, admin pages, provisioning, log upload, DNS and TUN plumbing: not part of this model.
