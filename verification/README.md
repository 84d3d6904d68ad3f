# Verified cores of the ZeroTrace agent

This project models the algorithmic cores of the agent in Dafny and proves what they are
for. Verify it with `dafny verify dfyconfig.toml`. Nothing here executes the agent.

**The flow-ACL compiler and its index.** A rule with port ranges, address segments, a
protocol and a tap type is compiled into ternary field/mask pairs; the pairs are spread over
a table of 65536 buckets by a bit-extract index; a packet looks at one bucket.
`PortList`, `PortSegments` and `CidrRange` cut ports and addresses into aligned blocks,
`MatchedFields` and `HeaderLayout` are the packed keys, `Acls` is the compiler,
`AclMeaning` proves that it preserves meaning, `TableIndex` and `VectorMask` are the index,
`VectorInit` is the choice of its bits, `FirstPath` files the pairs and looks them up, `Parts`
and `PolicyLookup` say for which bits that is exact, `PolicyExamples` holds lists of ACLs with the
bits chosen for them, and `LookupKeys` looks a packet up in both directions. `Interest` and
`InterestTable` are the elementary decomposition of ports and the port table of the fast path.
`Words`, `Bits` and `Tiling` hold shared types and arithmetic.

**Request/response pairing.** `RrtCaches` is the two-level log cache, `TimeoutCaches` the
per-flow counters, `PerfStatistics` the pairing state machine, `L7Stats` logs, keys and
statistics, `PerfCases` what a log does by types, times, statuses and blacklist alone, and
`PerfLaws` the laws over whole runs. `LruCaches` is the `lru` crate's cache,
by its documented behaviour.

**Other kernels.** `Reassembly` merges eBPF segments and replays them, `GrowingLru` is the
growable LRU, `Hasher` the 64-bit mix, `Ipv6Options` the IPv6 extension-header walk.

Mutable objects of the source are classes here, loops are loops, and each method is proved
against a function of its inputs or of the old state; the laws are lemmas about those
functions. Rust words are natural numbers with the width written out where it matters.

## What does not hold as one might expect

Each of these is proved together with the exact condition under which the code is right.

- `set_bits` assigns a byte where it should set a bit, so two vector bits in one byte lose the
  lower one, and the index of a packet no longer lines up with the indices its ACLs are filed
  under. For a list of ACLs and a vector, in particular the one `init` derives from that list,
  every packet finds exactly the items that match it if and only if rank by rank every compiled
  mask that covers the chosen bit covers the surviving bit (`PolicyLookup.ListExactIff`,
  `PolicyLookup.InitVector`). It fails for 10.0.0.0/8, 9.1.0.0/16, 9.2.0.0/16 and a packet from
  10.2.0.1 (`PolicyExamples.MissExample`), and holds for 9.1.0.0/16, 9.2.0.0/16, 10.3.0.0/16 with
  the same vector (`PolicyExamples.KeptExample`).
  A vector is right for all lists if and only if the surviving bit of every rank is in the same
  octet, epc, port, protocol or tap type as the chosen one (`PolicyLookup.LookupExactIff`). With
  masks of any shape the index alone is exact if and only if the bits lie in distinct bytes
  (`VectorMask.NeverMissesIff`).
- A side whose port ranges are all inverted matches every port, a protocol number above 256 is
  compared by its low byte, and so is the tap type. The compiler reads ports, protocol and tap
  type as the rule says them, for all packets, if and only if each port list is empty or has a
  range that is not inverted, the protocol is at most 256, and the tap type is any or a number
  other than 0, 3 and 255 (`AclMeaning.HeaderPlainIff`). Between tap types that were parsed from
  a number only 255 and unknown are confused (`AclMeaning.TapParsedIff`).
- An address range is converted exactly if and only if it starts even and ends odd
  (`CidrRange.ExactIffEvenOdd`). The conversion shifts by the whole width if and only if it
  starts at 0 or 1 and ends in the upper half of the address space (`CidrRange.RangeConvert`,
  `CidrRange.PanicExample`). That panics in a build with overflow checks; the release profile of
  Cargo.toml has none, and the shift wraps there.
- `interest` panics if and only if some range ends before every range begins, which needs an
  inverted range (`Interest.InterestRanges`, `Interest.PanicExample`). This is a table index of -1
  and panics in every build. Otherwise, for every list, it returns the stretches between
  neighbouring borders whose first port has a status (`Interest.Swept`); for upright ranges these
  are the elementary pieces (`Interest.SweptElementary`).
- The fast path marks ports that no rule mentions with the range 0 to 0, so a piece that is
  port 0 alone looks unmentioned. Ports with the same number are treated alike by every rule
  if and only if port 0 is not cut off from port 1, or no port is unmentioned (`InterestTable.SoundIff`).
- Merging a port list overflows if and only if a range other than the last one in sort order
  ends at 65535 (`PortList.NormalizedOverflow`, `PortList.OverflowExample`). That panics in a build
  with overflow checks and wraps in a release build.
- Replaying a reassembled packet recovers its parts if and only if the payload in front of
  the last part fits 16 bits (`Reassembly.ReplaysIff`, `Reassembly.WrapExample`).
- Logs can outlive their flow in the log cache (`RrtCaches.Stranded`), and then the removal
  of the flow does not find them. This happens at a put exactly when its flow is new and the
  flow map full, and the flow that is pushed out has a log other than the one the put drops
  (`RrtCaches.PutTracked`).
- Request and response statistics depend on the order of arrival if and only if both count
  and the response is late (`PerfLaws.ArrivalOrder`, `PerfLaws.LateExample`).
- The count of waiting requests falls out of step exactly when the counters of a flow are
  dropped while one of its requests is in the log cache and the same step does not drop that
  too (`PerfLaws.EventCovered`). `PerfLaws.CrowdedSaturates` is a run of three flows in caches of
  two after which an answer finds the counter of its flow at zero. The other way is to meet a
  waiting request from the other direction (`PerfLaws.TurnedSaturates`).

## Model

| member | source | states |
|---|---|---|
| `PortList.Normalize` | src/common/port_range.rs:185-217 | the in-place sort, merge with delete flags and compaction compute the recursive merge of the sorted list |
| `PortList.Compact` | src/common/port_range.rs:207-217 | the second pass keeps exactly the ranges whose flag is clear |
| `PortList.SortStable` | src/common/port_range.rs:185-186 | ranges with the same lower end keep their order |
| `PortList.NormalizedMeaning` | src/common/port_range.rs:185-217 | the result denotes the same ports as the input, with a missing port between consecutive ranges |
| `PortList.NormalizedCanonical` | src/common/port_range.rs:185-217 | inputs that denote the same ports give the identical list |
| `PortList.NormalUnique` | src/common/port_range.rs:185-217 | a set of ports has only one gapped ascending list |
| `PortList.NormalizedOverflow` | src/common/port_range.rs:195-195 | the addition overflows iff a range other than the last in sort order ends at 65535 |
| `PortList.OverflowExample` | src/common/port_range.rs:195-195 | 1 to 65535 followed by 2 to 3 overflows |
| `PortSegments.CalcRightZero` | src/common/policy.rs:232-241 | the count is the exact alignment of the port |
| `PortSegments.CalcMask` | src/common/policy.rs:243-250 | the mask is that of the largest aligned block that does not pass the end |
| `PortSegments.New` | src/common/policy.rs:252-272 | the loop terminates and emits the greedy block list of the range |
| `PortSegments.SegmentsTile` | src/common/policy.rs:252-272 | a port is in the range iff some segment matches it; segments are disjoint; none exist iff the range is inverted |
| `PortSegments.BlocksUnimodal` | src/common/policy.rs:252-272 | block sizes strictly rise and then strictly fall |
| `PortSegments.SegmentCount` | src/common/policy.rs:252-272 | at most 30 segments for any range |
| `CidrRange.GetFirstMask` | src/common/policy.rs:117-131 | the mask is the widest aligned network from the start that stays inside the range; the shift is out of range iff start is at most 1 and end is in the upper half |
| `CidrRange.RangeConvert` | src/common/policy.rs:116-158 | terminates, panics iff stated, and tiles the rounded range with ascending best networks, for any address width |
| `CidrRange.ConversionDenotes` | src/common/policy.rs:160-201 | the networks are disjoint and their union is the range from the start rounded down to even to the end rounded up to odd |
| `CidrRange.ExactIffEvenOdd` | src/common/policy.rs:116-201 | the union is exactly the range iff the start is even and the end odd |
| `CidrRange.OddStartExample` | src/common/policy.rs:116-158 | the range 3 to 4 gains 2 and loses 4 |
| `CidrRange.PanicExample` | src/common/policy.rs:117-131 | the whole IPv4 space panics |
| `CidrRange.NetIsBlock` | src/common/policy.rs:133-142 | the prefix test of an emitted network is membership in its block |
| `Interest.MarkRange` | src/common/port_range.rs:79-106 | one range updates the status of every port as its position in the range demands |
| `Interest.CreateTable` | src/common/port_range.rs:79-106 | the table holds for every port what the ranges that open, close and contain it say |
| `Interest.StatusIsCuts` | src/common/port_range.rs:79-106 | the status tells exactly where a range begins before or ends after a port |
| `Interest.CutsSeparate` | src/common/port_range.rs:79-106 | neighbouring ports lie in the same ranges iff there is no cut between them |
| `Interest.Sweep` | src/common/port_range.rs:114-153 | for every list: panics iff stated, and else lists the stretches between neighbouring borders whose first port has a status |
| `Interest.InterestRanges` | src/common/port_range.rs:109-154 | the same, and for upright ranges the ascending disjoint pieces that cover exactly the union, each wholly inside or outside every range |
| `Interest.SweptElementary` | src/common/port_range.rs:109-154 | for upright ranges the stretches are the elementary decomposition |
| `Interest.PiecesCoarsest` | src/common/port_range.rs:109-154 | any run of ports that lie in the same ranges is inside one piece |
| `Interest.PanicExample` | src/common/port_range.rs:109-154 | any inverted range on its own panics |
| `InterestTable.FillPiece` | src/legacy/policy/fast_path.rs:402-404 | a piece is written to its own ports and no other |
| `InterestTable.Generate` | src/legacy/policy/fast_path.rs:383-419 | for any list of pieces: every port gets its last piece, or the free number; panics iff a later piece begins at 0 |
| `InterestTable.PiecesFine` | src/legacy/policy/fast_path.rs:383-419 | the pieces of upright ranges never panic |
| `InterestTable.PortOtherMeaning` | src/legacy/policy/fast_path.rs:396-416 | the free number is the first port behind the leading run of adjacent pieces, or 0 |
| `InterestTable.SoundIff` | src/legacy/policy/fast_path.rs:92-96 | ports with the same number lie in the same ranges iff 0 is not cut off from 1 or all ports are covered |
| `InterestTable.SoundUnlessZero` | src/legacy/policy/fast_path.rs:92-96 | the table is sound whenever port 0 is not a piece of its own |
| `InterestTable.FreeJoinsZero` | src/legacy/policy/fast_path.rs:92-96 | otherwise every unmentioned port shares the number of port 0 |
| `InterestTable.ZeroExample` | src/legacy/policy/fast_path.rs:383-419 | the ranges 0 and 1 to 5 show it |
| `MatchedFields.MatchedFieldN.constructor` | src/common/matched_field.rs:151-159 | a default field is all zero |
| `MatchedFields.MatchedFieldN.Set` | src/common/matched_field.rs:197-209 | exactly the bytes of the flag change, little endian |
| `MatchedFields.MatchedFieldN.SetIp` | src/common/matched_field.rs:339-345 | exactly the address bytes change |
| `MatchedFields.MatchedFieldN.IsBitZero` | src/common/matched_field.rs:281-293 | the bit of the whole field at the offset, across its three arrays |
| `MatchedFields.MatchedFieldN.SetBits` | src/common/matched_field.rs:215-233 | each position in turn overwrites its byte |
| `MatchedFields.MatchedFieldN.BitAnd` | src/common/matched_field.rs:296-310 | a new field that is the bitwise and |
| `HeaderLayout.SetIsWith` | src/common/matched_field.rs:172-209 | writing the bytes of a flag is updating that component of the header |
| `HeaderLayout.LayoutInjective` | src/common/matched_field.rs:139-209 | packing loses nothing |
| `HeaderLayout.AndLayout` | src/common/matched_field.rs:296-310 | the and of packed headers is the packed componentwise and |
| `HeaderLayout.MatchIsComponentwise` | src/legacy/policy/first_path.rs:638-638 | the ternary test on packed bytes is the ternary test on every component |
| `TableIndex.GetTableIndex` | src/common/matched_field.rs:265-279 | the index gathers the key's bits under the mask vector in order |
| `TableIndex.GetAllTableIndex` | src/common/matched_field.rs:235-263 | the doubling loop lists the index of the field with its open bits both ways |
| `TableIndex.AllBucketsMember` | src/common/matched_field.rs:235-263 | an index is listed iff it agrees with the field outside the open bits |
| `TableIndex.AllBucketsDistinct` | src/common/matched_field.rs:235-263 | each once, two to the number of open bits in all, all in the table |
| `TableIndex.AllBucketsExact` | src/common/matched_field.rs:235-279 | the list is exactly the set of indices of keys that agree with the field on the masked vector bits |
| `TableIndex.BucketSound` | src/common/matched_field.rs:235-279 | the index of a key that agrees is listed |
| `TableIndex.BucketComplete` | src/common/matched_field.rs:235-279 | every listed index has such a key |
| `VectorMask.BitsValueBits` | src/common/matched_field.rs:215-233 | a position survives iff no later one shares its byte |
| `VectorMask.ReachedIff` | src/common/matched_field.rs:215-279 | a key looks into a bucket of a pair iff, rank by rank, its surviving bit is that of the field wherever the chosen bit is masked |
| `VectorMask.RankAbove` | src/common/matched_field.rs:215-233 | the surviving bit of a rank is never below the chosen one |
| `VectorMask.NeverMissesIff` | src/common/matched_field.rs:215-279 | for fields and masks of any shape, the index built from chosen bits never misses a matching key iff the bits are in distinct bytes |
| `VectorMask.DistinctSelected` | src/legacy/policy/first_path.rs:201-220 | in that case the mask selects exactly the chosen bits |
| `VectorInit.SortTableIndex` | src/legacy/policy/first_path.rs:113-130 | every score is a slot of the table of 65535, however many pairs there are |
| `VectorInit.CalcIndex` | src/legacy/policy/first_path.rs:113-118 | the score is the number of pairs less twice the smaller of the two counts |
| `VectorInit.SlotsInOrder` | src/legacy/policy/first_path.rs:120-130 | the slots keep the order of the scores, and scores up to 32767 are their own slots |
| `VectorInit.CountFixing` | src/legacy/policy/first_path.rs:136-150 | the nested loops count the pairs that fix a bit to 0 and to 1 |
| `VectorInit.GenerateSortTable` | src/legacy/policy/first_path.rs:132-199 | each slot lists the positions with its score, in order |
| `VectorInit.RankedOrder` | src/legacy/policy/first_path.rs:201-214 | the slots in order are a ranking of the positions by score, then position |
| `VectorInit.Select` | src/legacy/policy/first_path.rs:201-214 | the nested loops with two exits take a prefix of the ranking |
| `VectorInit.ChooseBits` | src/legacy/policy/first_path.rs:201-217 | the asked number of ascending positions, none left out ranks before one taken; panics iff there are not enough |
| `VectorInit.BestUnique` | src/legacy/policy/first_path.rs:201-217 | there is only one best choice of a size |
| `VectorInit.Init` | src/legacy/policy/first_path.rs:201-220 | the mask and the bounds are those of the choice |
| `Acls.BuildPair` | src/common/policy.rs:552-623 | the sequence of field and mask writes packs the pair of the segments |
| `Acls.Acl.Reset` | src/common/policy.rs:498-501 | both lists are empty |
| `Acls.Acl.GeneratePortSegment` | src/common/policy.rs:532-550 | all segments of each side, or the one that matches all ports when there are none |
| `Acls.Acl.GenerateMatchField` | src/common/policy.rs:552-696 | one pair for each source and destination port segment is appended to the list of its version; segments of another version add nothing |
| `Acls.Acl.GenerateMatch` | src/common/policy.rs:698-711 | all address pairs of one version each, in order |
| `AclMeaning.PairMatch` | src/common/policy.rs:552-696 | a pair matches a packed key iff addresses, ports, protocol and tap type all fit |
| `AclMeaning.SideMatch` | src/common/policy.rs:532-550 | some segment of a side matches a port iff a range holds it or no range holds any port |
| `AclMeaning.CompilePreservesMeaning` | src/common/policy.rs:532-711 | some compiled pair matches the key iff the packet satisfies the rule, for both versions |
| `AclMeaning.FieldsUnderMasks` | src/common/policy.rs:552-711 | every compiled field lies under its mask |
| `AclMeaning.PortsPlainIff` | src/common/policy.rs:532-550 | ports mean what the rule says iff the list is empty or has a range that is not inverted |
| `AclMeaning.ProtoPlainIff` | src/common/policy.rs:552-623 | the protocol means what the rule says iff it is at most 256 |
| `AclMeaning.ParsedIff` | crates/legacy/public/src/enums.rs:179-205 | the values that survive the way through their number are exactly those the parser gives |
| `AclMeaning.TapPlainIff` | crates/legacy/public/src/enums.rs:165-205 | the tap type means what the rule says for all packets iff it is any or a number other than 0, 3 and 255 |
| `AclMeaning.TapParsedIff` | crates/legacy/public/src/enums.rs:179-205 | for parsed tap types, iff it is neither unknown nor 255 |
| `AclMeaning.TapExample` | crates/legacy/public/src/enums.rs:194-205 | a rule for 255 lets an unknown packet through |
| `AclMeaning.HeaderPlainIff` | src/common/policy.rs:532-696 | ports, protocol and tap type are read plainly for all packets iff the rule meets all three conditions |
| `AclMeaning.CompileMeansPlain` | src/common/policy.rs:532-711 | under the conditions, some compiled pair matches iff the rule plainly speaks of the packet |
| `AclMeaning.ProtoExample` | src/common/policy.rs:552-623 | a rule for protocol 262 lets TCP through |
| `AclMeaning.InvertedExample` | src/common/policy.rs:532-550 | the range 443 to 80 lets port 22 through |
| `AclMeaning.SegmentIsNet` | src/common/policy.rs:298-311 | membership in the segment of a network is the prefix test and the epc test |
| `AclMeaning.RangeSegments` | src/common/policy.rs:116-311 | the segments of a converted address range hold exactly the rounded range |
| `FirstPath.FileItem` | src/legacy/policy/first_path.rs:478-528 | an item is appended to each of its buckets once |
| `FirstPath.GenerateTable` | src/legacy/policy/first_path.rs:478-528 | bucket by bucket, the table holds the items whose indices contain it, in order |
| `FirstPath.GetPolicyFromTable` | src/legacy/policy/first_path.rs:626-643 | merges the policies of the matching items of one bucket, in order |
| `FirstPath.MergeAllMeaning` | crates/plugins/npb_pcap_policy/src/lib.rs:237-250 | a merged policy has the actions of all items in order and the id of the last one |
| `FirstPath.ScanConcat` | src/legacy/policy/first_path.rs:626-643 | the matches of two lists are found one after the other |
| `FirstPath.ItemsConcat` | src/legacy/policy/first_path.rs:478-528 | the items of two lists of ACLs are filed one after the other |
| `FirstPath.LookupIsScanIff` | src/legacy/policy/first_path.rs:478-661 | one bucket gives the same items in the same order as a scan of all of them iff the key looks into a bucket of every item it matches |
| `Parts.SegmentNetmask` | src/common/policy.rs:298-311 | the mask of a network's segment is its first bits |
| `Parts.CompiledOrdered` | src/common/policy.rs:552-711 | every compiled mask, with a bit of a part, has all higher bits of it |
| `Parts.LayoutBit` | src/common/matched_field.rs:139-209 | which bit of which header value sits at a position |
| `PolicyLookup.CompiledItem` | src/legacy/policy/first_path.rs:478-528 | the filed items are the compiled pairs of the ACLs with their policies |
| `PolicyLookup.DistinctKept` | src/legacy/policy/first_path.rs:201-220 | bits in different bytes keep the parts |
| `PolicyLookup.KeptIsExact` | src/legacy/policy/first_path.rs:478-661 | if the vector suits the list's masks, a packet's bucket gives exactly the matching items, in order |
| `PolicyLookup.NotKeptMisses` | src/legacy/policy/first_path.rs:478-661 | if it does not, some packet misses an item that matches it |
| `PolicyLookup.ListExactIff` | src/legacy/policy/first_path.rs:478-661 | for a list of ACLs and a vector, every packet finds exactly its matching items iff every compiled mask that covers a chosen bit covers the surviving bit of its rank |
| `PolicyLookup.InitVector` | src/legacy/policy/first_path.rs:201-220 | the vector that init derives from the list is the one best choice, and the same iff holds for it |
| `PolicyLookup.PartsKeepMasks` | src/common/policy.rs:552-711 | if the parts are kept, the masks of every list are |
| `PolicyLookup.PartLost` | src/legacy/policy/first_path.rs:201-220 | if a part is not kept, the mask of some ACL is not |
| `PolicyLookup.LookupExactIff` | src/legacy/policy/first_path.rs:201-661 | a vector is exact for all lists of ACLs and all packets iff it keeps the parts |
| `PolicyLookup.LookupMeansSatisfies` | src/legacy/policy/first_path.rs:478-661 | if the vector suits the list, a policy is found for a packet iff an ACL with that policy is satisfied |
| `PolicyLookup.LookupMeansPlain` | src/legacy/policy/first_path.rs:478-661 | and, for rules that mean what they say, iff such an ACL plainly speaks of the packet |
| `PolicyExamples.MissExample` | src/legacy/policy/first_path.rs:201-220 | for 10.0.0.0/8, 9.1.0.0/16, 9.2.0.0/16 the best four positions are 0, 1, 8, 9; a packet from 10.2.0.1 satisfies the first ACL and finds nothing |
| `PolicyExamples.KeptExample` | src/legacy/policy/first_path.rs:201-220 | for 9.1.0.0/16, 9.2.0.0/16, 10.3.0.0/16 they are the same and do not keep the parts, but every packet finds what it should |
| `PolicyExamples.OneByteExample` | src/legacy/policy/first_path.rs:201-220 | four bits of the protocol byte keep the parts |
| `LookupKeys.SetMatchedField` | src/common/lookup_key.rs:123-142 | the field is the packed header of its arguments |
| `LookupKeys.LookupKey.GenerateMatchedField` | src/common/lookup_key.rs:144-177 | forward and backward fields of either version |
| `LookupKeys.LookupKey.Reverse` | src/common/lookup_key.rs:179-187 | the two ends change places |
| `LookupKeys.KeyBytes` | src/common/lookup_key.rs:123-177 | byte by byte, what the forward and the backward field hold, in terms of the key |
| `LookupKeys.ReversedExchanges` | src/common/lookup_key.rs:179-187 | each of the seven pairs of fields is exchanged |
| `LookupKeys.BackwardIsReversedForward` | src/common/lookup_key.rs:144-187 | the backward field is the forward field of the reversed key with the epcs swapped; reversing twice is nothing |
| `LookupKeys.GetPolicy` | src/legacy/policy/first_path.rs:664-689 | merges what the forward and then the backward lookup find |
| `LookupKeys.BothDirections` | src/legacy/policy/first_path.rs:664-689 | if the vector suits the list, each lookup finds a policy iff an ACL with it is satisfied by the packet, or by the packet turned round |
| `L7Stats.L7PerfStats.SequentialMerge` | src/common/flow.rs:572-584 | sums and the maximum of both |
| `L7Stats.L7PerfStats.MergePerf` | src/common/flow.rs:586-608 | is the merge with a single contribution; a zero time adds nothing |
| `L7Stats.L7PerfStats.UpdateRrt` | src/common/flow.rs:626-628 | one sample |
| `L7Stats.MergeLaws` | src/common/flow.rs:572-584 | merging is commutative and associative, and doubles every counter but the maximum when it is done with itself |
| `L7Stats.NewKeyParts` | src/common/l7_protocol_log.rs:408-449 | flow, direction and the session id or the number modulo 2^63 are recovered from the key |
| `L7Stats.SessionKeyIff` | src/common/l7_protocol_log.rs:413-419 | with session ids two keys are equal iff flow, direction and id are |
| `L7Stats.EbpfKeyIff` | src/common/l7_protocol_log.rs:420-440 | from eBPF two keys are equal iff flow and direction are and the numbers agree modulo 2^63, where a client packet counts its end number plus one |
| `L7Stats.PlainKeyIff` | src/common/l7_protocol_log.rs:408-449 | without either, keys are equal iff the flows are; the key is that of session id 0 in forward direction |
| `L7Stats.PairMeets` | src/common/l7_protocol_log.rs:420-440 | an eBPF request and the response with the next sequence number have one key |
| `L7Stats.NeverReversed` | src/common/l7_protocol_log.rs:404-406 | the test of the direction bit never succeeds |
| `LruCaches.UseOrder` | src/common/l7_protocol_log.rs:484-535 | using a present key moves it to the front and keeps the order of all others |
| `LruCaches.InsertOrder` | src/common/l7_protocol_log.rs:488-522 | a new key goes to the front, and a full cache gives up its last entry |
| `RrtCaches.RrtCache.constructor` | src/common/l7_protocol_log.rs:618-625 | a new cache is empty and sound |
| `RrtCaches.RrtCache.GetMut` | src/common/l7_protocol_log.rs:484-486 | reads the log and moves it to the front |
| `RrtCaches.RrtCache.Put` | src/common/l7_protocol_log.rs:488-522 | returns the old log of the key and updates both maps, the length and the debug time |
| `RrtCaches.RrtCache.Pop` | src/common/l7_protocol_log.rs:524-535 | takes the log and its key out, and the flow with its last key |
| `RrtCaches.RrtCache.CollectFlowPerfStats` | src/common/l7_protocol_log.rs:537-559 | takes out the flow's tracked logs and returns their merged statistics, or nothing if they are all zero |
| `RrtCaches.RrtCache.RemoveFlow` | src/common/l7_protocol_log.rs:561-568 | the same without the statistics, and the length |
| `RrtCaches.TrackEffect` | src/common/l7_protocol_log.rs:500-503 | pushing a key changes the key set of its flow only; a new flow may push out one whole flow |
| `RrtCaches.UntrackEffect` | src/common/l7_protocol_log.rs:525-531 | popping a key takes it from the key set of its flow and leaves no empty set |
| `RrtCaches.PutRrt` | src/common/l7_protocol_log.rs:488-522 | the value is readable, at most one other live log is dropped, every other one is untouched, bounds and length hold |
| `RrtCaches.MessageTime` | src/common/l7_protocol_log.rs:488-522 | the debug time moves iff the cache or the 16 keys of the flow are full and the last message is more than a minute ago |
| `RrtCaches.FlowsUsed` | src/common/l7_protocol_log.rs:500-535 | a put and a pop use the flow map once: the key set goes to the front, or out when it is empty |
| `RrtCaches.PopRrt` | src/common/l7_protocol_log.rs:524-535 | exactly the key's log goes, bounds and length hold |
| `RrtCaches.CollectRrt` | src/common/l7_protocol_log.rs:537-568 | exactly the logs named by the flow's key set go |
| `RrtCaches.RunSound` | src/common/l7_protocol_log.rs:480-568 | after every run: both maps within capacity, every key set has 1 to 16 keys of its flow, the length is right after put, pop and removal |
| `RrtCaches.PutTracked` | src/common/l7_protocol_log.rs:488-522 | a put keeps every log tracked iff it does not push out a flow that has a log other than the one it drops |
| `RrtCaches.RunTracked` | src/common/l7_protocol_log.rs:480-568 | after every run without such a put, every log is tracked and no flow has more than 16 |
| `RrtCaches.FlowRemoved` | src/common/l7_protocol_log.rs:537-568 | dropping a flow touches no other flow, and leaves none of its own logs iff they were all tracked |
| `RrtCaches.Stranded` | src/common/l7_protocol_log.rs:484-568 | any three flows in a cache of two strand a log that removal does not find |
| `RrtCaches.PutRrtCount` | src/common/l7_protocol_log.rs:488-522 | the number of logs of any kind changes by the new log, the replaced one and the dropped one |
| `RrtCaches.DropTotal` | src/common/l7_protocol_log.rs:537-559 | collected statistics count exactly the requests, responses, client errors and server errors that leave the cache |
| `TimeoutCaches.TimeoutCache.GetOrInsertMut` | src/common/l7_protocol_log.rs:600-604 | the flow's entry, new ones zero; the entry is there afterwards |
| `TimeoutCaches.TimeoutCache.PopTimeoutCount` | src/common/l7_protocol_log.rs:583-598 | returns and clears the timeouts of a direction; at the end of the flow returns the waiting ones too and drops the entry |
| `TimeoutCaches.TimeoutCache.RemoveFlow` | src/common/l7_protocol_log.rs:606-609 | drops the entry |
| `TimeoutCaches.StoreEffect` | src/common/l7_protocol_log.rs:600-604 | only the flow's entry changes; another one can only be pushed out by a new flow |
| `TimeoutCaches.PopTimeoutEffect` | src/common/l7_protocol_log.rs:583-598 | the same for a pop |
| `PerfStatistics.L7PerfCache.PerfStats` | src/common/l7_protocol_info.rs:231-419 | branch by branch, the caches, the counters and the returned statistics are those of the state machine that `PerfCases` describes |
| `PerfStatistics.L7PerfCache.Meet` | src/common/l7_protocol_info.rs:291-402 | the part with a previous log; no subtraction underflows and the unwrap never panics |
| `PerfStatistics.L7PerfCache.RemoveFlow` | src/common/l7_protocol_log.rs:640-643 | both caches forget the flow |
| `PerfCases.KeyAfter` | src/common/l7_protocol_info.rs:266-402 | after a log the key holds nothing if the two are a pair, the log if there was none, and else the later of the two, the new one on a tie |
| `PerfCases.CountersAfter` | src/common/l7_protocol_info.rs:266-402 | in the counters a found request leaves the waiting ones, one that is left joins them, and exactly a late one or a counted request that does not stay times out |
| `PerfCases.FirstReturned` | src/common/l7_protocol_info.rs:275-289 | a log that finds none returns itself iff it is a request that counts |
| `PerfCases.OtherReturned` | src/common/l7_protocol_info.rs:371-402 | of two logs that are no pair the one that does not stay is returned, unless blacklisted |
| `PerfCases.PairReturned` | src/common/l7_protocol_info.rs:316-370 | counters, errors and time that the second log of a pair returns, from types, times, statuses and blacklist |
| `PerfCases.UnpairedReturned` | src/common/l7_protocol_info.rs:231-263 | logs without time, aggregation or as sessions leave the caches alone and return what their own fields say |
| `PerfLaws.SettleBalance` | src/common/l7_protocol_info.rs:266-402 | one log moves requests between waiting, timed out, answered and silenced, and touches no other direction |
| `PerfLaws.SettleInCache` | src/common/l7_protocol_info.rs:266-402 | the waiting counter follows the log under the key: less the request that was there, plus the one that is left |
| `PerfLaws.RequestsBalance` | src/common/l7_protocol_info.rs:266-402 | over every run, per flow and direction: seen plus saturated subtractions equals waiting, timed out, popped, answered in time, answered by a blacklisted response, and lost with a dropped entry |
| `PerfLaws.AbandonsIff` | src/common/l7_protocol_log.rs:488-610 | when counters are dropped, a request goes on waiting iff one in the cache is neither the log that is pushed out nor among the tracked keys that are removed |
| `PerfLaws.EntersIff` | src/common/l7_protocol_info.rs:275-402 | a log is cached iff it finds none, or an older one that is neither its request nor its response |
| `PerfLaws.EventCovered` | src/common/l7_protocol_info.rs:266-402 | from a counter that covers the waiting requests a step saturates only if it meets one from the other direction, and the counter covers them again iff the step does not drop it while sparing one |
| `PerfLaws.NeverSaturates` | src/common/l7_protocol_info.rs:266-402 | over every run without such a drop or such a meeting the subtraction never saturates, though single logs may be evicted |
| `PerfLaws.RequestsConserved` | src/common/l7_protocol_info.rs:266-402 | while a flow's counters are kept and no waiting request is met from the other direction: seen equals waiting, timed out, popped, answered in time and answered by a blacklisted response |
| `PerfLaws.DirectedNeverTurns` | src/common/l7_protocol_log.rs:408-449 | if every key comes with one direction, no waiting request is met from the other |
| `PerfLaws.FlowEnd` | src/legacy/flow_generator/flow_map.rs:1995-2030 | collecting a flow whose logs are tracked, and then the final pop, abandons no request |
| `PerfLaws.AbandonedSaturates` | src/common/l7_protocol_log.rs:583-598 | a remark on the interface: a final pop without the collection would make the next answer saturate |
| `PerfLaws.CrowdedSaturates` | src/common/l7_protocol_log.rs:571-610 | a reachable run: two requests, a non-final pop, a third flow, and the answer to the second request saturates |
| `PerfLaws.TurnedSaturates` | src/common/l7_protocol_info.rs:271-312 | a request met from the other direction saturates the other counter |
| `PerfLaws.ResponsesConserved` | src/common/l7_protocol_info.rs:275-402 | over every run: responses seen equal those returned, those waiting, those dropped while waiting and those whose request is blacklisted |
| `PerfLaws.MeasuredIff` | src/common/l7_protocol_info.rs:316-370 | a response time is reported iff both logs count and it is in time or the response came first; it is their distance and positive |
| `PerfLaws.ArrivalOrder` | src/common/l7_protocol_info.rs:275-370 | for a fresh key, both orders leave the same caches and counters, and report the same iff a log is blacklisted or the response is in time |
| `PerfLaws.LateExample` | src/common/l7_protocol_info.rs:275-370 | a response at 100 to a request at 1 with a limit of 10 is reported differently in the two orders |
| `PerfLaws.PairReported` | src/common/l7_protocol_info.rs:275-340 | a pair under a fresh key reports one request, one response, an error of a kind for each log with that status, and the time between them if in time; a blacklisted request silences both, a blacklisted response itself |
| `Reassembly.MetaPacket.Merge` | src/common/meta_packet.rs:1060-1081 | appends payload and sub-packet, adds lengths, takes over the sequence number; nothing for a packet not from eBPF |
| `Reassembly.MetaPacket.Next` | src/common/meta_packet.rs:1336-1361 | steps to the next sub-packet while there is one |
| `Reassembly.SegmentationReassembly` | src/legacy/ebpf_dispatcher.rs:326-352 | the loop over objects computes the fold over their values and returns objects of the input |
| `Reassembly.ReassembleTwice` | src/legacy/ebpf_dispatcher.rs:326-352 | running it again changes nothing |
| `Reassembly.ReassembleGroups` | src/legacy/ebpf_dispatcher.rs:326-352 | the outputs are the merges of consecutive groups of the input with one flow id and consecutive sequence numbers, and no group could have taken the next packet |
| `Reassembly.CutUnique` | src/legacy/ebpf_dispatcher.rs:326-352 | two cuts into such groups that cannot be extended are the same cut |
| `Reassembly.MergeGroupHolds` | src/common/meta_packet.rs:1060-1081 | a merged packet has the concatenated payload, additive lengths, the first packet's header values and one sub-packet for each part at its offset |
| `Reassembly.ReplaysIff` | src/common/meta_packet.rs:1336-1361 | cutting at the recorded offsets gives back the parts iff every offset fits 16 bits |
| `Reassembly.ReassembleReplays` | src/common/meta_packet.rs:1336-1361 | the same for every output of a reassembly |
| `Reassembly.Replay` | src/common/meta_packet.rs:1336-1361 | calling next to the end shows each sub-packet's header values and offset, in order |
| `Reassembly.ReplayShows` | src/common/meta_packet.rs:1336-1361 | for a merged group these are the values of its packets, and the payload from the offset is the rest of the group if the offsets fit |
| `Reassembly.WrapExample` | src/common/meta_packet.rs:1060-1081 | three segments of 40000 bytes cannot be replayed |
| `Reassembly.NoneLosesSegments` | src/common/meta_packet.rs:1060-1063 | a continuation of a packet not from eBPF is lost |
| `Reassembly.FlowIdIff` | src/common/meta_packet.rs:1024-1028 | equal flow ids mean equal type and equal socket id outside the overwritten byte |
| `GrowingLru.Lru.constructor` | src/utils/lru.rs:29-38 | both capacities are rounded up to powers of two |
| `GrowingLru.Lru.Put` | src/utils/lru.rs:44-52 | puts, and doubles the capacity when it is reached |
| `GrowingLru.Lru.GetMut` | src/utils/lru.rs:54-60 | reads and moves to the front |
| `GrowingLru.Lru.Clear` | src/utils/lru.rs:62-66 | empties and shrinks back |
| `GrowingLru.CapAfter` | src/utils/lru.rs:44-66 | the capacity doubles iff a new key fills it below the maximum, and clearing resets it |
| `GrowingLru.Lru.IsFull` | src/utils/lru.rs:72-74 | full iff the maximal number of entries is held |
| `GrowingLru.StepRefines` | src/utils/lru.rs:44-66 | one step answers and orders like an LRU of the maximal capacity |
| `GrowingLru.RunRefines` | src/utils/lru.rs:29-74 | every run does; the capacity stays a power of two between its bounds |
| `GrowingLru.NoEarlyEviction` | src/utils/lru.rs:44-52 | nothing is evicted below the maximal number of entries |
| `Hasher.FoldInverse` | src/utils/hasher.rs:27-45 | every xor-shift has a two-sided inverse |
| `Hasher.JenkinsSteps` | src/utils/hasher.rs:27-45 | the hash is four multiplications modulo 2^64 with folds by 24, 14 and 28 bits between them |
| `Hasher.JenkinsBijective` | src/utils/hasher.rs:21-45 | an explicit function undoes the hash from both sides |
| `Hasher.JenkinsInjective` | src/utils/hasher.rs:21-45 | distinct words never collide |
| `Ipv6Options.MetaPacket.UpdateIp6Opt` | src/common/meta_packet.rs:457-523 | terminates within the packet and returns what the recursive walk of the chain does; a truncated chain gives length 0 and clears both offsets |
| `Ipv6Options.WalkOfEncoded` | src/common/meta_packet.rs:457-523 | the walk of an encoded chain of headers 0, 43, 44, 51 and 60 ends behind it with the chain's last header and fragment header recorded |
| `Ipv6Options.WalkDecodes` | src/common/meta_packet.rs:457-523 | whenever the walk ends, the bytes it passed are the encoding of a chain |
| `Ipv6Options.FrameOptions` | src/common/meta_packet.rs:457-523 | for a frame of 14 bytes, link options, fixed header, chain and payload: the final protocol, the length of the chain, and both offsets counted from the start of the frame |

## Left out

- Logs that are merged more than once (`multi_merge_info`, used for Go HTTP/2): the branches of `perf_stats` for them.
- Conservation of `request_count`: a replaced log reports the statistics of the previous one again, so the counters in the laws are used instead.
- The direction split of collected statistics: the direction test never succeeds (`L7Stats.NeverReversed`), so all of it is reported as forward.
- The final pop of the second direction: the first one drops the entry of both, which the request balance books as lost.
- PerfStatistics.L7PerfCache.Meet: logs that merge more than once are left out, as in `PerfStats`.
- PerfStatistics.L7PerfCache.PerfStats: counters are unbounded numbers, because a log adds at most one to each; the missing cache (`None`) and the debug and error messages are not modelled.
- PortList.Normalize: parsing of the port string; an overflow is reported as `None`, where a release build would wrap.
- CidrRange.RangeConvert: the overflowing shift is reported as `None`, where a release build would wrap; the address types are numbers of a given width.
- VectorInit.Init: asks for 1 to 16 positions, because `vector_size` asks for 4 to 15; its memory levels are not modelled.
- TableIndex.GetAllTableIndex: the same as `TableIndex.GetTableIndex`.
- TableIndex.GetTableIndex: asks for at most 16 bits under the mask vector, because the index is a 16-bit word.
- FirstPath.GetPolicyFromTable: policy actions are opaque and merged in order; setting their tap side does nothing in this repository's policy crate (crates/plugins/npb_pcap_policy/src/lib.rs:174), and its flag that skips the first path is not modelled.
- LookupKeys.GetPolicy: the same.
- PolicyLookup.ListExactIff: address segments are made from networks, as everywhere in the source; masks with holes are covered only by `VectorMask.NeverMissesIff`.
- InterestTable.Generate: a subtraction below zero is reported as `false`, where a release build would wrap; the netmask part of the fast-path key and the fast-path caches are not modelled.
- Reassembly.ReassembleReplays: for packets as they come from eBPF, with one sub-packet, payload length equal to the payload and packet length at least 54; additions wrap as in a release build.
- Ipv6Options.MetaPacket.UpdateIp6Opt: asks that the packet holds the fixed header, as its caller has checked.
- The `lru` crate is taken by its documentation; reference counting, locks and atomics around the caches are plain values.
- IP and CIDR string parsing, enum conversions, `Display`, logging, `Acl::get_port_range`, gpid keys, tunnel decapsulation, TCP options, sockets, threads, gRPC, configuration and system monitors.
