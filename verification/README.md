# Verified model of the access-point driver and the hotspot manager

This project models the parts of the MT7603 access-point driver that carry algorithms or protocols,
and the Python hotspot manager beside it, and proves what they promise. `dafny verify dfyconfig.toml`
checks all of it.

Each part comes in two layers. Values and functions say what one operation does; lemmas say what
follows for all inputs and all runs. Where the driver updates memory in place (slot arrays, linked
bucket chains, counters, frame buffers) a class or an array method does the same and is proved
against the function.

| file | part of the system |
|---|---|
| `Common.dfy`, `Arithmetic.dfy`, `Multisets.dfy` | bytes, MAC addresses and their hash; remainders; reordered sequences |
| `BucketChains.dfy` | singly linked bucket chains over a link array, as both repeater tables use them |
| `RepeaterClients.dfy`, `RepeaterTable.dfy`, `RepeaterAddresses.dfy` | MAC repeater clients: slots with two independent indexes, and the addresses they speak under |
| `ExclusionList.dfy`, `ExclusionTable.dfy` | the 32-entry list of addresses that do not trigger the repeater |
| `Amsdu.dfy`, `Deaggregation.dfy` | A-MSDU aggregation (section 8.3.2.2 of IEEE 802.11-2012), read back by the standard and by the driver |
| `Fragmentation.dfy` | fragmentation (section 9.5 of IEEE 802.11-2012) and the number of descriptors reserved for it |
| `BssTable.dfy`, `ChannelDirtiness.dfy`, `ChannelSort.dfy`, `ChannelRanking.dfy`, `ChannelSelect.dfy` | automatic channel selection |
| `Stations.dfy`, `StationTable.dfy`, `StationRuns.dfy`, `StationSafety.dfy`, `StationPort.dfy`, `SharedKey.dfy` | station life cycle (section 10.3 of IEEE 802.11-2012): authentication, association, port control, access lists, class 2/3 errors |
| `Tim.dfy` | the traffic indication map of a beacon (section 8.4.2.7 of IEEE 802.11-2012) |
| `EdcaElement.dfy` | the WMM parameter element, written by the access point and read by the AP client |
| `LoadAlarm.dfy`, `AlarmHistory.dfy`, `AlarmPercentage.dfy` | the rate-limited channel-load alarm |
| `Network.dfy`, `Hotspot.dfy`, `Running.dfy` | the hotspot's routing and firewall commands, their undo log, and what they mean |

## Where the code does less than expected

Properties one would expect that are false of the code are kept as exact statements:

- The repeater's duplicate test stops at the first disabled slot, so an address can occupy two slots
  (`DuplicateIffBehindGap`, `DuplicateRun`). In the default mode it speaks under one address for two
  devices that differ in the vendor part alone (`SameCurrentIff`, `ClashRun`).
- The 4-bit fragment numbers repeat beyond 16 fragments (`ReassembledIff`); the reserved number of
  fragments is stored in one byte (`ConfiguredThresholdsCover`) and ignores the QoS octets
  (`ReservedCoversIff`, `QosExceeds`). The loop makes no progress for one threshold per header length
  (`StuckForever`), a room can wrap (`WrappedIsSingle`) and a threshold of 28 divides by zero, but no
  configuration command stores such a threshold (`ConfiguredIsSafe`).
- The receive conversion of a body shorter than eight octets depends on what lies behind it
  (`EthernetRoundTripIff`), and the driver's own reader of an A-MSDU spoils packets without an Ethernet
  type and stops at short or long subframes (`DriverReadsIff`).
- The sort keeps a 64-bit pivot in an `int` (`PairSortedIff`); dirtiness from a reset table never gets
  that large (`ResetIsExact`).
- The test for an unlisted channel never fires (`UnlistedDirtiesIff`), and only the first occurrence of a
  skip-listed channel is flagged (`SkipListHonouredIff`).
- The TIM drops byte 0 in one case because offset 0 doubles as "unset" (`MapArrivesIff`).
- An alarm reset leaves the busy count (`ResetReopensIff`) and the period measured last, so that the
  threshold stays that of the beacon period until another period is measured (`ThresholdIs`). For a long
  period the threshold wraps (`PercentageIff`).
- Under hostapd, an association request without a security element at a WPA BSS is accepted and leaves
  the port as it was, so a keyed station keeps an open port (`GateHoldsIff`, `BypassRun`).
- Freed station slots keep their state and are zeroed in address only. Data frames are resolved by the
  sender's address, so that no sender gets through another's slot (`SenderGateIff`), except under the zero
  address (`ZeroGateIff`). A shared-key confirmation trusts the slot number from the hardware
  (`MarksAgreeIff`).
- An association is made before the access list is consulted for the answer (`TableShowsStandingIff`).
  Every command of the driver that writes a list updates the table right after (ap_cfg.c:7916-8446), so
  this needs a list written in some other way.
- The undo of a start can delete a rule of an earlier hotspot (`RestoredIff`).

A run is called honest if the slot that the hardware names for a confirmation is the sender's, and
disciplined if moreover every list change is followed by its update, with policies 0, 1 and 2.

## Conventions

Locked regions are single steps and memory allocation succeeds. Machine words are written out: bytes and
shorts as ranges of integers, wrapping counters as conditionals or remainders, `ULONG` as 64 bits.
Register access, radio timing, random numbers, signal strength and the outcome of capability checks are
inputs of the step that uses them. A failed shell command either changes nothing or, if it timed out,
has taken effect; undo commands succeed when they find what they delete.

## Model

| member | source | states |
|---|---|---|
| BucketChains.RemoveFromEffect | driver/ap/ap_repeater.c:303-376 | On chains that share no slot, unlinking a slot removes it and only it from its bucket, keeps the order of the rest, and leaves the chains sharing no slot |
| BucketChains.AppendToEffect | driver/ap/ap_repeater.c:236-268 | Linking a slot that is on no chain puts it into its bucket only and keeps the chains disjoint |
| BucketChains.AppendKeepsTable | driver/ap/ap_repeater.c:236-268 | The pointer writes at the tail of a bucket spell out exactly the old chains with the slot appended to that one; every other chain is untouched |
| BucketChains.Splice | driver/ap/ap_repeater.c:316-337 | One pointer write (bucket head or previous link) takes position i out of an acyclic chain and leaves a chain without it |
| BucketChains.SpliceKeepsTable | driver/ap/ap_repeater.c:316-337 | The same write seen on the whole table: the other buckets still spell out their chains |
| BucketChains.CutMembers | driver/ap/ap_repeater.c:316-337 | After cutting position i of a chain without repetitions exactly the other members remain |
| BucketChains.Buckets.Append | driver/ap/ap_repeater.c:236-254 | The tail walk and write of an insert produce the abstract append, on any table whose heap spells out disjoint chains |
| BucketChains.Buckets.Probe | driver/ap/ap_repeater.c:305-337 | The walk with a trailing pointer stops at the first occurrence of the slot or at the end of its bucket, with the predecessor in hand |
| BucketChains.Buckets.Unlink | driver/ap/ap_repeater.c:303-346 | Walk and splice produce the abstract removal, and report whether the slot was on that chain |
| RepeaterClients.FreeSlot | driver/ap/ap_repeater.c:154-178 | The slot an insert uses is inside the interface and disabled; a duplicate before the first disabled slot, or a full interface, gives none |
| RepeaterClients.InsertAtKeeps | driver/ap/ap_repeater.c:195-270 | Initialising and linking a disabled slot keeps both indexes disjoint, in the bucket of the slot's addresses, over the same slots, and the counter exact |
| RepeaterClients.InsertKeeps | driver/ap/ap_repeater.c:120-282 | Every insert, accepted or refused, keeps the index/slot/counter invariant |
| RepeaterClients.RemoveKeeps | driver/ap/ap_repeater.c:284-391 | Every removal keeps the invariant; the slot is on no chain afterwards and the counter drops by one exactly when it was linked |
| RepeaterClients.IndexAfterRemove | driver/ap/ap_repeater.c:303-386 | One index after a removal: disjoint, every slot in the bucket of its key, the same slots but one, one shorter exactly if it was linked |
| RepeaterClients.SecondRemoveIsIdle | driver/ap/ap_repeater.c:284-391 | A second removal of the same slot changes neither chain nor the counter |
| RepeaterClients.FlagsKeep | driver/ap/ap_repeater.c:284-391 | Validity changes and processed disconnects leave the indexes consistent |
| RepeaterClients.StepKeeps | driver/ap/ap_repeater.c:120-391 | Every operation of a run keeps the invariant |
| RepeaterClients.RunKeeps | driver/ap/ap_repeater.c:120-391 | Every sequence of operations keeps the invariant |
| RepeaterClients.EveryRunIsConsistent | driver/ap/ap_repeater.c:120-391 | From the zeroed table, after any inserts, removals, disconnects and validity changes: chains acyclic and disjoint, both indexes hold the same slots in the right buckets, the counter is their number and at most 16 |
| RepeaterClients.LinkedExactlyOnce | driver/ap/ap_repeater.c:236-270 | A linked client has exactly one position in each index, in the bucket of its current and of its original address |
| RepeaterClients.DuplicateIffBehindGap | driver/ap/ap_repeater.c:154-178 | An accepted insert leaves its address in two slots of the interface exactly when a slot behind the first disabled one already held it: the duplicate scan stops there |
| RepeaterClients.InsertLinksIff | driver/ap/ap_repeater.c:143-178 | What an insert does, exactly: with the interface up and fewer than 16 clients it links the first disabled slot of the interface as a new client, if no slot before it holds the address as original or current one; else nothing at all |
| RepeaterClients.DuplicateRun | driver/ap/ap_repeater.c:154-178 | A run that ends there: two clients join, the first leaves, the second is inserted again and now occupies two slots |
| RepeaterAddresses.TranslateStandsFor | driver/ap/ap_repeater.c:192-228 | The address spoken under: always the low three octets of the device; mode 1 the address itself, mode 2 the listed vendor after its own, cyclically, or the first one, any other mode the vendor octets of the interface |
| RepeaterAddresses.LinkedGoesBack | driver/ap/ap_repeater.c:120-282 | In every run each linked client goes back to an insert on its interface while that was up, has its original address from there, and speaks as that insert says |
| RepeaterAddresses.SameCurrentIff | driver/ap/ap_repeater.c:220-228 | In every run in default mode a client of an interface speaks under the vendor octets of the interface and its own low octets, so two of them speak under one address exactly when they differ in no more than the vendor |
| RepeaterAddresses.ClashRun | driver/ap/ap_repeater.c:220-228 | A run in which two linked clients do |
| RepeaterTable.NoneHolds | driver/ap/ap_repeater.c:35-79 | If the bucket of an address holds no valid client for it, no linked client anywhere is one |
| RepeaterTable.RepeaterTable.FindSlot | driver/ap/ap_repeater.c:154-178 | The slot scan finds what the specification calls the free slot |
| RepeaterTable.RepeaterTable.Link | driver/ap/ap_repeater.c:195-270 | Slot write, map entry and the two chain appends amount to the abstract insert |
| RepeaterTable.RepeaterTable.Insert | driver/ap/ap_repeater.c:120-282 | The in-place insert is the abstract one, with all early returns |
| RepeaterTable.RepeaterTable.Remove | driver/ap/ap_repeater.c:284-391 | The in-place removal is the abstract one, found or not found |
| RepeaterTable.RepeaterTable.TakeDown | driver/ap/ap_apcli.c:1060-1075 | Disconnect processed, then removal: consistent again, and the abstract step |
| RepeaterTable.RepeaterTable.LookupOriginal | driver/ap/ap_repeater.c:46-62 | Returns a linked valid client with this original address exactly when there is one |
| RepeaterTable.RepeaterTable.LookupCurrent | driver/ap/ap_repeater.c:64-74 | Returns a linked valid client with this current address exactly when there is one |
| ExclusionList.NeverExhausted | driver/ap/ap_repeater.c:684-712 | With fewer than 32 counted entries the slot scan finds a vacancy or the address itself: the fall-through behind it is unreachable |
| ExclusionList.LookupIsLinearScan | driver/ap/ap_repeater.c:650-674 | Hash lookup finds an address exactly when some occupied slot holds it |
| ExclusionList.GuardedInsertKeeps | driver/ap/ap_apcli.c:387-390 | The lookup-guarded insert keeps addresses distinct, slots and index in agreement, the counter exact, and occupied slots a prefix |
| ExclusionList.GuardedInsertAdds | driver/ap/ap_apcli.c:387-390 | The set of listed addresses grows by exactly the new address when there is room and it is not zero or listed; nothing else changes |
| ExclusionList.RemoveKeeps | driver/ap/ap_repeater.c:741-794 | Removal by slot and its own address keeps the invariant and vacates exactly that slot |
| ExclusionList.TeardownKeeps | driver/ap/ap_apcli.c:1079-1085 | The removal loop keeps the invariant from any point on and ends with all slots vacant |
| ExclusionList.TeardownEmpties | driver/ap/ap_apcli.c:1079-1085 | After the removal loop the list is the initial one: every bucket empty, counter zero |
| ExclusionList.EveryRunIsPrefix | driver/ap/ap_apcli.c:387-390 | In every run of link-ups and teardowns: no address twice, occupied slots form a prefix, the counter equals their number |
| ExclusionList.PrefixCount | driver/ap/ap_repeater.c:684-712 | For a prefix the counter is the index of the first vacant slot |
| ExclusionTable.ExclusionTable.Lookup | driver/ap/ap_repeater.c:650-674 | The chain walk decides the abstract lookup |
| ExclusionTable.ExclusionTable.Insert | driver/ap/ap_repeater.c:676-739 | The in-place insert is the abstract one |
| ExclusionTable.ExclusionTable.LinkUp | driver/ap/ap_apcli.c:387-390 | The guarded insert loop over the network devices is the abstract one |
| ExclusionTable.ExclusionTable.RemoveAt | driver/ap/ap_repeater.c:741-794 | The in-place removal is the abstract one |
| ExclusionTable.ExclusionTable.IfDown | driver/ap/ap_apcli.c:1079-1085 | The teardown loop leaves the initial state |
| Amsdu.ParseEncode | driver/ap/ap_data.c:2266-2489 | Parsing the aggregate by the standard returns the subframes in order, for every list whose bodies fit the length field |
| Amsdu.RoundTripIff | driver/ap/ap_data.c:2403-2405 | The receiver recovers the subframes exactly when every body is shorter than 65536 |
| Amsdu.ChunksAligned | driver/ap/ap_data.c:2333-2337 | Padding by the previous chunk puts every chunk on a 4-byte boundary, and nothing follows the last |
| Amsdu.SubframesAligned | driver/ap/ap_data.c:2333-2337 | Every subframe starts at a multiple of four from the first; the last has no trailing pad |
| Amsdu.EncodeSnoc | driver/ap/ap_data.c:2333-2337 | Appending a subframe adds the padding owed by the one before it and its own bytes |
| Amsdu.PaddingIsExact | driver/ap/ap_data.c:2333-2337 | The padding computed from the 16-bit length of the previous body is right even when that length was truncated |
| Amsdu.NextPacket | driver/ap/ap_data.c:2266-2275 | A packet that cannot be filled contributes nothing and disturbs nothing |
| Amsdu.Transmit | driver/ap/ap_data.c:2266-2489 | The transmit loop emits exactly the aggregate of the packets that could be filled, in queue order |
| Amsdu.BuildSubframe | driver/ap/ap_data.c:2330-2420 | Header, optional LLC/SNAP octets and payload of one turn are the bytes of its subframe |
| Amsdu.WireOctets | driver/ap/ap_data.c:2344-2420 | Octet by octet, for a packet that is not relayed: its first twelve octets, the length of the body modulo 65536 with the high byte first, and the packet from its type field on behind the LLC/SNAP header of IEEE 802.1H (the bridge tunnel for IPX and AppleTalk only), or without type field for an 802.3 length |
| Amsdu.EthernetRoundTripIff | driver/include/rtmp.h:659-690 | Type field and payload survive encapsulation and the receive conversion, which compares without looking at the length, exactly when the type is an Ethernet type, or is the true length of a payload that, with what follows it in memory, does not start like a removable LLC/SNAP header |
| Deaggregation.Announce | driver/tx_rx/wdev_rx.c:142-208 | One subframe is rewritten where it lies and passed up from there; nothing in front of it and nothing behind its first 28 octets is touched |
| Deaggregation.Deaggregate | driver/tx_rx/wdev_rx.c:96-244 | The loop over the buffer, with the limits on payload and subframe size, passes up the specified frames although it writes into the buffer as it goes; they share it, and no later turn overwrites an earlier frame |
| Deaggregation.FrameIff | driver/tx_rx/wdev_rx.c:147-208 | A packet of up to 1510 bytes is passed up as its own destination, its source or the address the repeater uses, the tag of the receiving interface, and its bytes from the type field on, exactly when that field is an Ethernet type; else the header lands on its data |
| Deaggregation.AfterFirst | driver/tx_rx/wdev_rx.c:220-237 | After the first of several subframes the loop goes on behind its padding exactly when its body has 15 to 1514 octets |
| Deaggregation.DriverReadsIff | driver/tx_rx/wdev_rx.c:96-244 | The driver gives back all packets of an aggregate exactly when all carry an Ethernet type and at most 1510 bytes, all but the last at most 1506 and at least 7 |
| Deaggregation.QueueArrivesIff | driver/ap/ap_data.c:2266-2489 | From the transmit queue, packets that cannot be filled left out, to the frames the driver passes up at the other end: all arrive, in order, under exactly that condition |
| Deaggregation.PacketsArriveIff | driver/ap/ap_data.c:2347 | Between interfaces without VLAN tags, and without a repeater, the frames passed up are the queued packets, byte for byte and in order, under exactly that condition |
| Fragmentation.CounterIsMod | driver/ap/ap_data.c:3457-3461 | The wrapping 8-bit and 4-bit counters are the fragment index modulo their size |
| Fragmentation.PushPiece | driver/ap/ap_data.c:3328-3455 | A correctly numbered next piece extends the fragmentation; a last one completes it |
| Fragmentation.CutMore | driver/ap/ap_data.c:3328-3463 | One turn either extends a partial fragmentation by a full fragment or completes it |
| Fragmentation.Progress | driver/ap/ap_data.c:3328-3463 | A turn that leaves bytes behind sent some, or brought the header shrink of a wrapped fragment counter closer |
| Fragmentation.TxBlk.Turn | driver/ap/ap_data.c:3328-3455 | Size, flags, numbers and header of one fragment, and the header shrink after fragment 0 |
| Fragmentation.TxBlk.Round | driver/ap/ap_data.c:3328-3463 | One turn with its counters keeps the fragmentation and decreases a measure |
| Fragmentation.TxBlk.Cut | driver/ap/ap_data.c:3325-3463 | Outside the one stuck configuration the loop ends: payloads concatenate to the packet, numbers count up from 0, the more bit is clear only on the last, all but the last are full for their own header |
| Fragmentation.IdsTell | driver/ap/ap_data.c:3331-3350 | Number and mark of every fragment by its position: the number modulo 16; a first, middle or last mark, none for a frame sent whole, and again like a first one every 256 fragments |
| Fragmentation.StuckForever | driver/ap/ap_data.c:3328-3463 | The stuck configuration (no encapsulation, threshold equal to header plus checksum) never sends a byte, after any number of turns |
| Fragmentation.ReassembledIff | driver/ap/ap_data.c:3457-3463 | The receiver reassembles the packet exactly when there are at most 16 fragments |
| Fragmentation.FragmentFitsIff | driver/ap/ap_data.c:3329-3335 | Header and payload of a fragment fit the threshold less checksum exactly when the header alone does |
| Fragmentation.HeaderSmall | driver/ap/ap_data.c:3452-3457 | Header lengths: unchanged without encapsulation, eight octets less for fragments 1 to 256 with it |
| Fragmentation.PayloadBounds | driver/ap/ap_data.c:3328-3463 | The packet length lies between the first n full fragments and one more |
| Fragmentation.CountBounds | driver/ap/ap_data.c:3328-3463 | For a 24-byte header, how the number of fragments is bounded by packet length over fragment size |
| Fragmentation.WrappedIsSingle | driver/ap/ap_data.c:3329-3337 | Where the header exceeds the threshold the room wraps and one fragment carries everything |
| Fragmentation.EstimateCovers | driver/ap/ap_data.c:292-297 | The fragments never exceed the estimate before it is truncated to a byte, up to 256 fragments |
| Fragmentation.EstimateIsClose | driver/ap/ap_data.c:292-297 | Nor does that estimate exceed the fragments by more than 13 |
| Fragmentation.ReservationCoversIff | driver/ap/ap_data.c:292-300 | For every packet length and every threshold but 28, with a 24-byte header and no MIC: the reserved number covers the fragments exactly when the estimate fits one byte, or the room wraps at once and the byte is not zero |
| Fragmentation.CountExact | driver/ap/ap_data.c:3328-3463 | For any header that fits, the number of fragments as a quotient of the payload length |
| Fragmentation.ReservedCoversIff | driver/common/cmm_data.c:2367-2373 | For the packets handed to the loop, with any header (QoS or not): the reserved number covers the fragments exactly under an arithmetic condition on length, header and threshold |
| Fragmentation.StoredThreshold | driver/common/cmm_info.c:812-833 | Whatever is configured, the stored threshold is even and between 256 and 2346, and next to the value given if that is in range |
| Fragmentation.ConfiguredIsSafe | driver/common/cmm_info.c:812-833 | For every configured threshold and every header: the loop is not stuck, no room wraps, the estimate divides by a positive size, each fragment fits |
| Fragmentation.ConfiguredThresholdsCover | driver/ap/ap_data.c:292-300 | For every configured threshold and a 24-byte header the reservation covers exactly when the packet is shorter than 255 full fragments, as every packet up to 57343 bytes is |
| Fragmentation.QosExceeds | driver/ap/ap_data.c:292-300 | With a QoS header there is, for every configured threshold, a packet that is handed to the loop with two fragments reserved and comes out as three |
| ChannelSort.PivotIsExactIff | driver/ap/ap_autoChSel.c:1300-1310 | The pivot kept in an int equals the dirtiness it came from exactly below 2^31 and in the top 2^31 values |
| ChannelSort.Scan | driver/ap/ap_autoChSel.c:1301-1309 | The scan ends although a swap does not shrink the range, permutes the segment, and leaves entries behind l at most and past r at least the pivot |
| ChannelSort.Partition | driver/ap/ap_autoChSel.c:1300-1319 | The segment is permuted; for an exact pivot everything left of the cut is at most, everything right of it at least, the pivot |
| ChannelSort.Sort | driver/ap/ap_autoChSel.c:1296-1324 | Terminates, permutes exactly the given segment, and sorts it when every dirtiness keeps its value as a pivot; two entries are exchanged exactly when the second is below the first's pivot |
| ChannelSort.Join | driver/ap/ap_autoChSel.c:1320-1321 | Two sorted halves around a cut are one sorted segment and a permutation of the start |
| ChannelSort.Combine | driver/ap/ap_autoChSel.c:1296-1324 | Partition and two recursive calls together meet the contract of the sort |
| ChannelSort.PairSortedIff | driver/ap/ap_autoChSel.c:1296-1324 | [a, b] is sorted for every b exactly when a's dirtiness survives the int |
| ChannelRanking.GroupsPartition | driver/ap/ap_autoChSel.c:1414-1437 | The two groups together are the channel list, as multisets |
| ChannelRanking.GroupsRank | driver/ap/ap_autoChSel.c:1438-1448 | Both groups sorted on their own, one after the other, are a ranking |
| ChannelRanking.RankingMeans | driver/ap/ap_autoChSel.c:1392-1454 | In a ranking of distinct channels one with at most 100 false alarms never follows one with more, and within either group dirtiness does not decrease |
| ChannelRanking.RankingIsPermutation | driver/ap/ap_autoChSel.c:1343-1382 | The rank list holds every listed channel as often as it is listed |
| ChannelRanking.SortChannelByDirtiness | driver/ap/ap_autoChSel.c:1334-1341 | The first len entries are permuted, and sorted if exact; an empty list is refused |
| ChannelRanking.ApCfg.UpdateRankList | driver/ap/ap_autoChSel.c:1343-1382 | Publishes both lists one after the other, or, for none or too many channels, changes nothing |
| ChannelRanking.SplitGroups | driver/ap/ap_autoChSel.c:1414-1437 | Distributes the channels by the false-CCA threshold, in list order |
| ChannelRanking.ApCfg.DoChannelRanking | driver/ap/ap_autoChSel.c:1392-1454 | The published list is a ranking of the whole channel list; with no channel the old list stays |
| ChannelDirtiness.AddAbove | driver/ap/ap_autoChSel.c:1252-1261 | Adds to each higher neighbour its weight and nothing past the first gap |
| ChannelDirtiness.AddBelow | driver/ap/ap_autoChSel.c:1262-1271 | Adds to each lower neighbour its weight; a gap there only skips the one channel |
| ChannelDirtiness.AddBss | driver/ap/ap_autoChSel.c:1204-1273 | One BSS adds exactly its weight to every entry |
| ChannelDirtiness.WeightIs | driver/ap/ap_autoChSel.c:1204-1273 | What a BSS on a listed channel adds to any other: 50, 40 or 30 by its signal at its own; around it 36 less 4 with every index, four to each side in the 2.4 GHz band and one in the 5 GHz band, twice as many towards its extension channel, up to the first gap above, and below wherever the next channel up is at most four numbers away |
| ChannelDirtiness.UpdateAll | driver/ap/ap_autoChSel.c:1189-1276 | Every entry ends as its start plus the sum of the weights of all BSSs, modulo the word |
| ChannelDirtiness.OrderDoesNotMatter | driver/ap/ap_autoChSel.c:1204-1273 | The sum is the same for every order of the BSS table |
| ChannelDirtiness.UnlistedDirtiesIff | driver/ap/ap_autoChSel.c:165-179 | A BSS on an unlisted channel is charged to the entry behind the list, and dirties listed channels exactly when some channel within its reach below has at most four channel numbers to the next entry |
| ChannelDirtiness.ResetIsExact | driver/ap/ap_autoChSel.c:1204-1273 | From a reset table dirtiness is the plain sum, and small enough for every pivot to be exact |
| ChannelDirtiness.PerformAlgorithm | driver/ap/ap_autoChSel.c:1464-1486 | Dirtiness on top of what the table holds, and a ranking by it; from a reset table it is sorted without further condition |
| ChannelSelect.QuietTotal | driver/ap/ap_autoChSel.c:444-507 | The 32-bit total of the first rule, with 40 MHz partners where there are any |
| ChannelSelect.Rule1 | driver/ap/ap_autoChSel.c:438-517 | The first index with the least total among quiet, accepted, unskipped channels, up to channel 14 at 40 MHz |
| ChannelSelect.Rule2 | driver/ap/ap_autoChSel.c:532-581 | The same among the noisy channels by false-CCA count |
| ChannelSelect.Rule3 | driver/ap/ap_autoChSel.c:590-604 | The first acceptable channel from the random start, or the last one visited |
| ChannelSelect.Select | driver/ap/ap_autoChSel.c:302-606 | The three rules in order; an empty list yields channel 1 |
| ChannelSelect.CleanestIsChosen | driver/ap/ap_autoChSel.c:438-517 | While an eligible channel has at most 100 false alarms, the choice is one of these, and none of them is cleaner over the indices its transmission covers: itself, with its partner at 40 MHz in the 5 GHz band, or with the indices four below and above in the 2.4 GHz band |
| ChannelSelect.LeastDisturbedIsChosen | driver/ap/ap_autoChSel.c:532-581 | Else, while any channel is eligible, the choice has the least sum of false alarms and dirtiness over itself and its partner |
| ChannelSelect.SetSkipFlags | driver/ap/ap_autoChSel.c:181-193 | The first occurrence of each skip-listed channel is flagged, on top of the flags already set |
| ChannelSelect.FlagsAreExactIff | driver/ap/ap_autoChSel.c:181-193 | The flags say what the skip list says exactly when no skip-listed channel is listed twice |
| ChannelSelect.VisitsEvery | driver/ap/ap_autoChSel.c:591-593 | The wrap-around scan visits every index from every start |
| ChannelSelect.WrapAroundFinds | driver/ap/ap_autoChSel.c:590-604 | If any channel is neither skip-listed nor, where radar channels of the 5 GHz band are avoided, one of those, then so is the one that the third rule returns |
| ChannelSelect.NeverSkipListed | driver/ap/ap_autoChSel.c:302-606 | With no skip-listed channel listed twice, none is returned while some channel passes the tests of the third rule |
| ChannelSelect.SkipListHonouredIff | driver/ap/ap_autoChSel.c:302-606 | Under all measurements the skip list is honoured exactly when no skip-listed channel is listed twice |
| BssTable.Table.SearchWithSsid | driver/ap/ap_autoChSel.c:46-75 | The first matching entry, or none |
| BssTable.Table.EntrySet | driver/ap/ap_autoChSel.c:77-107 | A hidden SSID leaves the stored one alone, every other field is replaced |
| BssTable.Table.InsertEntry | driver/ap/ap_autoChSel.c:954-996 | The in-place insert is the abstract one; it fails exactly when nothing matches and the table is full |
| BssTable.InsertKeepsApart | driver/ap/ap_autoChSel.c:954-996 | An insert never makes two entries of one address in one band but with different, visible SSIDs |
| BssTable.EveryRunIsFaithful | driver/ap/ap_autoChSel.c:954-996 | From the zeroed table: at most 128 entries; two with the same address in the same band show different SSIDs; every accepted beacon is represented by an entry of its address and band with its SSID, every entry justified by one |
| BssTable.AcceptsIff | driver/ap/ap_autoChSel.c:954-980 | A beacon is turned away exactly when the table holds 128 entries and none has its address in its band and its SSID, or one of the two hidden |
| BssTable.EveryEntryIsLatest | driver/ap/ap_autoChSel.c:77-107 | In every run each entry holds channel, extension and signal of a beacon since which none was accepted that could only be meant for it |
| BssTable.SsidListedIff | driver/ap/ap_autoChSel.c:954-996 | An SSID is listed for a station exactly when an accepted beacon of it showed it |
| BssTable.HiddenListedIff | driver/ap/ap_autoChSel.c:86-101 | A station is listed without SSID exactly when it was heard and never showed one |
| BssTable.LearnedIsNeverErased | driver/ap/ap_autoChSel.c:86-101 | No later beacons remove an entry, move it to another station or change a known SSID |
| StationTable.StationTable.LookupEntry | driver/mgmt/mgmt_entrytb.c:321-343 | The slot in use that holds the address, if there is one |
| StationTable.StationTable.FindMbss | driver/ap/ap.c:41-53 | The first BSS with this BSSID |
| StationTable.StationTable.CheckAcl | driver/ap/ap.c:2448-2478 | The list scan decides admission: listed for policy 1, not listed for other policies, always for 0 |
| StationTable.StationTable.InsertEntry | driver/mgmt/mgmt_entrytb.c:663-760 | The first vacant slot from 1 on becomes a fresh entry; a BSS at its limit gets none |
| StationTable.StationTable.DeleteEntry | driver/mgmt/mgmt_entrytb.c:1125-1400 | Frees the slot only for its own address, and leaves its state fields behind |
| StationTable.StationTable.PeerAuthReq | driver/ap/ap_auth.c:417-673 | The handler is the abstract authentication step: new table, pending challenge and answer |
| StationTable.StationTable.PeerAuthConfirm | driver/ap/ap_auth.c:675-823 | The handler is the abstract confirmation step |
| StationTable.StationTable.BuildAssociation | driver/ap/ap_assoc.c:630-781 | Only an authenticated or associated entry with an acceptable request becomes associated; its port is closed where keys are needed, opened where not, and left alone for a request without security element at a WPA BSS under hostapd |
| StationTable.StationTable.PeerAssocReq | driver/ap/ap_assoc.c:1851-2190 | The decision path is the abstract association step |
| StationTable.StationTable.ResolveEntry | driver/tx_rx/wdev_rx.c:2801-2829 | The slot a data frame is for: the named one if it carries the sender's address, else the sender's own entry, if there is one |
| StationTable.StationTable.ReceiveData | driver/tx_rx/wdev_rx.c:2801-2895 | Resolution and receive filter are the abstract data step |
| StationTable.StationTable.Purge | driver/ap/ap.c:2510-2575 | The removal loop frees exactly the entries of the BSS that its list refuses |
| StationTable.StationTable.ReplaceAcl | driver/ap/ap.c:2489-2575 | A new list followed by its update is the abstract step |
| StationTable.StationTable.SetAuthorized | driver/os/linux/cfg80211/cfg80211_ap.c:1086-1118 | The verdict of the authenticator opens or closes the port of the station with this address, and nothing else |
| StationTable.StationTable.SendPacket | driver/ap/ap_data.c:245-259 | The port gate is the abstract one |
| StationRuns.StepIsEffect | driver/ap/ap_auth.c:446-823 | Every frame or command changes at most one entry's life, that of its own subject, and answers accordingly: an open request admitted is authenticated, a shared-key request is challenged and left unauthenticated |
| StationRuns.KeptIsEffect | driver/ap/ap_auth.c:492-530 | A station keeps its entry when it authenticates again at the same BSS; otherwise no entry of it remains |
| StationRuns.AdmittedIsEffect | driver/ap/ap_auth.c:590-622 | The entry to authenticate is the kept one or a fresh one of this BSS |
| StationRuns.AuthAnswerIff | driver/ap/ap_auth.c:446-673 | Which answer an authentication request gets, exactly: none while admissions are suspended or the interface is down; a refusal where the list or the mode of the BSS (open, shared, automatic, WPA) forbids it; a success for open and a challenge for shared-key requests where the station has or gets an entry; only these two leave it in the table |
| StationRuns.RemovesExactly | driver/ap/ap_auth.c:66-200 | A deauthentication by the peer, one by the access point, a departure or an aging out takes exactly the station it names out of the table, under the conditions on slot, address and BSSID, and changes no other slot |
| StationRuns.AssocAnswerIff | driver/ap/ap_assoc.c:1851-2190 | Which answer an association request of a station in the table gets, exactly: none while admissions are suspended or for a malformed one; success for an acceptable one of an authenticated or associated station that the list lets pass, with enough signal; else a refusal; the station keeps its entry unless the signal is too weak |
| StationRuns.AbsentGetsNoAnswer | driver/ap/ap_assoc.c:1868-1873 | A station that is not in the table gets no answer, and nothing changes |
| StationRuns.CommandsHold | driver/ap/ap.c:2489-2510 | Every run leaves the list of each BSS, and the suspension, as the last command said, and nothing else of a BSS changes |
| StationRuns.EffectKeepsDistinct | driver/mgmt/mgmt_entrytb.c:663-760 | Such a step never puts an address into the table twice |
| StationRuns.EveryRunIsDistinct | driver/mgmt/mgmt_entrytb.c:663-760 | In any run at all, whatever slots the hardware names, no address is in the table twice |
| StationRuns.PurgedSlots | driver/ap/ap.c:2510-2575 | The removal loop on any suffix, slot by slot |
| StationRuns.DropsIffNotPasses | driver/ap/ap.c:2448-2575 | Removal and admission tests are complements for every address exactly for the policies 0, 1, 2 or an empty list |
| StationRuns.StepKeepsAclOk | driver/ap/ap.c:2448-2575 | A disciplined step leaves only stations in the table that are on the list of their BSS under policy 1, and not on it under any other but 0 |
| StationRuns.EveryRunPassesAcl | driver/ap/ap.c:2489-2575 | In every disciplined run no address occurs twice, and every station is on the list of its BSS under policy 1, and not on it under any other policy but 0 |
| StationRuns.StepStands | driver/ap/ap_assoc.c:630-781 | One step, seen from any address: the state moves by the answer sent, or by an association made whatever was answered |
| StationRuns.TableShowsStandingIff | driver/ap/ap_assoc.c:2028-2190 | Whatever is done to the lists: each entry's state is the standing that replaying the answers gives, except that it is associated against it exactly when the last association it was fit for since its authentication failed the list |
| StationRuns.RefusedStillAssociates | driver/ap/ap_assoc.c:2028-2206 | A step that does so: the association is refused and made |
| StationRuns.TableShowsStanding | driver/ap/ap_assoc.c:587-781 | In every disciplined run each entry's state is exactly the standing that replaying the answers sent gives, and absent stations have none |
| StationRuns.AcceptedWasAuthenticated | driver/ap/ap_assoc.c:630-632 | An association is accepted only from a station whose standing was authenticated or associated |
| StationRuns.NewEntryRenews | driver/ap/ap_auth.c:590-627 | Only an answer that authenticates or challenges a station comes with a new entry for it |
| StationRuns.AuthMeans | driver/ap/ap_auth.c:590-608 | A standing above the lowest goes back to a success answer since which the station never left the table nor got a new entry |
| StationRuns.AssocMeans | driver/ap/ap_assoc.c:116-133 | An associated standing goes back to a successful authentication and a later accepted association, in the same entry ever since |
| StationSafety.SenderGateIff | driver/tx_rx/wdev_rx.c:2801-2895 | Whatever slot the hardware names, for every sender but the zero address, in runs with honest confirmations: data is accepted exactly when nothing is banned and the sender is associated in the table, any other sender is out of the table afterwards; only a named slot that still carries the address from an admission turned away refuses and changes nothing |
| StationSafety.OnlyToDs | driver/tx_rx/wdev_rx.c:2840-2895 | Data frames that do not go from a station to the access point are dropped and change nothing |
| StationSafety.ShadowMeans | driver/mgmt/mgmt_entrytb.c:820-832 | A slot nobody holds carries a non-zero address only from an admission turned away at its BSS's limit, and is never associated |
| StationSafety.DataGate | driver/ap/ap_data.c:4322-4349 | In a disciplined run the same with the standing that the answers sent give the sender |
| StationSafety.SlotStateIff | driver/mgmt/mgmt_entrytb.c:1374-1377 | After any run with honest confirmations, the state in a slot is associated exactly when its holder, or its last holder, stood associated then or left by a weak association request, and no admission or confirmation wrote it since; slot 0, the multicast entry, from the start until written |
| StationSafety.ZeroGateIff | driver/tx_rx/wdev_rx.c:2803-2816 | Under the zero address, which every freed slot carries: a named slot nobody holds lets data through exactly when it was left associated; in all other cases a station of that address decides |
| StationSafety.StaleSlotAccepts | driver/tx_rx/wdev_rx.c:2803-2816 | A step that shows it: after the station of an associated slot aged out, that station is refused through the slot, the zero address is not |
| StationPort.StepPort | driver/ap/ap_assoc.c:184-192 | What any step does to any port: opened by the handshake, closed by the authenticator, closed with a new entry; an accepted association opens it at a BSS without WPA mode and 802.1X, leaves it alone without a security element at a WPA BSS under hostapd, and else closes it |
| StationPort.PortShowsKeys | driver/ap/ap_assoc.c:674-748 | In every disciplined run the port of a station that needs keys is open exactly when its handshake succeeded since it came or was last associated and stands, or when it was associated past an open port since |
| StationPort.SendGate | driver/ap/ap_data.c:245-259 | To such a station EAPOL and WAI packets always pass, all others exactly when it is keyed or was associated past its open port |
| StationPort.FreeGate | driver/ap/ap_data.c:245-259 | To a station of a BSS without WPA mode and 802.1X everything passes exactly when it was associated, or reported keyed, since it came and since its authorization was last withdrawn; before that not even EAPOL packets do |
| StationPort.BypassedIsNotKeyed | driver/ap/ap_assoc.c:741-744 | Never both: what such an association leaves open is open without keys |
| StationPort.GateHoldsIff | driver/ap/ap_assoc.c:674-748 | All along a run payload goes out exactly to keyed stations, if and only if no keyed station is ever associated again without a security element at a WPA BSS under hostapd |
| StationPort.GateHoldsWithElements | driver/ap/ap_assoc.c:674-748 | In every disciplined run in which all association requests carry a security element, payload goes out exactly to keyed stations |
| StationPort.BypassRun | driver/ap/ap_assoc.c:741-744 | A run where it is: authentication, association, handshake, and an association without the element |
| StationPort.NotKeyedBefore | driver/ap/ap_assoc.c:184-192 | After an accepted association only the station's own handshake makes it keyed, whatever else happens |
| StationPort.PassesBeforeHandshakeIff | driver/ap/ap_data.c:245-259 | Between an accepted association of a station and its own handshake, in every interleaving: payload passes to it at some point exactly when that association left an open port open |
| SharedKey.AuxIsLastChallenge | driver/ap/ap_auth.c:624-634 | The remembered challenge is the one issued last: the late comer wins |
| SharedKey.ConfirmedIff | driver/ap/ap_auth.c:705-823 | A confirmation through the sender's slot succeeds exactly when it is protected, is for the sender's own BSS and returns the challenge issued last, to its own sender; else the sender is out of the table; for a BSS that is missing or down nothing happens |
| SharedKey.ConfirmMarksSenderIff | driver/ap/ap_auth.c:726-793 | A successful confirmation newly marks its sender exactly when the slot the hardware names holds the sender, unmarked; whoever holds that slot is marked |
| SharedKey.KeyShowsMarked | driver/ap/ap_auth.c:726-793 | In any run at all a station is marked exactly when the last authentication through its slot was a confirmation, whoever sent it |
| SharedKey.MarksAgreeIff | driver/ap/ap_auth.c:726-793 | In any run at all the marked stations are, all along, those that proved themselves, exactly when no confirmation was misdirected: through another's slot, where that marks somebody unproven or leaves its sender unmarked |
| SharedKey.KeyAuthenticatedIffProven | driver/ap/ap_auth.c:782-793 | Where the hardware names the right slots, any station is marked exactly when its last authentication was a protected return of the challenge issued last, to itself |
| SharedKey.EveryRunIsSharedOk | driver/ap/ap_auth.c:590-642 | In any run at all, whatever slots the hardware names: a station of a shared-key BSS stands above the lowest state only through a confirmation |
| SharedKey.SharedMeansProven | driver/ap/ap_auth.c:617-634 | Where it names the right slots, every station authenticated or associated at a shared-key BSS proved itself there by a protected return of the challenge issued last, to itself |
| SharedKey.ShareRun | driver/ap/ap_auth.c:617-793 | A run that gets there: challenge, confirmation and association end associated, and proven |
| Tim.FindSpan | driver/ap/ap_connect.c:922-944 | The loop finds the first and last byte in use as the specification's scan does, 0 doubling as unset |
| Tim.UpdateTim | driver/ap/ap_connect.c:911-958 | Exactly the element is written into the beacon at its place, the rest of the buffer is unchanged |
| Tim.DecodeElement | driver/ap/ap_connect.c:946-955 | The standard's reading of the element gives back the DTIM count, the DTIM period, the group bit, the even offset and the bytes sent |
| Tim.SentIsShortest | driver/ap/ap_connect.c:922-951 | No shorter part of the map would do: it ends with a byte in use, and begins with byte 0 or within two bytes of one in use |
| Tim.SentFromIff | driver/ap/ap_connect.c:938-948 | With station bits in byte 0, the map is sent from a later byte exactly when byte 1 is empty and a byte from 2 on is not |
| Tim.AnnouncedIs | driver/ap/ap_connect.c:911-958 | What is announced for any association ID: its stored bit, unless it is below 8 and byte 0 is dropped |
| Tim.MapArrivesIff | driver/ap/ap_connect.c:911-958 | All stored bits arrive exactly when byte 0 is not dropped; from ID 8 on they always do |
| Tim.GroupBit | driver/ap/ap_connect.c:953-955 | The group bit is announced only in a DTIM beacon and then as stored; the offset is even |
| EdcaElement.EdcaParm.Fill | driver/ap/ap_connect.c:1415-1446 | The 26 bytes written are the element of the parameters |
| EdcaElement.EdcaParm.TakeElement | driver/ap/ap_apcli.c:1518-1538 | One element updates the parameters as specified, indexed by the category it names |
| EdcaElement.EdcaParm.ParseElements | driver/ap/ap_apcli.c:1420-1545 | The element loop reads the message as the specified parse does, to the first element that does not fit |
| EdcaElement.UnpackPacked | driver/ap/ap_connect.c:1432-1440 | Each category's four octets give back its index and its fields clipped to their widths |
| EdcaElement.PackedBits | driver/ap/ap_connect.c:1432-1440 | Bit positions of the WMM specification: category, admission control and AIFSN in the first octet, ECWmin low and ECWmax high in the second, the TXOP limit low byte first |
| EdcaElement.ElementLayout | driver/ap/ap_connect.c:1415-1440 | Element ID, length, OUI, type, subtype and version, update count, U-APSD bit, and where the four categories stand |
| EdcaElement.TakeOctets | driver/ap/ap_apcli.c:1518-1538 | Reading the element overwrites all parameters with the sender's, clipped |
| EdcaElement.ParseIgnores | driver/ap/ap_apcli.c:1420-1545 | Other elements and a trailing incomplete one change nothing |
| EdcaElement.RoundTrip | driver/ap/ap_apcli.c:1420-1545 | Wherever the element sits in an element list, as the last of its kind, the sender's clipped parameters are read back |
| EdcaElement.RoundTripIff | driver/ap/ap_apcli.c:1420-1545 | The receiver has the sender's parameters exactly when each fits its field |
| LoadAlarm.PhyCtrl.LoadUpdate | driver/ap/ap_qload.c:573-761 | An update is the abstract step and raises an alarm exactly when that does |
| LoadAlarm.PhyCtrl.CountBusy | driver/ap/ap_qload.c:709-752 | The two counters after an update |
| LoadAlarm.PhyCtrl.UpdateTime | driver/ap/ap_qload.c:590-617 | Period and threshold are recomputed from the elapsed time, with the 32-bit wraps |
| LoadAlarm.PhyCtrl.Alarm | driver/ap/ap_qload.c:113-215 | An alarm suspends until resumed, unless the channel could be narrowed |
| LoadAlarm.PhyCtrl.SetTime | driver/ap/ap_qload.c:888-899 | A new percentage resets the alarm |
| LoadAlarm.NumWithinStreak | driver/ap/ap_qload.c:709-761 | Under any operations the busy count never exceeds the busy updates in a row |
| LoadAlarm.AlarmEndsStreak | driver/ap/ap_qload.c:709-761 | Under any operations an alarm ends a streak of at least max(1, threshold) busy updates |
| LoadAlarm.SteadyRunHoldsOff | driver/ap/ap_qload.c:709-761 | Between alarms the duration counter is the distance to the last alarm, then the busy count is bounded by the time since |
| LoadAlarm.AlarmsKeepDistance | driver/ap/ap_qload.c:735-752 | Without reset and with constant thresholds two alarms are at least 98 + max(1, threshold) effective updates apart, across suspend and resume |
| LoadAlarm.CountersMean | driver/ap/ap_qload.c:709-752 | Both counters as functions of the history of busy and idle updates |
| LoadAlarm.AlarmIff | driver/ap/ap_qload.c:709-752 | For every history: an alarm exactly when the last max(1, threshold) updates were busy and no alarm was raised in the 97 + max(1, threshold) updates before |
| AlarmHistory.CountersMean | driver/ap/ap_qload.c:320-355 | Both counters as functions of any history of updates, resets, cleared counts and switch-offs |
| AlarmHistory.AlarmIffDue | driver/ap/ap_qload.c:709-752 | For every such history: an alarm exactly when the last update is busy, no uncancelled alarm is within 98 updates, and the busy updates counted since the last break, modulo 256, reach the threshold |
| AlarmHistory.PlainDueIff | driver/ap/ap_qload.c:709-752 | With updates alone and a constant threshold that is the condition on the last updates of the plain law |
| AlarmHistory.ResetReopensIff | driver/ap/ap_qload.c:320-334 | A reset leaves the busy count: right after an alarm it lets the next busy update raise another, exactly unless that count wraps (or the threshold is zero) |
| AlarmHistory.AlarmsKeepDistance | driver/ap/ap_qload.c:735-752 | Two alarms with no reset or switch-off between them are at least 98 + max(1, threshold) updates apart, cleared counts and changed thresholds included |
| AlarmHistory.RaisesIffDue | driver/ap/ap_qload.c:573-761 | In any run at all an effective update raises an alarm exactly when its history makes one due |
| AlarmPercentage.PercentageIff | driver/ap/ap_qload.c:234-243 | The 32-bit busy threshold is the percentage of the period in microseconds exactly below a product of 419430400 |
| AlarmPercentage.ThresholdIs | driver/ap/ap_qload.c:590-617 | In any run the threshold stands for the percentage set last of the period in force: the one measured last if it differed from the one before, or the beacon period since a reset, which does not forget the period measured |
| AlarmPercentage.CountsAsBusyIff | driver/ap/ap_qload.c:620-690 | Which updates count as busy, exactly: those whose busy time on the primary channel, or on a wide channel the secondary, reaches that percentage in whole time units |
| AlarmPercentage.SuspensionIs | driver/ap/ap_qload.c:113-215 | In any run the first alarm on a wide channel narrows it and is reported until taken, cleared or switched off; every other one suspends the counting until a channel switch or a reset |
| AlarmPercentage.SilentWhileSuspended | driver/ap/ap_qload.c:573-590 | While it is suspended or switched off no update raises an alarm |
| Network.NetworkChanges | lib/network.py:29-64 | The generator yields the changes, in order, each with its undo, whose joint meaning the laws of `Running` state |
| Network.ForwardingPolicy | lib/network.py:38-64 | First match over the rules in place: replies and proxy traffic pass, private destinations pass, public ones are refused (or all pass in bypass mode), every other packet fares as before |
| Network.NoPublicLeakIff | lib/network.py:41-56 | Through the proxy no client packet reaches a public address over the uplink exactly when the tunnel is not the uplink |
| Hotspot.Worker.Make | lib/hotspot.py:53-57 | The undo command is recorded whether or not the command takes effect |
| Hotspot.Worker.UndoAll | lib/hotspot.py:189-194 | The recorded commands run in reverse |
| Hotspot.Worker.Run | lib/hotspot.py:117-194 | A start that ends at any point, then the teardown, is the specified final state |
| Hotspot.ReverseStep | lib/hotspot.py:53-57 | Each undo command takes its own change back exactly, in the states the checks allow |
| Hotspot.UndoneApplied | lib/hotspot.py:189-194 | Undoing any number of changes in reverse restores the state exactly |
| Hotspot.CleanFailure | lib/hotspot.py:53-57 | After a failure without effect all that remains is what the failed change's own undo did to the initial state |
| Hotspot.RestoredIff | lib/hotspot.py:189-194 | However a start ends, everything is restored exactly unless a tagged proxy rule, or the very rule whose insertion failed, was there before |
| Hotspot.PlanIndependent | lib/network.py:29-64 | The hotspot's own changes are pairwise about different things, given that tunnel and uplink differ |
| Hotspot.EveryEndingRestores | lib/hotspot.py:69-78 | With the start checks passed and no rules of an earlier hotspot left, every ending restores the host exactly |
| Hotspot.StartedPolicy | lib/network.py:57-64 | While the hotspot runs its forwarding chain means the policy on top of what was there |
| Running.StartedState | lib/hotspot.py:117-187 | The host after a whole start, apart from the forwarding chain of IPv4: unmanaged interface, address, proxy exception, two routing rules at most, and one rule in front of the IPv6 and masquerading chains |
| Running.Ipv6Means | lib/network.py:53-56 | Without the bypass every IPv6 packet that comes from the hotspot interface is rejected; every other packet fares as before |
| Running.MasqueradeMeans | lib/network.py:60-64 | Packets from the subnet that leave over the uplink are masqueraded; every other packet fares as before |
| Running.RoutingMeans | lib/network.py:32-37 | With the bypass the main table routes the clients' packets, and packets to the clients always, unless a rule of a lower or the same priority number already applied; every other packet is routed as before |

## Left out

- Registers, DMA rings, USB, timers, wireless events, debug output and the sending of frames: hardware and OS effects.
- Spin locks and preemption: each locked region and the whole of `ApCliIfDown` is one step.
- P2P, Mesh, WAPI, 802.11r, WPS, Hotspot 2.0, WDS, VHT and beamforming branches: optional features, most of them switched off in the build configuration, that multiply cases without new structure.
- Protected management frames: the stations modelled have not negotiated them; an entry that has, with a secured port, ignores a new authentication and association.
- The driver's own key handshake and the one in hostapd: either is the event that it succeeded, and the withdrawal of an authorization another. A station's own request for a new pairwise key (an EAPOL-Key request without the error bit) also closes the port, as that event does, but marks the entry associated besides; that mark is not modelled.
- Slot 0, the multicast entry: a confirmation may write its state as the handler does, but a removal that names it leaves it in place here.
- EAPOL frames inside an A-MSDU in station mode, and what becomes of the frames passed up: the access-point side is modelled, up to the copy it makes.
- RSN element validation, rate and HT negotiation: an association request carries the verdict as an input.
- Software encryption and the TKIP MIC in fragmentation: the frames modelled have neither.
- The per-BSS station counter: whether a BSS is at its limit is an input of the authentication step.
- The hash chains of the station table: lookup is modelled as the search they implement; the chains themselves are proved for the repeater tables.
- Station-table entries of other kinds (AP client, WDS): only client entries are modelled.
- The timers that decide when maintenance removes a station: such a removal can happen at any point of a run.
- `SelectClearChannelCCA`'s own dirtiness loop, which differs from `ACS_UpdateDirtinessAll` in constants: channel selection takes the measured dirtiness as input, so its theorems hold for all values.
- Channel selection by busy time, by access-point count and at random: simpler variants of the loops modelled.
- Busy-time statistics and the channel utilization value of the load element: bookkeeping beside the alarm.
- ACM and U-APSD negotiation around the WMM element: its capability bit is carried along, nothing else.
- ExclusionTable.ExclusionTable.Insert: with all 32 slots taken and fewer than 32 counted, the driver would link the last slot again; here nothing changes, and `NeverExhausted` shows that state does not arise.
- Starting and stopping hostapd and dnsmasq, files and status reports of the hotspot: process plumbing.
- Undo commands that time out: they are taken to succeed or to find nothing.
