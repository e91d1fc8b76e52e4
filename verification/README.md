# SplitWire dataplane, modelled and proved

SplitWire captures packets, puts fragments together, decides per flow whether a packet goes DIRECT
or into a WireGuard tunnel, translates addresses and ports, cuts packets to the tunnel's MTU and
sends them. This project models that userspace dataplane in Dafny 4.11 and proves what it promises:
the fragmenter and the reassembler are inverse to each other under every arrival order, the replay
window is a set, the two NAT tables are inverse on every run, a flow keeps its route, bulk traffic
is not starved, and the indexes and parsers agree with their simple definitions.

`dafny verify dfyconfig.toml` checks everything.

## How the project is laid out

| module | models |
|---|---|
| `Bytes`, `Pieces`, `Checksum` | big-endian fields, overlap and coverage of fragment pieces, the header checksum |
| `Reassembly` | one arrival or sweep as a step on a table, and what every run keeps |
| `ReassemblyTable` | the mutable table with its loops, proved against that step |
| `Delivery` | a chain of cuts delivered in any permutation among other traffic |
| `Chains` | IPv6 extension header chains, said of the bytes alone |
| `IPv4`, `IPv6` | classification, rebuilding and fragmenting for each family |
| `IPv4RoundTrip`, `IPv6RoundTrip` | fragment, deliver in any order, reassemble |
| `Replay`, `Transport` | the 2048-entry ring bitmap; sessions, senders, readers, rekeys and the reaper |
| `Packet`, `Nat`, `NatMapper` | parsing and in-place rewriting; the NAT tables as a value and as shared objects |
| `Routing`, `RouteTables` | the capture loop as a state machine; the route tables and the loop's switch as its steps |
| `Scheduler`, `Segmentation` | send loop, MTU handling |
| `TlsHello`, `Discovery`, `DnsName` | server name extraction, stream following, name decompression |
| `Tracker`, `Policy`, `FlowIndex`, `LogRing` | learned addresses, the application index, socket ownership, the log ring |

Code that changes things in place is a class or a method with loops, proved against a function of the
old state; concurrent code is a state machine whose atomic steps are the source's critical sections.
Times are parameters, so a proof holds for every clock unless it names a condition on it. Map iteration
is any order.

## Where the plain expectation fails, and when exactly it holds

* **Counters near 2^64.** The replay test adds 2048 with wrap-around, so it is stricter than the
  documented rule for the last 2048 counters. `Replay.WrapIsTheOnlyDifference` gives the exact set of
  refused counters and `Replay.LastCounterTurnedAway` an instance.
* **IPv4 datagrams above 65535 bytes.** The fragmenter falls back to the buffer length when Total Length
  is zero and can then cut a datagram that no receiver can rebuild; `IPv4RoundTrip.LongerIsCut` is one of
  65536 bytes. `IPv4RoundTrip.ComesBackExactlyIfItFits`: the datagram comes back if and only if it is at most
  65535 bytes long.
* **Sequence wrap inside a retransmission.** The stream follower compares sequence numbers without
  wrap-around. `Discovery.OnTrackExactly`: while the answer is pending, it stays on track if and only if the
  overlap does not wrap or the segment repeats everything from the start. `Discovery.WrappedOverlapMisleads`
  is a stream on which it gives the wrong answer.
* **A proxy route set late.** `Routing.LateProxyRouteDissents` is a flow that goes DIRECT and then into the
  tunnel. `Routing.DissentsExactlyByProxy`: a packet is routed against its epoch if and only if the proxy table
  held the other choice when the packet was taken.
* **Seeding the log ring after a listener is set.** `LogRing.LateSeedIsSilent` is the missed wake-up.
  `LogRing.AnnouncedExactly`: news is announced throughout a run if and only if the ring is never seeded while
  somebody listens and no wake-up is under way.
* **Comment and code.** The comment above `SplitForMTU` (internal/packet/packet.go:353-357) says that oversized
  UDP is rejected by the WireGuard layer. `prepareTunnelPackets` fragments it, and the model follows the code.

## Model

| member | source | states |
|---|---|---|
| `Reassembly.RunKeepsInv` | internal/reassembly/ipv4.go:107-196 | After every run of arbitrary arrivals and sweeps: pieces of a datagram are pairwise disjoint, the byte counter equals the payload bytes held and is at most the limit, and there are at most the allowed number of entries. |
| `Reassembly.DropKeepsInv` | internal/reassembly/ipv4.go:179-187 | Dropping takes off exactly what the datagram held: the clamp at zero is never taken in a reachable table. |
| `Reassembly.RunExplained` | internal/reassembly/ipv4.go:107-140 | Every piece, header and final length of a live entry was delivered under its key by an arrival since that entry was created, the pieces by fragments whose header chain agrees with the entry's. |
| `Reassembly.OneEntrySince` | internal/reassembly/ipv4.go:109-118 | The creating arrival found no entry after sweeping, and the entry it made was neither dropped nor swept since. |
| `Reassembly.ReadyMeansComplete` | internal/reassembly/ipv4.go:119-177 | A packet comes out if and only if the arrival is admitted and completes its datagram, and then it is the build of header and assembled payload. |
| `Reassembly.AftermathExactly` | internal/reassembly/ipv4.go:111-177 | An arrival's own entry is there afterwards if and only if the answer is pending, extended by the fragment; it is refused at the door if and only if it is not admitted. |
| `Reassembly.OthersUntouched` | internal/reassembly/ipv4.go:111-177 | No arrival changes the entry of another key. |
| `Reassembly.SweptExactly` | internal/reassembly/ipv4.go:189-196 | A sweep keeps exactly the entries whose last fragment is not older than the lifetime. |
| `Reassembly.NothingStale` | internal/reassembly/ipv4.go:107-110 | After any arrival or sweep of any run, every other live entry got a fragment within one lifetime. |
| `Reassembly.OverlayIsFaithful` | internal/reassembly/ipv4.go:146-169 | Pieces that are disjoint, inside the payload and cover it tile it exactly; their lengths sum to its length and each byte is the byte of the one piece that covers it. |
| `Reassembly.ReadyIsExplained` | internal/reassembly/ipv4.go:65-177 | Over every run of arbitrary packets and sweeps, a ready packet is built from fragments delivered under its own key since its entry was created, and they tile the payload. |
| `Pieces.TilingIsExact` | internal/reassembly/ipv4.go:146-160 | For disjoint pieces within the payload, full coverage is the same as the weights adding up to the length. |
| `ReassemblyTable.Table.DropLocked` | internal/reassembly/ipv4.go:179-187 | The table becomes the one without the key and stays valid. |
| `ReassemblyTable.Table.SweepLocked` | internal/reassembly/ipv4.go:189-196 | Walked in any order, exactly the expired entries and their bytes go. |
| `ReassemblyTable.Table.AnyOverlap` | internal/reassembly/ipv4.go:120-125 | The loop answers whether some held piece overlaps the new one. |
| `ReassemblyTable.Table.Coverage` | internal/reassembly/ipv4.go:146-160 | The bitmap loops decide whether all pieces end within the payload and whether every byte of it is covered. |
| `ReassemblyTable.Table.Overlay` | internal/reassembly/ipv4.go:165-169 | Copying pieces in arrival order yields the assembled payload. |
| `ReassemblyTable.Table.Settled` | internal/reassembly/ipv4.go:143-177 | Pending, refusal or packet, and the table afterwards, as the step of the model decides. |
| `ReassemblyTable.Table.InsertLocked` | internal/reassembly/ipv4.go:111-177 | One arrival after the sweep: table full, clash, overlap, memory limit or admission. |
| `ReassemblyTable.Table.Push` | internal/reassembly/ipv4.go:105-177 | The locked part of PushInfo is one step of the model and keeps the invariant. |
| `ReassemblyTable.Table.Sweep` | internal/reassembly/ipv4.go:202-206 | A sweep is the sweep step of the model and keeps the invariant. |
| `Delivery.AnyOrder` | internal/reassembly/ipv4.go:65-177 | Consecutive cuts of a payload, each delivered once in any permutation among other keys and sweeps, with room and without timeout: every push but the last reports pending, and the last yields the packet, the largest fragment size and an empty slot. |
| `Delivery.LightIsUndisturbed` | internal/reassembly/ipv4.go:107-131 | The premise of the any-order theorem follows from the traffic alone: one lifetime, other keys for the others, and all arrivals together within the limits. |
| `IPv4.Reassembler.PushInfo` | internal/reassembly/ipv4.go:65-177 | Byte by byte: other versions pass as they are; a bad header or piece is refused; an unfragmented packet passes trimmed to its Total Length, or whole if that is 0 or too large; none of these touches the table. A fragment with the stated key, offset, header and payload takes one step. |
| `IPv4.ClassifyExactly` | internal/reassembly/ipv4.go:65-103 | What becomes of a packet before the lock, by its bytes alone. |
| `IPv4.RebuiltBytes` | internal/reassembly/ipv4.go:161-173 | The rebuilt packet byte by byte: length, only reserved and DF bits, zero checksum, all else from header and payload; it exists if and only if it is at most 65535 bytes long. |
| `IPv4.SecondHeaderOverlaps` | internal/reassembly/ipv4.go:119-138 | After any packets and sweeps, a second fragment at offset 0 is refused as overlapping, so a stored header is never replaced. |
| `IPv4.NextId` | internal/packet/packet.go:506-512 | The packet's own identification, or the low half of the counter advanced by one, or by two where one would give 0; never 0. |
| `IPv4.Fragment4` | internal/packet/packet.go:479-537 | Fragments if and only if the header is sound, the packet longer than the MTU, unfragmented and without DF; whole if and only if sound and not longer; then fragments and counter are those of the recursive definition. |
| `IPv4RoundTrip.PartsAreFamily` | internal/packet/packet.go:514-536 | The emitted packets are received as consecutive cuts under one key whose first header rebuilds the datagram, and none exceeds the MTU. |
| `IPv4RoundTrip.RoundTrip` | internal/packet/packet.go:479-537 | Pushing the fragments once each in any order reports not ready until the last, which yields the restored datagram. |
| `IPv4RoundTrip.RestoredDiffersLittle` | internal/reassembly/ipv4.go:165-173 | With a truthful length field the restored datagram differs from the original only in the zeroed checksum and, if it was 0, the identification. |
| `IPv4RoundTrip.NothingLongerComesOut` | internal/reassembly/ipv4.go:161-164 | No reassembled packet is longer than 65535 bytes. |
| `IPv4RoundTrip.LongerIsCut` | internal/packet/packet.go:487-490 | A buffer of 65536 bytes with Total Length zero that the fragmenter cuts. |
| `IPv4RoundTrip.ComesBackExactlyIfItFits` | internal/reassembly/ipv4.go:161-164 | The packets of one datagram, in any order into an empty table with room: the whole datagram comes back with the last one if and only if it is at most 65535 bytes long. |
| `IPv4RoundTrip.EmittedHeadersVerify` | internal/packet/packet.go:531-532 | The words of any emitted fragment's header, stored checksum included, sum to a multiple of 65535, so recomputing the checksum gives 0. |
| `Checksum.AddWords` | internal/packet/packet.go:539-546 | The 32-bit running sum does not overflow and is the sum of the 16-bit words. |
| `Checksum.Fold` | internal/packet/packet.go:547-549 | Folding terminates with the ones' complement value of the sum. |
| `Checksum.CarryKeepsFolded` | internal/packet/packet.go:547-549 | One end-around carry preserves the sum modulo 65535 and whether it is zero. |
| `Checksum.Compute` | internal/packet/packet.go:539-551 | The loops compute the complement of the folded sum. |
| `Checksum.StoredChecksumVerifies` | internal/packet/packet.go:531-532 | A header holding its own checksum sums to a multiple of 65535 and verifies to 0. |
| `Checksum.SumPut` | internal/packet/packet.go:541-543 | Replacing a 16-bit word changes the sum by exactly the difference of the two. |
| `IPv6.FindFragment` | internal/reassembly/ipv6.go:174-215 | The receiver's loop finds the Fragment header of the chain, or that there is none, or that the chain is broken. |
| `IPv6.FindInsertPoint` | internal/packet/packet.go:609-654 | The sender's loop finds the end of the unfragmentable part. |
| `IPv6.FindExactly` | internal/reassembly/ipv6.go:174-215 | The answer is what stands at the end of the chain of headers traced in the bytes: a Fragment header with the byte that names it, another header, or a break. |
| `IPv6.SpotAt` | internal/packet/packet.go:609-654 | A Fragment header goes in at the first header that is neither hop-by-hop, nor routing, nor destination options in front of a routing header. |
| `IPv6.SpotExactly` | internal/packet/packet.go:609-654 | There is an insert point if and only if the traced chain has such a header. |
| `Chains.EveryChainEnds` | internal/reassembly/ipv6.go:174-215 | Every packet has a complete trace, so the statements over traces cover all packets. |
| `IPv6.Reassembler.PushInfo` | internal/reassembly/ipv6.go:51-172 | Byte by byte, with the traced chain of headers: jumbograms, truncated packets, broken chains and bad pieces are refused, packets without a Fragment header pass trimmed, none of these touching the table; a fragment takes one step. |
| `IPv6.ClassifyAlong` | internal/reassembly/ipv6.go:51-96 | What becomes of a packet before the lock, by its bytes and traced chain alone. |
| `IPv6.OtherChainIsRefused` | internal/reassembly/ipv6.go:109-112 | A fragment is refused as inconsistent if and only if its Fragment header sits elsewhere or is named from elsewhere than in those held, which are dropped with it. |
| `IPv6.RebuiltBytes` | internal/reassembly/ipv6.go:152-171 | The rebuilt packet byte by byte, and that it exists if and only if its payload is at most 65535 bytes long. |
| `IPv6.Fragment6` | internal/packet/packet.go:656-718 | Fragments exactly when the chain has an insert point and no Fragment header and the payload share is at least 8. |
| `IPv6.FragmentableExactly` | internal/packet/packet.go:656-690 | Which packets are cut, by bytes and traced chain: truthfully longer than the MTU, a whole chain without a Fragment header, and room for eight bytes. |
| `IPv6RoundTrip.WalksAgree` | internal/reassembly/ipv6.go:174-215 | On an emitted fragment the receiver's walk stops at the very offset and previous-next-header byte the sender's different walk chose. |
| `IPv6RoundTrip.HeadRestores` | internal/reassembly/ipv6.go:152-171 | Every fragment's prefix, whatever its length field, rebuilds the original packet byte for byte. |
| `IPv6RoundTrip.PartsAreFamily` | internal/packet/packet.go:691-717 | The emitted packets are received as consecutive cuts under one key with agreeing heads. |
| `IPv6RoundTrip.RoundTrip` | internal/packet/packet.go:656-718 | In any order, the last fragment yields exactly the original packet up to its length, for every accepted extension chain. |
| `Replay.WrapIsTheOnlyDifference` | internal/wireguard/client.go:123-125 | The wrapping test agrees with the documented window rule except on an exactly described set within the last 2048 counters. |
| `Replay.LastCounterTurnedAway` | internal/wireguard/client.go:123-125 | A new largest counter that is refused. |
| `Replay.RunRemembers` | internal/wireguard/client.go:113-147 | After any run the window holds exactly the counters that were accepted. |
| `Replay.NeverTwice` | internal/wireguard/client.go:113-147 | No 64-bit counter is accepted twice, in any order of offers. |
| `Replay.AcceptedExactly` | internal/wireguard/client.go:113-147 | An offer is accepted if and only if no accepted counter equals it and, 2048 added modulo 2^64, it exceeds every accepted one. |
| `Replay.DocumentedExactly` | internal/wireguard/client.go:113-147 | Below 2^64 - 2048 that is the documented rule: first, or new and less than 2048 behind the largest accepted. |
| `Replay.Filter.ClearBetween` | internal/wireguard/client.go:133-136 | The wrapping loop terminates within 2047 steps and clears exactly the skipped counters. |
| `Replay.Filter.Slide` | internal/wireguard/client.go:126-139 | After moving up, every counter in the new window has its bit set exactly if it was accepted. |
| `Replay.Filter.Accept` | internal/wireguard/client.go:113-147 | The ring bitmap refines the set of accepted counters: verdict and new set are those of the specification. |
| `Transport.SessionUsable` | internal/wireguard/client.go:314-326 | Usable if and only if below the counter limit and younger than 170 s; due for rekey if and only if also 110 s old. |
| `Transport.TableSafe` | internal/wireguard/client.go:600-608 | Over all interleavings the current session is in the map under its index and is never reaped, and every other mapped session is retired. |
| `Transport.CountersSafe` | internal/wireguard/client.go:276-312 | Over all interleavings the messages a session sealed carry each counter below its send counter exactly once, and counters stay below 2^60 plus the number of senders. |
| `Transport.DeliverySafe` | internal/wireguard/client.go:645-695 | Over all interleavings each counter of a session is delivered at most once, only authentic ones are, and a window holds exactly the counters that were delivered. |
| `Transport.SendGoesOut` | internal/wireguard/client.go:276-326 | A sender that reads the current session and finds it usable seals exactly one message under the next counter, whatever others do in between; otherwise none. |
| `Transport.ReceivedGetsThrough` | internal/wireguard/client.go:645-695 | An authentic message is passed up exactly if the window then takes its counter, whatever others do in between; a forged one changes nothing. |
| `Transport.InstalledIsCurrent` | internal/wireguard/client.go:600-608 | A new session is current, mapped, fresh, and the previous one is retired. |
| `Transport.ReapsExactly` | internal/wireguard/client.go:725-744 | Exactly the sessions that are not current and were retired more than three minutes ago go. |
| `Packet.WalkChain` | internal/packet/packet.go:71-103 | The loop over extension headers stops at the transport header, a Fragment header or an error. |
| `Packet.ParsesExactly4` | internal/packet/packet.go:40-58 | An IPv4 packet parses, field by field, if and only if its header is whole and it is no fragment. |
| `Packet.ParsesExactly6` | internal/packet/packet.go:60-103 | An IPv6 packet parses, field by field, to what stands at the end of its traced chain. |
| `Packet.UnmapExactly` | internal/engine/proxyroute.go:32-34 | Exactly the IPv4-mapped form becomes the IPv4 address. |
| `Packet.ParseWithSrc` | internal/packet/packet.go:111-126 | Rewriting the source address changes nothing but the parsed source. |
| `Packet.ParseWithDst` | internal/packet/packet.go:156-171 | Rewriting the destination address changes nothing but the parsed destination. |
| `Packet.ParseWithPort` | internal/packet/packet.go:128-154 | Rewriting a port changes nothing but that parsed port. |
| `Packet.RewriteAddr` | internal/packet/packet.go:111-171 | In place: the address bytes or nothing, and nothing unless the packet parses and the family fits. |
| `Packet.RewritePort` | internal/packet/packet.go:128-154 | In place: the two port bytes or nothing. |
| `Packet.RewrittenParses` | internal/packet/packet.go:111-171 | Rewriting address and port on one side changes nothing but those two parsed fields. |
| `Packet.RewrittenKeepsRest` | internal/packet/packet.go:111-171 | No byte outside that address and port changes. |
| `Nat.ProbeFinds` | internal/nat/nat.go:65-75 | Probing n ports fails exactly if all n are taken, and otherwise stops at the first free one with the cursor just past it. |
| `Nat.AllocatorIsComplete` | internal/nat/nat.go:61-80 | The flow's own port if it is free, otherwise the first free pool port from the cursor on; failure if and only if own port and all 21000 pool ports are taken, with the cursor where it was. |
| `Nat.OutboundExactly` | internal/nat/nat.go:57-88 | A known flow keeps its port, a new one gets a free one unless all are taken; it is filed with that port, meta and time, and no other flow changes. |
| `Nat.OwnerExactly` | internal/nat/nat.go:109-119 | A reply tuple is owned by exactly the live flow that expects it. |
| `Nat.RecencyExactly` | internal/nat/nat.go:84-148 | Packets in either direction make their flow recent and no other; a sweep takes exactly the flows with none since the cut. |
| `Nat.StepKeepsInv` | internal/nat/nat.go:42-148 | No packet or sweep makes two live flows share a reply tuple. |
| `Nat.PortIsStable` | internal/nat/nat.go:84-87 | A live flow keeps its port, and only its own packets change its meta. |
| `Nat.ReplyFindsItsFlow` | internal/nat/nat.go:101-132 | Whatever other flows did since, the reply tuple of a translated flow is owned by that flow with its latest meta. |
| `NatMapper.InsertKeepsInverse` | internal/nat/nat.go:81-83 | Filing a free tuple keeps the two tables mutually inverse. |
| `NatMapper.DropKeepsInverse` | internal/nat/nat.go:134-148 | Removing a flow with its tuple keeps them so. |
| `NatMapper.Mapper.AllocatePort` | internal/nat/nat.go:61-80 | The loop over the cursor gives the allocator's port and cursor. |
| `NatMapper.Mapper.Insert` | internal/nat/nat.go:81-83 | One new shared object under flow and tuple; all others untouched. |
| `NatMapper.Mapper.Touch` | internal/nat/nat.go:84-87 | Refreshing through either table is seen through both, and by no other flow. |
| `NatMapper.Mapper.Translate` | internal/nat/nat.go:57-88 | State and port are those of the specification. |
| `NatMapper.Mapper.Restore` | internal/nat/nat.go:109-122 | Finds the owning flow of a reply tuple, or nothing, and only marks it as seen. |
| `NatMapper.Mapper.Sweep` | internal/nat/nat.go:134-148 | Walked in any order, exactly the old flows leave both tables. |
| `NatMapper.Mapper.PrepareOutbound` | internal/nat/nat.go:42-99 | The resulting bytes exactly, for every packet. A TCP or UDP packet with both ports leaves with the tunnel's IPv4 address if it is version 4 and its IPv6 address if it is version 6, and the flow's port; anything that cannot be translated is refused and untouched. |
| `NatMapper.Mapper.RestoreInbound` | internal/nat/nat.go:101-132 | The resulting bytes and result exactly, for every packet; with both ports it parses as the same packet to the owner's own address and port, and its meta is returned. |
| `NatMapper.AnswerComesBack` | internal/nat/nat.go:42-132 | From packet to packet: an answer to a translated packet, sent to the tunnel's address of that family, is owned by that packet's flow, whatever happened meanwhile. |
| `Scheduler.RunConserves` | internal/engine/engine_windows.go:577-612 | Under any arrivals, what was sent and then what is queued is exactly what arrived, per class and in order. |
| `Scheduler.BlocksOnlyWhenIdle` | internal/engine/engine_windows.go:603-610 | A turn changes nothing if and only if the loop waits with both queues empty. |
| `Scheduler.Budget` | internal/engine/engine_windows.go:577-612 | Urgent sends and turns before a queued bulk packet come out of a fixed budget. |
| `Scheduler.BulkIsNotStarved` | internal/engine/engine_windows.go:577-612 | A bulk packet with k ahead of it sees at most 9 + 8k urgent packets go first. |
| `Scheduler.BulkIsSentInTime` | internal/engine/engine_windows.go:577-612 | It is sent within 10 + 9k turns, whatever arrives. |
| `Scheduler.UrgentComesFirst` | internal/engine/engine_windows.go:577-612 | An urgent packet with k ahead of it sees at most 1 + k/8 bulk packets go first. |
| `Scheduler.UrgentIsSentInTime` | internal/engine/engine_windows.go:577-612 | It is sent within 3 + k + k/4 turns, whatever arrives. |
| `Scheduler.NineIsReached` | internal/engine/engine_windows.go:577-612 | The bound 9 is met by a run from the empty state. |
| `RouteTables.Router.SweepRoutes` | internal/engine/flowroute.go:45-54 | In any order, exactly the old entries go, as that many removal steps of the state machine. |
| `RouteTables.Router.SweepProxies` | internal/engine/proxyroute.go:72-81 | In any order, exactly the old entries go, as that many removal steps of the state machine. |
| `RouteTables.Router.TakePacket` | internal/engine/engine_windows.go:411-412 | Looking a captured packet up in the mutable proxy table is the Take step. |
| `RouteTables.Router.LookUpRoute` | internal/engine/engine_windows.go:413 | Looking its flow up in the mutable route table is the LookUp step. |
| `RouteTables.Router.Choose` | internal/engine/engine_windows.go:418-449 | The switch over proxy route, sticky route and policy with its Set calls is the Decide step. |
| `RouteTables.Router.Dispatch` | internal/engine/engine_windows.go:465-499 | Resetting the flow or sending the packet is the Finish step, and what is sent is what is recorded. |
| `RouteTables.Router.Register` | internal/engine/proxyroute.go:36-44 | Setting a proxy route under its unmapped key is the SetProxy step; an incomplete key is no step. |
| `RouteTables.Router.Unregister` | internal/engine/proxyroute.go:65-70 | Closing a proxied connection is the RemoveProxy step. |
| `RouteTables.Router.DeleteRoute` | internal/engine/flowroute.go:44 | Deleting a route is the RemoveRoute step. |
| `RouteTables.RegisteredIsFound` | internal/engine/proxyroute.go:32-56 | A registered proxy route is found by exactly the flows with its protocol, ports and unmapped remote address. |
| `Routing.RunIsSticky` | internal/engine/engine_windows.go:411-499 | With proxy and route tables changed by others between any two steps, live entries, packets in hand and records all follow the choice that opened their epoch. |
| `Routing.OneChoicePerEpoch` | internal/engine/engine_windows.go:411-499 | Between two removals of a flow's entry, all its packets that no proxy route decides get one choice. |
| `Routing.OriginCameFrom` | internal/engine/engine_windows.go:418-445 | Every epoch was opened by a decision on a packet of its flow, with the proxy route's choice if the proxy table had one and otherwise with exactly what the policy then said. |
| `Routing.PacketFate` | internal/engine/engine_windows.go:411-499 | The fate of one packet under any interference: proxy route, else live entry, else policy decides; it is recorded with that choice unless one of the two resets applies, and then the entry is gone. |
| `Routing.DissentsExactlyByProxy` | internal/engine/engine_windows.go:412-424 | Every record comes from one packet, and it goes against the choice that opened its epoch if and only if the proxy table held the other choice for the flow when that packet was taken. |
| `Routing.RecordCameFrom` | internal/engine/engine_windows.go:411-499 | A record was decided by a proxy route exactly if the proxy table had one for the flow when its packet was taken, and with that choice. |
| `Routing.ProxyChoiceOutlivesItsRoute` | internal/engine/proxyroute.go:36-70 | Whatever happened before, once the proxy table holds nothing but one choice for a flow and is not set otherwise, every later packet of an epoch with that choice, or of one a proxy route then opens, gets it, also after the route is removed. |
| `Routing.LateProxyRouteDissents` | internal/engine/engine_windows.go:412-424 | A flow that is split by a proxy route set after its first packet. |
| `Routing.TunnelledTcpStartsWithSyn` | internal/engine/engine_windows.go:491-499 | A TCP packet tunnelled by policy belongs to an epoch opened by a SYN or by a proxy route. |
| `TlsHello.ParseServerName` | internal/tlshello/sni.go:18-57 | The record loop gives the verdict of the recursive definition. |
| `TlsHello.ParseClientHello` | internal/tlshello/sni.go:59-141 | The body parser gives the verdict of the recursive definition. |
| `TlsHello.FindExtension` | internal/tlshello/sni.go:94-141 | The first server_name extension decides; a truncated one is malformed. |
| `TlsHello.VerdictIsStable` | internal/tlshello/sni.go:18-57 | A final verdict on a prefix is the verdict on every extension of it. |
| `TlsHello.BodyFindsHost` | internal/tlshello/sni.go:59-141 | Every proper ClientHello body, with any other extensions around the name and other entries in front of it, yields its host name. |
| `TlsHello.NamelessBody` | internal/tlshello/sni.go:94-141 | A ClientHello without a server_name extension, or without extensions, names no host and is still one. |
| `TlsHello.BodyOf` | internal/tlshello/sni.go:59-106 | After a well-shaped fixed part: nothing names no host, a block that claims too much is malformed, otherwise its extensions decide. |
| `TlsHello.BodyHasShape` | internal/tlshello/sni.go:59-93 | Every body that is not malformed has the shape of a ClientHello, with a non-empty even cipher suite list. |
| `TlsHello.ExtensionsBreak` | internal/tlshello/sni.go:106-113 | An extension that claims too much is malformed wherever it stands; a remainder of fewer than four bytes is ignored. |
| `TlsHello.TooLongIsMalformed` | internal/tlshello/sni.go:33-36 | A record over 32 KiB or a message over 1 MiB is malformed at once. |
| `TlsHello.CanonicalMeans` | internal/tlshello/sni.go:131 | One trailing dot dropped, capital letters made small, all else unchanged. |
| `TlsHello.ServerNameReads` | internal/tlshello/sni.go:18-57 | A handshake message cut into records in any way, other records in between, gets the verdict on its body if it is a ClientHello and is none otherwise. |
| `TlsHello.ServerNameFindsHost` | internal/tlshello/sni.go:18-57 | So does every cut of the message into records, followed by anything. |
| `Discovery.Discovery.FeedTLS` | internal/browserdisc/discovery.go:51-104 | Feeds the stream of the packet's flow, starting over after its lifetime; packets without payload change nothing. |
| `Discovery.ChunkingDoesNotMatter` | internal/browserdisc/discovery.go:51-104 | For any gap-free segmentation up to 64 KiB with consistent retransmissions that keep the follower on track, each answer is the verdict on the bytes seen so far. |
| `Discovery.HelloIsDiscovered` | internal/browserdisc/discovery.go:51-104 | Any proper ClientHello, cut into records and segments in any way, is recognised once its last byte is there. |
| `Discovery.FeedIsBounded` | internal/browserdisc/discovery.go:64-89 | The buffer never exceeds 64 KiB, a verdict is final, a stream that would outgrow the buffer is given up, and after a gap gathering starts over. |
| `Discovery.WrappedOverlapStartsOver` | internal/browserdisc/discovery.go:73-84 | An overlap that wraps is taken for a gap. |
| `Discovery.OnTrackExactly` | internal/browserdisc/discovery.go:67-97 | While the answer is pending, the follower stands for all bytes seen if and only if the overlap does not wrap or the segment repeats everything from the start. |
| `Discovery.WrappedOverlapMisleads` | internal/browserdisc/discovery.go:73-84 | A five-byte stream in two segments: the record is malformed and the follower asks for more. |
| `DnsName.ReadName` | internal/domain/dns.go:114-166 | Terminates on every message with the result of the recursive definition. |
| `DnsName.SpelledDecodes` | internal/domain/dns.go:114-166 | A name spelled with at most 16 pointer hops decodes to its dotted form, with next just past the first pointer or root byte. |
| `DnsName.DecodesExactlyWhatIsSpelled` | internal/domain/dns.go:114-166 | Decoding succeeds if and only if some spelling with at most 16 hops starts there. |
| `DnsName.CompressionIsTransparent` | internal/domain/dns.go:114-166 | A compressed name and the same labels written out decode to the same text. |
| `DnsName.CompressedDecodes` | internal/domain/dns.go:114-166 | Labels followed by the two bytes of a pointer to where the rest is spelled decode to the whole name, with next just past the pointer. |
| `DnsName.DottedSplits` | internal/domain/dns.go:156-159 | Splitting the dotted form at its dots gives the labels back. |
| `Segmentation.Inner` | internal/packet/packet.go:409-412 | Clears FIN, PSH and CWR and keeps the other five flags. |
| `Segmentation.SplitForMTU` | internal/packet/packet.go:358-432 | Fails, passes on or cuts, and for exactly which packets, field by field. |
| `Segmentation.StreamSurvives` | internal/packet/packet.go:393-431 | Payloads join up to the original; each segment parses to the same endpoints with sequence number base plus offset modulo 2^32, FIN, PSH and CWR only on the last, length field true, and every other header byte unchanged. |
| `Segmentation.FragmentForMTU` | internal/packet/packet.go:459-477 | Cuts exactly what the family's fragmenter accepts, into its fragments, each within the MTU; the identification counter moves exactly then. |
| `Segmentation.PrepareTunnelPackets` | internal/engine/engine_windows.go:330-364 | For every MTU the configuration admits, nothing handed on exceeds it, and it is the checksummed packet, its segments or its fragments; when exactly it fails; and the identification counter. |
| `Tracker.ClampTtl` | internal/domain/tracker.go:60-68 | A lifetime below 10 s becomes 10 s, one above 24 h becomes 24 h, others stay. |
| `Tracker.Tracker.AddGroups` | internal/domain/tracker.go:70-91 | The event joins the history, and every valid group is noted with the later of two expiries. |
| `Tracker.Tracker.ContainsGroup` | internal/domain/tracker.go:99-107 | True if and only if the group is configured and some earlier AddGroups taught the address with a clamped expiry still ahead. |
| `Tracker.Tracker.Sweep` | internal/domain/tracker.go:124-138 | In any order, expired entries and then empty addresses go, and the cache is still what its history makes of it. |
| `Tracker.SweepIsUnobservable` | internal/domain/tracker.go:124-138 | No answer from the sweep's time on changes. |
| `Tracker.CacheIsItsHistory` | internal/domain/tracker.go:60-138 | An address is in a group if and only if some earlier event taught it with a clamped expiry still ahead. |
| `Policy.Compile` | internal/policy/policy.go:52-70 | Each group is filed under exactly the keys it lists, or as global, in the order of the configuration. |
| `Policy.DecideIds` | internal/policy/policy.go:88-97 | The first candidate whose destination matches. |
| `Policy.IndexedEqualsScan` | internal/policy/policy.go:52-109 | The indexed decision tunnels if and only if a scan of all groups finds one for process and destination. |
| `Policy.Engine.Decide` | internal/policy/policy.go:99-109 | Tunnels if and only if the scan does, and names the first group that selects the process in the strongest way: for all applications, else by name, else by path. |
| `Policy.WinnerIsNamed` | internal/policy/policy.go:88-109 | The name in the decision is that of the least candidate of the first kind that has one. |
| `Policy.InNetExactly` | internal/policy/policy.go:80-84 | A network holds exactly the addresses of its family with its whole leading bytes and remaining leading bits. |
| `Policy.Engine.CouldTunnelWithoutProcess` | internal/policy/policy.go:140-149 | True if and only if a group for all applications takes the destination; then every process gets the same decision. |
| `Policy.DecisionFollowsHistory` | internal/policy/policy.go:76-109 | The decision is a scan of the groups and of the learning history. |
| `FlowIndex.MirrorsAdd` | internal/flow/index.go:124-149 | Adding keeps the second index an exact view of the first. |
| `FlowIndex.MirrorsRemove` | internal/flow/index.go:169-177 | Removing does too, and leaves no empty bucket. |
| `FlowIndex.Index.AddSocket` | internal/flow/index.go:124-149 | Files the endpoint, also when it was filed under another key. |
| `FlowIndex.Index.DeleteSocket` | internal/flow/index.go:179-188 | Removes that endpoint from both indexes and nothing else. |
| `FlowIndex.Index.FindNewest` | internal/flow/index.go:197-206 | An entry of the bucket with maximal time, walked in any order. |
| `FlowIndex.Index.Lookup` | internal/flow/index.go:208-231 | The first source in the stated priority that knows the flow. |
| `FlowIndex.ServesExactly` | internal/flow/index.go:79-84 | A socket serves exactly the flows of its protocol and port from its unmapped address, or from any if bound to none. |
| `FlowIndex.CloseLeavesOtherAnswers` | internal/flow/index.go:179-231 | Closing one endpoint never takes away an answer another gives. |
| `LogRing.LogRing.AppendHistory` | internal/loghub/loghub.go:132-143 | The history is the last maxBytes bytes of old history plus new text. |
| `LogRing.LogRing.Write` | internal/loghub/loghub.go:106-130 | Delta or resynchronisation, and whether to wake. |
| `LogRing.LogRing.SetNotify` | internal/loghub/loghub.go:93-104 | Wakes if news is already there. |
| `LogRing.LogRing.DrainAndAck` | internal/loghub/loghub.go:153-166 | Hands out the delta or the history and rearms. |
| `LogRing.RunMirrors` | internal/loghub/loghub.go:85-181 | For every interleaving the history is the tail of what was logged, and shown plus pending text ends in it. |
| `LogRing.WindowIsCurrent` | cmd/splitwire/main_windows.go:730-741 | After each drain the window's last maxBytes bytes are the ring's history, which is the last maxBytes bytes of everything seeded or written since the last clear. |
| `LogRing.WriteExactly` | internal/loghub/loghub.go:106-130 | A write that fits beside the pending text becomes part of the next delta; one that does not asks for a replacement by the history. |
| `LogRing.AnnouncedExactly` | internal/loghub/loghub.go:85-181 | Throughout a run news is announced if and only if the ring is never seeded while somebody listens and no wake-up is under way. |
| `LogRing.ArmedMeansWoken` | internal/loghub/loghub.go:93-181 | A wake-up is under way only if one was posted, to somebody listening, since the last drain or clear. |
| `LogRing.NewsIsAnnounced` | internal/loghub/loghub.go:93-130 | In particular, if seeding precedes listening, undelivered data always has a wake-up under way. |
| `LogRing.LateSeedIsSilent` | internal/loghub/loghub.go:85-91 | Otherwise news can stay unannounced. |

## Left out

- Win32 GUI, WinDivert handles, IP Helper snapshots, UDP sockets, logging text and diagnostic counters, `TakeExpired` among them: foreign calls and I/O.
- The Noise handshake, cookies, keepalive, path switching, `Close`, and the ciphers: the AEAD is ideal, so a message opens exactly if the peer sealed it under that session and counter.
- The process-wide fragment identification counter is a parameter that each call takes and returns.
- `CalcChecksums` is a parameter that may fail and keeps the length of the packet.
- The HTTP proxy, PAC serving, resolvers and configuration parsing; only the MTU range 576..9000 and the meaning of `*` are used.
- `ParseDNSResponse`, `DecideHost`, QUIC suppression, `ClampTCPMSS`, `BuildTCPResetReply`, `IsFragment`, `Pad16`, `TrimToIPLength`, `WaitLookup`: each would only add easy members or depends on the parts above.
- Datagrams in the reassembly table are values that the table replaces, not objects behind pointers; one generic table serves both families, and `IPv4.SecondHeaderOverlaps` shows why it may keep the first header.
- `sendLoop`, `SendPacket`, `handleTransport`, `installSession` and `reaper` are state machines whose steps are the source's critical sections, not loops over channels. Cancellation through the context is not a step. The routing part of `captureLoop` is one method per step, because other goroutines act in between.
- `Transport.DeliverySafe` counts a message as delivered when the window accepts it; the later trimming and the bounded queue may still drop it.
- Process normalisation, `canonName` and `canonPath` are parameters of the policy index.
- `TlsHello.Canonical` lowers ASCII letters only; the source lowers every letter.
- Address zones are not modelled, and a network matches by its leading bits.
- `FlowIndex.Index` omits `Add`, `AddSnapshotExact`, `Delete`, `DeleteLocal` and `Sweep`, which touch one table each and not the double index.
- `Tracker.Tracker.Sweep` removes the expired groups of one address in one assignment instead of an inner loop.
- `LogRing`: the window clears together with the ring, as the clear command does, and newline normalisation of the shown text is not modelled.
- The words of the replay bitmap are naturals below 2^64 with their or- and and-not-masks defined bit by bit.
