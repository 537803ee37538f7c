# A verified model of the router's core

This project models the parts of the userspace router that hold state or bytes together, and
proves what they promise for every input, every run and every interleaving.

- **Memory.** `Spans`, `HeapModel` and `Allocator` model the first-fit free-list allocator. The
  list nodes live inside the free bytes of the arena; the class `FreeList` reads and writes them
  there. Over every run of allocations, releases and owners' writes, free and live blocks tile
  the arena, headers never touch user data, and freeing everything restores the first block.
- **Lock-free ring and spinlocks.** `Ring` and `SpinLocks` are step systems: one atomic access
  or slot access per step, any interleaving, any number of threads for the locks.
- **NAT.** `Checksum` has the Internet checksum of RFC 1071 with the incremental update of
  section 3 of RFC 1624, `View` the layered packet views, `Nat` the two maps and the circular
  port scan, and `NatRewrite` the in-place edits of a frame.
- **Connection tracking and admission.** `ConnTrack` refines a per-flow replay; `Admission` puts
  it together with NAT, with the two tables locked separately, into the rule that says which
  WAN packets reach a LAN host.
- **Neighbor table.** `Neighbor` follows every packet and every pending episode through `resolve`,
  `on_arp` and `sweep`.
- **DHCP.** `Pool` is the interval list of free addresses; `Leases` the interleaving of servers
  over one pool and one lease table; `DhcpOptions`, `Frame` and `DhcpMessage` the codecs;
  `DhcpServer` and `DhcpClient` the two objects; `DhcpExchange` the four-message exchange of
  section 3.1 of RFC 2131, through the bytes of the frames.

Rust's mutable objects are classes whose methods are proved against functions and relations on
values; the theorems about whole runs are then about those values. Time, received frames and
padding are parameters. A Rust `HashMap` is a `map`, and `retain` visits it in any order.

## Results that differ from what one might expect

- `build_udp_ipv4` frames parse back for payloads of up to 65527 bytes, not only 65507: when the
  IPv4 total length has wrapped to less than a header, the view falls back on the end of the frame and
  the UDP length trims it. From 65528 bytes on they do not (`Frame.ParsesBack`, both directions).
- `update` agrees with recomputing the checksum exactly when the edited data has a non-zero byte,
  or nothing was edited (`Checksum.UpdateIsRecompute`; `Checksum.ZeroedDataDiffers` is a failing case).
- Releasing an address that is free breaks the pool's interval list; releasing any other address
  of the range keeps it (`Pool.AddressPool.Release`, both directions; `Pool.ReleasedTwice` is a
  failing case).
- A pool of all of IPv4 cannot be leased from: its one interval has a 32-bit width of zero
  (`Pool.AddressPool.Take`), so that a server over it never answers (`DhcpServer.Server.Handle`).
- A flow that was opened, never reset and never expired is not necessarily in the table: it can
  end with an ACK that closes its second endpoint (`ConnTrack.ClosesWithoutReset`). With that third
  way to end, the rule is exact (`ConnTrack.AdmittedExactly`, `Admission.AdmissionRule`).
- Two servers that assign to one MAC at the same time lose an address for good
  (`Leases.RaceLeaksAnAddress`). An address is lost exactly when a lease is recorded for a MAC that
  already has one (`Leases.LostExactly`); assignments to different MACs may interleave freely.
- The reverse index of the neighbor table can lose an entry when time goes back
  (`Neighbor.BackwardTimeLosesIndex`). It stays complete exactly as long as each mapping is learned
  no earlier than the addresses it takes over (`Neighbor.IndexedExactly`), which time that does not
  go back ensures (`Neighbor.IndexComplete`).
- A client keeps its lease through a NAK: it has one exactly if it was ever bound
  (`DhcpClient.LeaseIsEverBound`).

## Model

| member | source | states |
|---|---|---|
| HeapModel.AlignUp | src/mem/alloc.rs:47-49 | the least multiple of the alignment that is not below the value |
| HeapModel.BlockSizeFor | src/mem/alloc.rs:54-56 | a multiple of 8, at least 16 and the request, less than 8 above both |
| HeapModel.AlignForGood | src/mem/alloc.rs:100-101 | a power-of-two alignment normalises to 8 or to a multiple of 16 |
| HeapModel.AlignedExactly | src/mem/alloc.rs:100-101 | an address is aligned for the allocator if and only if it has the alignment asked for and is a multiple of 8 |
| HeapModel.Candidate | src/mem/alloc.rs:111-119 | the candidate is aligned as an absolute address and leaves a front remnant that is empty or at least 16 bytes |
| HeapModel.CandidateIsLowest | src/mem/alloc.rs:111-125 | if any placement in a hole fits, the candidate fits and is the lowest: one try per hole misses nothing |
| HeapModel.CarveLinked | src/mem/alloc.rs:125-146 | after a hole is split, memory spells out exactly the new list, and only cells of free blocks changed |
| HeapModel.InsertLinked | src/mem/alloc.rs:181-211 | after a block is merged in, memory spells out exactly the new list, and only cells of free blocks changed |
| HeapModel.CarveTiles | src/mem/alloc.rs:125-146 | taking a block out of a hole keeps free and live blocks tiling the arena |
| HeapModel.InsertTiles | src/mem/alloc.rs:181-211 | giving a block back keeps the tiling |
| Spans.CarveRemoves | src/mem/alloc.rs:125-146 | cutting a span out of a canonical list leaves a canonical list of exactly the other points |
| Spans.InsertAdds | src/mem/alloc.rs:181-211 | merging a span in yields a canonical list (sorted, disjoint, never touching) of exactly the old points and the new ones |
| Spans.Unique | src/mem/alloc.rs:181-211 | a set of points has one canonical list |
| Allocator.FreeList.constructor | src/mem/alloc.rs:72-92 | the region is aligned and trimmed to one free block, with nothing lost but the ragged ends |
| Allocator.FreeList.Scan | src/mem/alloc.rs:106-153 | finds the first hole whose candidate fits, or proves that no hole has any placement |
| Allocator.FreeList.Split | src/mem/alloc.rs:125-146 | writes the remnants' headers and relinks the predecessor, as the new list requires |
| Allocator.FreeList.Alloc | src/mem/alloc.rs:99-154 | the lowest address that has the alignment asked for, is a multiple of 8, lies in a hole and leaves nothing or at least 16 bytes on either side; null if and only if there is none; writes only into cells that are free afterwards; keeps the invariant |
| Allocator.FreeList.FreeBytes | src/mem/alloc.rs:169-177 | the sum of the free blocks' sizes, read from the headers |
| Allocator.FreeList.FindPlace | src/mem/alloc.rs:181-187 | the loop stops between the neighbours of the released block |
| Allocator.FreeList.Extend | src/mem/alloc.rs:189-196 | merging into the left neighbour, and maybe the right one, leaves the new list in memory |
| Allocator.FreeList.LinkIn | src/mem/alloc.rs:197-210 | linking a new block, and maybe swallowing the right neighbour, leaves the new list in memory |
| Allocator.FreeList.InsertFree | src/mem/alloc.rs:181-211 | the block is free again, everything else as before, the invariant kept |
| Allocator.FreeList.Dealloc | src/mem/alloc.rs:161-166 | releases exactly the allocation at the pointer |
| Allocator.FreeList.WriteEntry | src/mem/alloc.rs:239-241 | writes the two header cells and nothing else |
| Allocator.TryHole | src/mem/alloc.rs:106-153 | looking at the candidate alone settles a hole |
| Allocator.LowestPlacement | src/mem/alloc.rs:106-153 | the candidate of the first hole it fits in is the lowest such address in the arena |
| Allocator.AllocSound | src/mem/alloc.rs:99-154 | what the code does on `alloc` keeps the invariant and is the lowest placement |
| Allocator.NoSumWraps | src/mem/alloc.rs:47-124 | for an arena in the lower half of the address space and any layout Rust allows, no sum `alloc` computes wraps at 64 bits |
| Allocator.ReleaseSound | src/mem/alloc.rs:161-211 | what the code does on `dealloc` keeps the invariant and frees just that block |
| Allocator.WriteKeepsInv | src/mem/alloc.rs:217-241 | an owner's write never damages the list |
| Allocator.RunKeepsInv | src/mem/alloc.rs:99-211 | in every state of every run the list is sorted, 8-aligned, separated, of blocks of at least 16 bytes, and tiles the arena with the live allocations |
| Allocator.RunAllocates | src/mem/alloc.rs:99-154 | in every run an allocation answers with that lowest address, a multiple of the alignment asked for, and with null if and only if there is none |
| Allocator.ContentsSurvive | src/mem/alloc.rs:125-241 | through any run, a cell of a block that stays allocated holds what its owner last left there |
| Allocator.FreeListDetermined | src/mem/alloc.rs:99-211 | the free list depends on what is live alone, not on the history |
| Allocator.AllFreedRestores | src/mem/alloc.rs:161-211 | once everything is freed, in any order, the single initial block is back |
| Allocator.DeallocUndoesAlloc | src/mem/alloc.rs:99-166 | releasing a block just allocated restores the free list |
| Allocator.FreeBytesCount | src/mem/alloc.rs:169-177 | `free_bytes` is the number of bytes no allocation has |
| Ring.StepKeepsInv | src/mem/ring.rs:53-82 | every load, slot access and store of either side keeps the invariant |
| Ring.FifoConservation | src/mem/ring.rs:53-82 | for every interleaving and N >= 1, what was popped, the item being taken and the ring's contents are what was pushed, in order; at most N - 1 are held |
| Ring.PushesArePublished | src/mem/ring.rs:53-66 | what is published is exactly what the pushes that ran to their end were at work on, in order; each makes the ring one fuller, each pop one emptier |
| Ring.PushedItem | src/mem/ring.rs:53-66 | the item a push is at work on is the one it was last called with |
| Ring.SlotsAreExclusive | src/mem/ring.rs:53-82 | the two sides never access one slot at once, stay in bounds, and the consumer always finds an item |
| Ring.FailsOnlyWhenFullOrEmpty | src/mem/ring.rs:53-82 | a push fails if and only if the ring is full at its load, a pop if and only if it is empty at its load |
| Ring.LenIsExact | src/mem/ring.rs:86-90 | `len` is the number of items held at one of its two loads, for either side |
| SpinLocks.StepKeepsInv | src/core/spinlock.rs:104-211 | each atomic step of each thread keeps the lock word and the threads in agreement |
| SpinLocks.WritersExclude | src/core/spinlock.rs:104-211 | in every reachable state the word is 1 exactly if a writer is inside and otherwise twice the readers; a writer is alone; data is stable under a reader |
| SpinLocks.EntersExactly | src/core/spinlock.rs:104-211 | but for spurious failures a writer gets in if and only if nobody is inside, a reader passes its load if and only if no writer is, and its compare-exchange if and only if the word has not changed |
| SpinLocks.MutualExclusion | src/core/spinlock.rs:35-47 | at most one thread is inside the plain lock, and the flag says whether |
| SpinLocks.DataStable | src/core/spinlock.rs:35-47 | the data does not change while the plain lock is free |
| SpinLocks.AcquiresExactly | src/core/spinlock.rs:35-47 | but for spurious failures the plain lock is taken if and only if nobody is inside |
| Checksum.Fold | src/net/checksum.rs:12-17 | the representative modulo 65535 that is zero for zero alone |
| Checksum.FoldLoop | src/net/checksum.rs:12-17 | the folding loop computes it |
| Checksum.Accumulate | src/net/checksum.rs:22-31 | adds the big-endian words, a trailing byte as a high byte, wrapping at 32 bits |
| Checksum.Compute | src/net/checksum.rs:34-48 | the complement of the folded sum of the words |
| Checksum.UdpIpv4 | src/net/checksum.rs:53-64 | the checksum over pseudo-header and segment, with zero sent as 0xFFFF |
| Checksum.PseudoHeader | src/net/checksum.rs:53-64 | the sum is that of the pseudo-header of RFC 768 laid out in bytes, followed by the segment |
| Checksum.Update | src/net/checksum.rs:75-87 | adds the complements of the old words and the new words to the complement of the old checksum |
| Checksum.UpdateResidue | src/net/checksum.rs:66-87 | the new checksum makes up for the change of the field modulo 65535, and is 0xFFFF only in the degenerate case |
| Checksum.ReplaceSum | src/net/checksum.rs:66-87 | replacing a field at an even offset moves the sum of all words by the difference of the fields |
| Checksum.CarriedTracks | src/net/checksum.rs:66-87 | through any chain of edits the carried checksum stays that of the edited data, up to the two forms of zero |
| Checksum.UpdateIsRecompute | src/net/checksum.rs:39-87 | after any chain of edits the carried checksum equals the recomputed one if and only if the data has a non-zero byte or nothing was edited |
| Checksum.ZeroedDataDiffers | src/net/checksum.rs:66-87 | the smallest failing case: two bytes edited to zero |
| View.ParseEthernet | src/net/view.rs:68-87 | layer 3 starts inside the frame |
| View.ParseIpv4At | src/net/view.rs:151-174 | header, payload and end are in order and inside the frame |
| View.ParseTcpAt | src/net/view.rs:234-250 | header and payload are in order and end where the datagram does |
| View.ParseUdpAt | src/net/view.rs:302-321 | the payload follows the header and ends inside the datagram |
| View.ParseDhcp | src/net/view.rs:361-397 | header and options lie inside the frame |
| View.EthernetAssembled | src/net/view.rs:68-87 | a link header with or without a tag is stripped, and the ethertype is the inner one |
| View.Ipv4Assembled | src/net/view.rs:151-174 | a datagram put together from header, options, segment and padding parses to exactly its header and segment |
| View.TcpAssembled | src/router/app.rs:887-898 | and for TCP the tuple has the addresses of header bytes 12 to 19, the ports of segment bytes 0 to 3 and the flags of byte 13 |
| View.Refused | src/net/view.rs:151-250 | when the views refuse a header, and when an implausible length runs to the end of the frame |
| View.DhcpRecognised | src/net/view.rs:350-397 | a datagram is DHCP if and only if a port is 67 or 68 and a 240-byte header fits |
| Nat.Nat.constructor | src/router/nat.rs:101-111 | an empty table over a non-empty port range, with the invariant |
| Nat.Nat.SetWanIp | src/router/nat.rs:115-117 | changes the public address and nothing else |
| Nat.Nat.AllocPort | src/router/nat.rs:162-178 | the first free port of the circle from the cursor on, or none if and only if every port of that protocol is in use |
| Nat.Nat.Egress | src/router/nat.rs:128-150 | the existing binding, or a new one on the first free port, or nothing when all are in use; the invariant kept |
| Nat.Nat.Ingress | src/router/nat.rs:154-158 | the endpoint the reverse map has for the port |
| Nat.BindKeepsInv | src/router/nat.rs:128-150 | a binding of a new endpoint to a free port keeps the maps mutually inverse |
| Nat.RunKeepsInv | src/router/nat.rs:101-178 | in every reachable state the maps are mutually inverse per protocol and all ports lie in the range |
| Nat.BindingsPersist | src/router/nat.rs:128-150 | bindings never change once made, in either direction |
| Nat.AnsweredPortLeadsBack | src/router/nat.rs:128-158 | a port once answered for an endpoint leads back to it for ever |
| Nat.UsedUpExactly | src/router/nat.rs:128-178 | all ports of a protocol are in use if and only if as many of its endpoints are bound as there are ports |
| Nat.AnswerIsPublic | src/router/nat.rs:128-150 | an answer is the public address with the port the table then has |
| Nat.NewPortExactly | src/router/nat.rs:128-178 | a new endpoint gets the first port free at or after the cursor, going round; the cursor then stands behind it |
| Nat.RefusedIffExhausted | src/router/nat.rs:128-178 | `egress` refuses if and only if the endpoint is new and as many endpoints of its protocol are bound as there are ports; any answer is in the range and leads back |
| NatRewrite.Classify | src/router/nat.rs:187-206 | a TCP or UDP packet with all rewritten fields inside the frame |
| NatRewrite.ClassifiedByProtocol | src/router/nat.rs:187-206 | protocol byte 6 is TCP, 17 is UDP, any other is not translated |
| NatRewrite.ApplyRewrite | src/router/nat.rs:297-329 | replaces the address, the port and the two checksums in place, leaving a disabled UDP checksum alone |
| NatRewrite.TranslateEgress | src/router/nat.rs:187-229 | the source goes through the table and the frame is rewritten to the answer, or nothing changes |
| NatRewrite.TranslateIngress | src/router/nat.rs:238-282 | the destination port is looked up and the frame rewritten to the endpoint found, or nothing changes |
| NatRewrite.OnlyFourFields | src/router/nat.rs:285-329 | every byte stays but for the address and port of that side, bytes 10 and 11 of the IPv4 header, and bytes 16 and 17 of a TCP or 6 and 7 of a UDP header |
| NatRewrite.TcpHeaderKept | src/router/nat.rs:285-329 | in particular sequence numbers, flags, window and urgent pointer of a TCP packet stay |
| NatRewrite.FieldsReadBack | src/router/nat.rs:297-329 | the new address and port read back, at header bytes 12 or 16 and segment bytes 0 or 2 |
| NatRewrite.ReparsesSame | src/router/nat.rs:297-329 | the rewritten frame parses at the same offsets |
| NatRewrite.IpChecksumKept | src/router/nat.rs:297-329 | the IPv4 header checksum verifies after the rewrite if and only if it did before |
| NatRewrite.L4ChecksumKept | src/router/nat.rs:297-329 | a disabled UDP checksum stays zero; any other transport checksum verifies after if and only if it did before, and in UDP is not zero |
| NatRewrite.TranslationSound | src/router/nat.rs:187-329 | all of the above of one translation |
| NatRewrite.EndpointBytes | src/router/nat.rs:187-282 | where the two endpoints of a packet are read |
| NatRewrite.LeavesFromWan | src/router/nat.rs:187-229 | a translated outbound packet has the public address and the answered port as its source, and its destination unchanged |
| NatRewrite.ReplyFindsItsWay | src/router/nat.rs:187-282 | a reply to the translated source is rewritten to the original source |
| ConnTrack.ConnTrack.ObserveEgress | src/router/conntrack.rs:262-292 | one step of the flow's replay, creating it if need be, and the states after it |
| ConnTrack.ConnTrack.CheckIngress | src/router/conntrack.rs:307-339 | admits if and only if the flow is there; then one step of its replay |
| ConnTrack.ConnTrack.Sweep | src/router/conntrack.rs:344-347 | keeps exactly the flows younger than the longer of their endpoints' timeouts |
| ConnTrack.ApplyIsFlowStep | src/router/conntrack.rs:262-347 | a call moves its own flow as the replay does and no other flow at all |
| ConnTrack.FlagBits | src/router/conntrack.rs:144-231 | FIN, SYN, RST and ACK are bits 0, 1, 2 and 4, for all 256 flag bytes |
| ConnTrack.TransitionsExactly | src/router/conntrack.rs:144-231 | both transitions are a written-out matrix of states and flag combinations, for all 256 flag bytes |
| ConnTrack.FlagBytes | src/router/conntrack.rs:262-339 | 0x04 and 0x14 in either direction remove the flow, 0x08 changes no state, 0x18 leaves an established flow established |
| ConnTrack.TableSane | src/router/conntrack.rs:262-347 | no stored entry is ever (Closed, Closed), so the stale-entry branch is never taken; no endpoint is ever Listen |
| ConnTrack.TableIsReplay | src/router/conntrack.rs:262-366 | after any run, what the table says of a flow, and whether it admits, equals replaying that flow's packets and the sweeps alone |
| ConnTrack.Creation | src/router/conntrack.rs:262-339 | a flow comes into being if and only if an outbound SYN without ACK and RST is seen; ingress never creates one |
| ConnTrack.ResetEnds | src/router/conntrack.rs:144-231 | an RST in either direction ends the flow |
| ConnTrack.RemovedExactly | src/router/conntrack.rs:262-347 | an event removes a stored flow if and only if it is an RST on it, a sweep that finds it expired, or the ACK that closes its second endpoint, as the entry before the call tells |
| ConnTrack.AdmittedExactly | src/router/conntrack.rs:262-347 | after any run an inbound packet is admitted if and only if its flow was opened by an outbound SYN and no event since was one of those three |
| ConnTrack.EstablishedPersists | src/router/conntrack.rs:144-231 | (Established, Established) persists under packets without FIN and RST and sweeps less than 24 h after the last packet |
| ConnTrack.EstablishedStays | src/router/conntrack.rs:144-347 | so it stays in the table, whatever happens on other flows |
| ConnTrack.TimeWaitPersists | src/router/conntrack.rs:92-231 | once an endpoint is in TimeWait, only an RST or a sweep at least 120 s after the last packet removes the flow |
| ConnTrack.TimeWaitStays | src/router/conntrack.rs:92-347 | so it stays in the table, whatever happens on other flows |
| ConnTrack.ExpiresExactly | src/router/conntrack.rs:92-137 | when a sweep removes a flow, for every pair of states, in milliseconds |
| ConnTrack.TimeWaitExpires | src/router/conntrack.rs:92-137 | a flow with an endpoint in TimeWait expires exactly 120 s after its last packet, or 24 h after it while the other endpoint counts as Established |
| ConnTrack.WaitingBesideEstablished | src/router/conntrack.rs:144-231 | the second case is reachable, in five packets |
| ConnTrack.HandshakeOpens | src/router/conntrack.rs:144-231 | the three-way handshake leads from no flow to (Established, Established) |
| ConnTrack.ActiveClose | src/router/conntrack.rs:144-231 | from (Established, Established), whichever side closes first ends in TimeWait and the other in Closed |
| ConnTrack.CrossingClose | src/router/conntrack.rs:144-231 | FINs that cross lead the inner side through Closing to TimeWait |
| ConnTrack.OnlyForward | src/router/conntrack.rs:144-231 | over every run, while neither end is closed, both endpoints only move forward through the states |
| ConnTrack.ClosesWithoutReset | src/router/conntrack.rs:144-231 | a concrete run of the third kind: nine packets, none an RST, no sweep, after which the flow is gone |
| Admission.StepKeepsWork | src/router/app.rs:624-791 | a packet between its two locked steps stays addressed to the endpoint its port is bound to, whatever others do |
| Admission.TranslationsMean | src/router/app.rs:624-791 | outbound: taken up if and only if there is a public address, and the port answered leads back to the packet's source; inbound: goes to the endpoint its port is bound to, or nowhere |
| Admission.FlowHasOrigin | src/router/app.rs:624-649 | every tracked flow was opened by an outbound SYN, and nothing has ended it since |
| Admission.FlowStays | src/router/app.rs:624-791 | a flow so opened and not ended is tracked |
| Admission.AdmissionRule | src/router/app.rs:765-791 | a translated WAN packet is addressed to the endpoint its port is bound to, and goes on toward it if and only if that endpoint sent a SYN (no ACK, no RST) to exactly that peer, since when the flow saw no RST, no expiring sweep and no ACK that closed its second endpoint |
| Admission.OpenedMeans | src/router/app.rs:624-649 | opening a flow means a LAN packet with that source and destination and with SYN, no ACK, no RST, in bits of its flag byte |
| Admission.ResetMeans | src/router/app.rs:624-791 | resetting it means bit 2 on a packet of either direction between those endpoints |
| Admission.TupleIsPacket | src/router/app.rs:887-898 | the TCP tuple agrees with what NAT classifies and rewrites |
| Neighbor.NeighborTable.Insert | src/router/neighbor.rs:138-147 | learns the mapping and drains nothing |
| Neighbor.NeighborTable.Resolve | src/router/neighbor.rs:151-180 | forwards, queues with at most one request, or drops; every queue keeps 1 to 4 packets |
| Neighbor.ResolvesExactly | src/router/neighbor.rs:151-180 | after any run: forwards if and only if the address was learned and no sweep since was 300 s later, then to the MAC learned last; drops if and only if it cannot and four packets wait; else queues, asking with the first |
| Neighbor.WaitInOrder | src/router/neighbor.rs:151-180 | the packets waiting for an address were given for it in that very order |
| Neighbor.NeighborTable.OnArp | src/router/neighbor.rs:185-199 | learns the mapping and hands out all packets that waited for it |
| Neighbor.NeighborTable.SweepPending | src/router/neighbor.rs:209-233 | retries what is due, gives up after three attempts, hands back exactly the packets given up, and asks once for each retried address |
| Neighbor.NeighborTable.Sweep | src/router/neighbor.rs:209-241 | that, and the aging of the cache and its index |
| Neighbor.SweepExactly | src/router/neighbor.rs:209-233 | an entry is left alone for 1000 ms, then asked for again, and given up when three requests were made |
| Neighbor.SweepPrunes | src/router/neighbor.rs:234-238 | an index entry survives if and only if its address is cached and younger than 300 s |
| Neighbor.SweepConserves | src/router/neighbor.rs:209-233 | a sweep neither loses nor invents a packet |
| Neighbor.PacketsConserved | src/router/neighbor.rs:151-241 | over every run each packet is exactly one of forwarded, dropped, queued, drained or handed back; queues hold 1 to 4; an episode counts at most 3 attempts, at least 1000 ms apart |
| Neighbor.ApartExactly | src/router/neighbor.rs:138-199 | over every run no address is ever cached and waited for at once if and only if no mapping is inserted directly for an address that packets wait for |
| Neighbor.LearnIndexes | src/router/neighbor.rs:185-199 | learning keeps the reverse index complete if and only if no other address of the MAC, and none indexed to the address, was learned later |
| Neighbor.SweepIndexes | src/router/neighbor.rs:234-238 | aging keeps the reverse index complete, whatever the clock says |
| Neighbor.IndexedExactly | src/router/neighbor.rs:138-241 | over every run, with any clock, the index is complete all along if and only if every mapping is learned in time in that sense |
| Neighbor.IndexComplete | src/router/neighbor.rs:185-241 | so under non-decreasing time every cached MAC is indexed and points to a cached address learned no earlier |
| Neighbor.BackwardTimeLosesIndex | src/router/neighbor.rs:185-241 | a concrete run with one mapping learned out of time, after which a cached address has no index entry |
| Pool.AddressPool.constructor | src/router/pool.rs:53-61 | all addresses of the range are free |
| Pool.AddressPool.Reserve | src/router/pool.rs:70-100 | removes exactly one address, if it is free, and otherwise changes nothing |
| Pool.AddressPool.Release | src/router/pool.rs:146-177 | the list stays canonical if and only if the address was not free; then exactly it is added |
| Pool.ReleasedTwice | src/router/pool.rs:146-177 | the smallest failing case: a free address released is listed twice |
| Pool.AddressPool.Enough | src/router/pool.rs:103-114 | the counting loop says whether enough addresses are free, and is fooled only by the pool of all 2^32 |
| Pool.AddressPool.Collect | src/router/pool.rs:116-143 | the consuming loop yields the smallest addresses and the list without them; from the pool of all 2^32 it yields everything |
| Pool.AddressPool.Take | src/router/pool.rs:103-144 | the n smallest free addresses in order, or nothing changed if and only if fewer are free; the pool of all 2^32 refuses every n but 0, to which it hands out everything |
| Pool.OneList | src/router/pool.rs:46-61 | a set of free addresses has one interval list |
| Pool.TakenAreSmallest | src/router/pool.rs:116-143 | what is taken is increasing, below everything that stays, and nothing else goes |
| Pool.TotalCountsFree | src/router/pool.rs:103-114 | the counted widths are the number of free addresses |
| Pool.ReleaseUndoesReserve | src/router/pool.rs:70-177 | releasing a reserved address restores the very list |
| Pool.Rejoin | src/router/pool.rs:146-177 | merging with both, one or no neighbour adds exactly the address, when it was not free |
| Pool.WidthExact | src/router/pool.rs:103-143 | 32-bit widths are exact except for the one interval of all addresses |
| Leases.StepKeepsInv | src/router/dhcp.rs:107-162 | each separately locked step keeps every address in at most one place |
| Leases.NeverTwoMacs | src/router/dhcp.rs:107-162 | however the servers' steps interleave, no address is bound to two MACs |
| Leases.AnswersAgree | src/router/dhcp.rs:152-162 | two answers with one address, with no taking of it in between, went to one MAC |
| Leases.GiveBackIsSafe | src/router/dhcp.rs:135-142 | what a server gives back is never free already |
| Leases.StepLosesExactly | src/router/dhcp.rs:107-162 | a step leaves an address nowhere if and only if it records a lease for a MAC that already has one |
| Leases.LostExactly | src/router/dhcp.rs:80-162 | over every run and interleaving no address of the pool is ever lost if and only if no lease is recorded for a MAC that already has one |
| Leases.HandleKeepsPartition | src/router/dhcp.rs:107-162 | a serialised call keeps free, leased and reserved addresses a partition of the range |
| Leases.AssignMeans | src/router/dhcp.rs:152-162 | a client has a lease afterwards if and only if it had one or an address was free; a new one is the smallest |
| Leases.GiveUpMeans | src/router/dhcp.rs:135-142 | afterwards the client has no lease and its address is free |
| Leases.SetAsideMeans | src/router/dhcp.rs:80-82 | the address is free no longer; nothing is taken from a client |
| Leases.SerialPartition | src/router/dhcp.rs:80-162 | and so does every run of such calls from a full pool |
| Leases.LeasePersists | src/router/dhcp.rs:152-162 | a lease stays what it is until its own MAC gives it up |
| Leases.AssignIsItsSteps | src/router/dhcp.rs:152-162 | an undisturbed `assign` is its three locked steps |
| Leases.GiveUpIsItsSteps | src/router/dhcp.rs:135-142 | an undisturbed release is its two locked steps |
| Leases.RaceLeaksAnAddress | src/router/dhcp.rs:152-162 | a concrete interleaving, for any MAC, that loses an address |
| DhcpOptions.OptionsIter.Next | src/net/dhcp.rs:205-234 | yields the next option of the region, skipping PAD, and nothing from END or a cut-off option on |
| DhcpOptions.FirstValue | src/net/dhcp.rs:336-340 | the value found is that of the first option with the code |
| DhcpOptions.Get | src/net/dhcp.rs:336-340 | the scan finds the first option with the code, or that there is none |
| DhcpOptions.MessageOf | src/net/dhcp.rs:266-295 | exactly the bytes 1 to 8 are message types, and map back |
| DhcpOptions.TypeBytes | src/net/dhcp.rs:266-295 | the eight type bytes |
| DhcpOptions.AddressIter.Next | src/net/dhcp.rs:304-315 | yields the addresses one by one, ignoring a short rest |
| DhcpOptions.AddressesRoundTrip | src/net/dhcp.rs:304-315 | an address list reads back as written |
| DhcpOptions.OptionsWriter.constructor | src/net/dhcp.rs:577-581 | an empty writer over the rest of the buffer |
| DhcpOptions.OptionsWriter.Option | src/net/dhcp.rs:593-606 | appends code, length and value, or refuses, changing nothing, if and only if the value exceeds 255 bytes or does not fit |
| DhcpOptions.OptionsWriter.Message | src/net/dhcp.rs:608-611 | appends the message type, if it fits |
| DhcpOptions.OptionsWriter.Word | src/net/dhcp.rs:612-619 | appends an address or a number of seconds, if it fits |
| DhcpOptions.OptionsWriter.List | src/net/dhcp.rs:620-635 | appends a list of at most 63 addresses as one option, if it fits |
| DhcpOptions.OptionsWriter.End | src/net/dhcp.rs:637-645 | appends END, if it fits |
| DhcpOptions.RoundTrip | src/net/dhcp.rs:205-646 | any written options closed with END iterate back exactly, whatever bytes follow |
| DhcpOptions.Normalised | src/net/dhcp.rs:205-646 | what the iterator reads from any bytes can be written out and reads the same |
| DhcpOptions.Truncated | src/net/dhcp.rs:205-234 | cutting a written region short loses options from the end and garbles none |
| DhcpOptions.ItemsLiteral | src/net/dhcp.rs:205-234 | byte by byte: 0 pads, 255 ends, any other code has a length and a value, and a cut-off option yields nothing |
| DhcpOptions.AddressAt | src/net/dhcp.rs:620-635 | address i of a list takes bytes 4i to 4i + 3 |
| Frame.WriteHeaders | src/router/frame.rs:47-72 | the cleared header span holds the three headers, checksums zero, and nothing behind it changed |
| Frame.SealIp | src/router/frame.rs:78-80 | stores the checksum of the finished header in it |
| Frame.SealUdp | src/router/frame.rs:82-89 | stores the checksum of the finished datagram in it |
| Frame.BuildUdpIpv4 | src/router/frame.rs:42-91 | the whole frame in front of an otherwise untouched buffer, or nothing, if and only if it does not fit |
| Frame.ParsesBack | src/router/frame.rs:42-91 | whatever the padding, the views find exactly the payload if and only if it has at most 65527 bytes |
| Frame.FieldsOf | src/router/frame.rs:54-72 | ethertype, lengths, protocol and ports read back |
| Frame.HeaderBytesOf | src/router/frame.rs:54-75 | destination and source MAC, zero bytes, time to live, addresses and payload, at their places |
| Frame.IpChecksumGood | src/router/frame.rs:78-80 | the IPv4 header of a built frame verifies |
| Frame.UdpChecksumGood | src/router/frame.rs:82-89 | its UDP checksum is present and verifies |
| DhcpMessage.WriteHeader | src/net/dhcp.rs:92-188 | a cleared buffer gets exactly the 240-byte header with the fields set |
| DhcpMessage.HeaderReads | src/net/dhcp.rs:92-128 | the fields read back, the broadcast flag included |
| DhcpMessage.HeaderLiteral | src/net/dhcp.rs:58-188 | the other header bytes, the magic cookie included |
| DhcpMessage.ReadsBack | src/net/view.rs:388-428 | a header and options, framed, padded and parsed through all layers, are what a receiver reads |
| DhcpServer.WriteLeaseOptions | src/router/dhcp.rs:218-223 | writes the configuration options, if and only if there are at most 60 DNS servers |
| DhcpServer.BuildPayload | src/router/dhcp.rs:196-229 | the header, the options of the reply and END; fails if and only if it is no NAK and there are more than 60 DNS servers |
| DhcpServer.ReplyOptionBytes | src/router/dhcp.rs:213-224 | the options of a reply byte by byte: 53, 54, and but for a NAK those of the lease |
| DhcpServer.LeaseOptionBytes | src/router/dhcp.rs:218-223 | options 51, 1, 3 and, if there are any DNS servers, 6 |
| DhcpServer.ReplyGoesTo | src/router/dhcp.rs:176-192 | a reply is broadcast if and only if the client asked for it or it is a NAK; ports 67 and 68 |
| DhcpServer.Server.constructor | src/router/dhcp.rs:74-76 | a server over a shared pool and lease table |
| DhcpServer.Server.Reserve | src/router/dhcp.rs:80-82 | sets an address aside; the partition kept |
| DhcpServer.Server.Assign | src/router/dhcp.rs:152-162 | the client's address, the smallest free one on first contact; nothing while all of IPv4 is free; the partition kept |
| DhcpServer.Server.GiveUp | src/router/dhcp.rs:135-142 | the binding gone and its address free again; the partition kept |
| DhcpServer.Server.BuildReply | src/router/dhcp.rs:164-194 | the framed reply, broadcast when asked for or a NAK; or nothing, if it does not fit |
| DhcpServer.Server.Handle | src/router/dhcp.rs:107-145 | one message: its effect on pool and leases, the reply it earns, the bytes of it, and the partition kept; after type 7 or 4 the lease is gone and its address free; no answer at all while all of IPv4 is free |
| DhcpServer.DiscoverMeans | src/router/dhcp.rs:115-118 | type 1 is answered with an OFFER of the client's address if and only if it has one or one is free |
| DhcpServer.RequestMeans | src/router/dhcp.rs:119-134 | type 3 for another server: nothing; else an ACK of the client's address if that is what it asked for, and a NAK with 0.0.0.0 if not |
| DhcpServer.ReleaseMeans | src/router/dhcp.rs:135-142 | after type 7 or 4 the client has no lease and its address is free |
| DhcpServer.OthersMean | src/router/dhcp.rs:107-145 | any other message changes nothing and gets no answer |
| DhcpServer.ReleasedIsOffered | src/router/dhcp.rs:107-145 | from an empty pool, what one client releases is offered to the next that asks |
| DhcpServer.ServedKeepsPartition | src/router/dhcp.rs:107-145 | no message leaks an address or binds one twice |
| DhcpClient.DhcpClient.constructor | src/router/dhcp.rs:272-281 | a client in Init with nothing offered and no lease |
| DhcpClient.DhcpClient.WriteOptions | src/router/dhcp.rs:350-362 | message type, the offer taken up, the parameter list and END; always fits |
| DhcpClient.DhcpClient.Build | src/router/dhcp.rs:340-376 | the framed broadcast message, or nothing, if it does not fit |
| DhcpClient.DhcpClient.Poll | src/router/dhcp.rs:296-306 | DISCOVER in Init, REQUEST in Requesting, nothing otherwise; the state moves only with a message sent |
| DhcpClient.DhcpClient.OnReceive | src/router/dhcp.rs:309-338 | one step of the client's state machine on the message read |
| DhcpClient.Reacts | src/router/dhcp.rs:309-338 | by type byte: OFFER only while selecting, ACK only while requesting, NAK always, which leads back to DISCOVER; nothing of another transaction |
| DhcpClient.LeaseFields | src/router/dhcp.rs:321-330 | where the fields of a lease are read |
| DhcpClient.DiscoverOptionBytes | src/router/dhcp.rs:350-362 | the options of a DISCOVER byte by byte |
| DhcpClient.RequestOptionBytes | src/router/dhcp.rs:350-362 | the options of a REQUEST byte by byte |
| DhcpClient.ClientGoesTo | src/router/dhcp.rs:365-375 | from 0.0.0.0 port 68 to everyone's port 67 |
| DhcpClient.RequestingHasOffer | src/router/dhcp.rs:309-338 | in every run a REQUEST takes up an OFFER to the client's own transaction that no NAK withdrew |
| DhcpClient.BoundHasAck | src/router/dhcp.rs:309-338 | in every run a bound client holds the lease of an ACK to its own transaction, preceded by an OFFER, with no NAK since |
| DhcpClient.LeaseIsEverBound | src/router/dhcp.rs:283-338 | the client has a lease if and only if it was ever bound |
| DhcpExchange.ClientReads | src/router/dhcp.rs:340-376 | a server reads of a client's frame what the client meant |
| DhcpExchange.ReplyReads | src/router/dhcp.rs:164-229 | a client reads of a server's frame what the server meant |
| DhcpExchange.ReplyOnTheWire | src/router/dhcp.rs:164-229 | a reply at fixed places of its frame |
| DhcpExchange.ClientOnTheWire | src/router/dhcp.rs:340-376 | a client's message at fixed places of its frame |
| DhcpExchange.LeaseReads | src/router/dhcp.rs:321-330 | the lease taken from an ACK is the server's configuration |
| DhcpExchange.DnsReads | src/router/dhcp.rs:222-223 | the DNS servers of an ACK read back as configured |
| DhcpExchange.ReplyLength | src/router/dhcp.rs:164-229 | an OFFER or ACK frame has 310 bytes, and with n DNS servers 312 + 4n |
| DhcpExchange.DiscoverLength | src/router/dhcp.rs:340-376 | a DISCOVER frame has 292 bytes |
| DhcpExchange.RequestLength | src/router/dhcp.rs:340-376 | a REQUEST frame has 304 bytes |
| DhcpExchange.OfferComes | src/router/dhcp.rs:107-162 | a server with room for its reply and a lease for the client or a free address answers the DISCOVER |
| DhcpExchange.OfferArrives | src/router/dhcp.rs:107-321 | any answer to the DISCOVER makes the client request the address now leased to it |
| DhcpExchange.AckArrives | src/router/dhcp.rs:107-338 | while the lease stands any answer to the REQUEST binds the client to it with the server's configuration and changes no table |
| DhcpExchange.AckComes | src/router/dhcp.rs:107-145 | and that answer comes |
| DhcpExchange.FourMessages | src/router/dhcp.rs:107-376 | a fresh client and servers with a free address, at most 60 DNS entries each and room for their replies: in four messages the client is bound to the leased address, whatever other clients do in between, however frames are padded, and also if another server of the same identity answers the REQUEST |
| DhcpExchange.OfferLeg | src/router/dhcp.rs:107-338 | `poll`, `handle` and `on_receive` on the objects: the client takes up an offer if and only if the server has an address, at most 60 DNS entries, and both buffers are big enough |
| DhcpExchange.AckLeg | src/router/dhcp.rs:107-338 | the same of the last two messages: bound if and only if they fit, with no change to the tables |
| DhcpExchange.Exchange | src/router/dhcp.rs:107-376 | the whole exchange on the objects: bound if and only if there is an address, at most 60 DNS entries on both servers, 304 bytes of client buffer, and room for both replies |

## Left out

- Drivers and foreign code: `src/dpdk`, `src/main.rs`, `src/router/worker.rs` and the transmit and receive parts of `src/router/app.rs` are input and output.
- Configuration parsing, status printers, signal handling and scripts.
- Ring handles: `Tx` and `Rx` teardown and `is_closed` are not modelled; only `push`, `pop` and `len` are.
- Weak memory ordering and progress: atomics are sequentially consistent single steps, and only safety is proved of the spinlocks and the ring.
- DhcpServer.Server.GiveUp: stands for RELEASE and DECLINE; the ARP-driven `release`, which may free an address that has a lease or is free already, is not modelled.
- Allocator.FreeList.Alloc: addresses and sizes are unbounded integers; `Allocator.NoSumWraps` shows when that is exact, and `align_up` is the next multiple rather than its bit pattern.
- Allocator.FreeList.Dealloc: asks for a pointer and layout of a live allocation, as the unsafe Rust function does of its caller.
- NatRewrite.L4ChecksumKept: segments of up to 130000 bytes, beyond which the 32-bit accumulator could wrap; fragments are treated like whole packets, as in the code, which never looks at the fragment offset.
- Checksum.UpdateIsRecompute: data of up to 131074 bytes and fields of up to 65536 bytes, beyond which the 32-bit accumulator could wrap, and fields at even offsets.
- Frame.UdpChecksumGood: payloads of up to 131000 bytes, for the same reason.
- Debug builds, which stop at an arithmetic overflow: additions wrap, as in a release build.
- Pool.AddressPool.Release: asks for an address of the pool's range, as its callers guarantee.
- Neighbor.NeighborTable.Resolve: the bytes of ARP requests are not modelled, only that one is built and for which address.
- Admission: the step system leaves out the guard for a known gateway, and everything after the check except that the packet goes on.
- DhcpExchange.FourMessages: the servers' calls are serialised here; their interleaving is the subject of module Leases.
- One-line accessors (`lookup`, `insert` and `remove` of the tables, `states`) have no row: the theorems speak of the tables themselves.
- `ObjectPool`, `Bitmask`, the forwarding database, DNS headers, netmask helpers and `assign_ports`: bookkeeping that would add only easy members.
- IPv6, ARP packet bytes and DNS views.
