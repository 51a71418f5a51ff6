# Heap allocator and network daemon: a verified model

This project models three parts of the repository in Dafny and proves what they promise.

**The userland heap** (`include/libc.h:2001-2213`). `HeapSpec` describes a heap as free blocks in
list order, live blocks by address, and the regions obtained from `sbrk`; every operation is a function on
such heaps. `HeapLaws` and `HeapTheorems` prove the allocator's promises about those functions, call by call and
over every run. `UHeapModule` is the allocator as it runs: a word-addressed memory in which headers, the
list and payloads live together, and methods that follow the C code's pointer reads and writes. Each
method is proved to carry out the function of `HeapSpec`, and to leave alone what callers own.
`HeapMemory`, `HeapCoalescing` and `HeapCalls` hold the lemmas that connect the two, and `HeapProgress` says when requests
succeed.

**The network daemon** (`src/arp.c`, `src/ip.c`, `src/icmp.c`, `src/udp.c`, `src/dhcp.c`, `src/dns.c`,
`inet_cksum` in `include/netd.h`). `Host.NetState` is `g_net` as a class; each C function is a `Run...`
method on it, proved equal to a step function on the value `Host.State`, including every frame it sends.
`Receive.Perform` gathers the steps into one. `Routing` says where frames go, `Ignored` what is not reacted to. On top stand
runs of one daemon (`DhcpRuns`, `DhcpRequests`, `DnsRuns`, `HostRuns`), a link with any number of daemons and with
machines that run other code (`Network`), and exchanges between two daemons (`EndToEnd`).

**Numbers and text** (`include/libc.h:229-371` and `1677-1730`). `Numbers` and `Format`, with `NumberTexts` and
`FormatTexts` for whole texts and whole formats.

Conventions. A time is a parameter of the step that reads the clock; a frame reception reads it twice, when it
learns the sender and when it sends. The answer of `sbrk` is a parameter of `malloc` and `realloc`: failure, or
8-aligned memory never handed out before and ending below 2^63. A pointer with address 0 is NULL. A text is the sequence of
characters in front of its NUL.

Where the code differs from what one may expect, the model follows the code:

- `realloc` that shrinks splits without coalescing, so adjacent free blocks can remain until the next `free`;
  `HeapTheorems.ReallocKeepsCoalesced` says exactly when.
- A `malloc` or `realloc` request above 2^64 - 16 wraps around to size 0 (`MallocCoversRequest`, `ReallocCoversRequest`).
- The ARP cache orders learns of one millisecond by slot number. Its completeness is two bounds that hold whatever the
  clock does (`ArpCache.LookupBounds`), and an exact condition in terms of the slots (`ArpCache.LookupIsExact`). When no
  other learn shares the millisecond of the one in question it is simply fifteen others since (`LookupIsComplete`);
  `OneMillisecondEvicts` is a history in which a shared millisecond loses an address after one other learn.
- `dns_build_query` with an empty name and 12 to 16 bytes of room would write 17 bytes (`Dns.QueryFits`).
- `snprintf` with size 0 returns 0, not the length of the output.
- `ip_rx` learns a sender even when its source address is 0; the network theorem therefore speaks of nonzero addresses.

## Model

| member | source | states |
|---|---|---|
| `HeapSpec.AlignCovers` | include/libc.h:2019-2021 | rounding to 16 covers the request by less than 16 bytes, exactly when n + 15 does not wrap in 64 bits |
| `HeapLaws.CoalesceMerges` | include/libc.h:2054-2072 | merging neighbours keeps the list ordered, keeps its set of bytes and its total of header and payload bytes, and leaves no block that ends where the next begins |
| `HeapLaws.CoalescedIsUnique` | include/libc.h:2048-2053 | a maximally coalesced ordered list is determined by the bytes it covers |
| `HeapLaws.SplitKeepsInv` | include/libc.h:2092-2106 | splitting a live block keeps all blocks apart and the kernel regions exactly tiled, byte for byte |
| `HeapLaws.TakeKeepsInv` | include/libc.h:2117-2121 | unlinking a free block and handing it out keeps the invariant and the set of bytes |
| `HeapLaws.GrowKeepsInv` | include/libc.h:2081-2089 | a fresh kernel region becomes one live block apart from all others, and the tiling extends to it |
| `HeapLaws.AbsorbKeepsInv` | include/libc.h:2196-2203 | absorbing the next free block keeps the tiling and the set of bytes |
| `HeapLaws.FreeKeepsInv` | include/libc.h:2137-2145 | free keeps the invariant, adds exactly the freed block to the free bytes and to the free total, and leaves the free list maximally coalesced |
| `HeapTheorems.KernelSlack` | include/libc.h:2074-2090 | a kernel request always leaves exactly 8 spare bytes, so a fresh block is never split |
| `HeapTheorems.MallocMeetsRequest` | include/libc.h:2108-2135 | malloc either fails and changes nothing, or hands out a new 8-aligned live block of the rounded size plus less than 56 bytes, with every other live block untouched and the invariant kept |
| `HeapTheorems.MallocCoversRequest` | include/libc.h:2108-2135 | a block from malloc is as large as asked for if and only if n <= 2^64 - 16 |
| `HeapTheorems.MallocIsFirstFit` | include/libc.h:2112-2134 | malloc succeeds without the kernel if and only if some free block is large enough, and the block it then returns is the lowest such one |
| `HeapTheorems.MallocKeepsCoalesced` | include/libc.h:2108-2135 | malloc never makes two free blocks adjacent |
| `HeapTheorems.FreedMemoryIsReused` | include/libc.h:2137-2145 | after a free, a request that fits the freed block succeeds without a kernel call |
| `HeapTheorems.FreeUndoesMalloc` | include/libc.h:2108-2145 | on a coalesced heap, freeing what malloc took from the list restores the same heap, block for block |
| `HeapTheorems.PayloadIsPrivate` | include/libc.h:2024-2034 | a byte of a live payload lies in no other live block, no free block and no header, and in a kernel region |
| `HeapTheorems.ReallocMeetsRequest` | include/libc.h:2158-2213 | realloc of a live block either fails and changes nothing, or replaces just that block by one of at least the rounded size; the invariant is kept |
| `HeapTheorems.ReallocCoversRequest` | include/libc.h:2165-2171 | the block from realloc is as large as asked for if and only if n <= 2^64 - 16; beyond that the code splits the old block down to size 0 |
| `HeapTheorems.ReallocKeepsCoalesced` | include/libc.h:2158-2213 | realloc keeps the list coalesced if and only if it does not split a block off in front of a free block |
| `HeapTheorems.RunKeepsInv` | include/libc.h:2024-2213 | in every run of malloc, free and realloc from an empty heap the blocks tile the kernel regions exactly and never overlap |
| `HeapTheorems.RunKeepsCoalesced` | include/libc.h:2048-2072 | in every run without a realloc that shrinks in front of a free block the free list is coalesced after every call |
| `HeapProgress.RefusedWhen` | include/libc.h:2074-2079 | the two overflow tests refuse exactly rounded sizes of 2^64 - 32 and more; otherwise the kernel is asked for 32 bytes more |
| `HeapProgress.MallocFailsWhen` | include/libc.h:2108-2135 | malloc returns NULL if and only if no free block is large enough and the kernel gives nothing (fails, or the rounded size is at least 2^64 - 32) |
| `HeapProgress.MallocFromKernel` | include/libc.h:2130-2134 | with no block large enough, the answer m of the kernel becomes a block of the rounded size plus 8 at m + 24, and the free list stays |
| `HeapProgress.ReallocFits` | include/libc.h:2167-2171 | a request that fits stays where it is, with less than 56 bytes too many |
| `HeapProgress.ReallocGrowsInPlace` | include/libc.h:2173-2204 | if the block behind is free and the two together suffice, realloc succeeds where it is, whatever the kernel answers |
| `HeapProgress.ReallocFailsWhen` | include/libc.h:2206-2212 | otherwise realloc returns NULL if and only if malloc would; else it returns that block, less than 56 bytes too large, and the old one is no longer live |
| `HeapProgress.ReallocToNothing` | include/libc.h:2160 | realloc to size 0 returns NULL and frees the block: its bytes are free, and the list is coalesced |
| `HeapProgress.ReallocOfNothing` | include/libc.h:2159-2163 | realloc of NULL is malloc; of a block that is not live it fails and changes nothing |
| `UHeapModule.UHeap.constructor` | include/libc.h:2017 | an empty list over arbitrary memory represents the empty heap |
| `HeapCalls.FreeBuries` | include/libc.h:2054-2072 | inserting and coalescing leave the freed header, and every header buried before, marked free or without its magic inside free memory |
| `HeapCalls.BuriedIsStale` | include/libc.h:2140-2141 | a buried header fails one of the two tests at the start of free |
| `UHeapModule.UHeap.InsertFree` | include/libc.h:2024-2034 | the pointer-to-pointer loop inserts the block in address order and changes only free memory and the list head |
| `UHeapModule.UHeap.FindPlace` | include/libc.h:2028-2031 | the slot loop ends at the place of the block in address order |
| `UHeapModule.UHeap.CoalesceFree` | include/libc.h:2054-2072 | the in-place merge loop computes the coalesced list, terminates, changes only free memory, and leaves every former block marked free or without magic |
| `UHeapModule.UHeap.MergeWalk` | include/libc.h:2055-2071 | the loop, over memory words, reaches the end of the list with every pair of neighbours joined |
| `UHeapModule.UHeap.CoalesceTurn` | include/libc.h:2056-2070 | one turn merges exactly when the blocks touch, and brings the end nearer |
| `UHeapModule.UHeap.Free` | include/libc.h:2137-2145 | free is the abstract free; other payloads and all memory outside the regions are kept; afterwards the header reads as not live, and freeing such a pointer (a second free) changes no word of memory; every header buried in free memory stays so through later frees of any other blocks |
| `UHeapModule.UHeap.SplitIfNeeded` | include/libc.h:2092-2106 | the header writes carry out the abstract split and change nothing but free memory and the size field |
| `UHeapModule.UHeap.RequestFromKernel` | include/libc.h:2074-2090 | refuses or fails without a change, or writes one header in front of the new region |
| `UHeapModule.UHeap.Malloc` | include/libc.h:2108-2135 | the list search returns what the abstract first fit returns, and no live payload changes |
| `UHeapModule.UHeap.TakeFit` | include/libc.h:2117-2125 | unlink and split the block found |
| `UHeapModule.UHeap.TakeFresh` | include/libc.h:2130-2134 | the block comes from the kernel, or the call fails |
| `UHeapModule.UHeap.OnFreeList` | include/libc.h:2182-2189 | the membership loop is true exactly for free blocks |
| `UHeapModule.UHeap.RemoveFree` | include/libc.h:2036-2046 | unlinks the block if and only if the list holds it |
| `UHeapModule.UHeap.CopyPayload` | include/libc.h:2207-2209 | the copy makes the words of the new payload equal to the old ones and changes nothing else |
| `UHeapModule.UHeap.Store` | include/libc.h:2023-2034 | a client write to a live payload keeps the representation and every other payload |
| `UHeapModule.UHeap.Realloc` | include/libc.h:2158-2213 | on all paths realloc is the abstract realloc; on success the first min(old block, new block) payload words are the old ones and every other live payload is unchanged; on NULL for a nonzero size the heap and all payloads are unchanged |
| `UHeapModule.UHeap.ReallocLive` | include/libc.h:2165-2212 | the three paths for a live block and a nonzero size |
| `UHeapModule.UHeap.AbsorbNext` | include/libc.h:2191-2204 | growing in place: the block absorbs the free block behind it, contents kept |
| `UHeapModule.UHeap.AbsorbBlock` | include/libc.h:2198-2201 | unlink, wipe the magic, grow the size: the abstract absorption, no payload changed |
| `UHeapModule.UHeap.MoveTo` | include/libc.h:2206-2212 | moving: allocate, copy, free the old block, contents kept |
| `Bits.AndAgrees` | src/ip.c:16 | two numbers agree under a mask if and only if they agree in every bit the mask selects |
| `Bits.AndPrefixMask` | src/ip.c:16 | a mask of leading ones clears the low bits and nothing else |
| `Bits.XorTwice` | src/dhcp.c:81 | exclusive or with the same number twice gives the first number back |
| `Bytes.SwappedStoreIsNetworkOrder` | include/netd.h:5-10 | htons and htonl are their own inverses, and storing their result in little-endian order writes the big-endian bytes |
| `Checksum.FoldKeepsOnesValue` | include/netd.h:124 | a carry fold keeps the ones-complement value; at most two folds are needed |
| `Checksum.SumWords` | include/netd.h:120-123 | the 32-bit accumulator holds the exact sum of the words up to 131074 bytes |
| `Checksum.InetCksum` | include/netd.h:119-126 | inet_cksum is the complement of the ones-complement sum of RFC 1071 |
| `Checksum.VerifiesMeans` | include/netd.h:119-126 | a recomputed checksum is 0 if and only if the word sum is a nonzero multiple of 65535 |
| `Checksum.StoredChecksumVerifies` | include/netd.h:119-126 | storing the checksum big-endian in a zeroed field at an even offset makes the recomputation 0, odd lengths included |
| `ArpCache.LearnKeepsUnique` | src/arp.c:11-34 | no two valid slots hold the same address |
| `ArpCache.FreshEvictedLast` | src/arp.c:20-33 | in every history with a clock that does not run backwards, an unexpired entry is evicted only when every slot is valid and unexpired |
| `ArpCache.ReplayFaithful` | src/arp.c:11-48 | in every history each valid slot carries the latest learn of its address |
| `ArpCache.LookupIsSound` | src/arp.c:36-48 | a successful lookup returns the most recent learn, made less than 30000 ms ago |
| `ArpCache.LookupBounds` | src/arp.c:11-48 | whatever the clock does, an address learned less than 30000 ms ago and not flushed since is found if at most 15 others were learned at that time or later, and is gone if 16 were learned later |
| `ArpCache.LookupIsExact` | src/arp.c:11-48 | the exact condition for any clock: it is found if and only if it was still cached when its millisecond ended and the addresses learned later, with those that stood in slots behind it in that millisecond, are at most 15 |
| `ArpCache.LookupIsComplete` | src/arp.c:11-48 | if no other learn shares its millisecond, it is found if and only if at most 15 other addresses were learned since |
| `ArpCache.OneMillisecondEvicts` | src/arp.c:11-48 | without that condition it fails: sixteen addresses, the first again, and a new one in one millisecond; one other address was learned since the first was, and the first is gone |
| `Arp.ArpFrameFields` | src/arp.c:50-72 | every field of a sent ARP frame is read back: Ethernet header, hardware and protocol types and sizes, operation, both address pairs |
| `Arp.RunLearn` | src/arp.c:11-34 | the slot loops carry out the abstract learn and touch nothing else |
| `Arp.VictimSlot` | src/arp.c:20-29 | the search returns the first free slot, or else the first of the oldest |
| `Arp.RunLookup` | src/arp.c:36-48 | the lookup loop returns the abstract answer and drops an expired entry |
| `Arp.RunArpSend` | src/arp.c:50-72 | the frame buffer, filled field by field, is the ARP frame |
| `Arp.RunArpAnnounce` | src/arp.c:74-77 | a gratuitous request for the own address is sent |
| `Arp.RunArpRequest` | src/arp.c:79-81 | a broadcast request for the address is sent |
| `Arp.RunArpRx` | src/arp.c:83-98 | arp_rx learns the sender and answers exactly requests for its own nonzero address |
| `Host.NetState.constructor` | include/netd.h:78-116 | the zeroed state has sixteen empty cache slots and sixteen unused bindings, and is well formed |
| `Ip.HeaderVerifies` | src/ip.c:35-47 | every header sent passes the receiver's checksum test |
| `Ip.IpFrameFields` | src/ip.c:27-51 | what ip_rx reads from a frame of ip_tx is what was sent: addresses, protocol, lengths, payload |
| `Routing.HopIsRight` | src/ip.c:14-17 | the next hop is the destination without a gateway or on the own network, bit for bit under the netmask, and otherwise the gateway |
| `Routing.OnLinkWhen` | src/ip.c:16-17 | under a mask of 32 - k ones the own network is the addresses with the same quotient by 2^k |
| `Routing.HopWhen` | src/ip.c:14-17 | so the gateway is used if and only if there is one and those quotients differ |
| `Routing.BroadcastLeaves` | src/ip.c:19-51 | a broadcast leaves as one frame to everyone, without a lookup |
| `Routing.UnicastLeaves` | src/ip.c:19-51 | a resolved next hop gets the one frame itself; for an unresolved one a request for just that hop goes out, and the frame to everyone behind it; the identification counts up |
| `Routing.FrameRest` | src/ip.c:35-47 | version, header length, service type, identification, fragment field, time to live and checksum of a sent header |
| `Ip.RunIpTx` | src/ip.c:9-52 | next hop, lookup, request and broadcast fallback: ip_tx sends exactly the frames of the abstract step |
| `Ip.RunEmit` | src/ip.c:27-51 | the frame is sent and the 16-bit identification counter advances with wrap-around |
| `Ip.BuildFrame` | src/ip.c:27-49 | the buffer, filled front to back, is the Ethernet header, IP header and payload |
| `Ip.BuildHeader` | src/ip.c:35-47 | the in-place header with its checksum is the abstract header |
| `Icmp.EchoReplyIsFaithful` | src/icmp.c:11-21 | an echo reply verifies, has type and code 0, and returns identifier, sequence number and data of the request, up to 1500 bytes |
| `Icmp.PingMessageFields` | src/icmp.c:33-42 | a ping verifies and carries type 8, code 0, its identifier, its sequence number and its eight bytes |
| `Icmp.RunIcmpRx` | src/icmp.c:5-31 | icmp_rx answers requests and completes exactly the matching ping |
| `Icmp.BuildReply` | src/icmp.c:11-20 | the reply buffer, patched in place, is the reply |
| `Icmp.RunIcmpPing` | src/icmp.c:33-48 | icmp_ping records the ping as open and sends the message |
| `Udp.BindLaw` | src/udp.c:5-19 | bind fails if and only if the port is unbound and sixteen are bound; it is idempotent; a new binding starts empty whatever the slot held; no other mailbox changes |
| `Udp.UnbindLaw` | src/udp.c:21-28 | the port is unbound and no other mailbox changes |
| `Udp.DeliverLaw` | src/udp.c:66-78 | a delivery replaces the waiting datagram of a bound port, clipped to 2048 bytes, and no other mailbox |
| `Udp.RecvLaw` | src/udp.c:81-95 | recv returns the waiting datagram once, clipped to the room given |
| `Udp.UdpPacketFields` | src/udp.c:30-45 | ports, length, the zero checksum and the data are read back as written |
| `Udp.RunBind` | src/udp.c:5-19 | the two slot loops carry out the abstract bind |
| `Udp.RunUnbind` | src/udp.c:21-28 | the slot loop carries out the abstract unbind |
| `Udp.RunDeliver` | src/udp.c:66-78 | the delivery loop carries out the abstract delivery |
| `Udp.RunRecv` | src/udp.c:81-95 | the receive loop carries out the abstract receive |
| `Udp.RunUdpTx` | src/udp.c:30-45 | more than 1472 bytes are refused and nothing is sent; otherwise the datagram goes to ip_tx |
| `DhcpOptions.ReadersMeetSpec` | src/dhcp.c:93-121 | on any well-formed option list with pads and an END the readers return the first option with the tag and enough bytes, or 0 |
| `DhcpOptions.OptionsRoundTrip` | src/dhcp.c:56-73 | the readers recover message type, requested address and server from what dhcp_send writes, 0 for what it omits |
| `DhcpOptions.RunGetOpt32` | src/dhcp.c:93-107 | the index loop computes the abstract reader and terminates |
| `DhcpOptions.RunGetMsgType` | src/dhcp.c:109-121 | the index loop computes the abstract reader and terminates |
| `Dhcp.ClientMessageFields` | src/dhcp.c:42-78 | a server that reads a client message finds operation, hardware type, session, broadcast flag, hardware address, cookie, type, end mark and addresses, and zeros elsewhere |
| `Dhcp.BuildMessage` | src/dhcp.c:42-75 | the packet buffer holds exactly the client message |
| `Dhcp.RunDhcpSend` | src/dhcp.c:42-78 | the message goes out as a broadcast datagram from port 68 to port 67 |
| `Dhcp.RunReply` | src/dhcp.c:132-180 | for a reply of the session: OFFER in DISCOVER, ACK in REQUEST, NAK in any state, nothing else |
| `Dhcp.RunDhcpStart` | src/dhcp.c:80-91 | dhcp_start resets the configuration and opens a session |
| `Dhcp.RunDhcpRx` | src/dhcp.c:123-181 | dhcp_rx moves the state and configuration as the abstract step does, on every input |
| `DhcpRuns.StartBegins` | src/dhcp.c:80-91 | after dhcp_start the state is DISCOVER, all four addresses are 0, and the session number comes from the clock |
| `DhcpRuns.StepLease` | src/dhcp.c:123-181 | whatever the daemon does, its lease moves only as the client automaton allows |
| `DhcpRuns.RankNeverDecreases` | src/dhcp.c:142-180 | DISCOVER < REQUEST < BOUND < FAILED never goes back, and the session number never changes |
| `DhcpRuns.OneOffer` | src/dhcp.c:142-153 | at most one OFFER is accepted in a session |
| `DhcpRuns.BoundMeansLeased` | src/dhcp.c:123-181 | in every run from dhcp_start the address is 0 before BOUND, BOUND rests on an accepted OFFER and a later ACK of the session, and the configuration is the ACK's with the stated defaults |
| `DhcpRequests.OfferSendsRequest` | src/dhcp.c:142-153 | an accepted OFFER is answered with one broadcast REQUEST for its address, naming its server, as a receiver parses it |
| `DhcpRequests.DiscoverIsSent` | src/dhcp.c:80-91 | dhcp_start broadcasts one DISCOVER of the new session from address 0, as its receivers parse it; port 68 is then bound unless all sixteen slots serve other ports |
| `DhcpRequests.SessionsDiffer` | src/dhcp.c:81 | sessions started at different times, modulo 2^32 ms, have different numbers |
| `DhcpRequests.OnlyOffersSend` | src/dhcp.c:42-78 | if the daemon's clients send no datagram to port 67 themselves, no other step sends anything to a DHCP server |
| `DhcpRequests.OneRequest` | src/dhcp.c:142-153 | over a whole run in which the daemon's clients send no datagram to port 67 themselves, at most one REQUEST is sent, by the step that accepts the OFFER |
| `Dns.QueryFits` | src/dns.c:7-37 | for a nonempty name -1 is returned if and only if the full encoding would reach max; nothing passes max except for an empty name with 12 <= max < 17 |
| `Dns.EncodesLabels` | src/dns.c:19-31 | dotted labels of 1 to 63 bytes without a dot inside, with or without a trailing dot, are encoded as RFC 1035 writes them |
| `Dns.WireDecodes` | src/dns.c:19-32 | an encoded name decodes to its labels |
| `Dns.WireWalk` | src/dns.c:56-61 | the question walk over an encoded name ends right behind the question |
| `Dns.QueryRoundTrip` | src/dns.c:7-61 | a built query decodes to the labels asked for, carries its number, flags, one question of type A and class IN and no records, and the walk of dns_rx ends on the returned length |
| `Dns.ResponseSettles` | src/dns.c:44-82 | every response to the open query, whatever its bytes, sets dns_done, and a failure leaves the result alone |
| `Dns.FindsFirstAddress` | src/dns.c:63-81 | the answer loop over serialized records finds the first TYPE 1 record of 4 bytes |
| `Dns.ResponseIsUnderstood` | src/dns.c:40-83 | dns_rx inverts a serializer of responses: the address of the first A record, or -1 if there is none |
| `Ignored.DnsIgnores` | src/dns.c:42-49 | a message that is too short, has another number, or lacks the response bit changes nothing |
| `Ignored.DnsEmptyFails` | src/dns.c:50 | a response to the open query without records fails it |
| `DnsRuns.DnsMovesWhen` | src/dns.c:40-83 | apart from starting a query, a step moves the resolver only by a datagram from port 53 with the open number and the response bit |
| `DnsRuns.ChangedMeansAnswered` | src/dns.c:40-96 | in every run, between two queries, a changed resolver state was made by the last such datagram |
| `Ignored.ResolveNeedsConfig` | src/dns.c:86 | without a server or an address nothing is asked, and the last answer stays |
| `Ignored.ResolveNeedsRoom` | src/dns.c:88-94 | a name that does not fit sends nothing |
| `Dns.RunBuildQuery` | src/dns.c:7-37 | the moving write pointer produces the abstract query within the buffer |
| `Dns.WriteName` | src/dns.c:19-31 | the label loop writes the encoded name, or stops exactly when it cannot fit |
| `Dns.RunDnsRx` | src/dns.c:40-83 | the moving read pointer computes the abstract parse, reading only inside the message |
| `Receive.RunUdpRx` | src/udp.c:47-79 | udp_rx routes to DHCP, DNS or the port table |
| `Receive.RunIpRx` | src/ip.c:54-83 | ip_rx filters, learns the sender, and dispatches |
| `Receive.RunDispatch` | src/ip.c:73-82 | the protocol switch |
| `Receive.RunRxOnce` | src/main.c:7-16 | one received frame is one abstract receive step |
| `Ignored.FrameIgnored` | src/ip.c:54-70 | frames of other types, cut off, for somebody else or empty change nothing and are not even learned from |
| `Ignored.OtherProtocolTeaches` | src/ip.c:72-82 | a frame of another protocol only teaches its sender |
| `Ignored.ForeignFrameArrives` | src/ip.c:54-83 | a frame with IP options and padding from any machine delivers just its payload |
| `Ignored.PaddedDatagram` | src/udp.c:47-79 | bytes behind a datagram are not part of it; port 68 goes to DHCP, then sender port 53 to DNS, the rest to the mailboxes |
| `Ignored.UdpIgnores` | src/udp.c:47-79 | a cut off or empty datagram, or one for an unbound port, changes nothing |
| `Ignored.UdpTooLarge` | src/udp.c:36 | more than 1472 bytes are not sent |
| `Ignored.ArpAnswersOwn` | src/arp.c:83-98 | a reply is sent if and only if the frame is a request for the own nonzero address; it goes to the asker and names the owner; senders with address 0 are not learned |
| `Ignored.IcmpIgnores` | src/icmp.c:5-31 | short messages, other types, and replies with other numbers change nothing |
| `Ignored.IcmpPingState` | src/icmp.c:24-30 | only a reply with the numbers of the last ping completes it |
| `Ignored.PingIsOpen` | src/icmp.c:44-48 | icmp_ping leaves its numbers and no reply |
| `Ignored.DhcpIgnores` | src/dhcp.c:123-132 | a message that is too short, no reply, of another session, or without the cookie changes nothing |
| `Ignored.ConfigureAnnounces` | src/api.c:251-264 | an address set by hand is announced |
| `Receive.RunDnsQuery` | src/dns.c:85-96 | the sending half of dns_resolve |
| `Sent.IpTxSends` | src/ip.c:9-52 | ip_tx sends one frame that reads back as sent, after at most one ARP request; a broadcast needs none |
| `Sent.PerformSpeaks` | src/ip.c:27-51 | whatever a daemon does, every frame it sends is sound and carries its own address pair |
| `HostRuns.RunKeepsMailboxes` | src/udp.c:47-79 | in every run ports stay distinct and no waiting datagram has destination port 68 or source port 53 |
| `HostRuns.CacheIsReplay` | src/arp.c:11-98 | in every run the cache is what its log of learns, lookups and flushes makes of an empty one, and addresses in it stay unique |
| `HostRuns.ResolvesToLastHeard` | src/arp.c:36-98 | in every run an address resolves to what the last frame that told of it said, less than 30000 ms ago |
| `HostRuns.ResolvesWhatWasHeard` | src/arp.c:11-98 | in every run, whatever the clock does, an address heard less than 30000 ms ago with no flush since resolves if at most 15 others were heard at that time or later, and not if 16 were heard later |
| `HostRuns.ResolvesExactly` | src/arp.c:11-98 | in every run, for any clock, it resolves if and only if it was still cached when its millisecond ended and those heard later, with those behind it then, are at most 15 |
| `HostRuns.ResolvesWhenAlone` | src/arp.c:11-98 | in every run, if nothing else was heard in its millisecond, it resolves if and only if at most 15 others were heard since |
| `Network.PerformStaysTrue` | src/arp.c:83-98 | a daemon that hears only truthful frames keeps only true entries, whatever it does |
| `Network.StepIsSafe` | src/ip.c:54-83 | each step of any number of daemons, and of truthful outsiders, keeps all frames and caches true |
| `Network.RunIsSafe` | src/arp.c:50-98 | in every run of any number of daemons every frame ever sent carries its sender's true pair or source 0, and every cache entry for a nonzero address names its owner |
| `Network.UnicastGoesToOwner` | src/ip.c:14-25 | in every run a frame of ip_tx goes to the owner of the next hop, told by netmask and gateway, or to everyone |
| `EndToEnd.FrameArrives` | src/ip.c:9-83 | what one host's ip_tx emits, another's ip_rx hands on unchanged, or ignores if it is not addressed |
| `EndToEnd.DatagramArrives` | src/udp.c:30-95 | 1 to 1472 bytes from udp_tx come out of udp_recv with sender address and port; no other mailbox changes; they come out once |
| `EndToEnd.PingIsEchoed` | src/icmp.c:5-48 | a ping makes its target send an echo reply to the asker, with the request's numbers and data |
| `EndToEnd.PingIsAnswered` | src/icmp.c:5-48 | that reply completes the ping with the target's address |
| `EndToEnd.ResolutionCompletes` | src/arp.c:79-98 | the owner of an address answers a request, to the asker, and for 30000 ms the asker resolves the address to it; the owner has learned the asker |
| `EndToEnd.OfferIsTaken` | src/dhcp.c:123-153 | a server frame with the session number, the cookie and any well-formed option list that names an OFFER moves a client from DISCOVER to REQUEST |
| `EndToEnd.AckIsTaken` | src/dhcp.c:123-173 | such an ACK moves it from REQUEST to BOUND with exactly the listed mask, router and DNS or the defaults, and announces the address |
| `EndToEnd.NakIsTaken` | src/dhcp.c:177-180 | a NAK of the session moves every phase to FAILED and changes nothing else |
| `EndToEnd.OutOfPlaceIsIgnored` | src/dhcp.c:142-180 | an OFFER or ACK in another phase, and other types, change nothing but the address cache |
| `EndToEnd.LeaseIsObtained` | src/dhcp.c:80-173 | dhcp_start, an OFFER and an ACK from any servers end in BOUND with the ACK's values |
| `EndToEnd.QueryArrives` | src/dns.c:85-96 | the datagram dns_resolve sends to its server decodes to the labels asked for |
| `EndToEnd.NameIsResolved` | src/dns.c:40-116 | a server that answers the number and labels it reads in the query makes dns_resolve return the first address among its records, or fail if there is none |
| `Numbers.NumeralDenotes` | include/libc.h:238-247 | the digits of a number denote it, and only zero starts with a zero |
| `Numbers.StrtolReadsUlltoa` | include/libc.h:1677-1730 | strtol reads back ulltoa in every base 2 to 16 and either case if and only if the number is at most 2^63 - 1, and consumes the whole text |
| `Numbers.AtoiReadsItoa` | include/libc.h:229-252 | atoi reads back itoa for every int except INT_MIN |
| `Numbers.NumeralsDiffer` | include/libc.h:238-247 | different numbers have different texts |
| `NumberTexts.StrtolReads` | include/libc.h:1677-1730 | strtol of any text - blanks, sign, prefix, digits, rest, in any base or base 0 - is the signed value of the digits or overflow, and it stops behind them |
| `NumberTexts.AtoiReads` | include/libc.h:229-235 | the same for atoi |
| `NumberTexts.StrtolReadsNumeral` | include/libc.h:1677-1730 | a numeral with blanks, a sign and a prefix is read back in its base and in base 0 |
| `NumberTexts.StrtolReadsItoa` | include/libc.h:249-252 | strtol reads back every itoa, INT_MIN included: the number in base ten, its unsigned bits in other bases |
| `Numbers.RunUlltoa` | include/libc.h:238-247 | filling and reversing in place writes the numeral and a NUL, and nothing else |
| `Numbers.ReverseRange` | include/libc.h:244-246 | the two-pointer swap loop reverses the range |
| `Numbers.RunItoa` | include/libc.h:249-252 | the buffer holds the sign and the numeral, or in other bases than ten the numeral of the unsigned bits |
| `Numbers.RunStrtol` | include/libc.h:1677-1730 | blanks, sign, prefix, digits and end position as specified by the value of the digit run |
| `Numbers.RunAtoi` | include/libc.h:229-235 | blanks, sign and digits as specified by the value of the digit run |
| `Format.PrintedIntIsReadBack` | include/libc.h:292-311 | what %d prints, atoi reads |
| `Format.PrintedHexIsReadBack` | include/libc.h:321-331 | what %lx and %lX print, strtol reads |
| `Format.FitsScratch` | include/libc.h:266-360 | every number fits the 64-byte scratch buffer, in at most 20 digits |
| `FormatTexts.FormatPrints` | include/libc.h:256-371 | a format spelled from any pieces - text, %%, unknown letters, %s, %c, %d, %i, %u, %x, %X with modifiers, %p, a lone % at the end - prints the pieces one after the other |
| `Format.Snprintf` | include/libc.h:256-371 | returns the length of the whole output, writes exactly its first size - 1 characters and a NUL, and leaves the rest of the buffer alone; size 0 returns 0 |

## Left out

- Device I/O (`src/driver.c`), the polling loops and fallback timing of `src/main.c`, and status codes of `driver_tx`: a frame sent is appended to a sequence, a frame received is a parameter.
- `sbrk` itself: only its contract appears, as a parameter; that a total of 2^63 or more is negative as `intptr_t` is covered by the contract's failure case.
- `calloc`: `malloc` followed by a clearing loop.
- `src/api.c`: struct copying and dispatch over functions modelled here, and its wait loops. ARP flush and SET_IP are operations of `Receive.Perform`.
- The waiting loop of `dns_resolve`: its receptions are ordinary receive steps, its result is `Receive.DnsAnswer`.
- `dhcp_build_base`: never called.
- Frames whose length fields exceed the bytes received: excluded by `Receive.Deliverable`, which every frame these daemons send meets (`Sent.PerformSpeaks`). A frame shorter than 14 bytes is ignored, although `rx_once` looks at the type field without a length test.
- Option values that a packet's end cuts off: the bytes behind the end read as 0 in `DhcpOptions`.
- Compressed names in a DNS question, names that mix labels with a pointer, and labels over 63 bytes: outside the round-trip theorems; `Dns.ResponseSettles` and `Dns.RunDnsRx` cover all bytes.
- UDP receive buffers keep old bytes behind the length of the waiting datagram; the model holds the waiting bytes only, since nothing reads the others.
- Padding of a short payload's last word: heap memory is a map of 8-byte words, so payload contents are compared word by word, not byte by byte, and `memcpy` copies words.
- Freeing a pointer that never was a payload, or calling `realloc` on a freed one whose header still carries the magic value: callers' errors that the code does not detect; the contracts exclude them. A second `free` is not excluded, right away or after frees of other blocks; after the memory has been handed out again it is such an error.
- `int` overflow of the length `snprintf` counts, the most negative `int` or `long` under `%d`, and arguments that do not match the format: undefined in C, excluded by the contract of `Format.Snprintf`.
- `strtol` with a negative base. Overflow in `strtol` and `atoi` is reported as `None`, since it is undefined in C.
- DhcpRequests.OneRequest: assumes that clients of the daemon send no datagram to port 67 themselves; `udp_tx` would let them.
- DhcpRequests.OnlyOffersSend: the same assumption, for one step.
- Network.RunIsSafe: assumes that machines running other code send only their own addresses, and that daemons are configured only with addresses of their own; ARP itself does not check either.
- Printing other than `snprintf` (`printf`, `print_ulong` and the like), `sscanf`, string helpers, system calls, graphics, examples and build files.
