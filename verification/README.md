# Proofs about the simple router

The repository holds a software router in C that talks to a virtual network
server in Python. This project models the router's core and the wire format
between the two programs, and proves what they do on every input and over every
run. `dafny verify dfyconfig.toml` checks all of it.

## What is modelled

- **ARP resolution.** `ArpMachine` is the cache as a state machine: a table of
  100 slots, a list of pending requests with their packets, a clock and a log of
  everything observable. The packet thread takes one step per critical section
  and one per unlocked action; the timeout thread's tick, which holds the lock
  throughout, is a single step. A run is any sequence of steps; a step that is not
  possible leaves the state alone. `ArpSafety`, `ArpHistory`,
  `ArpTraffic` and `ArpRetry` prove invariants of every reachable state and
  claims about every log. `ArpLimit` and `ArpPace` settle the retry limit and its
  pace exactly; `ArpTable` says how long an answer stays and has runs that show the
  limits of the table; `ArpSteps` says what each step does to one address or slot.
- **The same in memory.** `ArpHeap` has the table as an array and the requests as
  linked nodes (`Links`) that are relinked and removed through pointers. `Router` has the
  handlers, which rewrite packet buffers in place, call the cache and sweep the
  list while nodes under the cursor disappear. Every method is proved to do to
  the heap what the machine does to its state, so the claims about runs carry
  over to any sequence of calls (`Router.Drive`).
- **Frames and decisions.** `Frames` works on octets: which frame each path
  builds, and what becomes of a received frame. `Octets` says the same without
  those functions: the layout of every frame and every decision, on octets alone.
  `Network` follows a frame through any number of routers.
- **Routes.** `Routing` has the bitwise route choice and relates it to prefixes;
  `Prefixes` restates it on rows of bits.
- **Checksums.** `Checksum` has both routines with their 32-bit accumulators, on
  a little-endian or a big-endian host, against ones-complement arithmetic
  (RFC 1071).
- **SHA-1.** `Sha1Spec` is the one-shot definition (FIPS PUB 180-1, sections 4, 5
  and 7); `Sha1` is the buffered context, proved to refine it; `Sha1Vector` is the
  standard's first example.
- **The wire.** `VnsWire`, `VnsMessages` and `IfList` have the codecs of the two
  programs and the client's linked interface list. `Session` puts hardware
  messages, packets and ticks together.

Four things the proofs show about the code as it is:

- The limit of five ARP requests holds when no tick falls between queueing and
  the unlocked write that follows. Under arbitrary interleaving it fails in two
  ways: a count that is overwritten (`ArpLimit.InterleavingBreaksLimit`) and a
  send for a request already destroyed (`ArpLimit.StaleReadBreaksLimit`).
  `ArpLimit.LimitKeptOverRun` names exactly the ticks that cause it, and eleven is
  the exact bound (`ArpRetry.AtMostElevenSends`, `ArpLimit.ElevenIsReached`).
- A checksum that is computed over native words and then passed through `htons`
  verifies on a little-endian host only when its two octets happen to be equal
  (`Checksum.WrappedStoreVerifiesIff`, `Network.ForwardedHeaderFails`). Messages
  sealed by `cksum` always verify.
- A full table drops a learned address, and a valid entry in a higher slot hides
  a newer one (`ArpTraffic.LookupAfterInsert`); both happen in runs
  (`ArpTable.FullTableDrops`, `ArpTable.NewerIsHidden`).
- An interface name of sixteen octets or more is not terminated on the wire, and
  the client reads on into the frame (`VnsWire.LongNameRunsOn`).

Where the documentation differs, the model follows the code: waiting packets
leave newest first, not first-in first-out
(`simple-router-project/PROJECT_README.md`, line 249); a 0.0.0.0/0 route is never
chosen (line 260); and checksums are not verified on receipt
(`sr_router.c`, lines 485-492).

## Model

| member | source | states |
|---|---|---|
| `ArpSafety.AlwaysSafe` | simple-router-project/router/sr_arpcache.c:232-346 | In every state of every run, under every interleaving of ticks with the packet thread: pending requests have pairwise distinct addresses, no address is both pending and validly cached, no request is empty, counts stay at most 5, and every queued packet is long enough to quote and has an interface. |
| `ArpSafety.TickSafe` | simple-router-project/router/sr_arpcache.c:427-447 | A tick keeps that invariant wherever the packet thread stands, including between its lookup and its queueing. |
| `ArpSafety.ReceiveSafe` | simple-router-project/router/sr_router.c:612-638 | So does taking up any received frame. |
| `ArpSafety.ProceedSafe` | simple-router-project/router/sr_router.c:409-433 | So does every later step of the packet thread (queue, test, send, write, flush), whatever a read of a freed request yields. |
| `ArpSafety.SweepDescends` | simple-router-project/router/sr_arpcache.c:38-72 | Whatever is in the list after a sweep is the next state of some request that was in it before: a sweep never adds a request. |
| `ArpSafety.SweepOk` | simple-router-project/router/sr_arpcache.c:38-47 | A sweep keeps addresses distinct and requests well formed. |
| `ArpSafety.UnlinkOk` | simple-router-project/router/sr_arpcache.c:314-328 | After an insert the address is no longer pending, and every other request is one that was there. |
| `ArpSafety.QueueOk` | simple-router-project/router/sr_arpcache.c:262-301 | Queueing keeps addresses distinct and requests well formed. |
| `ArpMachine.Lookup` | simple-router-project/router/sr_arpcache.c:232-254 | An answer is a valid entry of the table for that address, and there is none exactly when no valid entry exists. |
| `ArpMachine.FreeSlot` | simple-router-project/router/sr_arpcache.c:330-334 | The first invalid slot: every slot before it is valid. |
| `ArpMachine.Find` | simple-router-project/router/sr_arpcache.c:271-275 | The first request for the address, or the end of the list. |
| `ArpHistory.PacketsAreConserved` | simple-router-project/router/sr_arpcache.c:262-386 | Over every run and for every address, the packets ever queued are, as multisets, exactly those still waiting plus those flushed by a reply plus those retired by a timeout; each leaves once, newest first. |
| `ArpHistory.AlwaysFaithful` | simple-router-project/router/sr_router.c:186-209 | In every reachable state the packets in a request (or left to flush) are, in order, exactly what the log of joins and departures leaves waiting. |
| `ArpHistory.LogConserves` | simple-router-project/router/sr_router.c:193-206 | Any log in which packets leave only newest first conserves packets. |
| `ArpHistory.RetireHistory` | simple-router-project/router/sr_arpcache.c:128-226 | A timeout retires every packet of the request exactly once, in list order, and leaves none waiting. |
| `ArpHistory.SweepHistory` | simple-router-project/router/sr_arpcache.c:38-72 | A sweep of the whole list retires the packets of expired requests and moves no other packet. |
| `ArpTraffic.AlwaysTraced` | simple-router-project/router/sr_router.c:186-209 | Over every run every event has its cause in the log: a frame sent at once answers the frame that has just arrived, or carries on what that frame asked to have resolved, typed as IP and under an address some reply gave; what is learned is what a reply said that has just arrived; a queued packet stems from an arrived frame and leaves, typed as IP, under the address of the last reply for its next hop; an ARP request asks for that next hop, octet by octet as RFC 826 has it, by the interface of the packet queued last; a notice goes to the sender of its packet, from the address of the interface the packet was to leave by, under an address heard for the next hop back, and verifies. |
| `ArpTraffic.SweepCaused` | simple-router-project/router/sr_arpcache.c:81-226 | The same for everything a sweep sends. |
| `ArpTraffic.NoticeCaused` | simple-router-project/router/sr_arpcache.c:128-226 | The same for one notice. |
| `ArpTraffic.AlwaysClean` | simple-router-project/router/sr_vns_comm.c:517-551 | Over every run, given distinct interface addresses: every frame sent on any path passes the source-address check. |
| `ArpTraffic.NoticeClean` | simple-router-project/router/sr_arpcache.c:128-226 | A host-unreachable notice that is sent passes the source-address check. |
| `ArpTraffic.AnswersAreFresh` | simple-router-project/router/sr_arpcache.c:436-443 | Over every run, each lookup answer was recorded by an earlier ARP reply with that address pair, and its age is at most 15 seconds plus the time since the last tick. |
| `ArpTraffic.LookupAfterInsert` | simple-router-project/router/sr_arpcache.c:330-341 | A lookup after an insert gives the new entry exactly when there was a free slot and no valid entry for the address above it; otherwise it gives what it gave before. |
| `ArpTable.NewerIsHidden` | simple-router-project/router/sr_arpcache.c:238-242 | On every router with an interface, for any two addresses, some run ends with a reply that goes into a free slot while the next lookup still gives the older address. |
| `ArpTable.FullTableDrops` | simple-router-project/router/sr_arpcache.c:330-341 | After any hundred replies a reply for any other address is lost: the table stays as it is and the next lookup finds nothing. |
| `ArpTable.RepliesFill` | simple-router-project/router/sr_arpcache.c:330-341 | Replies fill the slots in order, even when they are for the same address. |
| `ArpTable.AnswerStays` | simple-router-project/router/sr_arpcache.c:439-443 | Over every run, an answer stays the same for 15 seconds, whatever else happens, as long as no other reply for its address comes. |
| `ArpTable.LearnedStays15` | simple-router-project/router/sr_arpcache.c:330-341 | An address learned into a free slot with no valid entry for it above is the answer for 15 seconds. |
| `ArpTable.LastMatch` | simple-router-project/router/sr_arpcache.c:238-242 | A lookup gives the last valid entry for the address. |
| `ArpSteps.TickEntry` | simple-router-project/router/sr_arpcache.c:439-443 | A tick leaves an entry as it is while it is at most 15 seconds old, and otherwise only clears its valid flag; there are 100. |
| `ArpSteps.TickRequest` | simple-router-project/router/sr_arpcache.c:56-72 | A tick leaves a request alone within a second of its last send, below five sends repeats it, counts and dates it, and at five destroys it; it opens none. |
| `ArpSteps.TickNotices` | simple-router-project/router/sr_arpcache.c:128-226 | A destroyed request gives up each of its packets, with a notice exactly when there is a route back with an interface whose next hop is in the table as the tick leaves it. |
| `ArpSteps.TickRest` | simple-router-project/router/sr_arpcache.c:427-448 | Nothing else happens in a tick. |
| `ArpSteps.ReceiveDoes` | simple-router-project/router/sr_router.c:612-638 | What a received frame leads to for each decision: nothing, one frame sent, a reply learned and its packets due to be flushed, or, by the last valid entry for the next hop, the frame filled in and sent, and without one the frame stamped and due to be queued. |
| `ArpSteps.LearnDoes` | simple-router-project/router/sr_arpcache.c:307-346 | A learned address takes the first free slot, if there is one, and its request out of the list; no other slot and no other request changes. |
| `ArpSteps.QueueDoes` | simple-router-project/router/sr_arpcache.c:262-301 | The packet goes to the head of the request for its next hop, opened with send time 0 and count 0 if there is none; no other request changes. |
| `ArpSteps.TestDoes` | simple-router-project/router/sr_router.c:588-588 | Go on to send if the count is 0, or if a freed count reads as 0. |
| `ArpSteps.SendDoes` | simple-router-project/router/sr_router.c:219-250 | One ARP request for the next hop by the interface of the packet; nothing else changes. |
| `ArpSteps.MarkDoes` | simple-router-project/router/sr_router.c:590-591 | The send time becomes the present and the count 1; no other request changes. |
| `ArpSteps.FlushDoes` | simple-router-project/router/sr_router.c:193-206 | The packet at the head is sent by its own interface under the address just learned, until none is left. |
| `ArpRetry.AtMostFiveSends` | simple-router-project/router/sr_arpcache.c:56-72 | In every run in which no tick falls between queueing and the unlocked write, no request is sent more than 5 times and never twice within a second. |
| `ArpRetry.AlwaysInStep` | simple-router-project/router/sr_router.c:584-592 | In such runs the count in a request equals the number of ARP requests logged for it, at every step. |
| `ArpRetry.GoneWithinFiveDueTicks` | simple-router-project/router/sr_arpcache.c:56-72 | Under every interleaving, from its first send a request survives at most 4 due ticks, each of which raised its count, however many packets joined it: the fifth destroys it. |
| `ArpRetry.StepCounts` | simple-router-project/router/sr_arpcache.c:66-70 | Of all steps only a due tick changes the count of a request that is underway. |
| `ArpRetry.SweepDrains` | simple-router-project/router/sr_arpcache.c:38-72 | The sum of 6 minus the count, over all requests, goes down by exactly the number of due requests at each sweep. |
| `ArpRetry.SweepFind` | simple-router-project/router/sr_arpcache.c:38-72 | A sweep keeps the request for an address exactly when it was not due for destruction, and in its next state. |
| `ArpRetry.SweepAsks` | simple-router-project/router/sr_arpcache.c:64-70 | A sweep asks for an address exactly once if its request is due and under the limit, and otherwise not at all. |
| `ArpRetry.AtMostElevenSends` | simple-router-project/router/sr_router.c:425-433 | Under every interleaving, stale reads included, a request is sent at most 11 times, and at the unlocked write the log is exactly one ahead of the count. |
| `ArpPace.PacedIff` | simple-router-project/router/sr_router.c:588-591 | For every run: no request is sent twice within a second if and only if no step rushes: neither a first send for an address a tick has asked for less than a second ago, nor a tick that repeats a request whose first send, less than a second ago, is not yet written down. |
| `ArpPace.PacedUnlessSpoilt` | simple-router-project/router/sr_router.c:588-591 | A run none of whose ticks spoils a request keeps the pace. |
| `ArpPace.TickBreaksPace` | simple-router-project/router/sr_router.c:588-591 | Every frame that needs resolving starts a run with two requests in the same second. |
| `ArpPace.SweepPacedIff` | simple-router-project/router/sr_arpcache.c:60-70 | A sweep keeps the pace exactly when none of the requests it repeats was sent less than a second ago. |
| `ArpLimit.LimitKeptIff` | simple-router-project/router/sr_router.c:584-592 | In every state that can be reached: all ways to go on without a further tick in a window keep the limit of five, if and only if the state is in order: count and log agree but for a first send not yet written down, and the packet thread holds no request that was sent or destroyed behind its back. |
| `ArpLimit.OrderLostIff` | simple-router-project/router/sr_router.c:425-433 | A step loses that order if and only if it is a tick that finds the request due while the packet thread is about to send or write for it, or that destroys it while the packet thread holds it. |
| `ArpLimit.LimitKeptOverRun` | simple-router-project/router/sr_router.c:584-592 | For every run: the limit can be kept from each of its states if and only if none of its ticks was of that kind. |
| `ArpLimit.BreachNeedsBreak` | simple-router-project/router/sr_router.c:588-591 | A run that never is about to overwrite a count that is not 0, nor to send for a destroyed request, sends no request more than five times. |
| `ArpLimit.BreakIsFatal` | simple-router-project/router/sr_router.c:588-591 | From either of those two states some way to go on without a further tick in a window goes over the limit. |
| `ArpLimit.InterleavingBreaksLimit` | simple-router-project/router/sr_router.c:584-592 | Ticks between test and write alone: every frame that needs resolving starts a run with ten sends for one request. |
| `ArpLimit.StaleReadBreaksLimit` | simple-router-project/router/sr_router.c:584-588 | A stale read alone: every frame that needs resolving starts a run that overwrites no count and sends a sixth time for a request destroyed after five. |
| `ArpLimit.ElevenIsReached` | simple-router-project/router/sr_router.c:584-592 | Both together: eleven sends are reached, so the general bound is exact. |
| `ArpRetry.RunSends` | simple-router-project/router/sr_arpcache.c:64-70 | While a request stays pending, its count and the number of sends grow by the same amount. |
| `ArpLimit.ReachesLimit` | simple-router-project/router/sr_arpcache.c:56-72 | From any pending request ticks alone bring its count to 5, with one send for each. |
| `ArpLimit.DueTickDoes` | simple-router-project/router/sr_arpcache.c:56-72 | A due tick sends and counts once below the limit, and destroys at it. |
| `ArpHeap.Cache.constructor` | simple-router-project/router/sr_arpcache.c:404-418 | An empty table and an empty list. |
| `ArpHeap.Cache.LookupEntry` | simple-router-project/router/sr_arpcache.c:232-254 | The loop over 100 slots computes the last valid match. |
| `ArpHeap.Cache.Search` | simple-router-project/router/sr_arpcache.c:271-275 | The pointer walk stops at the first request for the address, with its predecessor. |
| `ArpHeap.Cache.AddReq` | simple-router-project/router/sr_arpcache.c:278-283 | A new node at the head; the list stays acyclic and the others are untouched. |
| `ArpHeap.Cache.AddPacket` | simple-router-project/router/sr_arpcache.c:286-296 | The packet goes to the head of the one request. |
| `ArpHeap.Cache.Touch` | simple-router-project/router/sr_router.c:588-592 | Changes the send time and count of one request, nothing else. |
| `ArpHeap.Cache.QueueReq` | simple-router-project/router/sr_arpcache.c:262-301 | Does to the linked nodes what queueing does to the sequence of requests, and returns the node for the address. |
| `Links.ChainWithout` | simple-router-project/router/sr_arpcache.c:314-328 | A list with one node bypassed is still a list: acyclic, in order, without that node. |
| `Links.ChainCons` | simple-router-project/router/sr_arpcache.c:278-283 | A node linked before a list makes a list that starts with its record. |
| `Links.ChainSnoc` | simple-router-project/router/sr_if.c:88-92 | A node linked after the last one makes a list that ends with its record. |
| `ArpHeap.Cache.RemoveAt` | simple-router-project/router/sr_arpcache.c:356-367 | Relinking takes exactly the one node out, and no node changes its contents. |
| `ArpHeap.Cache.UnlinkReq` | simple-router-project/router/sr_arpcache.c:313-328 | The relinking half of the insert removes the request for the address and returns its node. |
| `ArpHeap.Cache.InsertEntry` | simple-router-project/router/sr_arpcache.c:330-341 | Writes the first free slot in place, or nothing when the table is full. |
| `ArpHeap.Cache.SearchNode` | simple-router-project/router/sr_arpcache.c:354-369 | The search by pointer finds the node wherever it is in the list. |
| `ArpHeap.Cache.Destroy` | simple-router-project/router/sr_arpcache.c:350-386 | Takes exactly that node out; no effect on the list when it was already unlinked. |
| `ArpHeap.Cache.ExpireEntries` | simple-router-project/router/sr_arpcache.c:436-443 | Invalidates in place exactly the entries older than 15 seconds. |
| `Router.Instance.SweepReqs` | simple-router-project/router/sr_arpcache.c:38-47 | The walk that destroys nodes under its own cursor refines the filter-and-map over the sequence of requests: each request present at the start is handled exactly once and in order, survivors keep their order, and the list stays acyclic. |
| `Router.Instance.SweepOne` | simple-router-project/router/sr_arpcache.c:42-46 | One turn: the saved next pointer is the next node still to do, never a destroyed one; the nodes before and after stay as they are. |
| `Router.Instance.HandleArpReq` | simple-router-project/router/sr_arpcache.c:56-72 | The request is destroyed, repeated or left alone as its age and count say; no other request changes. |
| `Router.Instance.AskAgain` | simple-router-project/router/sr_arpcache.c:81-119 | One ARP request by the interface of the newest waiting packet, or nothing. |
| `Router.Instance.SendHostUnreachable` | simple-router-project/router/sr_arpcache.c:128-226 | Every waiting packet is retired in turn, each with at most one notice. |
| `Router.Instance.BuildNotice` | simple-router-project/router/sr_arpcache.c:134-223 | The notice exists exactly when the interface, the route back with its interface, and a cached next hop do. |
| `Router.Instance.TimeoutTick` | simple-router-project/router/sr_arpcache.c:427-448 | One iteration of the timeout thread is the tick step of the machine. |
| `Router.Instance.constructor` | simple-router-project/router/sr_router.c:142-160 | A new instance stands for an initial state of the machine. |
| `Router.Instance.FindRoute` | simple-router-project/router/sr_router.c:547-557 | The route and its interface, or nothing. |
| `Router.Instance.SendArpRequest` | simple-router-project/router/sr_router.c:219-250 | One broadcast ARP request by the named interface, if it exists. |
| `Router.Instance.QueueAndAsk` | simple-router-project/router/sr_router.c:584-592 | Queue, and on a new request ask and write down the send. |
| `Router.Instance.ResolveAndSend` | simple-router-project/router/sr_router.c:563-593 | On a hit the frame is filled in and sent; on a miss it is queued: the machine from lookup to rest. |
| `Router.Instance.FlushReq` | simple-router-project/router/sr_router.c:193-206 | Every waiting packet is filled in and sent once, newest first. |
| `Router.Instance.TakeRequest` | simple-router-project/router/sr_router.c:189-189 | Insert and unlink together; the returned request is the one that was pending. |
| `Router.Instance.FlushAndDestroy` | simple-router-project/router/sr_router.c:192-208 | After the flush the list is as it was: destroying an unlinked request changes nothing. |
| `Router.Instance.HandleArpReply` | simple-router-project/router/sr_router.c:186-209 | The reply branch is the learning step of the machine, run to rest. |
| `Router.Instance.SendIcmpT3` | simple-router-project/router/sr_router.c:352-435 | Builds and resolves the ICMP error, or does nothing without a route back. |
| `Router.Instance.ForwardIpPacket` | simple-router-project/router/sr_router.c:524-594 | Rewrites the packet in place and resolves it, or sends the ICMP error of the branch taken. |
| `Router.Instance.HandleIpPacket` | simple-router-project/router/sr_router.c:444-515 | Echo, port unreachable, silence or forwarding, as destination, protocol and type say. |
| `Router.Instance.HandleArpPacket` | simple-router-project/router/sr_router.c:169-210 | Reply, learn or ignore, as the operation says. |
| `Router.Instance.ReceivePacket` | simple-router-project/router/sr_router.c:612-638 | A whole handler call, from safe state to safe state, is the machine taking up the frame and running to rest. |
| `Router.Drive` | simple-router-project/router/sr_router.c:612-638 | Any sequence of packet deliveries and timeouts on a new instance in memory leaves exactly the state the machine reaches when the same packets and ticks come in the same order at the same times, and that is one run from an initial state without a tick in a window; so its packets are conserved, leave newest first, and no request is sent more than five times or twice within a second. |
| `Router.OneCall` | simple-router-project/router/sr_router.c:612-638 | One delivery or timeout on a live instance does what the machine does: time passes, then the packet is handled to the end or one tick comes. |
| `Router.HandlerIsARun` | simple-router-project/router/sr_router.c:612-638 | A handler call is a run of the machine without a tick. |
| `Router.SettleIsARun` | simple-router-project/router/sr_router.c:612-638 | Running to rest is itself a sequence of packet-thread steps. |
| `Router.Settles` | simple-router-project/router/sr_router.c:612-638 | In a safe state every handler call comes to rest, and in a safe state. |
| `Router.SettleMiss` | simple-router-project/router/sr_router.c:573-593 | After a miss: queue, and if the count is 0 ask and mark. |
| `Router.SettleFlush` | simple-router-project/router/sr_router.c:193-208 | After a reply: all packets of the request in list order, then rest. |
| `Router.ResealInPlace` | simple-router-project/router/sr_router.c:539-541 | Zeroing, summing and storing in the buffer changes exactly the two checksum octets. |
| `Router.HopInPlace` | simple-router-project/router/sr_router.c:536-541 | One less TTL and a new checksum, in place. |
| `Router.FillInPlace` | simple-router-project/router/sr_router.c:566-569 | Both addresses and the type, in place; the rest is untouched. |
| `Router.TurnAround` | simple-router-project/router/sr_router.c:319-327 | The edits of an echo reply before its checksums. |
| `Router.BuildEchoReply` | simple-router-project/router/sr_router.c:303-343 | The buffer built step by step is the echo reply. |
| `Router.BuildIcmpError` | simple-router-project/router/sr_router.c:379-403 | The octets of an ICMP error. |
| `Router.BuildHostUnreachable` | simple-router-project/router/sr_arpcache.c:153-174 | The octets of a host-unreachable message. |
| `Frames.Hop` | simple-router-project/router/sr_router.c:536-541 | The TTL goes down by one, the checksum octets change, and every other octet stays. |
| `Frames.DispatchIsAccepted` | simple-router-project/router/sr_vns_comm.c:644-667 | Given distinct interface addresses, whatever is sent at once carries the address of the interface it names; for ARP replies this rests on the not-for-us filter. |
| `Frames.UnfilteredReplyIsRejected` | simple-router-project/router/sr_router.c:259-294 | Without the filter there is a configuration and an ARP request whose reply is rejected. |
| `Frames.DispatchIsResolvable` | simple-router-project/router/sr_router.c:373-377 | A frame that awaits resolution leaves by an interface that the send check finds again. |
| `Frames.IpFoundOnce` | simple-router-project/router/sr_router.c:96-106 | With distinct addresses the search by address finds exactly that interface. |
| `Frames.ForwardedVerifiesIff` | simple-router-project/router/sr_router.c:537-541 | A forwarded header verifies at the next hop if and only if the two octets of its checksum are equal. |
| `Frames.IcmpErrorMeaning` | simple-router-project/router/sr_router.c:379-403 | Sender, addressee, type, code and quoted octets of an ICMP error, and that each of its two checksums verifies if and only if the two octets of the sum over the unsealed part are equal. |
| `Frames.EchoReplyMeaning` | simple-router-project/router/sr_router.c:303-343 | An echo reply has both address pairs turned round, type and code 0, TTL 64 and the rest of the request unchanged; its ICMP checksum verifies if and only if the two octets of the sum are equal. |
| `Frames.EchoHeaderVerifiesIff` | simple-router-project/router/sr_router.c:329-339 | The header of an echo reply, options included, verifies if and only if the swapped sum of the header as summed is congruent to the sum of the header as sent; without options, if and only if the two octets are equal. |
| `Frames.HostUnreachableVerifies` | simple-router-project/router/sr_arpcache.c:153-174 | Both checksums of a host-unreachable message verify; it is addressed to the sender and quotes 28 octets. |
| `Frames.ArpExchange` | simple-router-project/router/sr_router.c:219-294 | A request for another router's interface, delivered there, is answered to the asker, and the answer delivered back teaches exactly that interface's address pair. |
| `Octets.DecidesIp` | simple-router-project/router/sr_router.c:444-515 | For every receivable IP frame, on octets: for the router itself an echo request is answered, other ICMP ignored, and anything else reported with type 3 code 3; for another address it is reported with 11, 0 when its TTL is at most 1 and with 3, 0 when there is no route, dropped when the interface of the route is missing, and otherwise hopped and resolved towards the gateway, or towards its destination when the gateway is all zeros. |
| `Octets.DecidesArp` | simple-router-project/router/sr_router.c:169-210 | For every ARP frame, on octets: a request for the address of the interface it came in by is answered, a reply is learned, and nothing else is done. |
| `Octets.DropsOthers` | simple-router-project/router/sr_router.c:622-636 | Every other frame is dropped. |
| `Octets.IcmpT3Reports` | simple-router-project/router/sr_router.c:352-435 | An error goes back to the sender by the route the lookup gives, towards its gateway or the sender itself, with the type, code, quote and checksums of its octets pinned; without a route back nothing is sent. |
| `Octets.NextHopOctets` | simple-router-project/router/sr_router.c:559-560 | The gateway, unless all its octets are zero; then the destination. |
| `Octets.RequestOctets` | simple-router-project/router/sr_router.c:226-246 | Every octet of an ARP request. |
| `Octets.ReplyOctets` | simple-router-project/router/sr_router.c:270-290 | Every octet of an ARP reply. |
| `Octets.HopOctets` | simple-router-project/router/sr_router.c:536-541 | One less TTL, the checksum of the new header stored high octet first, and no other octet changed. |
| `Octets.ErrorOctets` | simple-router-project/router/sr_router.c:379-403 | Every octet of an ICMP error after its Ethernet header. |
| `Octets.UnreachableOctets` | simple-router-project/router/sr_arpcache.c:153-172 | Every octet of a host-unreachable message after its Ethernet header, apart from its two checksums. |
| `Octets.EchoOctets` | simple-router-project/router/sr_router.c:303-343 | Every octet of an echo reply. |
| `Octets.FillOctets` | simple-router-project/router/sr_router.c:566-569 | Both hardware addresses, type 0x0800, and the rest as it was. |
| `Octets.StampOctets` | simple-router-project/router/sr_router.c:580-582 | The source address and type 0x0800; the rest as it was. |
| `Octets.AcceptedMeans` | simple-router-project/router/sr_vns_comm.c:517-551 | Long enough, by an interface that exists, and with its hardware address as the source. |
| `Network.TtlBoundsJourney` | simple-router-project/router/sr_router.c:524-594 | Along any chain of arrivals and departures in runs of any such routers, where what leaves one arrives at the next, a packet is forwarded at most its TTL minus 1 times, so at most 254; its TTL falls by one each time, and only Ethernet header, TTL and checksum octets change. |
| `Network.JourneysExist` | simple-router-project/router/sr_router.c:524-594 | The bound is met: from every frame that is forwarded there are journeys of every length its TTL allows. |
| `Network.ForwardsAgain` | simple-router-project/router/sr_router.c:524-594 | What a router sends on is forwarded again wherever it is delivered to a router that is not its destination and has a route for it, while its TTL allows. |
| `Network.SentIsALeg` | simple-router-project/router/sr_router.c:565-572 | Over every run, each frame sent at once or flushed is the departure of an earlier arrival, or a message of the router's own. |
| `Network.SentStems` | simple-router-project/router/sr_router.c:193-206 | Over every run, each frame sent at once or flushed is what an earlier arrived frame yields. |
| `Network.OneHop` | simple-router-project/router/sr_router.c:536-541 | One forwarding lowers the TTL by one and keeps every other octet after the Ethernet header but the checksum. |
| `Network.FlushedStems` | simple-router-project/router/sr_router.c:193-206 | Over every run, each flushed frame carries the payload of a frame that arrived before it. |
| `Network.HoppedOrOwn` | simple-router-project/router/sr_router.c:524-594 | What a forwarded frame yields is its hop; any other frame yields an echo or ARP reply or an ICMP error. |
| `Network.ForwardedHeaderFails` | simple-router-project/router/sr_router.c:537-541 | There is a configuration and a frame that it forwards whose header does not verify at the next hop. |
| `Network.IcmpErrorFails` | simple-router-project/router/sr_router.c:390-391 | There is a configuration and a frame that it answers with an ICMP error whose header does not verify. |
| `Routing.LongestPrefixMatch` | simple-router-project/router/sr_router.c:115-132 | For every table of contiguous masks: the earliest route of greatest prefix length among those that share the prefix and have a non-empty mask, and none exactly when there is no such route, so a /0 route is never chosen. |
| `Prefixes.LongestPrefix` | simple-router-project/router/sr_router.c:115-132 | The same with addresses and masks as rows of 32 bits: for every table whose masks are ones followed by zeros, the earliest of the longest non-empty prefixes that agree with the address bit by bit. |
| `Prefixes.PrefixIsBits` | simple-router-project/router/sr_router.c:123-123 | Sharing a prefix is agreeing in its bits, most significant bit of the first octet first. |
| `Prefixes.MaskIsBits` | simple-router-project/router/sr_router.c:122-124 | A row of ones followed by zeros is the number of that mask on the wire. |
| `Routing.LpmIsGreatest` | simple-router-project/router/sr_router.c:115-132 | For any masks at all: a matching route of greatest mask value, the earliest of its rank, never mask 0. |
| `Routing.LpmLookup` | simple-router-project/router/sr_router.c:115-132 | The loop of the forwarding path. |
| `Routing.InlineLookup` | simple-router-project/router/sr_arpcache.c:177-190 | The copy of the loop in the timeout path computes the same route. |
| `Routing.MatchesOnWire` | simple-router-project/router/sr_router.c:122-123 | Masking the words as loaded on a little-endian host is masking the numbers on the wire. |
| `Routing.MatchesIsSamePrefix` | simple-router-project/router/sr_router.c:123-123 | Under a contiguous mask of length n a route matches exactly when the first n bits agree. |
| `Routing.RankIsLength` | simple-router-project/router/sr_router.c:124-124 | Numeric mask order is prefix-length order. |
| `Routing.GetInterface` | simple-router-project/router/sr_if.c:37-55 | The first interface of that name. |
| `Routing.GetInterfaceByIp` | simple-router-project/router/sr_router.c:96-106 | The first interface of that address. |
| `Routing.FirstByName` | simple-router-project/router/sr_if.c:47-52 | The search by name gives the first interface of that name. |
| `Routing.FirstByIp` | simple-router-project/router/sr_router.c:98-104 | The search by address gives the first interface of that address. |
| `Routing.SameNameMeans` | simple-router-project/router/sr_if.c:49-50 | Names are compared over 32 octets. |
| `Routing.ByNameAgain` | simple-router-project/router/sr_if.c:37-55 | Searching for the name that was found finds the same interface. |
| `Routing.ByNameStable` | simple-router-project/router/sr_if.c:37-55 | In a list that has grown and kept its names, a name that was found is still found, at an interface of the same name. |
| `Session.VerifyRoutingTable` | simple-router-project/router/sr_main.c:269-303 | 999 when either list is empty, otherwise exactly the number of routes without an interface. |
| `Session.HandleHardware` | simple-router-project/router/sr_vns_comm.c:470-478 | A hardware message is applied to the linked list and checked; the session goes on exactly when every entry could be applied and the check found nothing. |
| `Session.EntriesKeepNames` | simple-router-project/router/sr_vns_comm.c:185-227 | A hardware message at any time appends interfaces and overwrites addresses of the last one, and loses or moves no name. |
| `Session.ReadyRoutesResolve` | simple-router-project/router/sr_vns_comm.c:470-478 | Over every session, hardware messages, packets and ticks in any order: once it has been ready, in every later state, each route the lookup returns has its interface. |
| `Session.DroppedIffUnrouted` | simple-router-project/router/sr_router.c:554-557 | In those states an ICMP error is dropped exactly when there is no route back, and a packet to forward exactly when there is neither a route on nor one back: the drops for a missing interface are unreachable. |
| `Session.UnnoticedIffUnreachable` | simple-router-project/router/sr_arpcache.c:192-222 | In those states a packet that is given up goes without a notice exactly when there is no route back or its next hop is not cached. |
| `Session.AlwaysSound` | simple-router-project/router/sr_vns_comm.c:422-478 | Over every session the safety of the ARP state survives hardware messages that change the configuration under it. |
| `Session.SessionConserves` | simple-router-project/router/sr_vns_comm.c:422-478 | Packets are conserved and leave newest first over every session. |
| `Session.SessionClean` | simple-router-project/router/sr_vns_comm.c:594-598 | Whatever is sent at any moment of a session passes the source-address check against the interfaces of that moment, if their addresses are distinct then. |
| `Session.SessionAtMostEleven` | simple-router-project/router/sr_router.c:584-592 | No session sends more than eleven requests for one resolution. |
| `Session.SessionAtMostFive` | simple-router-project/router/sr_arpcache.c:56-72 | A session without a tick in a window sends at most five, and never two within a second. |
| `Session.BecomesReady` | simple-router-project/router/sr_vns_comm.c:470-478 | The description of any hardware with an interface for every route makes a session ready, with the server's interfaces in the server's order. |
| `Session.SessionRuns` | simple-router-project/router/sr_main.c:162-163 | Between messages a session runs the machine. |
| `Session.EndedStaysEnded` | simple-router-project/router/sr_main.c:162-163 | A session that has ended stays ended. |
| `Session.NamesKeepSafe` | simple-router-project/router/sr_vns_comm.c:470-478 | A configuration that kept its names keeps everything the router holds good. |
| `Checksum.IpChecksum` | simple-router-project/router/sr_router.c:64-87 | With 32-bit wrap-around modelled: for at most 131074 octets, the complement of the ones-complement sum of the host's words. |
| `Checksum.Cksum` | simple-router-project/router/sr_utils.c:8-20 | For at most 131074 octets, the complement of the ones-complement sum in network order, stored as the host would, with 0xffff for 0; never 0. |
| `Checksum.FoldLoop` | simple-router-project/router/sr_router.c:80-83 | The fold loop ends, and in the fold of the sum. |
| `Checksum.FoldIsOnesSum` | simple-router-project/router/sr_router.c:80-83 | Adding first and folding at the end is ones-complement addition at every step. |
| `Checksum.HostSumIsExact` | simple-router-project/router/sr_router.c:69-78 | No 32-bit overflow up to 131074 octets, odd lengths included (host words). |
| `Checksum.NetSumIsExact` | simple-router-project/router/sr_utils.c:12-15 | The same for network-order words. |
| `Checksum.ByteOrderIndependence` | simple-router-project/router/sr_utils.c:12-18 | Section 2(B) of RFC 1071: the ones-complement sums in the two byte orders are byte swaps of each other, odd lengths included. |
| `Checksum.RoutinesAgree` | simple-router-project/router/sr_utils.c:8-20 | On a little-endian host the two routines return the same value, except 0xffff for 0. |
| `Checksum.StoredVerifiesIff` | simple-router-project/router/sr_router.c:539-541 | Any value stored in a zeroed field makes the buffer verify exactly when it is congruent to the checksum. |
| `Checksum.NativeStoreVerifies` | simple-router-project/router/sr_arpcache.c:164-174 | Stored as returned, either routine's value makes the buffer verify. |
| `Checksum.WrappedStoreVerifiesIff` | simple-router-project/router/sr_router.c:539-541 | Stored through htons on a little-endian host, the buffer verifies if and only if the two octets of the checksum are equal. |
| `Checksum.WrappedStoreVerifiesOnBigEndian` | simple-router-project/router/sr_router.c:390-403 | On a big-endian host the same store always verifies, for even lengths. |
| `Sha1.HashInPieces` | simple-router-project/router/sr_vns_comm.c:273-280 | For every cutting of every message into inputs: the result succeeds exactly when the message is under 2^64 bits, and then the digest is that of FIPS 180-1. |
| `Sha1Vector.Example` | simple-router-project/router/sha1.c:207-301 | The digest of "abc" is the one in Appendix A of FIPS 180-1, derived round by round from the definition. |
| `Sha1.Context.constructor` | simple-router-project/router/sha1.c:71-85 | A new context is a fresh stream. |
| `Sha1.Context.Reset` | simple-router-project/router/sha1.c:71-85 | From any state, flags included, back to a fresh stream. |
| `Sha1.Context.Input` | simple-router-project/router/sha1.c:143-185 | Absorbs the octets, or raises the error flag, exactly as the stream does. |
| `Sha1.Context.InputOctet` | simple-router-project/router/sha1.c:158-184 | One octet: buffered, counted, and a full block compressed; the flag goes up exactly at 2^64 bits. |
| `Sha1.Context.CountOctet` | simple-router-project/router/sha1.c:163-176 | The two length words together stay 8 times the octets consumed, up to the overflow, which is noticed. |
| `Sha1.CountStep` | simple-router-project/router/sha1.c:163-176 | The carry between the two 32-bit length words. |
| `Sha1.Context.FillSchedule` | simple-router-project/router/sha1.c:224-235 | The array W is the message schedule of section 7. |
| `Sha1.AllRounds` | simple-router-project/router/sha1.c:237-298 | The four loops of twenty rounds are the eighty rounds of section 7, added to the old digest. |
| `Sha1.Context.ProcessMessageBlock` | simple-router-project/router/sha1.c:207-301 | Processing a block is the compression function. |
| `Sha1.Context.MarkAndZeroTo` | simple-router-project/router/sha1.c:336-340 | The one bit and the zeros after it. |
| `Sha1.Context.StoreLength` | simple-router-project/router/sha1.c:361-368 | The two length words become the 64-bit length. |
| `Sha1.Context.PadMessage` | simple-router-project/router/sha1.c:326-371 | Both padding cases end with the digest of the whole padded message. |
| `Sha1.Context.Result` | simple-router-project/router/sha1.c:104-119 | Fails exactly when the flag is up; otherwise the digest is the hash of everything consumed, on the first call and on later ones. |
| `Sha1.RunningStep` | simple-router-project/router/sha1.c:178-181 | What is held in digest and buffer after one more octet. |
| `Sha1.HashShortTail` | simple-router-project/router/sha1.c:349-370 | With at most 55 octets buffered, one more block finishes the hash. |
| `Sha1.HashLongTail` | simple-router-project/router/sha1.c:334-348 | With more, two blocks do. |
| `Sha1.InputsJoin` | simple-router-project/router/sha1.c:143-185 | Two inputs in a row are one input of both. |
| `Sha1.CorruptedExactly` | simple-router-project/router/sha1.c:143-185 | Between resets the error flag is up exactly when some non-empty input followed a result or reached 2^64 bits. |
| `Sha1.PerformAll` | simple-router-project/router/sha1.c:71-185 | Any sequence of resets, inputs and results on a real context leaves what the stream says: between resets the flag is up exactly when some call overran, and a result that is given is the hash of everything consumed. |
| `Sha1Spec.AbsorbJoins` | simple-router-project/router/sha1.c:178-181 | Absorbing blocks is a fold: two stretches one after the other are their concatenation. |
| `Sha1Spec.PadInjective` | simple-router-project/router/sha1.c:326-371 | Padding is injective on messages under 2^61 octets. |
| `IfList.InterfaceList.Get` | simple-router-project/router/sr_if.c:37-55 | The walk finds the first node of that name. |
| `IfList.InterfaceList.Last` | simple-router-project/router/sr_if.c:110-112 | The walk ends at the last node. |
| `IfList.InterfaceList.Add` | simple-router-project/router/sr_if.c:65-93 | Appends one interface; the list stays acyclic and the others are untouched. |
| `IfList.InterfaceList.SetEtherAddr` | simple-router-project/router/sr_if.c:103-117 | Changes the address of the last interface and of no other. |
| `IfList.InterfaceList.SetEtherIp` | simple-router-project/router/sr_if.c:127-141 | Changes the IP address of the last interface and of no other. |
| `VnsWire.HandleEntry` | simple-router-project/router/sr_vns_comm.c:191-226 | One entry: append, update the last interface, ignore, or fail where there is none. |
| `VnsWire.HandleHwInfo` | simple-router-project/router/sr_vns_comm.c:176-233 | All whole entries in order; the number of entries is returned. |
| `VnsWire.HwInfoRoundTrip` | simple-router-project/pox_module/cs144/VNSProtocol.py:213-214 | For every list of interfaces with null-free names of at most 32 octets, and whatever the allocated memory held, parsing what the server packed appends the same names, addresses and order. |
| `VnsWire.InterfaceStep` | simple-router-project/pox_module/cs144/VNSProtocol.py:152-159 | The six entries of one interface append exactly that interface. |
| `VnsWire.InterfaceOctets` | simple-router-project/pox_module/cs144/VNSProtocol.py:149-159 | The six keys and values of an interface, octet by octet. |
| `VnsWire.HwInfoFits` | simple-router-project/router/sr_vns_comm.c:372-377 | Forty-two interfaces fit both limits of the client. |
| `VnsWire.Socket.Receive` | simple-router-project/router/sr_vns_comm.c:356-365 | Some octets, no more than asked for, none skipped. |
| `VnsWire.Socket.ReadExactly` | simple-router-project/router/sr_vns_comm.c:391-407 | The read loop takes exactly the octets asked for, however they arrive. |
| `VnsWire.Socket.ReadMessage` | simple-router-project/router/sr_vns_comm.c:348-407 | A length over 10000 is refused; otherwise exactly one message is taken off the stream. |
| `VnsWire.ReadMessages` | simple-router-project/router/sr_vns_comm.c:348-407 | Every sequence of well-formed messages, cut into non-empty pieces in any way, is decoded as sent. |
| `VnsWire.FramingIsUnique` | simple-router-project/router/sr_vns_comm.c:370-377 | A stream starts with at most one message. |
| `VnsWire.ClientToServer` | simple-router-project/pox_module/cs144/VNSProtocol.py:109-113 | What the client frames with a null-free name of at most 16 octets the server unpacks to the same name and frame. |
| `VnsWire.ServerToClient` | simple-router-project/pox_module/cs144/VNSProtocol.py:106-107 | What the server packs with a name of at most 15 octets reaches the client's handler with the same name and frame. |
| `VnsWire.PacketOctets` | simple-router-project/router/sr_vns_comm.c:581-589 | The packet message of both programs octet by octet: total length, type 4, sixteen octets of name, the frame. |
| `VnsWire.LongNameRunsOn` | simple-router-project/router/sr_vns_comm.c:442-446 | For every null-free name of 16 octets or more the client reads its first 16 and on through the C string the frame starts with, which is the name if and only if the frame starts with the rest of it. |
| `VnsWire.LongNameIsCut` | simple-router-project/router/sr_vns_comm.c:585-589 | For such names the server gets the first 16 octets, which is the name if and only if it has no more. |
| `VnsWire.StripPad` | simple-router-project/pox_module/cs144/VNSProtocol.py:109-113 | Padding then stripping nulls gives a null-free string back. |
| `VnsWire.CStringPad` | simple-router-project/router/sr_vns_comm.c:197-200 | Padding then reading a C string does, too. |
| `VnsMessages.BannersAndClose` | simple-router-project/pox_module/cs144/VNSProtocol.py:56-66 | One piece more than the length holds whole 255s, piece i being the octets from 255 i on, at most 255 of them, the last one and only the last one closing; unpacked and joined they are the text less its nulls. |
| `VnsMessages.Banners` | simple-router-project/pox_module/cs144/VNSProtocol.py:170-177 | The same with banners only. |
| `VnsMessages.PieceCount` | simple-router-project/pox_module/cs144/VNSProtocol.py:58-60 | The number of pieces is the size of a smallest split of the text into pieces of at most 255 octets, plus one exactly at positive multiples of 255. |
| `VnsMessages.NoSplitIsSmaller` | simple-router-project/pox_module/cs144/VNSProtocol.py:58-60 | No split into pieces of at most 255 octets has fewer pieces than the length requires. |
| `VnsMessages.FewestIsEnough` | simple-router-project/pox_module/cs144/VNSProtocol.py:58-60 | Some split has no more. |
| `VnsMessages.UnpackTemplate` | simple-router-project/pox_module/cs144/VNSProtocol.py:287-300 | The loop over the filters, a bad mask or a short body included. |
| `VnsMessages.FiltersRoundTrip` | simple-router-project/pox_module/cs144/VNSProtocol.py:292-299 | Parsing packed filters gives them back exactly when every mask is at most 32. |
| `VnsMessages.TemplateRoundTrip` | simple-router-project/pox_module/cs144/VNSProtocol.py:283-300 | Unpacking undoes packing for null-free names that fit, exactly when every mask is at most 32. |
| `VnsMessages.TemplateOctets` | simple-router-project/pox_module/cs144/VNSProtocol.py:283-285 | The template message octet by octet: 30 of name, 32 of host, five for each filter. |

## Left out

- Sockets, files, signals, logging, packet dumps and printing: a read is a choice of
  non-empty pieces, a send is an entry in a log. A received length comes from the
  message; a failed or interrupted system call is not modelled.
- Time: one reading of the clock per tick and per step; the source reads it again
  for each request. The two unlocked writes of send time and count are one step.
- Interleavings inside a tick: a tick is one step because it holds the lock, but the
  packet thread's unlocked test, send and writes (`sr_router.c`, lines 588-591) could
  also fall between the actions of one tick (`sr_arpcache.c`, lines 67-69). Those
  are not among the interleavings of this model; nor are ticks inside the handling of
  one hardware message.
- Memory: allocation failure, freeing and leaks. A request that was freed under the
  packet thread reads as an arbitrary value, and writes to it have no effect on the list.
- ArpSafety.ReceiveSafe: excludes IP frames of 34 to 41 octets, like the handlers below.
- Router.Instance.ForwardIpPacket: excludes frames of 34 to 41 octets, which the source
  would read past their end when it quotes them in an ICMP error.
- Router.Instance.HandleIpPacket: excludes frames of 34 to 41 octets for the same reason.
- Router.Instance.ReceivePacket: requires an existing receiving interface and, for IP
  frames of at least 34 octets, at least 42 octets and a header length within the frame,
  because the source reads those without a check.
- VnsWire.Socket.ReadMessage: a length under 8 is outside its contract, because the
  source then writes past the buffer it allocated.
- VnsWire.HwInfoRoundTrip: names of more than 32 octets or with nulls, which the server
  cuts or the client ends early.
- Router.Instance.constructor: starts from a loaded routing table and interface list,
  which stay fixed while an instance runs (`Session` lets the list change, for the
  machine); the text format of the table is foreign code.
- Router.Instance.FlushReq: the packet list inside a request is a sequence, and so are
  the routing table and, in the handlers, the interface list; the request list and the
  client's interface list are linked nodes.
- ArpRetry.AtMostFiveSends: assumes that no tick falls into the window, since the bound
  is false otherwise; `ArpLimit.LimitKeptOverRun` has the exact condition.
- Sha1.Context.Input: whole octets only, as in the source; nothing about the strength
  of the hash.
- VnsMessages.TemplateRoundTrip: addresses are four octets already; the conversion to and
  from dotted text is foreign code.
- The open, routing-table and authentication messages and the length methods of the
  server's classes: they would only add easy members of kinds already present.
- The connection set-up, the message library under the Python classes, the POX and
  Twisted servers, Mininet scripts and web pages.
- Starting the timeout thread and creating the lock: the lock is the atomicity of steps.
