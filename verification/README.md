# Verified models of the messaging and order-book core

A Dafny model of the C++ components that carry the hard logic of this repository, each in the form
the source has: a class with the source's fields and loops, proved against a specification on
values, and theorems about that specification.

* **Byte ring** (`common/RingBuffer.cpp`). `RingProtocol` runs one producer and one consumer as a
  step system: every atomic load, `fetch_add` and `fetch_sub` is its own step, every stored byte
  another, and the two sides interleave freely over 32-bit indices and a mapping of twice the
  capacity. `RingRuns` proves what holds over every run. The spin test of `write_buffer` has one
  hole: a read index loaded from a *full* buffer, followed by a whole wrap, passes the test and
  yields a window over unread bytes. The ring is safe exactly on the runs without that load, which
  a free byte at every read-index load, or single-threaded use, rules out; a run that loses data is
  given for every capacity of two bytes or more. `RingBuffers` is the class, used from one thread,
  as a FIFO of bytes.
* **Sequence-gap buffer** (`common/GapIdentifier.h`). `GapSpec` gives every operation on values,
  `GapIdentifiers` the class over its circular slot array, `GapRuns` whole runs of a feed: in-order
  exactly-once delivery, replayed packets as they were given, how often a request can be accepted.
  `GapKept` says which events, and only which, throw an accepted packet away. `GapAnswers` gives
  every operation's answer for every argument: what update accepts and leaves behind, and what is
  replayed and requested from any number, not only the expected one. `GapRequests` says when a gap
  request asks for what is missing: exactly when the queue is ahead of the expected number, and
  throughout a run exactly when every delivery reported without a flush (`updateSeqNum`,
  `common/GapIdentifier.h:205-208`) finds the number behind it not in the buffer.
* **Order-book merge and size tiers** (`engine/book/Stream.h`, `common/Utils.h`). `Streams` has the
  merge, the in-place insertion sort and both tier loops; prices are reals. `OrderBook`, `Sweep`,
  `LeastCost` and `Tiers` say what they mean: the unique stable sort, the cost of a sweep, and that
  no other way of taking the units is cheaper.
  *The two sides differ.* The ask loop tests each tier against `bid.size + l.size`
  (`engine/book/Stream.h:121`), the running size of the bid side, where line 99 shows what is meant.
  The model keeps that guard. Bid tiers are therefore proved to be least-cost sweeps outright (the
  book being sorted ascending on both sides), and ask tiers exactly when the level the guard picks
  brackets the tier; otherwise an ask tier the book could fill is too cheap, and with enough bids
  every ask tier is the best ask price whatever its size. Bid tiers rise with their size and stay
  between the first quote and the one completing them. Ask tiers keep to the upper bound only:
  without bids, asks of 10, 10, 10 and 100 at 1, 2, 3 and 100 offer a tier of 10 at 1 and a tier of
  15 at -96. `AskTiers` proves for which sizes the other two bounds hold whatever the prices: when
  the level the guard picks begins within the tier.
* **Packet codec** (`common/Packet.cpp`), **URL parsing** (`common/Url.cpp`) and the **container
  text format** (`common/Operators.h`): round trips over unbounded inputs with their exact
  conditions, and what is read from any input. `UrlExact` says of every text whether it is accepted
  and what it binds. `TextGrammar` writes down the texts the readers take, with blanks, signs, empty
  parts and the characters the source reads without looking at them; `TextParse` proves that they
  take those and no others, so that even a missing `>` at the end of the text is accounted for.
  The documentation in `common/Url.h` shows `unix://` addresses, but the parser gives them the TCP
  type (`common/Url.cpp:76-79`); the model follows the parser. It also shows an address with a
  trailing comma (`common/Url.h:34`), which the parser takes for an empty port.
* **Wildcard tuples** (`common/Utils.h`): equality against order, and the columns in which a
  wildcard breaks transitivity. Line 68 misspells `return`; the model reads it as meant.

`Bytes`, `Circular` and `Text` hold the machine types, the circular addressing and the string
streams the others share. In the text format a set or map is given by its elements in iteration
order, and the comparator is an arbitrary relation, but in `TextContainers`, where it is a strict
weak order.

## Model

| member | source | states |
|---|---|---|
| RingProtocol.StepKeepsInv | common/RingBuffer.cpp:98-135 | Every atomic step of either side, from any state of the invariant, keeps it: exact indices modulo whole laps, unread bytes in memory where the stream says, both windows inside the mapping; the one excepted step is a stale full load |
| RingProtocol.FreeCell | common/RingBuffer.cpp:105-116 | No cell of the window write_buffer handed out holds an unread byte |
| RingProtocol.WindowShowsStream | common/RingBuffer.cpp:98-103 | The bytes seen through read_buffer's window are the next unread bytes of the stream |
| RingRuns.SafeIffNoStaleLoad | common/RingBuffer.cpp:105-135 | Over every interleaving: the producer never owns an unread byte if and only if no write-index load follows a read-index load of a full buffer across a whole wrap with bytes still unread |
| RingRuns.RoomAtLoadsIsSafe | common/RingBuffer.cpp:105-116 | A free byte at every read-index load of the producer makes the whole run safe |
| RingRuns.UninterruptedCallsAreSafe | common/RingBuffer.cpp:105-116 | When no consumer step falls between write_buffer's two loads, no hypothesis on occupancy is needed |
| RingRuns.ConsumerSeesPrefix | common/RingBuffer.cpp:98-135 | In every state of such a run, the bytes taken followed by those in the consumer's window are a prefix of the bytes published |
| RingRuns.IndicesStayInRange | common/RingBuffer.cpp:98-135 | In every state, also between the two subtractions of a wrap: read index at most the capacity, write index at most twice it, windows inside the mapping, no 32-bit wrap-around in the next step, at most one wrap begun since the producer's first load |
| RingRuns.SpinTestOutcome | common/RingBuffer.cpp:107-115 | What the spin test does with every pair of loads: the exact window within a lap, spinning on a torn pair, and the two torn pairs that pass |
| RingRuns.StaleLoadIsUnsafe | common/RingBuffer.cpp:110-115 | The stale full load does hand out a window over an unread byte |
| RingRuns.StaleFullLosesData | common/RingBuffer.cpp:105-135 | For every capacity of two bytes or more, a run of allowed steps after which the consumer sees a byte that was never published there |
| RingBuffers.RingBuffer.WriteBuffer | common/RingBuffer.cpp:105-116 | The window is all the free space, contiguous in the mapping |
| RingBuffers.RingBuffer.ReadBuffer | common/RingBuffer.cpp:98-103 | The window shows the whole contents in order |
| RingBuffers.RingBuffer.Fill | test/RingBufferTest.cpp:32-33 | Writing into the window leaves the contents alone and is seen through the mapping |
| RingBuffers.RingBuffer.AdvanceWrite | common/RingBuffer.cpp:118-121 | Appends the bytes now in the window to the contents |
| RingBuffers.RingBuffer.AdvanceRead | common/RingBuffer.cpp:123-135 | Removes that many bytes from the front of the contents, wrap or not |
| GapSpec.DrainSplits | common/GapIdentifier.h:230-252 | A drain splits the queue into the packets below expected, which it drops, the longest run expected, expected+1, ..., which it replays, and the packets above, which stay |
| GapSpec.ReplayRunSplits | common/GapIdentifier.h:269-278 | replayPacket's loop replays the run starting at its number, drops nothing and stops at any other number |
| GapSpec.DropThroughKeeps | common/GapIdentifier.h:254-262 | drainPacket(n) removes exactly the queued packets numbered at most n |
| GapIdentifiers.GapIdentifier.FrontSlot | common/GapIdentifier.h:175-178 | The slot at the read index holds the front of the queue, or number 0 exactly when the queue is empty |
| GapIdentifiers.IndexTestMeansNonempty | common/GapIdentifier.h:213-232 | On 32-bit indices the loops' test means "not empty" exactly until one index wraps before the other |
| GapIdentifiers.GapIdentifier.constructor | common/GapIdentifier.h:83-110 | Starts at expected number 1, empty, requests on |
| GapIdentifiers.GapIdentifier.Update | common/GapIdentifier.h:112-188 | The slot array after a live packet represents the state the value operation gives, with its result and requests; slots outside the window stay zeroed |
| GapIdentifiers.GapIdentifier.Replace | common/GapIdentifier.h:130-146 | With every slot taken, MIN_SEQ replaces the front by the new packet and disturbs no other |
| GapIdentifiers.GapIdentifier.ProcessBuffer | common/GapIdentifier.h:47-63 | Replays the front packet with its payload, timestamp and type, removes it and counts the expected number up |
| GapIdentifiers.GapIdentifier.DrainAndReplay | common/GapIdentifier.h:230-252 | The loop terminates in the state, and with the replays, of the value drain |
| GapIdentifiers.GapIdentifier.UpdateSeqNumFlush | common/GapIdentifier.h:210-218 | Sets the expected number behind the given one and drains |
| GapIdentifiers.GapIdentifier.ReplayPacket | common/GapIdentifier.h:269-296 | Resets the flag, replays the run at the given number, and requests what is missing before the next queued packet |
| GapIdentifiers.GapIdentifier.DrainPacket | common/GapIdentifier.h:220-228 | Empties the queue and zeroes its slots |
| GapIdentifiers.GapIdentifier.DrainPacketThrough | common/GapIdentifier.h:254-267 | Removes the queued packets up to a number |
| GapRuns.UpdateEffect | common/GapIdentifier.h:120-168 | Update never moves the expected number; it leaves the queue alone or appends a packet numbered above all buffered before, losing at most the smallest one, under MIN_SEQ with the buffer full |
| GapAnswers.UpdateAcceptsIff | common/GapIdentifier.h:112-187 | update returns true exactly for a packet that fits its slot, is numbered above all buffered and not below expected, and is the expected one or finds the buffer not full |
| GapAnswers.UpdateLeaves | common/GapIdentifier.h:112-187 | The state after update, for every packet: unchanged for one refused as misfit or old, the packet number recorded for the expected one, the packet queued or in the front's place or dropped when it is early, requests off when the client accepts one |
| GapAnswers.InOrderFeedIsDelivered | common/GapIdentifier.h:112-187 | Over every feed of live packets 1, 2, ..., n, each fitting its slot, all are delivered in order, with nothing buffered and nothing requested |
| GapAnswers.NothingHeldBack | common/GapIdentifier.h:205-252 | On careful runs, once every number up to n has been delivered or is buffered, all of them have been delivered |
| GapAnswers.FlushDrains | common/GapIdentifier.h:210-218 | updateSeqNumFlush(s), for any s, splits the queue at s+1 as a drain does and requests nothing |
| GapAnswers.UpdateSeqNumMoves | common/GapIdentifier.h:195-208 | updateSeqNum(s), for any s, makes s+1 the number in sequence and every number up to s a duplicate, and leaves the rest alone |
| GapAnswers.ReplayPacketReplays | common/GapIdentifier.h:269-296 | replayPacket(s), for any s, replays the longest run s, s+1, ... at the front of the queue, turns requests on and asks for what is missing from there to the next queued packet |
| GapAnswers.RequestsOnIff | common/GapIdentifier.h:298-311 | After any event requests are on exactly when they were or it resets them, and it neither mutes them nor has one accepted |
| GapAnswers.RequestsOnIffOpen | common/GapIdentifier.h:147-181 | Over runs that never mute requests by hand, they are on exactly when none has been accepted since the last reset, so a declined one leaves them on |
| GapRuns.DeliveredInOrderOnce | common/GapIdentifier.h:47-63 | Over every run of live and recovered packets, replays and drains, with or without flush, the numbers delivered are 1, 2, 3, ... up to below expected, each once; a number is a duplicate exactly when it was delivered |
| GapRuns.ReplayedAsGiven | common/GapIdentifier.h:130-168 | Every replayed packet is one given to update, byte for byte, and the only one ever buffered under its number |
| GapRuns.RunKeepsRunInv | common/GapIdentifier.h:112-296 | Every run keeps the queue strictly increasing, bounded by the slots and numbered at most the greatest number buffered, and the delivered numbers consecutive |
| GapRuns.StepKeepsRunInv | common/GapIdentifier.h:112-296 | Of the events on a queue ahead of the expected number, exactly the careful ones keep it ahead: the others deliver without flush a packet whose successor is buffered |
| GapRequests.LiveRequestNamesGapIff | common/GapIdentifier.h:147-181 | A live packet's request (a, b, c) has a = expected < b <= c with nothing of [a, b) buffered or delivered if and only if the queue is empty or its front is above the expected number |
| GapRequests.ReplayRequestNamesGapIff | common/GapIdentifier.h:269-289 | The same for replayPacket's request, if and only if no packet below the expected number is queued |
| GapRequests.RequestsSoundIff | common/GapIdentifier.h:147-181 | In any reachable state, whatever event comes next asks for a gap if and only if, with requests on, the queue is strictly ahead of the expected number, or, with requests off, not behind it |
| GapRequests.RequestsSoundIffCareful | common/GapIdentifier.h:147-296 | Over every run: with requests on, all requests that could be made at any moment name gaps if and only if no delivery without flush found its successor in the buffer |
| GapRequests.RequestsNameGaps | common/GapIdentifier.h:147-181 | On such runs, those that always flush among them, every request (a, b, c) has a = expected < b <= c with nothing of [a, b) buffered or delivered |
| GapRequests.WithoutFlushRequestsBuffered | common/GapIdentifier.h:205-208 | A run without the flush whose next request starts at a packet already buffered |
| GapKept.AtHandUntilLost | common/GapIdentifier.h:126-296 | A delivered or buffered number stays so through every event but a drain that covers it and, on a full MIN_SEQ buffer, the replacement of the front |
| GapKept.AcceptedIffNew | common/GapIdentifier.h:112-188 | update returns true for a packet with payload exactly when its number was neither delivered nor buffered, now is, and took no other packet's place |
| GapKept.AcceptedUntilLost | common/GapIdentifier.h:112-296 | Over every run an accepted packet is delivered or still buffered unless a later event of those two kinds threw it away |
| GapRuns.OneAcceptedRequestPerReset | common/GapIdentifier.h:298-311 | Between any two accepted requests of any run the re-request flag was reset |
| OrderBook.SortIsStable | common/Utils.h:90-111 | The sort yields an ascending permutation that keeps the order of equal prices |
| OrderBook.StableSortIsUnique | common/Utils.h:90-111 | No other ascending arrangement has the same levels in the same order at every price |
| Streams.InsertKey | common/Utils.h:97-109 | One round of the in-place loop is the insertion of the element into the sorted part before it |
| Streams.InsertionSort | common/Utils.h:90-111 | Sorts the first len elements in place and leaves the rest |
| Streams.FreshMergeIsStableSort | engine/book/Stream.h:136-162 | From a cleared count each composite side is the stable, price-sorted permutation of all venue quotes |
| Streams.MergeIsExactIffCleared | engine/book/Stream.h:150-157 | The composite side holds the venue quotes and nothing else if and only if its count was 0 before the merge |
| Streams.VenueOrder | engine/book/Stream.h:143-158 | Each side of the merged venues is the venues' own sides one behind the other (one venue's is its own, OneVenue) |
| Streams.OneVenue | engine/book/Stream.h:143-158 | One venue's quotes are its bids on the bid side and its asks on the ask side |
| Streams.Stream.MergeOrderBook | engine/book/Stream.h:136-164 | Copies, sorts and writes the tiers: both composite sides and every tier slot afterwards; each bid tier written has its configured size and costs the least the merged quotes allow |
| Streams.Stream.SweepBids | engine/book/Stream.h:91-111 | The nested loop writes exactly the tiers the bid book can fill, each at the cost of sweeping its size divided by its size |
| Streams.Stream.SweepAsks | engine/book/Stream.h:113-133 | The ask loop writes a tier at the first level whose size, added to the bid side's running size, reaches it, at the price extrapolated from that level |
| Streams.Stream.TierIsLeastCost | engine/book/Stream.h:99-108 | The tier level as written has the tier's size, and its price times that size is the least cost of that many units among the quotes |
| Streams.Stream.AskTierWrittenIff | engine/book/Stream.h:121-130 | The ask tier level as written has the tier's size and a price not above the picked level's, and is of least cost exactly when that level brackets the tier |
| Tiers.FireAtIsFirst | engine/book/Stream.h:113-121 | The ask loop writes a tier at the first level whose size together with the bid side's running size reaches it |
| Tiers.SweptIsFewestLevels | engine/book/Stream.h:91-111 | The bid side's running size at the end is that of the fewest whole levels holding the largest tier, or of the whole book |
| Sweep.ExtrapolationIsTangent | engine/book/Stream.h:123-126 | On an ascending book the extrapolated cost never exceeds the sweep's, and meets it exactly when the level's price lies between those of the tier's last unit and the next |
| Sweep.CostBelow | engine/book/Stream.h:109-110 | Any stretch of a sweep costs at most p a unit for p not below its dearest unit, and exactly p only if p is not above its cheapest |
| Sweep.NothingCheaper | engine/book/Stream.h:91-111 | No way of taking the units within the quoted sizes costs less than sweeping the ascending book from the front |
| LeastCost.SortedSweepIsLeast | engine/book/Stream.h:152-162 | The sweep of the sorted book costs the minimum over all ways of taking the units from the merged quotes, and attains it |
| LeastCost.MergeOrderIrrelevant | engine/book/Stream.h:143-158 | Merging the venues in another order changes no sweep's cost |
| Tiers.BidTierIsLeastCost | engine/book/Stream.h:99-108 | A bid tier's price times its size is that minimum, whatever the order of the venues |
| Tiers.TierPricesRise | engine/book/Stream.h:91-111 | Bid tier prices do not fall with the tier's size and lie between the first price and that of the level completing the tier |
| AskTiers.AskPricesRiseIff | engine/book/Stream.h:113-133 | For given sizes the larger of two ask tiers is never cheaper, whatever the ascending prices, if and only if the guard picks one level for both or, for the larger, a level that begins within it |
| AskTiers.AskPriceAtLeastIff | engine/book/Stream.h:113-133 | An ask tier is never below the first quote, whatever the ascending prices, if and only if the level its guard picks begins within the tier |
| AskTiers.AskPriceAtMost | engine/book/Stream.h:113-133 | An ask tier is never dearer than the level its guard picks, nor than its last unit if the book holds it |
| AskTiers.AskPricesCanFall | engine/book/Stream.h:121-128 | A four-level ask book without bids that offers a tier of 10 at 1 and a tier of 15 at -96 |
| Tiers.AskTierRightIffGuardFits | engine/book/Stream.h:121-130 | An ask tier is written when and as it should be exactly when the level its guard picks brackets the tier, or, for a tier the book cannot fill, no level passes the guard |
| Tiers.AskTierIsLeastCostIff | engine/book/Stream.h:121-130 | An ask tier the book can fill has the least cost exactly when that level brackets it |
| Tiers.AskTierNeverTooDear | engine/book/Stream.h:121-130 | A wrong ask tier the book could fill is too cheap, never too dear |
| Tiers.DeepBidsFlattenAsks | engine/book/Stream.h:113-133 | When the bids hold the largest tier, every ask tier is priced at the best ask, and is right exactly when the asks hold it at that one price |
| Tiers.AskTierCanBeWrong | engine/book/Stream.h:121-128 | A two-level ask book whose tier of 100 is written at 1 where sweeping it costs 1.9 a unit |
| PacketSpec.CodecIsQueue | common/Packet.cpp:24-132 | Over any interleaving of puts, matching gets and resets, failing ones included, a new packet answers as a queue of typed values |
| PacketSpec.PutSucceedsIff | common/Packet.cpp:45-94 | A put succeeds exactly when the free space holds the value, two bytes more for a string, eight more for an array; a failing one changes nothing |
| PacketSpec.PutAppends | common/Packet.cpp:45-94 | What a put appends, byte by byte: the memory, or two bytes of length, low byte first, and the characters or data |
| PacketSpec.GetTakes | common/Packet.cpp:55-132 | From any unread bytes: when a get finds something missing, when an array is too long for the caller, and what is taken otherwise |
| PacketSpec.CutValueIsMissing | common/Packet.cpp:55-132 | Of a value cut short anywhere a get takes nothing |
| PacketSpec.StringRoundTrip | common/Packet.cpp:66-111 | A string comes back exactly when it is NUL-free and at most 65535 long |
| PacketSpec.ArrayRoundTrip | common/Packet.cpp:84-132 | A byte array comes back whole with nothing left over exactly when it is at most 65535 long; a longer one leaves its tail to be misread |
| Packets.NPacket.PutFixed | common/Packet.cpp:45-53 | Appends the value's memory or, lacking room, changes nothing |
| Packets.NPacket.PutString | common/Packet.cpp:66-82 | Appends the 16-bit length and the characters up to the first NUL, or changes nothing |
| Packets.NPacket.PutArray | common/Packet.cpp:84-94 | Insists on eight bytes more than the array, then appends a 16-bit length and all of it, or changes nothing |
| Packets.NPacket.GetFixed | common/Packet.cpp:55-64 | Takes the next bytes or, if there are too few, changes nothing |
| Packets.NPacket.GetString | common/Packet.cpp:96-111 | Takes the next string, or rolls the read index back over its length |
| Packets.NPacket.GetArray | common/Packet.cpp:113-132 | Takes the next array, or rolls back on both failing paths, telling them apart by the result |
| Urls.Url.Parse | common/Url.cpp:55-141 | The loops over the string streams leave in the object what the value parser gives |
| UrlExact.NoSchemeIsRefused | common/Url.cpp:61-64 | A text without "://" is refused, and leaves the default type, no address and no options |
| UrlExact.AcceptsIff | common/Url.cpp:61-141 | Any other text is accepted if and only if a known scheme stands before the first "://" and something behind it before the first colon or, without one, the first comma |
| UrlExact.ParseMeans | common/Url.cpp:92-141 | For every text with a known scheme: the type, the address, and exactly the options bound, each key to what the first item that says anything of it says; an item with an empty key or value says nothing, the first without '=' is the port |
| UrlExact.EveryBodyIsShaped | common/Url.cpp:92-129 | Every text behind the scheme falls apart into such an address and items |
| Urls.ParseRecoversIff | common/Url.h:29-35 | An address of the documented form with delimiter-free parts, a trailing comma or not, is recovered, first binding winning, if and only if it gives a port, or no option holds a colon and a trailing comma comes with an option named port |
| Urls.TrailingCommaBindsPort | common/Url.h:34 | A chr address with a trailing comma, as documented, is read with an empty port it does not give |
| Urls.TypeRecoveredIff | common/Url.cpp:66-92 | The scheme's own type is recovered for every known scheme but unix |
| Text.GetLineSplits | common/Url.cpp:103-129 | getline on a text free of the delimiter, with one behind it or at the end |
| TextRoundTrip.ValueReads | common/Operators.h:28-301 | From the print of a value of any nesting, followed by any text, the reader recovers the value and leaves that text, under the conditions of RoundTripIff |
| TextGrammar.ExtractReads | common/Operators.h:12-25 | extractString drops the blanks of any string and tells which delimiter ended it |
| TextGrammar.FormReads | common/Operators.h:35-301 | Every text of the grammar is read as what it means, whatever follows: blanks before numbers, brackets, commas and ends, an optional sign, leading zeros, empty parts of a pair |
| TextParse.ReadsIffSpelled | common/Operators.h:35-301 | From any text a value is read and a rest left if and only if the grammar writes that value in front of that rest, or the text ends inside a pair's last string |
| TextParse.BlanksInFront | common/Operators.h:35-301 | White space in front of a value changes no read, failing ones included |
| TextParse.EmptyPartsRead | common/Operators.h:41-64 | Empty parts of a pair are read as 0, an empty string or an empty container |
| TextContainers.FilledSet | common/Operators.h:193-228 | A set filled in any order holds, in its own order, the first of all equivalent elements |
| TextContainers.FilledMap | common/Operators.h:148-191 | A map filled in any order has the keys of such a set, each with the value assigned last |
| TextRoundTrip.CanonWritten | common/Operators.h:28-146 | A value prints as its form in the grammar with no blanks, no plus sign, '<' and '[' as brackets |
| TextRoundTrip.PairPrintsAs | common/Operators.h:28-33 | A pair of an int and a vector as it prints |
| TextRoundTrip.MapPrintsAs | common/Operators.h:82-97 | A map of strings to empty sets as it prints |
| TextExact.RoundTripIff | common/Operators.h:28-301 | Of all values, of any nesting, whose sets and maps are in order, the round trip holds exactly for those with delimiter-free strings, no vector or set of one empty string, and no map whose first key begins with a closing bracket |
| TextExact.BracketKeyMisread | common/Operators.h:35-81 | A map of the last kind, however deep in pairs and vectors, makes the whole value come back as another one or not at all, whatever text follows |
| TextExact.ReadsCleanStrings | common/Operators.h:148-301 | Whatever is read, of any type and from any text, has strings free of their delimiters, so no other value can come back |
| TextRoundTrip.PrintReads | common/Operators.h:28-301 | From the print of any value with delimiter-free strings, sets and maps in order and bracket-free first keys, the reader makes the value AsRead describes: containers refilled by their own inserts, a vector or set of one empty string read as empty |
| TextExact.BracketKeyIsLost | common/Operators.h:148-159 | A map whose first key begins with a closing bracket reads as empty and leaves text unread |
| TextStreams.OutStream.PutValue | common/Operators.h:28-146 | The printing loops write the print of the value |
| TextStreams.InStream.Extract | common/Operators.h:12-25 | The extractString loop gives what its specification does, or reports failure where the source loops on a failed stream |
| TextStreams.InStream.GetItems | common/Operators.h:193-228 | The element loop of a set or vector terminates with what its specification gives, or reports failure |
| TextStreams.InStream.GetEntries | common/Operators.h:148-191 | The entry loop of a map terminates with what its specification gives, or reports failure |
| TextStreams.InStream.GetValue | common/Operators.h:35-81 | operator>> of a pair, vector, set or map, part by part, or a report of failure |
| Tuples.EqualIffNeitherLess | common/Utils.h:41-78 | For tuples of any arity, wildcards included: equal exactly when neither is less, and never both less |
| Tuples.StringLessIff | common/Utils.h:51 | One string is less when it is smaller at the first character that differs, or a proper prefix |
| Tuples.EqualIffColumnsMatch | common/Utils.h:65-78 | Tuples are equal exactly when every column is, or has a wildcard on either side |
| Tuples.LessIffFirstDifference | common/Utils.h:54-63 | One tuple is less exactly when it is so in the first column that differs with no wildcard on either side |
| Tuples.TransitiveBeforeLast | common/Utils.h:54-63 | less_than is transitive on tuples without wildcards before the last column |
| Tuples.TransitiveIffLastColumn | common/Utils.h:41-63 | With wildcards allowed in a set of columns, less_than is transitive if and only if the set holds no column but the last; so with wildcards anywhere only on tuples of one column |

## Left out

- RingBuffers.RingBuffer.WriteBuffer: the spin loop is straight-line here, because with one thread its test passes at once; the spinning is part of RingProtocol, where termination is not claimed without fairness.
- Ring memory model: atomics are sequentially consistent; `alloc`, `free`, the page rounding and the notifier descriptor are OS calls, of which only the addressing modulo the capacity is kept.
- GapIdentifiers.GapIdentifier.Update: requires the write index to stay below 2^32, as the index tests silently do (IndexTestMeansNonempty says why); sequence numbers are unbounded, and a payload is stored whole, so the bytes behind a short payload in a reused slot and payloads between MAX_PKT_SIZE and the slot size are not modelled.
- GapIdentifiers.GapIdentifier.Replace: the same bound on the write index as Update.
- GapIdentifiers.GapIdentifier.ProcessBuffer: the callback is given the payload as stored by Update, not the raw slot with the bytes behind it.
- Gap callbacks: the client's answer to onPacketGap is a parameter, its replays and requests are recorded in order, and it does not call back into the object.
- Streams.Stream.MergeOrderBook: sizes are unbounded ints and prices reals, so integer width and floating-point rounding are not modelled; composite sides of more than 100 levels and more than 20 tiers do not fit the arrays and are excluded, as are quotes and tiers of size 0 or less, on which the averages divide by zero; tiers are sorted, as the configuration sorts them.
- Streams.Stream.SweepBids: positive sizes, as for MergeOrderBook.
- Streams.Stream.SweepAsks: positive sizes, as for MergeOrderBook.
- `verticalIntergrationPrice` and the full-amount and sweepable parts of `onSnapshot`: their running values are not updated in several branches, so they have no intended result to state.
- Packets: fixed-size values are given by their memory, little-endian for the length prefix; the free functions of common/Packet.cpp:134-159 are wrappers, most without a return.
- TextExact.RoundTripIff: leaves out values in which a map inside a set or inside another map has a first key that begins with `]`. Such a map is itself never read where it stands (BracketKeyIsLost), but sets and maps drop equivalent elements, and the comparator is an arbitrary relation; that no later text can put the lost map back is not proved.
- TextStreams.InStream.GetItems: reports failure on a stream the source would never stop reading.
- Text streams that fail: where the source would loop forever or return garbage, the model's readers report failure; ints are unbounded, and readers start from an empty container.
- `unordered_*` containers and tuples of common/Operators.h: printed in hash order, or without a reader.
- Url constructor, `get_type_str` and the printing of common/Url.h:49-75, which omits the comma behind the address and is not the parser's inverse; the documented form is printed by the specification.
- `next_power_2`, the trims and the epsilon comparisons of common/Utils.h, the sequencer, state tables, configuration loading, and the connection, server and client classes: small, finite or I/O.
