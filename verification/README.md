# AllNet daemon: a verified model

This project models the self-contained logic of the AllNet daemon in `app/src/main/cfiles` and
proves what it does over all inputs and all runs. `dafny verify dfyconfig.toml` checks everything.

- `WordHash`, `Record`: the duplicate filter of record.c. Two direct-mapped tables of packet hashes
  answer exactly as the full history of recorded packets does, with an exact condition for
  forgetting. The shift-and-xor hash loop (also in hash.c) has a closed form.
- `Arena`, `HashTable`, `HashFile`, `HashLoading`: the chained hash table of hash.c and its loader.
  Next pointers, data and buckets are bytes of one allocation, and no write to one of them changes
  another. Lookups are exactly membership of a bit prefix, and the loaded table is exactly a stated
  part of the file.
- `Daemon`, `Network`, `AckBytes`, `Keepalive`, `Cadence`: the forwarding daemon of ad.c, one
  daemon over any run, and any number of daemons that relay to each other in interleaved steps.
- `Track`: the sliding-window bandwidth share of track.c.
- `PidFile`, `Interfaces`: the process id file and the interface list of astart.c.
- `Bytes`, `Common`, `Files`: bits of byte strings, shared definitions, a file read by character.

Code that changes state is a class or a method proved against a specification function; what the
code promises is then proved about that function. Bytes are unsigned, words are read with the least
significant byte first, and `int` is 32-bit two's complement, as on ARM.

## Where the code and its comments differ

- hash.c:264 and hash.h:18 promise that lines of another length are ignored. The loader reads only
  as many lines as there are right ones, so each wrong line among them displaces a right one.
  `HashLoading.LoadsEveryRightLine` gives the exact condition, `HashLoading.WrongLineDisplaces` an
  input.
- hash.c:145: a lookup with fewer key bytes than the entries have looks in another bucket.
  `HashTable.LookupIsMembership` holds when the numbers of key bytes agree, and
  `HashTable.OtherKeysMiss` gives, for every other pair of sizes, an entry that is missed.
- record.c:86 returns a 64-bit age as an unsigned int, so that an age that is a positive multiple of
  2^32 seconds reads as 0, "not found" (`Record.SeenIffRemembered`,
  `Record.AgeLost`).
- pcache.h:10 wants each message forwarded to each system at most once. That holds for messages and
  acks, but a data request without a message id of its own is saved under the id it has after its
  token is replaced (ad.c:670, 682), so it is not recognised when it comes again
  (`Daemon.SecondCopyDropped`, `Network.DataRequestsLoop`). Data requests with one are like messages
  (`Daemon.RelayedAtMostOnce`, `Network.FloodingIsLoopFree`).
- ad.c:286 forwards only while hops are left, but messages sent from the cache in reply to a data
  request (ad.c:667) skip that test: they go up to two links further (`Network.HopBound`,
  `Network.RepliesGoTwoFurther`), and with a maximum of 255 hops the count no longer bounds them
  (`Network.RepliesGoOnAt255`).
- ad.c:157: the keepalive table can get two entries for one address when addresses that embed an
  IPv4 address are present (`Keepalive.AddedStaysDistinct`, `Keepalive.DistinctCanBreak`).
- ad.c:310: the comment says 19; keepalives go out with every 20th send (`Cadence.Pacer.CountSend`).
- hash.c:151 passes the byte behind a query to bitcmp when the query is a whole number of bytes. The
  parameter `beyond` of `HashTable.HashTable.HashFind` is that byte; the answer does not depend on it.

## Model

| member | source | states |
|---|---|---|
| WordHash.SimpleHash | app/src/main/cfiles/record.c:29-58 | the loop computes the closed form: the rotated seed (left-over bits plus length) xor each word rotated once for every later word, then the absolute value |
| WordHash.MyHash | app/src/main/cfiles/hash.c:73-99 | the same closed form without the length |
| WordHash.HashWords | app/src/main/cfiles/record.c:51-54 | the rotate-and-xor loop on n words equals rotl(seed, n) xor the rotated words, for every n |
| WordHash.LeftoverBits | app/src/main/cfiles/record.c:40-49 | byte k of the result, least significant first, is byte k behind the whole words if the remaining bits touch it, and 0 otherwise |
| WordHash.Rotl1Is | app/src/main/cfiles/record.c:52 | one rotation doubles the word modulo 2^32 and brings its top bit back in below |
| WordHash.WordOfIs | app/src/main/cfiles/record.c:31 | a word is its four bytes in base 256, least significant first |
| WordHash.AbsoluteValueIs | app/src/main/cfiles/record.c:55-56 | the result is the word or its negation, and at most 2^31 |
| WordHash.HashExamples | app/src/main/cfiles/hash.c:73-99 | the values of both hashes on three byte strings: left-over bits, a negative value, a bit rotated around |
| WordHash.RecordAndMyHash | app/src/main/cfiles/record.c:50-54 | on whole words the two hashes differ, before the absolute value, by exactly the rotated bit length |
| WordHash.OneWordMatters | app/src/main/cfiles/record.c:51-54 | replacing any one word by another changes the value before the absolute value |
| WordHash.ChangedWord | app/src/main/cfiles/record.c:37-57 | byte strings that differ inside one whole word always differ before the absolute value; the hashes collide exactly when one value is the negation of the other |
| Record.SlotsDetermineHash | app/src/main/cfiles/record.c:60-67 | the left and right table positions of a hash together determine it, and conversely |
| Record.PositionsAreBytes | app/src/main/cfiles/record.c:60-67 | the left position is bytes 3 and 1 of the hash, the right one bytes 2 and 0 |
| Record.TwoSlotAgreement | app/src/main/cfiles/record.c:119-135 | after any history, entries of both tables that hold the same hash hold the same time, so the comparison for the lesser time never chooses |
| Record.TablesRefineHistory | app/src/main/cfiles/record.c:120-135 | the two lookups and the choice between them equal the answer computed from the full history alone |
| Record.SeenIffRemembered | app/src/main/cfiles/record.c:78-87 | nonzero exactly when the hash was recorded at a nonzero time and not both its slots were later taken, except for ages lost in the 32-bit conversion |
| Record.AnswerIsAge | app/src/main/cfiles/record.c:78-87 | for a remembered hash the answer is the seconds since its last recording: 1 if not positive, that number itself below 2^32, and its remainder modulo 2^32 in general |
| Record.OneCompetitorCannotErase | app/src/main/cfiles/record.c:3-10 | a recorded hash survives any number of later packets that bring at most one other hash |
| Record.TwoCompetitorsErase | app/src/main/cfiles/record.c:123-127 | two other hashes do erase it: one takes the left slot, one the right |
| Record.EveryHashReached | app/src/main/cfiles/record.c:29-58 | every hash below 2^31 is the hash of some packet |
| Record.TwoPacketsErase | app/src/main/cfiles/record.c:104-136 | for every packet with such a hash there are two packets whose recording makes it forgotten, from any history |
| Record.ForgottenIff | app/src/main/cfiles/record.c:104-136 | a recorded packet can be forgotten after some run of packets exactly when its hash is below 2^31; a packet with hash 2^31 never is |
| Record.AgeLost | app/src/main/cfiles/record.c:78-87 | such a history and time: a remembered packet is answered as not seen 2^32 seconds later |
| Record.DuplicateDetected | app/src/main/cfiles/record.c:110-118 | a recorded packet is recognised again whatever its first three bytes (with the hop count) have become: with 1 if no time has passed and otherwise the exact number of seconds, below 2^32 |
| Record.ChangeIsHashed | app/src/main/cfiles/record.c:110-118 | a packet that differs in one word behind the first three bytes has another value before the absolute value |
| Record.PacketExample | app/src/main/cfiles/record.c:110-118 | the hash of 24-byte packets that are 1 in the fourth byte and 0 behind it, whatever the first three bytes are |
| Record.Recorder.constructor | app/src/main/cfiles/record.c:89-100 | both tables start empty |
| Record.Recorder.StoreLeft | app/src/main/cfiles/record.c:124-125 | the write makes the left table that of the history with this packet, at every index |
| Record.Recorder.StoreRight | app/src/main/cfiles/record.c:126-127 | the same for the right table |
| Record.Recorder.RecordPacket | app/src/main/cfiles/record.c:104-136 | returns the answer on the full history before the packet and adds the packet to it; short or missing packets give 1 and change nothing |
| Bytes.SplitPrefix | app/src/main/cfiles/hash.c:150-152 | comparing whole bytes and then one shifted byte decides whether the first n bits agree, bit by bit |
| Bytes.TopBits | app/src/main/cfiles/hash.c:101-111 | two bytes shifted right by 8 - k are equal exactly when their first k bits are |
| HashTable.KeyOfPrefix | app/src/main/cfiles/hash.c:113-132 | the key depends only on the key bytes, for entries and queries of any lengths |
| HashTable.KeyIs | app/src/main/cfiles/hash.c:113-132 | the key is the absolute value of the 32-bit two's complement number of up to four whole bytes, most significant first, with zeros behind them |
| HashTable.BucketIs | app/src/main/cfiles/hash.c:145-147 | the bucket is the remainder of the key by the number of entries |
| HashTable.LookupIsMembership | app/src/main/cfiles/hash.c:134-160 | with as many key bytes as the entries have, a lookup of the first bits of q finds exactly whether some entry begins with them, or, with more bits than an entry has, whether some entry is what q begins with, although it searches one chain only |
| HashTable.OtherKeysMiss | app/src/main/cfiles/hash.c:140-147 | with any other number of key bytes there is a table of one entry, and a query that agrees with it, for which the lookup fails |
| Arena.PointerRoundTrip | app/src/main/cfiles/hash.c:178-182 | an address written to memory as eight bytes reads back |
| Arena.OffsetsApart | app/src/main/cfiles/hash.c:169-171 | entry j of n ends at or before entry k > j, and below the buckets |
| Arena.PartInside | app/src/main/cfiles/hash.c:57-59 | every next field, data area and bucket lies inside the allocation, and all of an entry below the buckets |
| Arena.PartsApart | app/src/main/cfiles/hash.c:57-69 | no two of these parts overlap: header and data of one entry, entries of different numbers, entries and buckets, different buckets |
| Arena.WriteKeepsOthers | app/src/main/cfiles/hash.c:178-182 | writing to one part of the memory leaves the bytes of every other part as they were |
| Arena.PointerHeld | app/src/main/cfiles/hash.c:147-157 | in a valid memory every bucket reads as the address of its latest entry and every next field as that of the entry before it in its bucket, or NULL |
| Arena.NextGoesDown | app/src/main/cfiles/hash.c:178 | every next field in memory is NULL or a strictly lower address, so every chain ends |
| Arena.ChainsPartitionEntries | app/src/main/cfiles/hash.c:145-159 | following the pointers in memory from a bucket meets exactly the entries of that bucket, latest first: each entry is in one chain only |
| Arena.AddHoldsItem | app/src/main/cfiles/hash.c:178-182 | the three writes of an add to the one memory turn one that holds the items into one that also holds the new item, at the head of its chain |
| HashTable.FullIff | app/src/main/cfiles/hash.c:170-177 | the overflow test fires exactly when all entries are in use |
| HashTable.CapacityByBytes | app/src/main/cfiles/hash.c:41-46 | the number of entries is the smaller of the lines and the room in the budget, and their bytes fit the budget |
| HashTable.HashTable.constructor | app/src/main/cfiles/hash.c:18-27 | an empty table without storage |
| HashTable.HashTable.InitSize | app/src/main/cfiles/hash.c:30-70 | on failure 0 and nothing changed; otherwise a fresh allocation for exactly that many entries, with all buckets empty, whose bytes are the result and fit the budget |
| HashTable.HashTable.HashFind | app/src/main/cfiles/hash.c:134-160 | 1 exactly when some item in the bucket of the query agrees with it on every bit that both have; all reads are in bounds |
| HashTable.HashTable.HashAdd | app/src/main/cfiles/hash.c:164-183 | adds one item with the data, cut to size, behind all others, and keeps the memory valid: all stored items, pointers and buckets; a full table is left as it was |
| HashFile.DecodeEncode | app/src/main/cfiles/hash.c:216-231 | decoding the hexadecimal form of any byte string gives it back |
| HashFile.DecodesWhatIsWritten | app/src/main/cfiles/hash.c:216-231 | a line is accepted and decoded as given bytes exactly when it writes them in hexadecimal, in any mix of cases |
| HashFile.HexDigits | app/src/main/cfiles/hash.c:216-226 | the accepted characters are the digits of either case, each with the value of its place |
| HashFile.CountLines | app/src/main/cfiles/hash.c:185-214 | the number of newline-terminated lines of exactly the given length; the file is rewound |
| HashFile.FillLine | app/src/main/cfiles/hash.c:239-250 | reads up to and without the newline, or gives up after a full buffer, also at the end of the file |
| HashFile.ReadLineBytes | app/src/main/cfiles/hash.c:235-259 | the decoded line if it has the right length, exit on a character that is not hexadecimal, nothing otherwise; the file moves on exactly as for reading one line |
| HashLoading.OneReading | app/src/main/cfiles/hash.c:239-250 | a line of at most 2048 characters is read with its newline; 2049 characters without one are given up, and so is what is behind the last newline |
| HashLoading.NoBytesNoEntries | app/src/main/cfiles/hash.c:237-238 | entries of no bytes are never loaded |
| HashFile.HashFromFile | app/src/main/cfiles/hash.c:266-286 | the table holds exactly the decoded right-length lines among the first N readings, N being the number of right-length lines, cut to the capacity; on failure 0 and the table is unchanged; exits exactly when one of them is not hexadecimal |
| HashLoading.ReadingsAreLines | app/src/main/cfiles/hash.c:241-246 | with lines that fit the buffer, successive readings give the lines of the file |
| HashLoading.RightLinesAre | app/src/main/cfiles/hash.c:264 | the right lines are the lines of the right length |
| HashLoading.LoadsEveryRightLine | app/src/main/cfiles/hash.c:261-264 | all right-length lines are accepted exactly when none of the first N lines has another length |
| HashLoading.WrongLineDisplaces | app/src/main/cfiles/hash.c:279-284 | a two-line file whose only right line is not loaded |
| HashLoading.LoadsTheFile | app/src/main/cfiles/hash.c:266-286 | a file of right hexadecimal lines is loaded whole and in order when the budget has room |
| HashLoading.LookupInLoadedFile | app/src/main/cfiles/hash.c:134-160 | a lookup after loading answers whether some line of the file stands for bytes that begin with the bits looked for; with at least all bits of an entry, whether some line stands for exactly these bytes |
| HashLoading.WriteLoadFind | app/src/main/cfiles/hash.c:134-286 | after writing entries to a file and loading it, a lookup is membership in the list of entries, and with fewer bits of q whether some entry begins with them |
| Track.Matches | app/src/main/cfiles/lib/util.c:872-898 | nonzero exactly when the senders agree on every bit that both give, and then one more than the lesser number of bits |
| Track.RingAppend | app/src/main/cfiles/track.c:59-62 | overwriting the slot at the cursor turns the ring of a history into the ring of the history with one more packet |
| Track.RingTotals | app/src/main/cfiles/track.c:50-56 | the slots of the ring sum up to the total and matching sizes of the last 128 packets |
| Track.WindowIs | app/src/main/cfiles/track.c:50-62 | the window is the last 128 packets |
| Track.OnePacket | app/src/main/cfiles/track.c:50-56 | one packet adds its size to the total, and to the matching size if its sender matches |
| Track.RateTracker.constructor | app/src/main/cfiles/track.c:18-20 | an unused ring |
| Track.RateTracker.TrackRate | app/src/main/cfiles/track.c:34-76 | after any history, returns the share of the sender over the last 128 packets and this one, and records this one |
| Track.ShareIs | app/src/main/cfiles/track.c:71-75 | the share is q times the matching size, where q is how often the total goes into 2^30; 2^30 - 1 if nothing was sent |
| Track.ShareError | app/src/main/cfiles/track.c:75 | the share is at most the maximum, never above the exact fraction, and short of it by less than S (times T, with S of T bytes) |
| Track.OnlySender | app/src/main/cfiles/track.c:29-33 | a sender of the whole window gets the maximum, less than T short |
| Track.SharesOfPartition | app/src/main/cfiles/track.c:29-33 | shares of senders no two of which match the same packet add up to at most the maximum |
| Daemon.DaemonState.SaveAcks | app/src/main/cfiles/lib/pcache.c:1195-1202 | every ack is recorded and the message it acknowledges deleted |
| Daemon.DaemonState.AcksForToken | app/src/main/cfiles/lib/pcache.c:1288-1305 | exactly the new acks are kept and all are marked |
| Daemon.DaemonState.Process | app/src/main/cfiles/ad.c:629-734 | the new cache and the packet to send on are those of the step function, for every packet and cache |
| Daemon.ForwardedIffNew | app/src/main/cfiles/ad.c:642-686 | a message from outside goes on exactly when it is well formed and its id was neither saved nor acked; then exactly the id it goes on under becomes handled, otherwise nothing changes |
| Daemon.ForwardedByContent | app/src/main/cfiles/ad.c:642-686 | the same by what the packet carries, its message id or else the hash of its payload; what goes on is the packet with one hop more, and our token in a data request, saved under the id it then has; an empty payload is dropped |
| Daemon.LocalByContent | app/src/main/cfiles/ad.c:642-686 | a packet of a local program goes on as it is but for the token, seen before or not, and is saved only if it was not seen |
| Daemon.DifferentMessagesGoOn | app/src/main/cfiles/lib/pcache.c:667-687 | two messages without message ids whose payloads have different hashes do not hide each other |
| Daemon.SecondCopyDropped | app/src/main/cfiles/ad.c:655-683 | a second copy is dropped exactly when the message is saved under the id it arrived with, which can fail only for data requests without a message id |
| Daemon.HandledIsDropped | app/src/main/cfiles/ad.c:647-654 | over any run, once an id is saved or acked its message from outside is dropped for ever |
| Daemon.RelayedAtMostOnce | app/src/main/cfiles/ad.c:642-686 | over any run from any cache, a message or data request that keeps its id and went on once is not relayed from outside later; by SecondCopyDropped this is exactly when the id is kept |
| Daemon.NotRelayedOnceAcked | app/src/main/cfiles/ad.c:647-654 | over any run, a message whose ack arrived earlier is not relayed |
| Daemon.NewAcksAre | app/src/main/cfiles/lib/pcache.c:1285-1287 | the acks kept are the set of those never handed on before, without repeats |
| Daemon.NewAcksInOrder | app/src/main/cfiles/lib/pcache.c:1285-1287 | they keep the order they arrived in |
| Daemon.AcksGoOnWhenNew | app/src/main/cfiles/ad.c:491-507 | an ack packet is dropped exactly when all its acks were handed on before, and goes on with the others |
| Daemon.AckPassedAtMostOnce | app/src/main/cfiles/ad.c:491-525 | over any run each ack goes on at most once |
| Network.RunIsFine | app/src/main/cfiles/ad.c:689-753 | the invariant of every reachable network, replies from the caches included: hops counted, guards passed, and every daemon on the path of a message, an ack or a data request with a message id would drop it |
| Network.HopBound | app/src/main/cfiles/ad.c:286-293 | in every run a packet first sent with h hops has crossed at most max_hops - h links on any path when send_out sends it; with replies from caches at most two more, the last of which no daemon takes in, if max_hops is below 255 |
| Network.RepliesGoTwoFurther | app/src/main/cfiles/ad.c:667-668 | a run in which a message does cross two links more |
| Network.RepliesGoOnAt255 | app/src/main/cfiles/ad.c:731-732 | with max_hops 255 the count stops at 255, and replies carry a message over as many links as there are daemons |
| Network.RepliesMayBeCached | app/src/main/cfiles/ad.c:680-684 | in every run only messages and data requests that may be cached are sent from a cache |
| Network.FloodingIsLoopFree | app/src/main/cfiles/ad.c:642-740 | in every run no message, no ack and no data request with a message id passes through the same daemon twice, replies included |
| Network.DeliveryRelays | app/src/main/cfiles/ad.c:731-740 | a delivered message or data request is relayed exactly when its id is new there and one more hop is left; then max_hops - hops is one less and still positive |
| Network.AckDeliveryRelays | app/src/main/cfiles/ad.c:731-740 | an ack packet is sent on with exactly the acks its receiver had not handed on, if there are any and one more hop is left |
| Network.InjectionSends | app/src/main/cfiles/ad.c:731-740 | a local message or data request with a payload and hops left is sent out |
| Network.AtMostOneRelayEach | app/src/main/cfiles/ad.c:642-740 | in every run of n daemons no two relays of a message, or of a data request with a message id, are by the same daemon, and there are at most n of them, however often it is injected or delivered |
| Network.EveryRelayCounts | app/src/main/cfiles/ad.c:731-740 | whatever a daemon sends on delivery of such a packet counts as a relay of its id by this daemon |
| Network.DataRequestsLoop | app/src/main/cfiles/ad.c:669-683 | in any network, two daemons whose tokens give a data request without a message id different ids send it back and forth |
| AckBytes.AcksForToken | app/src/main/cfiles/lib/pcache.c:1288-1305 | in place, the new acks end up in front in order, and nothing before the payload changes |
| AckBytes.ProcessAckBytes | app/src/main/cfiles/ad.c:496-525 | both error exits are unreachable; 0 exactly when no ack is new; otherwise the size exceeds the header, never the input, and recomputing the count from it gives exactly the new acks, also with a partial ack at the end |
| AckBytes.AfterHeader | app/src/main/cfiles/lib/packet.h:265-324 | the nested header macros give the header size, or the packet size when that is smaller |
| AckBytes.AckIs | app/src/main/cfiles/ad.c:501-507 | an ack is the 16 bytes at its place |
| Keepalive.KeepaliveTable.RoutingKeepaliveIndex | app/src/main/cfiles/ad.c:161-170 | the first live entry with the same address, or -1 |
| Keepalive.SameMeans | app/src/main/cfiles/lib/ai.c:894-925 | which addresses are the same: all parts equal, or the port equal and the IPv4 address embedded |
| Keepalive.KeepaliveTable.AddRoutingKeepalive | app/src/main/cfiles/ad.c:173-197 | the live entries become those of the specification, for every random choice; 0 exactly when nothing changed |
| Keepalive.AddedIsFound | app/src/main/cfiles/ad.c:172-197 | after an add the address is found with the new authentication; at most one entry changes, and one is lost only when the table is full |
| Keepalive.AddedStaysDistinct | app/src/main/cfiles/ad.c:176-196 | an add keeps the addresses distinct except exactly when it replaces the first of two entries that both match |
| Keepalive.DistinctCanBreak | app/src/main/cfiles/lib/ai.c:894-925 | three adds to an empty table after which two entries are for the same address |
| Keepalive.TableStaysDistinct | app/src/main/cfiles/ad.c:150-197 | over any run without embedded addresses, at most 32 entries and no two for the same address |
| Cadence.Pacer.CountSend | app/src/main/cfiles/ad.c:310-317 | the n-th send carries keepalives exactly when n is 1 modulo 20 |
| Cadence.RoundsPerSendLimit | app/src/main/cfiles/ad.c:128-129 | of the results of all sends so far, any 99 consecutive ones have 4 or 5 rounds of keepalives |
| Cadence.Pacer.UpdateVirtualClock | app/src/main/cfiles/ad.c:131-148 | the clock is 1 plus the number of its ticks, for arbitrary readings of the time |
| Cadence.TicksApart | app/src/main/cfiles/ad.c:134-142 | successive ticks are at least 11 seconds apart |
| Cadence.TicksWhenDue | app/src/main/cfiles/ad.c:134-142 | the clock ticks at a reading exactly when it is more than ten seconds after the last tick |
| PidFile.ReadPid | app/src/main/cfiles/astart.c:240-267 | the character loop returns what the scan of the remaining text gives and leaves the same rest |
| PidFile.ReadsFirstRun | app/src/main/cfiles/astart.c:240-267 | on any text: the positions of the first maximal run of digits that another character ends and whose value exceeds 1, that value and the text behind it; -1 and no text left if there is none |
| PidFile.ReadPids | app/src/main/cfiles/astart.c:286-289 | collects the pids other than the caller's, at most 1000 |
| PidFile.CollectedFit | app/src/main/cfiles/astart.c:286-289 | no more than 1000 pids are collected from any text |
| PidFile.ReadBack | app/src/main/cfiles/astart.c:177-191 | reading back any printed list gives the pids above 1 other than the caller's, in order, as far as there is room |
| PidFile.RoundTrip | app/src/main/cfiles/astart.c:240-289 | a printed list of at most 1000 pids above 1 is read back whole and in order, minus the caller's own pid |
| PidFile.WithoutIs | app/src/main/cfiles/astart.c:286-289 | all occurrences of the caller's own pid are taken out and nothing else |
| PidFile.DecimalIs | app/src/main/cfiles/astart.c:177-191 | the printed digits: the last is the remainder by ten, those before are of the quotient |
| Interfaces.CountInterfaces | app/src/main/cfiles/astart.c:461-473 | the first pass gives the number of strings and their exact total length with terminators |
| Interfaces.TextsAre | app/src/main/cfiles/astart.c:461-489 | the strings are exactly the names of broadcast interfaces that are not loopback, with "/ip" or "/wifi" behind them |
| Interfaces.ExtraIs | app/src/main/cfiles/astart.c:432-453 | "ip" exactly with an IPv4 address, else "wifi" exactly for root and a wireless name |
| Interfaces.Snprintf | app/src/main/cfiles/astart.c:487-489 | writes as much as there is room for and a terminator, and returns the full length |
| Interfaces.WriteInterfaces | app/src/main/cfiles/astart.c:479-494 | the second pass fills the allocation exactly with the strings of all eligible interfaces in order; nothing is cut off and stopping at a full buffer drops none |
| Interfaces.DefaultInterfaces | app/src/main/cfiles/astart.c:455-501 | the result counts the strings, each pointer is where its string starts, and read as a C string gives it, if no name contains a terminator |
| Interfaces.StringsReadBack | app/src/main/cfiles/astart.c:484-493 | each pointer read as a C string gives "name/extra"; the strings follow each other without overlap up to the end |

## Left out

- WordHash.SimpleHash: negating the least int is undefined in C; here it wraps to itself, and Record.ForgottenIff treats that hash value by itself.
- HashTable.HashTable.HashFind: the key whose 32 bits are 0x80000000 is excluded, because its absolute value is not an int; the same for HashAdd and for accepted lines in HashFromFile.
- HashTable.HashTable.InitSize: lines times bytes per entry must fit 32 bits and the budget an int; beyond that the C arithmetic wraps and the bucket array is misplaced.
- HashTable.HashTable.HashAdd: a pointer is eight bytes with the least significant first, and what malloc returns lies inside the 64-bit address space; uninitialised bytes are arbitrary.
- HashFile.HashFromFile: read and lseek errors, and counters of a file of more than 2^31 characters.
- Track.RateTracker.TrackRate: the 32-bit sums are assumed not to wrap; at most 129 packets of at most 12288 bytes are summed.
- Daemon.DaemonState.Process: the packet cache is taken to keep every id and ack it was given, without eviction or false positives; ids, acks and tokens are numbers and the hash is any function.
- Network.HopBound: which saved messages a data request asks for is not modelled; any of them may be sent at any time while it is saved.
- Keepalive.KeepaliveTable.AddRoutingKeepalive: the length of an address is that of its family.
- PidFile.ReadPid: the value of a digit run is not bounded; above 2^31 - 1 the C arithmetic overflows.
- Management packets: what they save and send is arbitrary traffic in Daemon and Network; trace rewriting, DHT and beacons are not part of this model.
- Priorities and send_ack in ad.c: they do not decide whether a packet is relayed.
- The argument deletion and the process, signal and permission code of astart.c, social.c, CHelper.c, and the rest of lib/ and xchat/.
- Debugging output such as print_hash_entry, and logging.
