# rdesktop client algorithms

A model of the stateful algorithms inside the rdesktop client, with proofs of what they are for.

| part | modules |
|---|---|
| Bulk decompression (RFC 2118 section 4 and the 64K variant of [MS-RDPBCGR] section 3.1.8.4): a bit-window decoder over a history that persists across packets | `Bits`, `MppcCode`, `MppcHistory`, `MppcWindow`, `Mppc`, `MppcRuns` |
| Persistent bitmap cache: a list threaded through an array, a file of cells, and the order carried across sessions as stamps | `CellFile`, `LruList`, `StampSort`, `BitmapCache`, `CacheRuns`, `CacheOrder`, `CacheSessions` |
| Interleaved run-length bitmaps ([MS-RDPBCGR] section 3.1.9) and planar bitmaps ([MS-RDPEGDI] section 2.2.2.5.1) | `RleSpec`, `RleRows`, `RleDecoder`, `RleLinear`, `RleImages`, `RleOrders`, `PlanarSpec`, `Planar`, `PlanarImages` |
| Pending device requests in a linked list | `IoSpec`, `IoRequests`, `IoRuns`, `IoPasses`, `IoBounds` |
| The ring of audio packets and their confirmations | `AudioSpec`, `AudioQueue`, `AudioRuns` |
| NTLM: the sealed session and the rewriting of target information ([MS-NLMP] section 2.2.2.1) | `Words`, `NtlmSession`, `NtlmRuns`, `AvPairs` |
| SPNEGO wrapping and extraction (RFC 4178 sections 4.2.1 and 4.2.2) | `SpnegoSpec`, `Spnego`, `SpnegoRoundTrip`, `SpnegoTrees` |
| Virtual channel chunks | `ChannelSpec`, `Channels`, `ChannelRuns` |
| The nine-grid renderer | `NineGrid` |

Each part has three layers. A specification on values (bit strings, sequences, maps) gives the meaning. The
algorithm, in the program's own imperative form (bit window, array of links, linked list, ring, nested loops), is
proved to compute it. Lemmas about the specification, over all inputs and all runs, state what the algorithm is
for; since the methods are tied to the specification, they hold of the algorithm too.

Where the program does not do what one would expect, the model keeps the program's behaviour and a lemma says
exactly when it matters:

- a save longer than a cell overwrites the key of the next cell (`SaveSafeExactlyWhenFits`);
- without precaching the cache order is forgotten, and with it the part of it behind an unused cell (`OrderSurvivesExactlyWhen`; `ForgottenWithoutPrecaching` and `ForgottenBehindGap` for inputs);
- a device request arriving while one with handle 0 is pending overwrites it (`AddKeepsExactlyWhen`);
- a polling pass does not offer every ready device request to its driver: completing one skips the one behind it, and completing the oldest ends the pass (`OfferedExactlyWhen` for given drivers, `OfferedWhateverDrivers` for all of them, `HeadEndsPass` and `TwoSilentReads` for an input);
- a driver that stores -1 for an error moves a request backwards, and outside its buffer if nothing had been moved (`SoundExactlyWhenFair` and `LengthSurvivesExactlyWhen` for one call, `PassSafeExactlyWhen` for a pass, `FirstFailureGoesOutside` and `LaterFailureMisplaces` for what follows);
- a message with the right sequence number and a wrong checksum is refused after it has used up key stream (`RefusalKeepsStateExactlyWhen`);
- in 64K mode a match that reaches before the start of the history may run past the end of the array (`OverreadExactlyWhen`; `MatchPacketOverreads` and `FirstMatchOverreads` for packets);
- a played packet that is due stays unconfirmed behind one that is not (`NoneDueExactlyWhen`, `PromptExactlyWhenAscending`, and `ShortPlayWaits` for an input);
- long target information overruns the buffer computed for it in 16 bits (`BufferFilledExactlyWhen`, and by the lengths alone `LengthsSafeExactlyWhen`);
- a chunk size of 0 keeps the sending loop where it is on a message with anything left (`ProgressExactlyWhen`, `Channels.Send`);
- the two passes over target information disagree for a target name whose length is a multiple of 65536 (`LengthsAgreeExactlyWhen`);
- wrapped tokens with more than 0xffff bytes of contents are found by the signature scan only (`InitRoundTrip`, `RespRoundTrip`);
- a nine-grid picture whose first border takes all of it samples outside its rectangle when enlarged (`InsideExactlyWhen`).

`dafny verify dfyconfig.toml` checks everything.

## Model

| member | source | states |
|---|---|---|
| Mppc.Fill | mppc.c:177-186 | The refill loops succeed exactly when the packet still holds enough bits, and then only move bits from the packet into the window |
| Mppc.TakeField | mppc.c:173-236 | Skipping a class prefix and cutting an offset field out of the signed 32-bit window yields the field at the front of the remaining bit string, or fails when it is too short |
| Mppc.DecodeOffset | mppc.c:158-290 | The nested bit tests of both modes compute what the class table of the code says about the remaining bits |
| Mppc.DecodeLength | mppc.c:293-356 | The unary prefix and value bits of a match length, masked and or-ed in the window, are the length of the code table, with the same failures |
| Mppc.DecodeToken | mppc.c:99-368 | One round of the decoding loop, including its end-of-packet tests, reads exactly the next token of the remaining bit string |
| Mppc.Decompressor.CopyMatch | mppc.c:362-368 | The overlapping byte loop is the array copy of the specification |
| Mppc.Decompressor.ExpandBits | mppc.c:99-370 | The decoding loop ends with the status, offset and history of the token-level machine run on the packet's bits |
| Mppc.Decompressor.Expand | mppc.c:57-379 | One call changes the persistent history and offset, and answers, as the packet function says, in every case including refusal |
| Bits.ShlMultiplies | mppc.c:124-128 | The left shift on the 32 bits of the window is multiplication modulo 2^32 |
| Bits.ShrDivides | mppc.c:183-184 | The unsigned right shift divides, and leaves the number in the leading bits |
| MppcWindow.FetchPending | mppc.c:118-119 | Or-ing a byte under the window appends its bits to the pending bits and keeps the bits below the window zero |
| MppcWindow.LengthField | mppc.c:352-354 | Shifting, masking and marking the window gives the value bits with the leading one restored, whatever the sign of the window |
| MppcCode.TokenInverse | mppc.c:99-356 | The reader returns a token and a rest if and only if the input is the code of that encodable token followed by that rest, in both modes |
| MppcCode.OffsetInverse | mppc.c:158-290 | Offset codes of the 8K and 64K modes are read back exactly, and nothing else reads as them |
| MppcCode.LengthInverse | mppc.c:293-356 | Length codes are read back exactly, and nothing else reads as them |
| MppcHistory.CopyIsLz | mppc.c:358-368 | The in-place copy produces the LZ77 expansion, overlapping copies included |
| MppcHistory.RunIsExpand | mppc.c:99-370 | On packets without invalid matches the machine on the whole array depends only on the bytes produced so far, and appends the expansion |
| MppcHistory.RunKeepsBelow | mppc.c:358-370 | No packet, valid or not, changes the history below the offset it starts at |
| MppcHistory.MatchReads | mppc.c:358-368 | Every byte of a match that is carried out, valid or not, is read from the offset's target, taken modulo 8192 or 65536 |
| MppcRuns.OnlyOutputWritten | mppc.c:99-379 | An accepted packet changes the history only between the offset it starts from and the one it ends at |
| MppcRuns.FlushClears | mppc.c:72-97 | RESET and FLUSH rewind, FLUSH clears the history, and otherwise what is not written stays |
| MppcRuns.UncompressedPasses | mppc.c:62-67 | An uncompressed packet changes nothing and is answered with its length |
| MppcHistory.OverreadExactlyWhen | mppc.c:358-368 | The copy reads past the history array if and only if, in 64K mode, a match that fits reaches before the start of the history and is longer than its distance to the end of the array |
| MppcRuns.MatchPacketOverreads | mppc.c:358-368 | A packet that holds one match is out of bounds under exactly that condition, from every state |
| MppcRuns.FirstMatchOverreads | mppc.c:358-368 | Such a packet: three bytes from one byte back, with nothing in the history yet |
| MppcHistory.ExpandEncoded | mppc.c:99-370 | Any valid token list, encoded and zero-padded to a byte, expands to its LZ77 expansion |
| MppcHistory.ExpandCharacterised | mppc.c:99-370 | A packet expands to r if and only if it is such an encoding of a valid token list whose LZ77 expansion is r |
| MppcRuns.HistoryIsOutput | mppc.c:69-97 | Over every run of packets, valid or not, the history below the offset is the concatenation of the outputs since the last RESET or FLUSH |
| MppcRuns.SameSeen | mppc.c:90-97 | Two states with the same bytes below the offset answer every run of valid packets alike |
| MppcRuns.RefusedLeavesNoTrace | mppc.c:358-378 | After a refused packet callers see of all later valid packets what they would have seen had it never come, its RESET or FLUSH flag apart |
| MppcRuns.EncodedPacketExpands | mppc.c:99-379 | The encoded, packed and padded packet of any valid token list is accepted by the persistent decompressor and extends the history by exactly its expansion |
| MppcRuns.MatchIsPeriodic | mppc.c:362-368 | An expanded match repeats with the period of its offset however far it overlaps itself |
| CellFile.CellOffsetIsProduct | pstcache.c:103 | Cell positions are the products the code computes |
| CellFile.HeaderRoundTrip | pstcache.c:148-156 | A header written is the header read |
| CellFile.HeaderLayout | pstcache.c:148-156 | Key, width, height, length and stamp stand at bytes 0, 8, 9, 10 and 12 of a header, numbers lowest byte first |
| CellFile.SaveSelf | pstcache.c:138-160 | A saved cell reads back with its header and data |
| CellFile.SaveKeepsOthers | pstcache.c:138-160 | A save that fits its cell leaves every other cell as it reads |
| CellFile.OverlongSaveClobbers | pstcache.c:154-157 | A save that does not fit overwrites the key of the next cell with bytes of the picture |
| CellFile.SaveSafeExactlyWhenFits | pstcache.c:154-157 | The next cell survives every picture of a given length if and only if that length fits the cell |
| CellFile.TouchSelf | pstcache.c:94-105 | Touching replaces the stamp of a cell and nothing else of it |
| CellFile.TouchKeepsOthers | pstcache.c:94-105 | Touching leaves every other cell as it reads |
| LruList.Unlink | cache.c:123-135 | Unlinking in the middle or at either end leaves forward links, backward links and both ends agreeing with the shorter sequence |
| LruList.LinkIn | cache.c:156-170 | Linking in at any place leaves links and ends agreeing with the longer sequence |
| LruList.BumpPlaces | cache.c:142-149 | A bump by k permutes the list and moves the slot from place j to min(j + k, n - 1) |
| LruList.ToTopPlaces | cache.c:150-154 | A bump to the top makes the slot the most recently used and keeps the order of the others |
| StampSort.ShiftLarger | pstcache.c:196-200 | The shifting loop moves exactly the entries with larger stamps, in both arrays |
| StampSort.InsertSorted | pstcache.c:195-203 | One round inserts index and stamp at the same place, behind all stamps that are not larger |
| StampSort.InsertAscends | pstcache.c:195-203 | Insertion keeps the stamps ascending |
| BitmapCache.PersistentCache.Bump | cache.c:106-170 | The index-linked list after a bump is the bumped sequence, counter and ends included |
| BitmapCache.PersistentCache.Evict | cache.c:172-196 | Eviction destroys the head's bitmap, empties its slot, drops it from the list and clears its stamp |
| BitmapCache.PersistentCache.PutBitmap | cache.c:234-256 | A put destroys the old bitmap, moves the slot to the top and evicts when the list has become too long |
| CacheOrder.PutOrder | cache.c:172-256 | After any put the other slots stand in their order with the slot behind them; if that is more than 0x150, the first of them, and no other, is gone and destroyed |
| CacheOrder.HeadEvicted | cache.c:172-196 | A put to a new slot of a full cache evicts the head of the list |
| CacheOrder.GetOrder | cache.c:198-220 | A get moves the slot 40 places on, or to the end, and no other; one that has to be loaded goes to the end |
| CacheOrder.StoreWritesCell | pstcache.c:138-160 | After a store the slot's cell holds key, sizes and picture, with a stamp of 0 |
| CacheOrder.MostRecentlyStored | cache.c:172-256 | After any run of stores into an empty cache, the list is exactly the most recently stored slots, at most 0x150, in the order of their last store, and exactly they hold a bitmap |
| LruList.BumpMoves | cache.c:142-170 | A bump moves one slot the given number of places, or to the end, and the others keep their order |
| BitmapCache.PersistentCache.LoadBitmap | pstcache.c:107-135 | A load puts the picture the file holds at the cell, when the cache is enabled and the slot has a cell |
| BitmapCache.PersistentCache.SaveBitmap | pstcache.c:137-160 | A save writes header and data with a zero stamp, for slots that have a cell |
| BitmapCache.PersistentCache.GetBitmap | cache.c:198-220 | A get returns what is then in the slot, loading it first if need be, and bumps it |
| BitmapCache.PersistentCache.SaveState | cache.c:284-304 | Walking the links writes consecutive stamps in list order |
| BitmapCache.PersistentCache.Rebuild | cache.c:59-104 | Rebuilding links exactly the live slots among the indices, in their order; the program goes on exactly when that is all of them |
| BitmapCache.PersistentCache.Enumerate | pstcache.c:162-216 | Enumeration loads, sorts and relinks as the scan function says, does so once, and leaves the counter at the number of bitmaps loaded |
| CacheRuns.RunAccounts | cache.c:172-256 | Over every run each handle created is live in exactly one slot or was destroyed exactly once, list and live slots agree, and the list never exceeds the cache |
| CacheRuns.RunCurrent | cache.c:198-256 | Over every run of saved puts and uses, memory and file hold for every slot the picture last put |
| CacheRuns.GetReturnsLastPut | cache.c:198-220 | After any such run a get returns the picture last put to the slot, whatever was evicted and reloaded between |
| CacheSessions.AscendingUnique | pstcache.c:195-203 | Two ascending arrangements of the same slots are equal, so the sort's result does not depend on the scan |
| CacheSessions.RunTells | cache.c:182-195 | Over every run a slot without a bitmap has no stamp in the file |
| CacheSessions.ReopenRestoresOrder | cache.c:284-304 | Closing and reopening with precaching rebuilds exactly the list order, at closing, of the cells before the first unused one, with their pictures, and as many as the counter says |
| CacheSessions.Reopen | pstcache.c:162-216 | Enumerating a file that a session has closed does not give up, and leaves a valid cache with that list and, without a gap, everything a session must have |
| CacheSessions.ReopenedKeys | pstcache.c:176-189 | Enumeration lists the keys of the used cells, in the order of the cells, as they were at closing |
| CacheSessions.OrderSurvivesExactlyWhen | pstcache.c:176-193 | The order survives if and only if precaching is on and no listed cell stands behind an unused one, or no listed slot has a cell |
| CacheSessions.ForgottenWithoutPrecaching | pstcache.c:191-193 | A session with one picture whose order is forgotten without precaching |
| CacheSessions.ForgottenBehindGap | pstcache.c:176-184 | A session with one picture, in cell 1 of a new file, whose order is forgotten in any case |
| CacheSessions.SessionsChain | pstcache.c:162-216 | A whole session of any saved puts and uses, closed and opened again, hands on the order of its cells before the first unused one, with their pictures; without a gap that is all of it, and the new session is fit for another |
| RleDecoder.MaskUpdate | bitmap.c:55-63 | The mask macro advances as the linear decoder's mask does, reading a byte exactly when it does |
| RleDecoder.Repeat | bitmap.c:42-53 | The eight-fold unrolled loop equals the plain loop for every opcode, the one that changes its own count and the one that reloads its mask included |
| RleLinear.PlainLoopIsLinear | bitmap.c:42-53 | A loop within a line is a stretch of the linear run, with the previous line's pixel being the one written a width earlier |
| RleLinear.ParseHeader | bitmap.c:81-128 | The opcode forms and odd counts are read as in the linear decoder |
| RleLinear.ParseOperands | bitmap.c:129-160 | The test on column and previous line is the linear decoder's test on pixels written, and the operands are read alike |
| RleLinear.DrawOrder | bitmap.c:161-260 | An order drawn line by line is the order drawn linearly, and mask bits run on across line ends |
| RleLinear.Decompress | bitmap.c:66-263 | Status and every byte of the buffer are those of the linear decoding, pixel p going to row height - 1 - p / width and column p % width |
| RleRows.PlacedAt | bitmap.c:164-172 | Each decoded pixel is found at its own place: no later pixel overwrites it |
| RleRows.NotPlacedAt | bitmap.c:164-172 | Places no pixel was written to are unchanged |
| RleRows.PosInjective | bitmap.c:164-172 | Different pixels have different places |
| RleImages.RunDraws | bitmap.c:161-260 | An order draws as many pixels as its run length says, a two-colour order twice that |
| RleImages.DecodeDraws | bitmap.c:79-263 | On success the number of pixels is the sum of the run lengths |
| RleImages.PositionsCovered | bitmap.c:164-172 | Every place of the image belongs to exactly one pixel |
| RleImages.HeaderRead | bitmap.c:81-128 | The header reader inverts the shortest header code for every drawing order and run length, wherever it stands |
| RleImages.HeaderInverse | bitmap.c:81-128 | A header is read as order, run length and size if and only if its bytes are one of the codes for them, long forms of small lengths included |
| RleImages.EveryImageHasACode | bitmap.c:66-263 | Every image of every size has a code that decodes to it |
| RleOrders.MaskedNext | bitmap.c:55-63 | Mask bits packed lowest first into bytes are the bits the mask macro tests, pixel after pixel and across bytes |
| RleOrders.BlendBits | bitmap.c:176-203 | Mixing a pixel with the one above sets exactly the bits that one of the two has and the other has not |
| Words.XorExactly | bitmap.c:202 | The exclusive-or of two bytes is the one byte whose bits are set where exactly one of theirs is |
| RleOrders.OtherOrdersRefused | bitmap.c:256-259 | An order of an unknown code is refused as soon as it is to draw |
| RleOrders.EveryOrderListDecodes | bitmap.c:66-263 | The code of any list of orders of every kind, with operands, masks and copied pixels, is accepted if and only if they paint no more pixels than the image has, and then decodes to what they paint: kept, blended or given pixels, a fill after a fill set off by a blended one |
| Planar.ReadColour | bitmap.c:829-840 | The sign and magnitude branches compute the difference a coded byte stands for |
| Planar.WriteRaw | bitmap.c:827-846 | The raw loop writes the values of the linear plane and touches no other plane's bytes |
| Planar.WriteRun | bitmap.c:847-854 | The run loop repeats the last difference against the line above, within the line |
| Planar.WriteLine | bitmap.c:816-855 | One line is read and written as the linear plane says, long runs included, failing exactly when it fails |
| Planar.ProcessPlane | bitmap.c:757-861 | A plane is decoded bottom line first, the other three planes' bytes untouched, and the bytes consumed are those of the linear reading |
| PlanarImages.OtherChannel | bitmap.c:877-886 | Planes at stride four never share a byte |
| PlanarImages.Decompress4 | bitmap.c:864-889 | The status is that of reading four planes that use up the input exactly; afterwards each plane of the image is the decoded one |
| PlanarImages.DeltaBijective | bitmap.c:829-840 | The coded differences are in bijection with -128..127, that is with all bytes modulo 256 |
| PlanarImages.ControlInverse | bitmap.c:788-796 | Control bytes are in bijection with the raw and run counts they can carry, runs of 16 to 47 included |
| PlanarImages.DifferenceTints | bitmap.c:829-842 | Every byte can be produced below every other by some coded difference |
| PlanarImages.RunRepeats | bitmap.c:803-811 | A run repeats its value on the first line, and on the others shifts the line above by its difference, modulo 256 |
| PlanarImages.PaintedAt | bitmap.c:816-855 | Every byte painted is its colour on the first line, and below it the byte one line earlier plus its colour, modulo 256 |
| PlanarImages.LineReads | bitmap.c:816-855 | Any cut of a line into codable segments is read back as the bytes of its colours, raw values and repeats of the last, using exactly its code |
| PlanarImages.EveryCutDecodes | bitmap.c:864-889 | However the lines of four planes are cut, raw and run segments mixed, their code is read as the planes painted, no colour carried from line to line, and accepted if and only if nothing follows |
| PlanarImages.FormatRefused | bitmap.c:869-876 | A first byte other than 0x10 is refused |
| PlanarImages.EveryImageHasAPlanarCode | bitmap.c:864-889 | Every four-byte image has a code that is accepted, used up exactly, and restores every byte of it |
| IoRequests.RequestList.Remove | rdpdr.c:1076-1098 | Unlinking leaves the chain without that element; the result is where the caller goes on, nowhere after removing the head |
| IoRequests.RequestList.AddRequest | rdpdr.c:147-192 | The walk, the growth at the end and the filling add to the sequence as the specification says |
| IoRequests.Node.Serve | rdpdr.c:1172-1188 | A driver is called once, for at most 8192 bytes at the request's offset, and whatever result it stores, the request changes by it in 32 bits; it goes wrong exactly when the place handed out or the bytes written are outside the buffer |
| IoRequests.RequestList.CheckFds | rdpdr.c:1158-1278 | Whatever the drivers answer, a pass over the linked list leaves the requests, sends the completions and makes the driver calls of the pass over the sequence, and goes outside a buffer exactly when that does |
| IoRequests.RequestList.Send | rdpdr.c:365-402 | A completion goes out as given, except that one status drops its result and its data |
| IoRequests.RequestList.AbortIo | rdpdr.c:1342-1371 | The first request of the handle, and of the kind if one is given, is removed and answered with result 0; the answer says whether there was one |
| IoSpec.AbortTakesFirst | rdpdr.c:1342-1371 | The request aborted is the first that matches, the others stay in order, and the answer has result 0 and one zero byte, or no data where the status has none |
| IoSpec.AddPlaces | rdpdr.c:147-192 | A new request takes the place of the first element with handle 0, or the end |
| IoSpec.CallContinues | rdpdr.c:1172-1179 | A driver is called at the offset where the bytes moved so far end, for what is left but at most 8192 bytes, and for a write is handed the bytes that follow those moved |
| IoSpec.VisitExactlyWhen | rdpdr.c:1165-1206 | A request is offered if and only if its handle is open and readable, or writable, as its kind wants, and then completed if and only if nothing was moved or the last of it |
| IoRuns.AddKeepsExactlyWhen | rdpdr.c:167-181 | A new request joins the pending ones if and only if none of them has handle 0; otherwise it overwrites one |
| IoRuns.RunKeeps | rdpdr.c:1158-1278 | Over every run of arrivals, polls and aborts, whatever the drivers answer: pending requests stay in order of arrival, what is pending or completed stems from what was accepted, and nothing is lost or doubled |
| IoRuns.RunSound | rdpdr.c:1158-1278 | With honest drivers every run stays in bounds, partial length and offset in step, buffers hold what was moved, and replies tell it |
| IoRuns.OnceEach | rdpdr.c:1342-1371 | Every accepted request is pending or completed, never both and never twice, whatever the drivers answer |
| IoRuns.CompletionTells | rdpdr.c:1197-1206 | A completed read carries the bytes its driver gave, in order and from contiguous offsets; of a completed write the driver was handed, call after call, the first bytes of the original buffer, as many as reported; with the status that says the buffer is too small neither is reported |
| IoRuns.AcceptedAsAsked | rdpdr.c:147-192 | The requests of a run are those that arrived, in order, each with what the server asked for and nothing moved yet |
| IoRuns.OldestProgresses | rdpdr.c:1158-1278 | A pass moves a ready oldest request on, or completes it and leaves every other request alone |
| IoPasses.OfferedExactlyWhen | rdpdr.c:1158-1278 | A pass that stays in bounds offers every ready request to its driver if and only if no visited ready request that ends has a ready one directly behind it, or, for the oldest, anywhere behind it |
| IoPasses.OfferedWhateverDrivers | rdpdr.c:1158-1278 | It does so for all honest drivers if and only if behind a ready oldest request nothing is ready, and no two ready requests behind the oldest stand in a row |
| IoPasses.HeadEndsPass | rdpdr.c:1091-1096 | Of two ready reads of which the first gets no bytes, the first is completed and the second neither offered nor changed |
| IoPasses.TwoSilentReads | rdpdr.c:1091-1096 | Such reads, with concrete values |
| IoSpec.LengthSurvivesExactlyWhen | rdpdr.c:1184-1188 | The partial length stays within the length after any 32-bit answer if and only if the answer is at most what is left, or takes back at most what was there; an error of -1 is safe if and only if something was there |
| IoSpec.SoundExactlyWhenFair | rdpdr.c:1172-1188 | The bytes that calls carried, joined, are the front of the buffer, from contiguous offsets and as many as counted, after a call if and only if its result is the number of bytes moved and at most what was asked |
| IoBounds.PassSafeExactlyWhen | rdpdr.c:1158-1278 | With drivers that store any result but write within the room given, a pass stays in bounds, and leaves every request inside its buffer if and only if every result is at most what is left or takes back at most what was there |
| IoBounds.FirstFailureGoesOutside | rdpdr.c:1172-1188 | A request that has moved nothing and whose driver stores -1 stays pending with partial length -1, and the next pass that serves it goes outside its buffer |
| IoBounds.LaterFailureMisplaces | rdpdr.c:1172-1188 | A request that has moved something and whose driver stores -1 gives its last byte back, and its next call is 2^32 bytes too far on |
| AudioSpec.TimeoutExact | rdpsnd.c:761-782 | The reported wait is 0 exactly when the oldest played packet is due, and otherwise ends exactly when it becomes due |
| AudioSpec.TruncatedExactly | rdpsnd.c:749-754 | The division leaves a remainder smaller than the divisor, of the sign of the dividend |
| AudioQueue.Ring.QueueWrite | rdpsnd.c:642-661 | The ring appends a packet, or refuses it when 49 are held |
| AudioQueue.Ring.Current | rdpsnd.c:663-667 | The current packet is the oldest that waits |
| AudioQueue.Ring.Empty | rdpsnd.c:669-673 | The test is true exactly when nothing waits |
| AudioQueue.Ring.Clear | rdpsnd.c:681-696 | Clearing ends and leaves an empty ring, unconfirmed packets dropped |
| AudioQueue.Ring.QueueNext | rdpsnd.c:698-716 | The current packet is played with a completion time carried into seconds, and everything then due is confirmed |
| AudioQueue.Ring.CompletePending | rdpsnd.c:731-759 | Exactly the due packets at the front are confirmed, in order |
| AudioQueue.Ring.NextTick | rdpsnd.c:718-729 | The tick of the packet behind the current one, or one less than the current one's, or with nothing waiting what the next slot holds |
| AudioQueue.Ring.NextCompletion | rdpsnd.c:761-782 | The wait of the specification, -1 with nothing played |
| AudioRuns.RunInOrder | rdpsnd.c:642-759 | Over every run what was accepted since the last clear is what was confirmed, then what is played, then what waits, in order, with at most 49 held |
| AudioRuns.RefusedExactlyWhenFull | rdpsnd.c:646-652 | A packet is refused if and only if 49 are held |
| AudioRuns.ConfirmationsFollow | rdpsnd.c:741-757 | The k-th confirmation is for the k-th packet accepted, never before its completion time, with the tick of arrival plus elapsed milliseconds |
| AudioRuns.PollLeavesNothingDue | rdpsnd.c:633-636 | After a poll the reported wait at the same time is not 0 |
| AudioRuns.NoneDueExactlyWhen | rdpsnd.c:741-757 | A poll leaves no due packet unconfirmed if and only if none stands behind one that is not due |
| AudioRuns.PromptExactlyWhenAscending | rdpsnd.c:741-757 | It leaves none at any time if and only if the completion times ascend |
| AudioRuns.InOrderPlaysArePrompt | rdpsnd.c:698-759 | Over every run whose plays are heard in the order they were started, no poll leaves a due packet unconfirmed |
| AudioRuns.ShortPlayWaits | rdpsnd.c:741-757 | A run with two plays, the second due and unconfirmed behind the first |
| NtlmSession.OpensExactlyWhatWasSealed | ntlmssp.c:733-837 | A message opens to a text if and only if it is what sealing that text makes, and then both ends advance alike |
| NtlmSession.RefusalKeepsStateExactlyWhen | ntlmssp.c:794-836 | A refused message leaves the receiver's state alone if and only if it was too short, of another version or out of sequence; otherwise it has used up as much key stream as an accepted one |
| NtlmSession.CryptFlips | ntlmssp.c:766 | Encryption flips exactly the bits that are set in the key stream |
| NtlmSession.ZerosGiveStream | ntlmssp.c:766 | Encrypting zeros gives the key stream |
| NtlmSession.SealedUnder | ntlmssp.c:733-766 | A sealed message is version 1, checksum, sequence number and payload; the payload is under the next bytes of the key stream, and under those behind it the first half of the digest of number and text |
| NtlmSession.Context.Wrap | ntlmssp.c:746-779 | Payload before checksum, each bit flipped exactly where its byte of the key stream says, and the sending half advances by both |
| NtlmSession.Context.Unwrap | ntlmssp.c:783-837 | The receiving half moves, and the text comes out, as opening says |
| NtlmRuns.RunDelivers | ntlmssp.c:746-837 | Over every interleaving of both directions, out-of-sequence strays included, all messages open to the texts sent, in order, and none is refused |
| NtlmRuns.QuietMeansEqual | ntlmssp.c:746-837 | With nothing on its way everything has arrived and both ends agree on key stream position and sequence number |
| NtlmRuns.StreamUsedOnce | ntlmssp.c:746-779 | Over every run no byte of the key stream is used twice or skipped, and the sequence number counts messages modulo 2^32 |
| AvPairs.LengthPass | ntlmssp.c:363-400 | The length pass counts the specified pairs of any input, malformed tails included, in 16 bits |
| AvPairs.OutPass | ntlmssp.c:403-461 | The output pass writes the specified rewriting of any input, malformed tails included |
| AvPairs.LengthsAgreeExactlyWhen | ntlmssp.c:363-461 | Both passes agree modulo 65536 if and only if the target name is not a non-empty one of a length divisible by 65536 |
| AvPairs.BufferFilledExactlyWhen | ntlmssp.c:472-474 | The buffer allocated from the length pass is filled exactly if and only if the output fits 16 bits |
| AvPairs.KeptFits | ntlmssp.c:371-391 | What is kept takes no more room than what it comes from |
| AvPairs.LengthsSafeExactlyWhen | ntlmssp.c:363-474 | For lengths n and m of information and target name, the buffer is filled exactly whatever the information holds if and only if n (0 below 4) + 12, and 4 + m for a non-empty name, is below 65536; beyond, one long pair makes it too short |
| AvPairs.ParsePrint | ntlmssp.c:371-391 | Printed pairs parse back, whatever follows the end marker |
| AvPairs.OutputReparses | ntlmssp.c:403-461 | The output parses as the input pairs without target names, flags marked, then the new target name |
| AvPairs.MicAnnounced | ntlmssp.c:426-447 | Every four-byte flags value sent has the MIC bit, there is one, and only the last pair is a target name |
| AvPairs.PairKept | ntlmssp.c:415-440 | Every pair but a target name is sent, in its order; unchanged, except that a four-byte flags value has bit 1 of its first byte set and every other bit as it was |
| AvPairs.RewriteAdds | ntlmssp.c:441-461 | Added are flags with only the MIC bit if none were sent, and a non-empty target name, last |
| AvPairs.PairLayout | ntlmssp.c:426-440 | A pair is its id and the length of its value, lowest byte first, and the value |
| AvPairs.ParseCovers | ntlmssp.c:371-391 | Any input is printed pairs and a rest in which too little is left, the end is marked, or the value is cut off |
| AvPairs.ParsesTo | ntlmssp.c:371-391 | Printed pairs with any such rest parse to exactly those pairs |
| AvPairs.RewriteTwice | ntlmssp.c:403-461 | Rewriting twice with the same target name is rewriting once |
| AvPairs.RewrittenTwice | ntlmssp.c:403-461 | The same on the bytes sent |
| Spnego.WrapNegTokenInit | spnego.c:69-117 | The nested sizes computed beforehand are the bytes written: the buffer is never overrun and exactly filled, for tokens of every size |
| Spnego.WrapNegTokenResp | spnego.c:119-144 | The same for the response |
| Spnego.BerInHeader | asn.c:125-145 | The header reader reads one- and two-byte length forms, refuses longer ones and stops at the end of the data |
| Spnego.FindNtlmToken | spnego.c:163-200 | The cursor loops find what the depth-first search over elements finds |
| Spnego.ExtractNtlmToken | spnego.c:202-241 | Parsing first, then the scan for the signature |
| SpnegoRoundTrip.HeaderReads | asn.c:125-145 | Headers are read back up to a length of 0xffff and refused beyond |
| SpnegoRoundTrip.NoEarlySignature | spnego.c:202-241 | The signature cannot begin inside the headers in front of a token, not even running into the token |
| SpnegoRoundTrip.ExtractedHasSignature | spnego.c:146-241 | Whatever is extracted from any input starts with the signature |
| SpnegoRoundTrip.InitRoundTrip | spnego.c:69-117 | For tokens of every size the token comes back if and only if it starts with the signature; by parsing if and only if the contents have at most 0xffff bytes |
| SpnegoRoundTrip.RespRoundTrip | spnego.c:119-144 | The same for the response wrapping |
| SpnegoTrees.InitBytes | spnego.c:69-117 | NegTokenInit of a short token, byte by byte: tags, lengths, both mechanisms, token |
| SpnegoTrees.RespBytes | spnego.c:119-144 | NegTokenResp of a short token, byte by byte |
| SpnegoTrees.HeaderBytes | spnego.c:31-68 | Lengths take one byte below 0x80, and beyond are announced with their number of bytes, highest first |
| SpnegoTrees.HeaderForms | asn.c:125-145 | Headers as read, shortest form or not: when the data is overrun, when the form is refused, and which length is read |
| SpnegoTrees.SearchesTree | spnego.c:146-200 | In the code of any tree of elements the search finds the first octet string with the signature among the leaves, in order, down to level 16 |
| SpnegoTrees.RawExactly | spnego.c:202-241 | The raw scan finds the rest of the input from i on if and only if the signature stands at i and nowhere before |
| SpnegoTrees.MalformedEnds | spnego.c:163-200 | A header that overruns the data aborts the extraction; one of a bad form or too long leaves it to the raw scan |
| SpnegoTrees.ParsingFirst | spnego.c:202-241 | The raw scan decides only when parsing found nothing |
| ChannelSpec.ProgressExactlyWhen | channels.c:100-143 | The sending loop moves on if and only if something is left and the chunk size is not 0 |
| Channels.Send | channels.c:83-183 | The sending loop ends if and only if the chunk size is not 0 or the message is empty, and then the chunks of the message are on the wire, first and last marked |
| ChannelRuns.ChunkAt | channels.c:83-183 | Chunk k carries the bytes from k times the chunk size on, the length of the whole message, the first flag on chunk 0 alone, the last flag on the one that ends it, and the protocol flag if asked for |
| Channels.Receiver.Process | channels.c:185-231 | A chunk is looked up, passed straight up, started, appended or delivered as the table function says |
| ChannelRuns.TakeExactly | channels.c:185-231 | A whole message is delivered as it is; any other chunk goes behind what is there, in room for the largest length announced, and stops the program if and only if no message is under way or the room is not enough |
| ChannelRuns.LanesIndependent | channels.c:185-231 | In any interleaving every channel runs as if it were alone |
| ChannelRuns.MessageArrives | channels.c:83-183 | Chunks of a message of any length and chunk size, sent alone, deliver it once and whole; an empty one is not sent |
| ChannelRuns.EveryMessageArrives | channels.c:83-231 | However the chunks of all channels interleave, every handler is called exactly once with each non-empty message of its channel, in order |
| NineGrid.Sample | orders.c:469-543 | The clamped coordinate computed from the fitted borders is the specified source coordinate |
| NineGrid.Render | orders.c:448-552 | Something is painted if and only if sizes, rectangle and depth allow it, and then every pixel is the one specified for its column and row; the read is out of bounds if and only if the bitmap has no columns or rows |
| NineGrid.InsideExactlyWhen | orders.c:475-538 | All samples lie in the source rectangle if and only if centre or last border is non-empty or nothing is enlarged |
| NineGrid.SourceExactly | orders.c:475-538 | For every size: borders are copied one to one from their own ends, what of the last border fits shows its end, and between them the centre is tiled, or stretched in proportion |
| NineGrid.CornersCopied | orders.c:469-552 | Where the borders fit, the four corners of the picture are copied, left and right by the columns' borders, top and bottom by the rows' |
| NineGrid.ClampedIsNearest | orders.c:539-542 | Clamping gives the nearest coordinate inside the bitmap |
| NineGrid.StretchMonotone | orders.c:527-538 | Stretching never goes backwards, across borders and centre |
| NineGrid.TilePeriodic | orders.c:533-535 | Tiling repeats the centre from its first column on |
| NineGrid.OwnSizeIsCopy | orders.c:475-538 | At its own size the picture is copied column by column, stretched or tiled |
| NineGrid.ClampIdle | orders.c:539-542 | For a rectangle inside the bitmap clamping changes nothing |

## Left out

- mppc.c: matches that reach before the start of the history have no meaning as a message; the machine still follows them, and where it would read past the array the outcome is `OutOfBounds`.
- bitmap.c: reading past the end of the input is undefined in the program; the model answers `Malformed` there, and all other outcomes are those of the program.
- bitmap.c: the byte order of two-byte pixels; a pixel is its bytes in memory order, and the three decoders are one with the number of bytes as parameter. The dispatcher by bytes per pixel only chooses.
- cache.c: cache ids other than a persistent one, the volatile slot 0x7fff, and the font, text, cursor, brush and desktop caches, which are plain tables.
- pstcache.c: opening, locking and naming the file; a file that ends inside a header ends the scan; what a short read leaves in memory is the parameter `Garbage`.
- cache.c: several persistent caches sharing one run of stamps: one cache is modelled, and the first stamp is a parameter.
- rdpdr.c: device control replies, directory change notices, and the timeout branch for serial lines; unpacking requests from the wire; offsets are unbounded rather than 64 bits, and `long` is taken to have 64 bits, so that a stored -1 counts as a positive result.
- rdpdr.c: drivers are a function of the call and its number within the pass; what happens once a pass has gone outside a buffer is not modelled, the run ends there (`ok` is false).
- RleOrders.EveryOrderListDecodes: orders of run length 0, which only the three-byte header can carry, have no code here; the decoder lemmas cover them.
- AudioRuns.Step: a play with nothing waiting stops the program by an assertion; the run stays where it is.
- rdpsnd.c: reassembly of wave packets, formats, and resampling. Completion times are unbounded.
- ntlmssp.c: key derivation, the three handshake messages and the verification of the server; RC4 is an arbitrary key stream with a position, HMAC-MD5 an arbitrary function with 16-byte results, so nothing is said about forgery beyond equality of messages.
- AvPairs.LengthPass: the information and target-name lengths are taken as 16-bit values, which is what the parameters of the program are.
- asn.c: everything but the header reader used by the extractor.
- spnego.c: a token of 2^24 bytes or more gets a truncated length on the wire; the round trip still holds, by the scan.
- Channels.Send: a chunk size of 0, which a server may set, makes the loop of the program run forever on a non-empty message; the method returns `ends == false` there in place of looping, and promises nothing of the chunks sent; `ProgressExactlyWhen` says when a round takes nothing.
- channels.c: a continuation without a first chunk, and more data than announced: the program exits, or writes where the handler left its cursor; the model stops. Encryption and the transport layers below are not part of this model.
- NineGrid.Render: the packing of colours into 2, 3 or 4 bytes.
- Allocation failure, freeing of memory (bitmap handles excepted), logging, and all of the window, network, file-system and sound back ends.
