# Verified model of the C++ runtime's algorithms and protocols

This project models the self-contained algorithms of libc++ and libc++abi, and two pieces of LLVM's
tools, and proves what they are for. `dafny verify dfyconfig.toml` checks everything.

| files | what they model |
|---|---|
| `NextPrime`, `Arithmetic` | the search for the next prime, by which hash tables grow |
| `ChainedTable`, `DebugDb` | the debug database: two chained hash tables whose nodes point at each other, and the iterator array of every container |
| `Transcoding`, `Utf8`, `Utf16`, `Utf16Bytes`, `Ucs2` | the converters between UTF-8, UTF-16, UCS-4 and UCS-2 and their length functions |
| `Sums`, `SharedCount`, `SharedMutex`, `RecursiveTimedMutex`, `Once`, `Future` | the concurrency protocols |
| `Sequences`, `Delta` | the delta minimiser (`Sequences`: optional values and lists, used throughout) |
| `Gslice` | the index table of a generalised slice |
| `GlobList`, `TidyOptions` | clang-tidy's check filter and its options |

How to read it:

- Loops that work in place are methods over arrays or class fields, each proved equal to a function
  or against the property itself; the lemmas are about those functions.
- A protocol is a machine of atomic steps of any number of threads: `Enabled` says which step a
  thread can take, `Apply` what it does, `After` runs a list of steps. The internal mutex makes each
  critical section one step. A thread that waits on a condition variable is unsignalled or
  signalled, and may also wake without a signal. Theorems are about every run from the initial
  state. The class beside each machine holds the fields of the source; each of its methods does
  one step on the real fields and is proved to do what the machine does.
- A converter is what it does at the front of the remaining input: emit one character or stop.
  `Translates` says that it reads exactly the encodings of the characters that fit and writes the
  same characters in the other encoding; everything about whole texts follows from it once for
  all converters.

Findings about the source:

- `utf8_to_utf16` compares the first byte of every sequence with Maxcode, so that it rejects valid
  characters within Maxcode exactly when 0x80 <= Maxcode < 0xC3 (`Utf16.LeadCheckIsHarmless`,
  `Utf16.LeadCheckRejects`).
- On a big-endian 32-bit Arm a released guard variable is not seen as initialised, because the bit that is
  set is not in the byte that is tested (`CxaGuard.ReleaseIsSeen`, `CxaGuard.AcquireTwice`).
- A null `exception_ptr` makes a shared state ready but lets it accept another result
  (`Future.AcceptedIffEmpty`, `Future.NullAdmitsASecondResult`).
- A timed writer that gives up at the second gate takes its bit back and notifies nobody. Some run
  then leaves a thread asleep at a free lock, with no signal on its way, exactly if one, writer or
  reader, slept unsignalled at the first gate at that moment and no writer had been signalled there
  (`SharedMutex.GivingUpStrandsIff`); three threads are enough (`SharedMutex.GivingUpStrands`).
- Without such timeouts a reader can be forgotten at the first gate exactly if there are more threads than the maximum of
  readers plus one, because only the step down from the maximum notifies, and only one
  (`SharedMutex.ReaderForgottenIffCrowded`).
- `gslice::__init` stores behind its table exactly if the number of multi-indices exceeds a `size_t` and
  does not wrap to 0, as with the sizes 2^63 + 1 and 2; if it wraps to 0 the table is empty and nothing
  is written (`Gslice.LeavesTableIffOverruns`, `Gslice.TwoSlotTable`, `Gslice.EmptyTable`).
- The minimiser's failure cache goes by sets of changes, so that with a repeated change the failure of
  one list stands for that of another. A run from an empty cache is 1-minimal or refused, whatever the
  test, exactly if no change is repeated or there are at most two (`Delta.FreshCacheIsHarmlessIff`,
  `Delta.RepeatedChangeStays`), and an unforced run from any cache of failing lists is what it is
  without one exactly if none is repeated (`Delta.AnyCacheIsHarmlessIff`).
- Merging check filters is associative in meaning but not as text, and the empty glob that a stray comma
  adds matters to the empty name only (`TidyOptions.ChecksTextAssociates`, `TidyOptions.MergedVerdict`).
- A text that begins with U+FEFF, written without a header and read by a decoder that consumes
  headers, loses that character; a header that is written and not consumed is an error if Maxcode is
  below 0xFEFF (`Utf8.RoundTrip`, `Utf16Bytes.RoundTrip16`, `Utf16.UnitsRoundTrip`, `Ucs2.RoundTripShort`).

Assumptions taken from headers: shared counts start at 0 for one owner and all shared owners hold one
weak reference together (libcxx/include/memory); a shared state has a value when its constructed bit is
set or an exception is stored (libcxx/include/future); a new container node has an empty array
(libcxx/include/__debug).

## Model

| member | source | states |
|---|---|---|
| `NextPrime.NextPrime` | libcxx/src/hash.cpp:178-567 | overflow is reported exactly above the largest prime of the word; 0 gives 0; every other n gives the least prime that is not below it; and if that limit is prime no value or product on the way exceeds it |
| `NextPrime.FirstCandidate` | libcxx/src/hash.cpp:193-196 | the first potential prime at or above n, with no prime in between |
| `NextPrime.NextCandidate` | libcxx/src/hash.cpp:559-566 | the next potential prime is larger and no prime is passed over |
| `NextPrime.TrialDivision` | libcxx/src/hash.cpp:206-216 | for a number without the factors 2, 3, 5 and 7 the answer is exactly whether it is prime |
| `NextPrime.PotentialPrimeDivision` | libcxx/src/hash.cpp:216-558 | dividing by the wheel from 211 on decides primality, for numbers with no smaller prime factor |
| `NextPrime.SmallPrimeFrom` | libcxx/src/hash.cpp:183-185 | looking up the table of small primes gives the least prime from n on |
| `NextPrime.LowerBound` | libcxx/src/hash.cpp:185-196 | the first place of an increasing table whose entry is not below a value |
| `NextPrime.PrimeAbove` | libcxx/src/hash.cpp:133-150 | some prime lies at or above every number, so that the search ends |
| `NextPrime.PrimeBySquareRoot` | libcxx/src/hash.cpp:210-223 | a number with no divisor below i and a quotient by i below i is prime |
| `NextPrime.NoPotentialPrimeBetween` | libcxx/src/hash.cpp:79-129 | the index table misses no number coprime to 210, across the planes |
| `NextPrime.SmallPrimesArePrime` | libcxx/src/hash.cpp:24-74 | every entry of the table but the first is a prime |
| `NextPrime.NoSmallPrimeBetween` | libcxx/src/hash.cpp:24-74 | and no prime up to 211 is missing from it |
| `ChainedTable.Table.Insert` | libcxx/src/debug.cpp:145-190 | adds one address to the map the table stands for, growing to the least prime from twice the length plus one if it is full; fails exactly if no bucket is free and that array cannot be allocated, and then changes nothing |
| `ChainedTable.Table.Push` | libcxx/src/debug.cpp:174-189 | the new node becomes the head of the chain of its own bucket |
| `ChainedTable.Table.Grow` | libcxx/src/debug.cpp:151-173 | succeeds exactly if the larger array can be allocated; then there is room for one more node, and the map, so every lookup, is the same |
| `ChainedTable.NewTableGrows` | libcxx/src/debug.cpp:151-173 | a table without buckets can grow, on either word, so that the first insertion succeeds |
| `ChainedTable.Rehash` | libcxx/src/debug.cpp:160-170 | moving all chains node by node gives chains of the new array for the same map, out of the same nodes |
| `ChainedTable.MoveChain` | libcxx/src/debug.cpp:162-169 | moving one old chain adds exactly its addresses to what has moved |
| `ChainedTable.LongerThanBefore` | libcxx/src/debug.cpp:151-151 | the next array length is more than the old one, and computing it cannot overflow |
| `ChainedTable.Table.Find` | libcxx/src/debug.cpp:541-558 | walking one chain finds the node of an address exactly if it is in the map |
| `ChainedTable.Table.Remove` | libcxx/src/debug.cpp:198-218 | unlinks the node of an address and leaves every other address as it was |
| `ChainedTable.Unlink` | libcxx/src/debug.cpp:212-215 | after relinking, the chain is the old one without that node and all other chains are untouched |
| `ChainedTable.PushHolds` | libcxx/src/debug.cpp:174-189 | a node put in front of its bucket's chain keeps every node in its bucket, addresses unique and the map exact |
| `ChainedTable.DropHolds` | libcxx/src/debug.cpp:212-215 | so does taking a node off |
| `DebugDb.ContainerNode.Add` | libcxx/src/debug.cpp:467-491 | appends to the list, doubling the array exactly when it is full |
| `DebugDb.ContainerNode.Remove` | libcxx/src/debug.cpp:560-568 | takes out the first occurrence and keeps the others in order |
| `DebugDb.ContainerNode.Clear` | libcxx/src/debug.cpp:242-246 | empties the list and makes each of its iterators point nowhere |
| `DebugDb.ContainerNode.Adopt` | libcxx/src/debug.cpp:452-455 | every iterator in the array points to this container |
| `DebugDb.Database.StandsOnceIffOwned` | libcxx/include/__debug:39-211 | in every valid state a registered iterator stands in a container's array exactly if it points to that container, and no array holds anything twice |
| `DebugDb.Database.InsertIterator` | libcxx/src/debug.cpp:495-539 | registers one iterator that points nowhere; fails exactly if its table has no room |
| `DebugDb.Database.InsertI` | libcxx/src/debug.cpp:458-465 | the same, as called from outside |
| `DebugDb.Database.InsertC` | libcxx/src/debug.cpp:144-190 | registers a container with no iterators; fails exactly if its table has no room |
| `DebugDb.Database.InsertIC` | libcxx/src/debug.cpp:121-142 | registers an iterator into a container; if the container is unknown or, exactly, the table of iterators has no room, nothing is registered |
| `DebugDb.Database.EraseI` | libcxx/src/debug.cpp:192-223 | the iterator leaves the map and the array of the container it pointed into |
| `DebugDb.Database.EraseC` | libcxx/src/debug.cpp:309-344 | the container leaves, and exactly its iterators point nowhere |
| `DebugDb.Database.InvalidateAll` | libcxx/src/debug.cpp:225-249 | exactly the container's iterators come to point nowhere |
| `DebugDb.Database.IteratorCopy` | libcxx/src/debug.cpp:346-372 | the copy points where the original points, and is registered if either was; fails exactly if a copy that is not registered yet finds no room |
| `DebugDb.CopiedOwner` | libcxx/src/debug.cpp:346-372 | as a map from iterators to containers a copy is one update |
| `DebugDb.OwnersAfterOne` | libcxx/src/debug.cpp:192-372 | who owns what after the operations on one iterator |
| `DebugDb.OwnersAfterAll` | libcxx/src/debug.cpp:225-456 | and after invalidating, erasing and swapping containers |
| `DebugDb.Database.Swap` | libcxx/src/debug.cpp:427-456 | the iterators of the two containers change owner and no others do |
| `DebugDb.Database.FindCFromI` | libcxx/src/debug.cpp:110-119 | the container that the map gives |
| `DebugDb.Database.LessThanComparable` | libcxx/src/debug.cpp:414-425 | whether both iterators point into one container |
| `DebugDb.DetachedConsistent` | libcxx/src/debug.cpp:360-364 | taking an iterator off its container keeps lists and owners in step |
| `DebugDb.RemoveFirstKeepsRest` | libcxx/src/debug.cpp:560-568 | removing from a list without duplicates removes exactly that element |
| `Transcoding.Convert` | libcxx/src/locale.cpp:2266-2358 | the loop of a converter writes and consumes what running the converter character by character says, and nothing beyond |
| `Transcoding.Measure` | libcxx/src/locale.cpp:2375-2456 | the loop of a length function returns what its converter would consume |
| `Transcoding.Resume` | libcxx/src/locale.cpp:1695-2359 | converting a part and resuming where it stopped is one conversion of the whole, for every monotone converter, every cut of the input and every smaller output |
| `Transcoding.ErrorIsFinal` | libcxx/src/locale.cpp:1695-2359 | an error in a part is the outcome of the whole |
| `Transcoding.ConsumesWholeCharacters` | libcxx/src/locale.cpp:1695-2359 | for any input and every outcome, what is consumed are whole encodings, and what is written are the same characters |
| `Transcoding.StopsOnlyWhereItMust` | libcxx/src/locale.cpp:1695-2359 | ok exactly at the end of the input; before that only where no character begins that fits and has room |
| `Transcoding.RunAnswers` | libcxx/src/locale.cpp:1695-3043 | a run answers ok at the end of its input, partial before it exactly where the converter has to wait for units or room, and error everywhere else |
| `Transcoding.CallAnswers` | libcxx/src/locale.cpp:2202-2358 | so does a call that begins behind a header |
| `Transcoding.HeaderRoundTrip` | libcxx/src/locale.cpp:2202-2210 | what comes back from encoding and decoding, for all four ways of writing and consuming a header: the text, the text with the mark in front, the text without a mark it began with, or an error where the mark does not fit |
| `Utf8.CharIsEncoding` | libcxx/src/locale.cpp:1681-1693 | a sequence well formed by section 4 of RFC 3629 is the encoding by section 3 of its value |
| `Utf8.EncodingIsChar` | libcxx/src/locale.cpp:1681-1693 | and the encoding of a character is well formed and has that value |
| `Utf8.DecodesChar` | libcxx/src/locale.cpp:2266-2356 | the decoder accepts every well-formed sequence within Maxcode, with its value |
| `Utf8.DecodesOnlyChars` | libcxx/src/locale.cpp:2266-2356 | and nothing else |
| `Utf8.DecoderTranslates` | libcxx/src/locale.cpp:2247-2359 | utf8_to_ucs4 reads exactly the encodings of characters within Maxcode, and more input or room changes neither a character nor an error |
| `Utf8.DecodesWhatItConsumes` | libcxx/src/locale.cpp:2247-2359 | for any bytes: the output is the decoding of the bytes consumed, which end between characters; and the answer is partial exactly if there is no room or the first byte left announces more bytes than there are, otherwise error |
| `Utf8.AnnouncesLength` | libcxx/src/locale.cpp:2266-2356 | what a first byte announces is the length of every character that begins with it, and more than 0 exactly if there is one |
| `Utf8.DecoderAnswers` | libcxx/src/locale.cpp:2266-2358 | utf8_to_ucs4 waits exactly without room or with fewer bytes than the first byte announces; every other stop is an error |
| `Utf8.EncoderTranslates` | libcxx/src/locale.cpp:2192-2245 | ucs4_to_utf8 writes the encoding of every code within Maxcode that is no surrogate, and rejects the others |
| `Utf8.EncoderAnswers` | libcxx/src/locale.cpp:2206-2244 | ucs4_to_utf8 waits exactly if a code that fits has no room for its encoding; every other stop is an error |
| `Utf8.RoundTrip` | libcxx/src/locale.cpp:2192-2359 | every text within Maxcode comes back from UTF-8; with U+FEFF in front if a header is written and not consumed, or as an error if Maxcode is below 0xFEFF then; without its own first U+FEFF if that is taken for a header |
| `Utf8.LengthsMeasure` | libcxx/src/locale.cpp:2361-2457 | the separately coded length function agrees with the decoder at every position |
| `Utf8.Ucs4ToUtf8` | libcxx/src/locale.cpp:2192-2245 | the function on an output buffer does what the encoder says, header included, and answers ok, partial or error exactly by the input and the room left |
| `Utf8.Utf8ToUcs4` | libcxx/src/locale.cpp:2247-2359 | the function on an output buffer does what the decoder says, header included, and answers ok, partial or error exactly by the bytes and the room left |
| `Utf8.Utf8ToUcs4Length` | libcxx/src/locale.cpp:2361-2457 | equals the bytes utf8_to_ucs4 consumes with room for mx characters |
| `Utf16.UnitsAreEncoding` | libcxx/src/locale.cpp:1681-1693 | a well-formed unit sequence is the encoding of its value (RFC 2781, section 2) |
| `Utf16.EncodingIsUnits` | libcxx/src/locale.cpp:1681-1693 | and the other way round |
| `Utf16.PairBytesAreUtf8` | libcxx/src/locale.cpp:1746-1751 | the bytes computed from a surrogate pair are the UTF-8 of its value |
| `Utf16.UnitsToUtf8Translates` | libcxx/src/locale.cpp:1695-1770 | utf16_to_utf8 reads exactly UTF-16 within Maxcode and writes the same characters in UTF-8 |
| `Utf16.UnitsAnswer` | libcxx/src/locale.cpp:1711-1770 | when utf16_to_utf8 waits: for the second unit of a pair, or for room for a character that fits; every other stop is an error |
| `Utf16.FollowsDecoder` | libcxx/src/locale.cpp:1849-1968 | utf8_to_utf16 emits the units of what utf8_to_ucs4 decodes, if the first byte is within Maxcode and the units have room |
| `Utf16.Utf8ToUnitsTranslates` | libcxx/src/locale.cpp:1849-1968 | utf8_to_utf16 reads exactly the characters whose value and first byte are within Maxcode |
| `Utf16.BytesAnswer` | libcxx/src/locale.cpp:1863-1968 | when utf8_to_utf16 waits: for room or the bytes that a first byte within Maxcode announces; every other stop is an error |
| `Utf16.LeadCheckIsHarmless` | libcxx/src/locale.cpp:1865-1867 | comparing first bytes keeps out no character within Maxcode exactly if Maxcode < 0x80 or Maxcode >= 0xC3 |
| `Utf16.LeadCheckRejects` | libcxx/src/locale.cpp:1865-1867 | U+0080 with Maxcode 0x80 is an error for utf8_to_utf16 and accepted by utf8_to_ucs4 |
| `Utf16.UnitsRoundTrip` | libcxx/src/locale.cpp:1695-1968 | UTF-16 to UTF-8 and back gives every text within such a Maxcode, with every treatment of headers, as for UCS-4 |
| `Utf16.UnitsLengthsMeasure` | libcxx/src/locale.cpp:2091-2190 | the length function agrees with utf8_to_utf16 at every position, a surrogate pair counting two |
| `Utf16.Utf16ToUtf8` | libcxx/src/locale.cpp:1695-1770 | the function on an output buffer does what the converter says, header included, and answers exactly by the input and the room left |
| `Utf16.Utf8ToUtf16` | libcxx/src/locale.cpp:1849-1968 | the function on an output buffer does what the converter says, header included, and answers exactly by the input and the room left |
| `Utf16.Utf8ToUtf16Length` | libcxx/src/locale.cpp:2091-2190 | equals the bytes utf8_to_utf16 consumes with room for mx units |
| `Utf16Bytes.WideEncoderTranslates` | libcxx/src/locale.cpp:2655-2698 | ucs4_to_utf16be and ucs4_to_utf16le write every code within Maxcode that is no surrogate, every character as its UTF-16, and reject the rest |
| `Utf16Bytes.WideDecoderTranslates` | libcxx/src/locale.cpp:2700-2743 | utf16be_to_ucs4 and utf16le_to_ucs4 read exactly those |
| `Utf16Bytes.WideEncoderAnswers` | libcxx/src/locale.cpp:2664-2698 | ucs4_to_utf16be and ucs4_to_utf16le wait exactly if a code that fits has no room; every other stop is an error |
| `Utf16Bytes.WideDecoderAnswers` | libcxx/src/locale.cpp:2711-2743 | when utf16be_to_ucs4 and utf16le_to_ucs4 wait: without room, for a second byte, or for a second unit; every other stop is an error |
| `Utf16Bytes.RoundTrip16` | libcxx/src/locale.cpp:2787-2875 | the same for UTF-16 in either byte order, for every Maxcode |
| `Utf16Bytes.UnitsInMemory` | libcxx/src/locale.cpp:2676-2695 | the bytes written are the UTF-16 units of the text, in the byte order |
| `Utf16Bytes.UnitsAgreeWithUcs4` | libcxx/src/locale.cpp:1695-1770 | UTF-16 straight to UTF-8 equals going through UCS-4 |
| `Utf16Bytes.WideLengthsMeasure` | libcxx/src/locale.cpp:2745-2785 | the length functions agree with the decoders at every position |
| `Utf16Bytes.Ucs4ToUtf16Bytes` | libcxx/src/locale.cpp:2655-2698 | the functions on an output buffer do what the encoder says, header included, and answer exactly by the input and the room left |
| `Utf16Bytes.Utf16BytesToUcs4` | libcxx/src/locale.cpp:2832-2875 | the functions on an output buffer do what the decoder says, header included, and answer exactly by the bytes and the room left |
| `Utf16Bytes.Utf16BytesToUcs4Length` | libcxx/src/locale.cpp:2877-2917 | equals the bytes consumed with room for mx characters |
| `Ucs2.Ucs2ToUtf8Translates` | libcxx/src/locale.cpp:2459-2503 | ucs2_to_utf8 writes exactly the characters below 0x10000 within Maxcode |
| `Ucs2.ShortDecoderTranslates` | libcxx/src/locale.cpp:2505-2584 | utf8_to_ucs2 reads exactly those |
| `Ucs2.Ucs2ToUtf16BytesTranslates` | libcxx/src/locale.cpp:2919-2945 | so do ucs2_to_utf16be and ucs2_to_utf16le |
| `Ucs2.UnitDecoderTranslates` | libcxx/src/locale.cpp:2947-2969 | and utf16be_to_ucs2 and utf16le_to_ucs2 read exactly those |
| `Ucs2.Ucs2ToUtf8Answers` | libcxx/src/locale.cpp:2471-2503 | ucs2_to_utf8 waits exactly if a short character that fits has no room; every other stop is an error |
| `Ucs2.Ucs2ToUtf16BytesAnswer` | libcxx/src/locale.cpp:2928-2945 | and so do ucs2_to_utf16be and ucs2_to_utf16le |
| `Ucs2.ShortDecoderAnswers` | libcxx/src/locale.cpp:2516-2584 | when utf8_to_ucs2 waits, by the length that the first byte announces; every other stop is an error |
| `Ucs2.UnitDecoderAnswers` | libcxx/src/locale.cpp:2956-2969 | utf16be_to_ucs2 and utf16le_to_ucs2 wait exactly without room or for a second byte; every other stop is an error |
| `Ucs2.RoundTripShort` | libcxx/src/locale.cpp:2459-2584 | every such text comes back from UTF-8, with every treatment of headers, as for UCS-4 |
| `Ucs2.RoundTripShort16` | libcxx/src/locale.cpp:2919-3043 | and from UTF-16 of either byte order |
| `Ucs2.Ucs2ToUtf8` | libcxx/src/locale.cpp:2459-2503 | the function on an output buffer does what the converter says, header included, and answers exactly by the input and the room left |
| `Ucs2.Utf8ToUcs2` | libcxx/src/locale.cpp:2505-2584 | the function on an output buffer does what the converter says, header included, and answers exactly by the input and the room left |
| `Ucs2.Utf8ToUcs2Length` | libcxx/src/locale.cpp:2586-2653 | equals the bytes utf8_to_ucs2 consumes with room for mx units |
| `Ucs2.Ucs2ToUtf16Bytes` | libcxx/src/locale.cpp:2993-3019 | the functions on an output buffer do what the converter says, header included, and answer exactly by the input and the room left |
| `Ucs2.Utf16BytesToUcs2` | libcxx/src/locale.cpp:3021-3043 | the functions on an output buffer do what the converter says, header included, and answer exactly by the input and the room left |
| `Ucs2.Utf16BytesToUcs2Length` | libcxx/src/locale.cpp:2971-2991 | equals the bytes consumed with room for mx units |
| `SharedCount.StepInv` | libcxx/src/memory.cpp:52-112 | every atomic step keeps both counts equal to the references held and each callback counted once |
| `SharedCount.CallbacksAreSafe` | libcxx/src/memory.cpp:52-97 | in every run the object is destroyed at most once and never while owned; the block is freed at most once, after that, with no reference left |
| `SharedCount.CallbacksHaveRun` | libcxx/src/memory.cpp:58-97 | at rest each callback has run exactly if nothing refers to what it ends |
| `SharedCount.DeadStaysDead` | libcxx/src/memory.cpp:99-112 | no run brings back an object without owners |
| `SharedCount.LockIsSound` | libcxx/src/memory.cpp:99-112 | lock() gives ownership only of an object that is owned and alive, and null only of one that has no owner |
| `SharedCount.LockAlone` | libcxx/src/memory.cpp:99-112 | without interference lock() takes a reference exactly if the object is owned |
| `SharedCount.StepTakes` | libcxx/src/memory.cpp:52-112 | what every step does to the references of every thread and to the callbacks counted |
| `SharedCount.StepLeadsOn` | libcxx/src/memory.cpp:58-112 | and where its thread goes on: the last shared release to the first callback, the last weak one to the second |
| `SharedCount.ControlBlock.Release` | libcxx/src/memory.cpp:85-97 | the whole release without interference, with its callbacks |
| `SharedCount.ControlBlock.CompareAndSwap` | libcxx/src/memory.cpp:103-110 | takes a reference exactly if the count is still what was read |
| `SharedCount.ControlBlock.Add` | libcxx/src/memory.cpp:52-56 | one more shared owner |
| `SharedCount.ControlBlock.AddToWeak` | libcxx/src/memory.cpp:79-83 | one more weak reference |
| `SharedCount.ControlBlock.LoadOwners` | libcxx/src/memory.cpp:102-109 | reads the count that the exchange will compare with |
| `SharedCount.ControlBlock.DecrementShared` | libcxx/src/memory.cpp:58-67 | one owner less, and whether it was the last |
| `SharedMutex.WriterExcludes` | libcxx/src/shared_mutex.cpp:25-101 | in every run, with any timeouts, a writer excludes every other writer and every reader |
| `SharedMutex.WordCountsHolders` | libcxx/src/shared_mutex.cpp:25-101 | in every run, with any timeouts, the reader bits are the number of shared holders and never spill, and the write bit says that a writer is past the first gate |
| `SharedMutex.ReadersDrain` | libcxx/src/shared_mutex.cpp:58-101 | until the writer that entered unlocks or gives up, readers only get fewer |
| `SharedMutex.NoWriterSleepsThrough` | libcxx/src/shared_mutex.cpp:25-34 | an unsignalled writer at the second gate has a reader to wait for in every run, and one at the first gate another writer in every run in which nobody gives up at the second |
| `SharedMutex.LastReaderWakes` | libcxx/src/shared_mutex.cpp:91-95 | the last reader out wakes the writer at the second gate |
| `SharedMutex.NoReaderSleepsThrough` | libcxx/src/shared_mutex.cpp:48-101 | with at most that many threads and nobody giving up at the second gate, an unsignalled reader has a writer past the first gate to wait for, or every other thread reads |
| `SharedMutex.ReaderForgottenIffCrowded` | libcxx/src/shared_mutex.cpp:84-101 | some run in which nobody gives up at the second gate leaves a reader asleep that might enter, with no signal on its way, exactly if there are more threads than the maximum of readers plus one |
| `SharedMutex.NobodyLeftAsleep` | libcxx/src/shared_mutex.cpp:25-101 | unless somebody gives up at the second gate, no run of at most that many threads leaves anybody asleep at a free lock |
| `SharedMutex.GivingUpStrandsIff` | libcxx/include/shared_mutex:186-201 | from every state of every run: after a timed writer gives up some run leads to a free lock with a thread asleep at the first gate and nobody signalled there, exactly if one slept unsignalled there and no writer had been signalled |
| `SharedMutex.RunAttended` | libcxx/include/shared_mutex:172-201 | with a writer signalled at the first gate, or everybody asleep there for a reason, no run leaves anybody so |
| `SharedMutex.GivingUpStrands` | libcxx/include/shared_mutex:186-201 | a run of three threads after which the lock is free and the third, reader or writer, sleeps on |
| `SharedMutex.StepSafe` | libcxx/include/shared_mutex:168-225 | every critical section, timeouts included, keeps counts, exclusion and the wake-up at the second gate |
| `SharedMutex.StepInv` | libcxx/src/shared_mutex.cpp:25-101 | every one but giving up at the second gate keeps the wake-up of writers at the first gate as well |
| `SharedMutex.StepOutcome` | libcxx/src/shared_mutex.cpp:25-101 | in every state of every run: which calls get through and which wait or fail, said of the threads: a writer against readers and writers, a reader against writers past the first gate and the maximum of readers |
| `SharedMutex.StepSignals` | libcxx/src/shared_mutex.cpp:48-101 | and who is signalled by it |
| `SharedMutex.SharedTimedMutex.Lock` | libcxx/src/shared_mutex.cpp:25-34 | the section up to the first wait, and where it waits |
| `SharedMutex.SharedTimedMutex.WakeWriterAtGate1` | libcxx/src/shared_mutex.cpp:29-33 | the section after a wake at the first gate, and where it waits next |
| `SharedMutex.SharedTimedMutex.WakeWriterAtGate2` | libcxx/src/shared_mutex.cpp:32-33 | the look after a wake at the second gate: the lock, or another wait |
| `SharedMutex.SharedTimedMutex.WriterOutOfTimeAtGate1` | libcxx/include/shared_mutex:178-186 | enters if no writer is past the gate, and otherwise leaves |
| `SharedMutex.SharedTimedMutex.WriterOutOfTimeAtGate2` | libcxx/include/shared_mutex:190-198 | takes the lock if the readers are gone, and otherwise the write bit back |
| `SharedMutex.SharedTimedMutex.TryLock` | libcxx/src/shared_mutex.cpp:36-46 | succeeds exactly if no thread reads, writes or waits at the second gate |
| `SharedMutex.SharedTimedMutex.Unlock` | libcxx/src/shared_mutex.cpp:48-54 | empties the word and signals everybody at the first gate |
| `SharedMutex.SharedTimedMutex.LockShared` | libcxx/src/shared_mutex.cpp:58-67 | counts the reader in, or waits |
| `SharedMutex.SharedTimedMutex.WakeReader` | libcxx/src/shared_mutex.cpp:62-66 | the section after a wake: counts the reader in, or waits again |
| `SharedMutex.SharedTimedMutex.ReaderOutOfTime` | libcxx/include/shared_mutex:213-225 | counts the reader in if that can be, and otherwise leaves |
| `SharedMutex.SharedTimedMutex.TryLockShared` | libcxx/src/shared_mutex.cpp:69-82 | succeeds exactly if no writer is past the first gate and fewer threads than the maximum read |
| `SharedMutex.SharedTimedMutex.UnlockShared` | libcxx/src/shared_mutex.cpp:84-101 | counts the reader out and says which gate is notified |
| `RecursiveTimedMutex.OneOwner` | libcxx/src/mutex.cpp:164-208 | in every run one thread at most has the mutex, the count is its depth, and the id names it exactly while the count is not 0 |
| `RecursiveTimedMutex.OnlyTheOwnerAdvances` | libcxx/src/mutex.cpp:164-208 | no step takes a thread past lock or try_lock while another has the mutex |
| `RecursiveTimedMutex.StepOutcome` | libcxx/src/mutex.cpp:164-208 | in every state of every run: lock and try_lock get through exactly if the thread has the mutex, below the limit, or nobody has it; who waits, fails or notifies otherwise |
| `RecursiveTimedMutex.NobodySleepsThrough` | libcxx/src/mutex.cpp:174-208 | an unsignalled waiter has an owner, a thread about to notify or a signalled waiter ahead of it |
| `RecursiveTimedMutex.NestedLocksUnwind` | libcxx/src/mutex.cpp:164-208 | k locks and k unlocks of a free mutex leave only the notification due |
| `RecursiveTimedMutex.Mutex.Lock` | libcxx/src/mutex.cpp:164-180 | deepens, acquires, waits or reports the limit, each exactly when the source does |
| `RecursiveTimedMutex.Mutex.TryAgain` | libcxx/src/mutex.cpp:176-179 | after a wake: takes the mutex exactly if its count is 0 |
| `RecursiveTimedMutex.Mutex.TryLock` | libcxx/src/mutex.cpp:182-196 | succeeds exactly if nobody has the mutex, or the caller has it, below the limit |
| `RecursiveTimedMutex.Mutex.Unlock` | libcxx/src/mutex.cpp:198-208 | one level less; notifies exactly at the last |
| `Once.InitialisesOnce` | libcxx/src/mutex.cpp:246-275 | in every run one initialiser runs at a time, one succeeds at most, and a normal return follows a success |
| `Once.NobodyBlocksForNothing` | libcxxabi/src/cxa_guard.cpp:188-251 | a blocked thread has a running initialiser or a broadcast to come |
| `Once.DoneForGood` | libcxx/src/mutex.cpp:246-275 | after a success no initialiser ever starts |
| `Once.FailureIsRetried` | libcxx/src/mutex.cpp:265-272 | the next call or wake starts one exactly if all started ones have failed |
| `Once.StepOutcome` | libcxx/src/mutex.cpp:246-275 | in every state of every run: who starts an initialiser, who blocks, who returns, and whom a broadcast signals |
| `CallOnce.Flag.Look` | libcxx/src/mutex.cpp:246-256 | the test of the flag is the machine's step |
| `CallOnce.Flag.Finish` | libcxx/src/mutex.cpp:256-272 | so is the end of the function, with or without an exception |
| `CxaGuard.DecodeEncode` | libcxxabi/src/cxa_guard.cpp:76-103 | the lock's thread identity is read back as written, in either byte order |
| `CxaGuard.ReleaseIsSeen` | libcxxabi/src/cxa_guard.cpp:36-62 | a released guard is seen as initialised exactly on all layouts but big-endian Arm |
| `CxaGuard.Guard.Acquire` | libcxxabi/src/cxa_guard.cpp:188-228 | on the guard's bytes, the first look is the machine's step, and never a false deadlock |
| `CxaGuard.Guard.AcquireAfterWake` | libcxxabi/src/cxa_guard.cpp:204-223 | and the look after each wake |
| `CxaGuard.Guard.AcquireAgain` | libcxxabi/src/cxa_guard.cpp:198-203 | Apple's layout detects a thread that waits for itself |
| `CxaGuard.Guard.Release` | libcxxabi/src/cxa_guard.cpp:230-240 | a success of the machine; on big-endian Arm the bytes it leaves are those of a failure |
| `CxaGuard.Guard.Abort` | libcxxabi/src/cxa_guard.cpp:242-251 | a failure of the machine |
| `CxaGuard.AcquireTwice` | libcxxabi/src/cxa_guard.cpp:188-240 | one thread that acquires, releases and acquires again is told to initialise twice exactly on big-endian Arm |
| `Future.CountsMatchHolders` | libcxx/src/future.cpp:194-302 | in every run the count is the number of holders and the state is deleted once, when there is none |
| `Future.AcceptedIffEmpty` | libcxx/src/future.cpp:91-142 | a set call is accepted exactly if no non-null result is there, and a result never changes |
| `Future.AtMostOneResult` | libcxx/src/future.cpp:91-142 | without null exceptions at most one result is ever accepted |
| `Future.SetStoresWhatIsGiven` | libcxx/src/future.cpp:91-142 | an accepted set call stores what it is given, a refused one nothing; the exit variants leave the state as ready as it was |
| `Future.ResultWasGiven` | libcxx/src/future.cpp:91-235 | in every run the result was handed in by a set call, so that broken_promise comes from ~promise or was handed in as such |
| `Future.ResultStays` | libcxx/src/future.cpp:91-142 | in every run a non-null result is there for good |
| `Future.NullAdmitsASecondResult` | libcxx/src/future.cpp:117-129 | with one, a second result is accepted |
| `Future.ReadyForGood` | libcxx/src/future.cpp:91-151 | once ready, ready for good |
| `Future.OneFuture` | libcxx/src/future.cpp:194-203 | the first get_future attaches a future, and every later one in any run is refused |
| `Future.AttachedByGetFuture` | libcxx/src/future.cpp:194-203 | and nothing else attaches one |
| `Future.NoFutureIsAbandoned` | libcxx/src/future.cpp:224-235 | when the promise is gone and a future is left, the state is ready or on the exit list of a thread that has not finished exiting |
| `Future.NoWaiterIsForgotten` | libcxx/src/future.cpp:169-184 | a waiter on a ready state is about to be notified; on another, somebody still answers for it |
| `Future.StepInv` | libcxx/src/thread.cpp:177-204 | every step of promise, futures and exiting threads keeps the invariant |
| `Future.FutureStepOutcome` | libcxx/src/future.cpp:169-209 | in every state: a wait returns exactly if the state is ready, and what copies, drops and moves do to the handles of every thread |
| `Future.ExitStepOutcome` | libcxx/src/thread.cpp:177-204 | an exiting thread makes ready, notifies and releases once for every registration |
| `Future.PromiseStepOutcome` | libcxx/src/future.cpp:91-235 | ~promise breaks the promise exactly if there is no result and a future or an exit list refers to the state; whom the promise signals |
| `Future.AssocSubState.SetValue` | libcxx/src/future.cpp:91-102 | accepted or thrown out, on the state's bits |
| `Future.AssocSubState.SetException` | libcxx/src/future.cpp:117-129 | accepted exactly if no non-null result is there, and then stores that exception and makes the state ready |
| `Future.AssocSubState.SetValueAtThreadExit` | libcxx/src/future.cpp:104-115 | stores the result, registers the state and takes a reference for that |
| `Future.AssocSubState.SetExceptionAtThreadExit` | libcxx/src/future.cpp:131-142 | the same with an exception, which it stores; the bits stay as they are |
| `Future.AssocSubState.DestroyCheck` | libcxx/src/future.cpp:225-235 | ~promise breaks the promise exactly if there is no result and somebody else refers to the state |
| `Future.AssocSubState.AttachFuture` | libcxx/src/future.cpp:194-203 | a second future is refused, exactly; the first takes a reference |
| `Future.AssocSubState.AddShared` | libcxx/src/future.cpp:293-297 | a copied future is one holder more |
| `Future.AssocSubState.ReleaseShared` | libcxx/src/future.cpp:205-209 | one holder less; deletes the state exactly with the last |
| `Future.AssocSubState.MakeReady` | libcxx/src/future.cpp:144-151 | the exit of a registered thread makes the state ready |
| `Future.AssocSubState.SubWait` | libcxx/src/future.cpp:169-184 | waits exactly while the ready bit is clear |
| `Delta.RunIsOneMinimal` | clang/utils/token-delta.py:33-93 | the result is a subsequence of the input that is 1-minimal and passes if the input does; refused exactly if the unforced input fails |
| `Delta.DeltaMinimises` | clang/utils/token-delta.py:63-80 | the recursion ends and its result is 1-minimal, for every partition it can meet |
| `Delta.SearchMinimises` | clang/utils/token-delta.py:82-93 | the search returns a 1-minimal subsequence, or every piece and complement fails |
| `Delta.CachedFails` | clang/utils/token-delta.py:20-31 | among the sublists of a list without repetition, one whose set is cached fails the test |
| `Delta.CacheIsHarmless` | clang/utils/token-delta.py:20-46 | for changes without repetition the run with the cache gives what the run without it gives |
| `Delta.SearchWithIsSearch` | clang/utils/token-delta.py:82-93 | so does the search |
| `Delta.DeltaWithIsDelta` | clang/utils/token-delta.py:63-80 | and the recursion |
| `Delta.FreshCacheIsHarmlessIff` | clang/utils/token-delta.py:20-46 | for every test a run from an empty cache is 1-minimal or refused, and what it is without a cache, exactly for lists without repetition and of at most two changes |
| `Delta.AnyCacheIsHarmlessIff` | clang/utils/token-delta.py:20-46 | for every test and every cache of failing lists the unforced run is what it is without, exactly for lists without repetition |
| `Delta.RepetitionIsMissed` | clang/utils/token-delta.py:20-31 | every longer list with a repetition has a test whose run ends with a list that is not 1-minimal |
| `Delta.DeltaEarns` | clang/utils/token-delta.py:63-80 | whatever the list, the result is the whole list, or passed the test with a set of elements that was not cached |
| `Delta.RepeatedChangeStays` | clang/utils/token-delta.py:20-31 | a list of three that keeps a change it can do without |
| `Delta.DeltaAlgorithm.GetTestResult` | clang/utils/token-delta.py:20-31 | passes exactly if the set is not cached and the test passes; the set of a list that does not pass is cached |
| `Delta.DeltaAlgorithm.Run` | clang/utils/token-delta.py:33-46 | for all changes, what the algorithm computes with the cache as it stands; without repetition the 1-minimal result |
| `Delta.DeltaAlgorithm.DeltaOn` | clang/utils/token-delta.py:63-80 | the recursion on any list and cache |
| `Delta.DeltaAlgorithm.Search` | clang/utils/token-delta.py:82-93 | the loop over the partition on any list and cache |
| `Delta.Split` | clang/utils/token-delta.py:48-61 | the pieces make up the list, two unless it is a singleton or empty |
| `Gslice.Gslice.Init` | libcxx/src/valarray.cpp:18-52 | the table has one slot per multi-index, as their number wraps, and the slot of each holds start plus its strides (section 26.6.6 of ISO/IEC 14882:2011); the run goes on to store behind the table exactly if that number wraps to something smaller that is not 0 |
| `Gslice.FilledInOrder` | libcxx/src/valarray.cpp:35-42 | slot k holds the element of the k-th mixed-radix number |
| `Gslice.DigitsOfNumber` | libcxx/src/valarray.cpp:30-50 | multi-indices and slot numbers correspond one to one |
| `Gslice.NumberOfDigits` | libcxx/src/valarray.cpp:30-50 | and back |
| `Gslice.CarryCounts` | libcxx/src/valarray.cpp:35-48 | a turn of the odometer is the next number |
| `Gslice.CarryMoves` | libcxx/src/valarray.cpp:38-40 | and moves the selected element by one stride less the full runs behind it |
| `Gslice.Gslice.Turn` | libcxx/src/valarray.cpp:30-50 | the next multi-index and its entry, the end, or a store behind the table, which only more multi-indices than slots allow |
| `Gslice.LeavesTableIffOverruns` | libcxx/src/valarray.cpp:22-49 | at the multi-index of the last slot the odometer is not at its end exactly if the number of multi-indices wrapped to something smaller that is not 0 |
| `Gslice.TwoSlotTable` | libcxx/src/valarray.cpp:22-38 | sizes 2^63 + 1 and 2 give two slots, and the third multi-index has number 2 |
| `Gslice.EmptyTable` | libcxx/src/valarray.cpp:25-26 | sizes 2^32 and 2^32 give an empty table, and nothing is written |
| `Gslice.Gslice.Advance` | libcxx/src/valarray.cpp:32-49 | increments the last digit that is not at its end, or says that there is none |
| `GlobList.TranslationPreservesMatching` | clang-tools-extra/clang-tidy/ClangTidyDiagnosticConsumer.cpp:133-147 | the regular expression of a glob matches exactly the strings the glob matches |
| `GlobList.BodyParses` | clang-tools-extra/clang-tidy/ClangTidyDiagnosticConsumer.cpp:136-146 | the text written is a regular expression with one item per character, metacharacters escaped |
| `GlobList.ContainsIsLastMatch` | clang-tools-extra/clang-tidy/ClangTidyDiagnosticConsumer.cpp:154-161 | the recursive walk returns the sign of the last glob that matches |
| `GlobList.Build` | clang-tools-extra/clang-tidy/ClangTidyDiagnosticConsumer.cpp:149-152 | the list built from a text holds the entries of the text, in order and with their signs |
| `GlobList.ConsumeGlob` | clang-tools-extra/clang-tidy/ClangTidyDiagnosticConsumer.cpp:133-147 | translates the first glob and drops it with its comma |
| `GlobList.ConsumeNegativeIndicator` | clang-tools-extra/clang-tidy/ClangTidyDiagnosticConsumer.cpp:124-130 | says whether there was a minus sign and drops it |
| `GlobList.Filter` | clang-tools-extra/clang-tidy/ClangTidyDiagnosticConsumer.cpp:149-161 | however a text is cut at its commas: a check is enabled exactly if the last piece that matches it, without its minus sign, has none |
| `GlobList.EntriesArePieces` | clang-tools-extra/clang-tidy/ClangTidyDiagnosticConsumer.cpp:149-152 | the entries of a text are its pieces between commas, in order: negative with the rest as its glob if a piece starts with a minus sign, otherwise positive with all of it |
| `GlobList.EntriesInOrder` | clang-tools-extra/clang-tidy/ClangTidyDiagnosticConsumer.cpp:149-152 | one entry for every piece, but none for an empty one behind the last comma |
| `GlobList.CutExists` | clang-tools-extra/clang-tidy/ClangTidyDiagnosticConsumer.cpp:133-147 | every text can be cut at its commas |
| `GlobList.EnabledByPieces` | clang-tools-extra/clang-tidy/ClangTidyDiagnosticConsumer.cpp:154-161 | the walk over the entries answers by the last piece that matches |
| `GlobList.GlobInParts` | clang-tools-extra/clang-tidy/ClangTidyDiagnosticConsumer.cpp:133-147 | what a glob matches, by concatenation: a glob in two parts matches what can be cut into what the parts match |
| `GlobList.StarMatchesAll` | clang-tools-extra/clang-tidy/ClangTidyDiagnosticConsumer.cpp:136-146 | a star matches every name |
| `GlobList.PlainGlob` | clang-tools-extra/clang-tidy/ClangTidyDiagnosticConsumer.cpp:136-146 | a glob without stars matches itself alone |
| `GlobList.EntriesOfJoined` | clang-tools-extra/clang-tidy/ClangTidyOptions.cpp:118-122 | the entries of two texts joined by a comma |
| `TidyOptions.MergedVerdict` | clang-tools-extra/clang-tidy/ClangTidyOptions.cpp:114-122 | the newer checks decide where they say anything and the older elsewhere, for every nonempty name, and for the empty name exactly when no empty glob decides |
| `TidyOptions.MergedFields` | clang-tools-extra/clang-tidy/ClangTidyOptions.cpp:114-137 | field by field and check option by check option the newer value stands where there is one, and the older elsewhere |
| `TidyOptions.MergeIsAssociativeInMeaning` | clang-tools-extra/clang-tidy/ClangTidyOptions.cpp:114-137 | merging three times groups either way, in the meaning of the checks and in all other fields |
| `TidyOptions.ChecksTextAssociates` | clang-tools-extra/clang-tidy/ClangTidyOptions.cpp:118-122 | as text, exactly unless an empty text stands between two others |
| `TidyOptions.FileOptionsProvider.GetOptions` | clang-tools-extra/clang-tidy/ClangTidyOptions.cpp:162-199 | with the cache: the overrides over the configuration of the nearest configured directory upwards over the defaults without their checks, or over the defaults alone if none is configured |
| `TidyOptions.FileOptionsProvider.TryReadConfigFile` | clang-tools-extra/clang-tidy/ClangTidyOptions.cpp:201-250 | the first handler that can read and parse its file decides; its options lie between the defaults without their checks and the overrides |
| `TidyOptions.WalkGoverns` | clang-tools-extra/clang-tidy/ClangTidyOptions.cpp:162-199 | the walk up the parents finds the options that govern a directory, by the precedence of every field |
| `TidyOptions.ConfigOverlays` | clang-tools-extra/clang-tidy/ClangTidyOptions.cpp:201-250 | a directory gives options exactly if a handler of it reads and parses a file, and then those |

## Left out

- `NextPrime.NextPrime`: that no intermediate value exceeds the word assumes the primality of the two limits in the source, which is not proved here.
- `Gslice.Gslice.Init`: does not say what happens after a store behind the table, where the source's behaviour is undefined; the model stops there and reports it.
- `DebugDb.Database.InsertIterator`: requires an address that is not registered yet, as do the other insertions: the constructor of the object at an address registers it and the destructor takes it off (libcxx/include/iterator, libcxx/include/vector). A second registration, which the source would chain in front of the first, is not modelled.
- `ChainedTable.Table.Insert`: requires an address that is not in the table, for the same reason.
- `Utf16Bytes.WideEncoderTranslates`: says which bytes stand for a code above 0x10FFFF, which Maxcode may let through, only by the expression that computes them; there is no UTF-16 for it.
- `SharedMutex.GivingUpStrandsIff`: for at most as many threads as the maximum of readers plus one; with more, a reader can be forgotten without any timeout (`SharedMutex.ReaderForgottenIffCrowded`).
- Maxcode above 0xFFFFFFFF, which compares like 0xFFFFFFFF with every code.
- The overloads of utf16_to_utf8 and utf8_to_utf16 that hold a unit in 32 bits, and the facets around the converters.
- Clocks and the timed waits of the other mutexes and of futures; `timed_mutex`, `recursive_mutex`, and move operations.
- Overflow of the reference counts, weak memory order, fairness, and failing system calls.
- Deferred states, `async` and the value-carrying futures; only the states of `promise<void>` are modelled.
- Re-entering an initialiser on platforms that do not detect it, where the thread blocks for ever.
- Allocation failure other than that of a bucket array whose size in bytes exceeds the word, destruction of the database, and its virtual predicates that ask the container.
- Everything of the regular-expression library beyond the fragment that globs translate to.
- YAML, the file system and the diagnostics engine of clang-tidy; what a directory's configuration files contain is a parameter.
- Lexing, subprocesses and files of the token minimiser.
- `align`, `strstream` and the stream buffers.
