# A model of libcperciva in Dafny

libcperciva is a library of self-contained C components. This project models the
components whose correctness is least obvious from their code, and proves what they
are for: that a CRC really is a polynomial remainder, that two tables that point at
each other refine a plain map, that streaming crypto equals its one-shot definition for
every way of splitting the input, that buffers lose no octet, that parsers find exactly
what the grammar says.

Each component is one module (two where the code has two layers), and code that updates
state in place is a class whose methods are tied to a mathematical description of the
state. Memory allocation, `realloc`, event registration and the entropy source may fail or
not: every result holds whichever way they go, and the contracts say which failures they
cause. `poll`, the clock, the network and the block cipher are seen through their contracts.

| group | modules |
|---|---|
| CRC32C | `Gf2`, `Words`, `CrcTables`, `Crc32c` |
| Event core | `NetworkEvents`, `PtrHeap`, `TimerQueue`, `EventTimers`, `ImmediateEvents`, `EventLoop` |
| Streaming crypto | `Octets`, `AesCtr`, `BlockStream`, `Sha256Transform`, `Sha256`, `Hmac`, `Pbkdf2`, `Drbg`, `Md5` |
| Containers | `ElasticArray`, `ElasticQueue`, `SeqPtrMap` |
| Parsers and protocols | `Json`, `Base64`, `Getopt`, `NetbufRead`, `NetbufWrite`, `HttpHeader`, `HttpBody` |

`Machine` holds the sizes of C types. `dafny verify dfyconfig.toml` checks everything.

## Where the code and its documentation differ

- Invariant 6 of events/events_network.c is worded with `j < fdscanpos`; line 423 makes it
  `j <= fdscanpos`. `StrictWording` says exactly in which states the strict wording holds.
- `events_network_get` may return NULL while descriptors are ready: exactly if the cursor is beyond
  the array (`ScanFindsNothing`), where clearing a bit leaves it exactly if it was on the last entry
  when the array lost one (`CursorLeftBehind`, `StalledScan`). `GetAll` says what a run of gets after a
  poll returns: all that is ready, unless everything wanted of the last entry is, in which case only
  that. Nothing is lost: such events stay registered and polled for (`StillPolled`), and are found after
  a poll that reports them (`ReportedIsFound`, `PollAgain`).
- `json_find` never matches a name written with `\u` (`UnicodeNamesAreMissed`), takes NUL bytes at the
  end of a name for the end of the name it looks for (`NulsAreOverlooked`; `SpellsWithNuls` is the
  exact condition), and looks at nothing behind the colon of a name that matches, so that it finds
  values in objects that are not valid. `FoundExactly` says for arbitrary bytes when it finds something.
- The amortized cost that datastruct/elasticarray.h promises holds until the allocation
  exceeds half of `SIZE_MAX`; from there on no constant bounds it (`WrappingIsNotAmortized`).
- A chunked body whose length is within two octets of the maximum fails a sanity check in
  `addbody` and aborts (`ExactFitAborts`); `DeliveredIffFits` gives the exact condition.
- Writing nothing through a buffered writer aborts in `network_write`: at once if nothing is queued or
  in flight (`Writer.Write`), and in the callback if the empty buffer is next when the write in flight
  completes (`Writer.Writbuf`, `EmptyWriteWhileBusy`). The contracts say exactly when.
- A reservation that fails for lack of memory leaves the reservation flag set, so that the next
  reservation and the next callback abort (`Writer.Reserve`, `RefusedWriteWhileBusy`).
- `PBKDF2_SHA256` takes an iteration count of zero as one.
- b64decode accepts texts that no encoder produces; `EncodeDecode` says which.

## Model

| member | source | states |
|---|---|---|
| `Gf2.DivMod` | alg/crc32c.c:215-231 | division with remainder of polynomials over GF(2): a multiple of the divisor plus the remainder gives back the dividend |
| `Gf2.RemMultiple` | alg/crc32c.c:215-231 | every multiple of the divisor has remainder zero |
| `Gf2.DividesIffRemZero` | alg/crc32c.c:215-231 | a polynomial is a multiple of the divisor if and only if its remainder is zero |
| `CrcTables.ReverseCorrect` | alg/crc32c.c:42-57 | five rounds of shifting and masking reverse all 32 bits of a word |
| `CrcTables.Times256` | alg/crc32c.c:59-73 | the loop of shifts and conditional exclusive-ors multiplies by x^8 modulo the polynomial |
| `CrcTables.TableEquation` | alg/crc32c.c:27-37 | an entry that is read backwards is the reversed index times x^(32+8k) modulo the polynomial |
| `CrcTables.Entries` | alg/crc32c.c:75-98 | one pass of the fill loop stores, for each table, the entry that the table equation demands |
| `CrcTables.Tables.constructor` | alg/crc32c.c:75-98 | after initialization all 1024 entries satisfy the table equations |
| `CrcTables.CrcByte` | alg/crc32c.c:182-213 | feeding a byte to a CRC state gives the CRC of the longer message |
| `CrcTables.CrcFeed` | alg/crc32c.c:182-213 | feeding all bytes of a buffer gives the remainder of message bits times x^32 |
| `CrcTables.FeedAllConcat` | alg/crc32c.c:182-213 | feeding two buffers one after the other equals feeding their concatenation |
| `CrcTables.OneByteStep` | alg/crc32c.c:208-212 | a single table lookup is the polynomial step for one byte |
| `CrcTables.FourByteStep` | alg/crc32c.c:199-206 | the sum of four lookups in four tables is four single-byte steps |
| `Crc32c.MirrorConstants` | alg/crc32c.c:75-98 | the constants of the code, reversed, are the Castagnoli polynomial 0x11EDC6F41 without its leading term |
| `Crc32c.ConstantValues` | alg/crc32c.c:39-98 | the polynomial and the initial state are the numbers 0x1EDC6F41 and 0x82f63b78 |
| `Crc32c.OnlyCastagnoli` | alg/crc32c.c:27-37 | a register with that value stands for the one polynomial of degree 32 whose coefficients are the digits of 0x11EDC6F41 |
| `Crc32c.InstructionFeeds` | alg/crc32c_sse42.c:36-76 | the crc32 instruction, as its manual defines it, feeds the bytes of its operand in order |
| `Crc32c.Alignment` | alg/crc32c_sse42.c:36-69 | for every address and length the 8-byte reads are aligned and lie within the buffer, and the three parts add up to the length |
| `Crc32c.UpdateSse42` | alg/crc32c_sse42.c:17-79 | for every length of at least 8 and every address, the three loops equal the byte-by-byte fold |
| `Crc32c.Context.constructor` | alg/crc32c.c:153-175 | the initial state is 0x82f63b78, and is the CRC of the single leading one bit |
| `Crc32c.Context.Update` | alg/crc32c.c:177-213 | the byte loop and the 4-byte table loop extend the message that the state is the CRC of, whatever the split into calls |
| `Crc32c.Context.UpdateAccelerated` | alg/crc32c.c:177-213 | the accelerated path has the same effect on the state |
| `Crc32c.Context.Final` | alg/crc32c.c:215-231 | a one bit, all data fed and the four bytes returned form a multiple of the polynomial with the coefficients 0x11EDC6F41, and no other four bytes do |
| `Crc32c.CheckBytes` | alg/crc32c.c:215-221 | four check bytes make the message a multiple of the polynomial if and only if they are the bytes of the state |
| `NetworkEvents.ClearedInv` | events/events_network.c:195-220 | dropping an event and clearing its bit, with removal by swapping with the last entry, keeps all six invariants |
| `NetworkEvents.ClearedRefines` | events/events_network.c:195-220 | the effect on the plain map (socket, operation) to event is the removal of exactly that key |
| `NetworkEvents.ClearedJustified` | events/events_network.c:195-220 | what remains marked as ready was still reported for the registration that holds now |
| `NetworkEvents.ClearedReady` | events/events_network.c:195-220 | after a bit is cleared, exactly that registration is no longer ready |
| `NetworkEvents.GrownInv` | events/events_network.c:117-142 | growing the socket list keeps the invariants and the map |
| `NetworkEvents.EnlistedInv` | events/events_network.c:270-298 | storing an event and its poll bit keeps all invariants, for new and for listed descriptors |
| `NetworkEvents.EnlistedRefines` | events/events_network.c:270-298 | the map gains exactly the new registration |
| `NetworkEvents.EnlistedReady` | events/events_network.c:270-298 | a registration that is added is ready at once exactly if ERR or HUP is reported for its descriptor |
| `NetworkEvents.PolledInv` | events/events_network.c:400-423 | a completed poll keeps the invariants and justifies exactly what it reported |
| `NetworkEvents.EffectiveInv` | events/events_network.c:447-460 | turning ERR and HUP into the operations that are wanted keeps the invariants |
| `NetworkEvents.FreshScan` | events/events_network.c:417-482 | right after a poll the scan finds nothing if and only if the poll reported nothing |
| `NetworkEvents.StrictWording` | events/events_network.c:54-71 | in every state with the invariants, invariant 6 with a strict comparison holds if and only if the entry under the cursor is not ready |
| `NetworkEvents.StalledScan` | events/events_network.c:433-490 | after registering two readers, a poll that reports both and a get, the invariants hold and the next scan finds nothing although a registered descriptor is ready |
| `NetworkEvents.TwoReaders` | events/events_network.c:222-298 | the tables that registering the two readers leaves |
| `NetworkEvents.ScanFindsNothing` | events/events_network.c:433-490 | in every state, NULL is returned if and only if nothing is ready or the cursor is beyond the array |
| `NetworkEvents.CursorLeftBehind` | events/events_network.c:195-220 | clearing a bit leaves the cursor beyond the array if and only if the cursor is on the last entry and the array loses an entry |
| `NetworkEvents.StillPolled` | events/events_network.c:54-71 | whatever is registered is in the array with the bit that asks poll for it |
| `NetworkEvents.ReportedIsFound` | events/events_network.c:368-490 | a registration that a poll reports is found by the scan that follows, and found first if nothing above it is reported |
| `NetworkEvents.PollThenGet` | events/events_network.c:368-490 | select and get: NULL exactly if poll stored nothing anywhere; what is returned belongs to the last entry for which poll stored something, by that operation or by ERR or HUP |
| `NetworkEvents.PollAgain` | events/events_network.c:368-490 | select and get: the registration reported is returned and leaves the map, whatever an earlier scan has left |
| `NetworkEvents.ScanStep` | events/events_network.c:433-490 | one get of a run after a poll: what was returned before and is now are different registrations that were ready, and the run goes on until the last entry is exhausted, or until nothing is ready |
| `NetworkEvents.GetAll` | events/events_network.c:368-490 | a poll and gets until NULL: every registration that is ready is returned, once and with its event; unless everything wanted of the last entry is ready, in which case exactly what is ready of that entry is returned; the rest stays registered and ready |
| `NetworkEvents.PresentSince` | events/events_network.c:222-490 | in every legal history, a key that is registered at the end was registered at some step and not touched since |
| `NetworkEvents.ReturnedOnce` | events/events_network.c:222-490 | over every run: what is returned was registered, and neither cancelled nor returned since |
| `NetworkEvents.Network.GrowPollFd` | events/events_network.c:144-190 | appends an entry for the descriptor that asks for nothing and points the socket record at it; fails, changing nothing, exactly if the array is full and memory or the address space does not suffice to double it |
| `NetworkEvents.Network.Register` | events/events_network.c:222-298 | EEXIST exactly if the map has the key; success adds the registration, stores the event as that of reading for 0 and of writing for 1 and sets the poll bit of the same; it is ready at once exactly if ERR or HUP is reported, and what else is ready stays so; every failure leaves map and readiness unchanged |
| `NetworkEvents.Network.ClearBit` | events/events_network.c:195-220 | updates both tables in place as described by the lemmas above |
| `NetworkEvents.Network.Cancel` | events/events_network.c:300-366 | ENOENT exactly if the map lacks the key; otherwise the registration is gone, all others are ready as before, and the cursor stays |
| `NetworkEvents.Network.Select` | events/events_network.c:368-431 | a completed poll sets up the scan, and what is on record as reported is exactly what poll stored; an interrupted or failed one leaves readiness as it was |
| `NetworkEvents.Network.Get` | events/events_network.c:433-490 | an event that is returned is the one registered and leaves the map; poll reported its operation for this registration, or ERR or HUP for the descriptor; the cursor stays on the entry where the scan stopped, the array loses that bit, or the entry with its last bit, and all other registrations are ready as before; NULL is returned exactly if the scan is exhausted, and then nothing changes but the cursor |
| `PtrHeap.UpStep` | datastruct/ptrheap.c:41-71 | a swap with the parent moves the only violation of heap order one level up |
| `PtrHeap.DownStep` | datastruct/ptrheap.c:73-114 | a swap with the least child moves the only violation one level down |
| `PtrHeap.LeastAtRoot` | datastruct/ptrheap.c:217-231 | in heap order the root is at most every element |
| `PtrHeap.Replacement` | datastruct/ptrheap.c:233-277 | putting the last element into a hole violates the order in one direction only |
| `PtrHeap.PtrHeap.Swap` | datastruct/ptrheap.c:17-39 | exchanges two elements and keeps every record's position up to date |
| `PtrHeap.PtrHeap.HeapifyUp` | datastruct/ptrheap.c:41-71 | restores heap order after an element has become smaller; same multiset, positions correct |
| `PtrHeap.PtrHeap.Heapify` | datastruct/ptrheap.c:73-114 | restores heap order after an element has become larger; same multiset, positions correct |
| `PtrHeap.PtrHeap.Create` | datastruct/ptrheap.c:134-186 | for any total preorder, turns any array into a heap of the same records |
| `PtrHeap.PtrHeap.Add` | datastruct/ptrheap.c:188-215 | adds exactly the record, or changes nothing if memory runs out |
| `PtrHeap.PtrHeap.GetMin` | datastruct/ptrheap.c:217-231 | a record of the heap that is at most every other, or NULL exactly if the heap is empty |
| `PtrHeap.PtrHeap.Delete` | datastruct/ptrheap.c:233-277 | removes exactly the record at the position, keeping order and positions of the rest |
| `PtrHeap.PtrHeap.Decrease` | datastruct/ptrheap.c:291-303 | order restored after the record at the position has become smaller |
| `PtrHeap.Decreased` | datastruct/ptrheap.c:291-303 | a heap with one key decreased is out of order only above that key |
| `PtrHeap.PtrHeap.DecreaseKey` | datastruct/ptrheap.c:291-303 | giving a record of a heap a lesser key and calling ptrheap_decrease leaves a heap of the same records |
| `PtrHeap.PtrHeap.Increase` | datastruct/ptrheap.c:305-318 | order restored after the record at the position has become larger |
| `PtrHeap.Increased` | datastruct/ptrheap.c:305-318 | a heap with one key increased is out of order only below that key |
| `PtrHeap.PtrHeap.IncreaseKey` | datastruct/ptrheap.c:305-318 | giving a record of a heap a greater key and calling ptrheap_increase leaves a heap of the same records |
| `TimerQueue.TimerQueue.Add` | datastruct/timerqueue.c:92-125 | the queue gains exactly a new record with the time and pointer |
| `TimerQueue.TimesAreOrdered` | datastruct/timerqueue.c:20-52 | the comparison of times is a total preorder, as the heap demands |
| `TimerQueue.TimerQueue.Delete` | datastruct/timerqueue.c:127-142 | the cookie leads to exactly its record, which is removed |
| `TimerQueue.TimerQueue.Increase` | datastruct/timerqueue.c:144-160 | the record gets its later time, and the queue keeps the same records in order |
| `TimerQueue.TimerQueue.GetMin` | datastruct/timerqueue.c:162-181 | a least record, or NULL exactly if the queue is empty |
| `TimerQueue.TimerQueue.GetPtr` | datastruct/timerqueue.c:183-220 | removes a least record if it has expired; NULL exactly if none has |
| `TimerQueue.TimerQueue.Drain` | datastruct/timerqueue.c:183-220 | taking records until NULL yields exactly the expired ones, in nondecreasing order |
| `EventTimers.TimeoutAdds` | events/events_timer.c:23-42 | for normal intervals, the time computed is the clock reading plus the interval, normalized |
| `EventTimers.LaterStart` | events/events_timer.c:137-161 | for every interval, normal or not, a later start makes a timer due no earlier |
| `EventTimers.DueMicros` | events/events_timer.c:225-267 | a timer with a normal interval is due exactly when the interval has passed since its last start |
| `EventTimers.Remaining` | events/events_timer.c:163-223 | the time until a timer expires, never negative, normalized |
| `EventTimers.PollTimeoutBounds` | events/events_network.c:385-394 | the timeout fits an int; unless capped at INT_MAX it is never shorter than the remaining time and less than a millisecond longer |
| `EventTimers.EventTimers.Register` | events/events_timer.c:44-98 | for every interval, the timer is due at the clock reading plus its interval; other timers are as before; fails, changing nothing, exactly if one of the two allocations does |
| `EventTimers.EventTimers.Cancel` | events/events_timer.c:119-135 | removes exactly that timer |
| `EventTimers.EventTimers.Reset` | events/events_timer.c:137-161 | the timer starts anew; under a monotonic clock the new time satisfies the requirement of timerqueue_increase for every interval |
| `EventTimers.EventTimers.Min` | events/events_timer.c:163-223 | the time until the timer that is due first, or nothing exactly if there is no timer |
| `EventTimers.FirstMicros` | events/events_timer.c:163-223 | for normal intervals that time is normal, not negative, and at most the time until any other timer is due |
| `EventTimers.EventTimers.Get` | events/events_timer.c:225-267 | returns a timer that is due and before which no other is due, and deletes exactly that one; NULL exactly if none is due |
| `ImmediateEvents.Immediate.Register` | events/events_immediate.c:57-98 | the event is queued behind those of its priority, and the cursor still precedes every queue in use |
| `ImmediateEvents.Immediate.Cancel` | events/events_immediate.c:100-119 | removes exactly that event |
| `ImmediateEvents.Immediate.Get` | events/events_immediate.c:121-156 | the pending event of least priority number, oldest first; NULL exactly if none is pending |
| `ImmediateEvents.LeaveInOrder` | events/events_immediate.c:54-156 | over every run, of two events handed out the first comes first by priority and age, unless the second was registered only later |
| `ImmediateEvents.GoneForGood` | events/events_immediate.c:54-156 | over every run, an event that was cancelled or handed out is never handed out again |
| `ImmediateEvents.ReturnedWasPending` | events/events_immediate.c:54-156 | over every run, what is handed out was registered or pending at the start |
| `EventLoop.TimersRunLast` | events/events.c:91-184 | over every log of a call: a timer callback runs only if no immediate event is pending, no descriptor is ready, and what happened last was a poll that found nothing, complete unless an interrupt was requested |
| `EventLoop.FailureStops` | events/events.c:78-184 | over every log of a call: nothing happens after a callback that failed |
| `EventLoop.InterruptStops` | events/events.c:98-136 | over every log of a call: nothing happens after a callback, or the first poll, during which an interrupt was requested |
| `EventLoop.WaitsOnce` | events/events.c:118-126 | over every log of a call: only the first poll waits |
| `EventLoop.FoundIsRun` | events/events.c:128-184 | over every log of a call: after a poll that found something, what happens next, if anything, is a callback, and not that of a timer |
| `EventLoop.PollsRunOut` | events/events.c:118-156 | over every log of a call: no poll is made while an immediate event is pending, nor, but for the first, while a scan would find a ready socket |
| `EventLoop.PollsFoundNothing` | events/events.c:78-184 | over every log of a call without callbacks whose last poll found nothing, no poll found anything |
| `EventLoop.OnlyImmediateAt` | events/events.c:98-116 | every entry of a log of immediate events only is such a callback |
| `EventLoop.NetworkAfterImmediate` | events/events.c:91-184 | over every log of a call: a socket callback runs only if no immediate event is pending |
| `EventLoop.ToldAt` | events/events.c:62-184 | over every log of a call: a callback is that of an event which was first by priority and age, or ready, or first of those due, and which has just been taken from its source, while nothing else has; a poll changes only what is ready |
| `EventLoop.NothingIsLost` | events/events.c:62-184 | over every log of a call: an event that was there is there still, or its callback was run, or a callback has taken it away |
| `EventLoop.RunWasThere` | events/events.c:62-184 | over every log of a call: an event whose callback is run was there at the start, or was brought by an earlier callback |
| `EventLoop.Loop.Callback` | events/events.c:62-76 | a callback may register, cancel and reset events of all three sources and request an interrupt; the sources stay valid |
| `EventLoop.Loop.Poll` | events/events.c:122-126 | a poll within its contract is entered into the log with what is then ready, and changes nothing else in the sources |
| `EventLoop.Loop.TakeImmediate` | events/events.c:98-112 | the first immediate event is taken from the queues, and nothing else |
| `EventLoop.Loop.TakeNetwork` | events/events.c:145-150 | a registration that is ready is taken, and nothing else |
| `EventLoop.Loop.TakeTimer` | events/events.c:162-169 | the first timer that is due is taken, and nothing else |
| `EventLoop.Loop.TryPolled` | events/events.c:152-160 | after a poll, a socket callback runs if and only if a descriptor is ready |
| `EventLoop.Loop.TryTimer` | events/events.c:162-170 | runs the callback of a due timer, or there is nothing pending, ready or due |
| `EventLoop.Loop.RunImmediate` | events/events.c:98-116 | runs immediate events only; returns the status of the last callback, and with success and no interrupt nothing is pending |
| `EventLoop.Loop.Run` | events/events.c:78-184 | the log of the call is orderly and names every event that leaves its source, starting from what the sources hold at the start and ending with what they hold at the end; it holds immediate events only if one was pending at the start, and otherwise begins with a poll that waits for the first timer by the clock reading on record, taken during the call; success without an interrupt means that nothing is pending, and in the second case that nothing is ready or due either; if it succeeds without an interrupt and no callback was run, then nothing was pending or due at the start and no poll found anything, so that something is run if anything can be; failure is that of the last callback |
| `Octets.BigEndianReads` | util/sysendian.h:46-82 | reading the octets back, each with the weight of its place, gives the number modulo 256^n |
| `Octets.LittleEndianReads` | util/sysendian.h:109-146 | the same for least significant octet first |
| `Octets.Be64Injective` | util/sysendian.h:68-82 | different numbers below 2^64 have different encodings |
| `Octets.Xor8Bit` | crypto/crypto_aesctr_shared.c:46-65 | the exclusive-or of octets, bit by bit |
| `AesCtr.CtrAt` | crypto/crypto_aesctr_shared.c:21-65 | output octet i is input octet i exclusive-or octet i mod 16 of the cipher applied to the nonce and the block number i div 16 (section 6.5 of NIST SP 800-38A) |
| `AesCtr.CtrByNumbers` | crypto/crypto_aesctr_shared.c:21-65 | output octet i is input octet i exclusive-or octet i mod 16 of the cipher applied to the block whose halves, read as numbers, are the nonce and the block number |
| `AesCtr.CounterBlocksDiffer` | crypto/crypto_aesctr_shared.c:21-44 | no two blocks of a stream are encrypted with the same counter block |
| `AesCtr.CtrTwice` | crypto/crypto_aesctr.c:243-265 | encrypting twice is the identity |
| `AesCtr.CtrSplit` | crypto/crypto_aesctr.c:170-222 | a message may be split anywhere |
| `AesCtr.Stream.Init2` | crypto/crypto_aesctr.c:99-138 | any stream can be reset, keeping or replacing the key |
| `AesCtr.Stream.Generate` | crypto/crypto_aesctr_shared.c:21-44 | though only the last counter octet is updated most of the time, the counter block always is nonce and block number |
| `AesCtr.Stream.Use` | crypto/crypto_aesctr_shared.c:46-65 | the next octets are output and counted |
| `AesCtr.Stream.PreWholeblock` | crypto/crypto_aesctr_shared.c:67-95 | finishes the block that is in use, or the request |
| `AesCtr.Stream.PostWholeblock` | crypto/crypto_aesctr_shared.c:97-112 | outputs the rest of the request from a new block |
| `AesCtr.Stream.StreamSoftware` | crypto/crypto_aesctr.c:170-222 | output is the mode's function of the input at the current position, also for in-place buffers |
| `AesCtr.Stream.WholeBlocks` | crypto/crypto_aesctr_aesni.c:54-109 | the whole-block loop outputs the same octets and leaves the stream in the state that the software path expects |
| `AesCtr.Stream.StreamAesni` | crypto/crypto_aesctr_aesni.c:111-134 | the accelerated path has the same contract as the software path, so that calls can be mixed |
| `AesCtr.EncryptBuf` | crypto/crypto_aesctr.c:243-265 | the one-shot function computes the mode's function from position zero |
| `Sha256Transform.ChMacro` | alg/sha256.c:200-226 | the code's form of Ch equals the standard's |
| `Sha256Transform.MajMacro` | alg/sha256.c:200-226 | the code's form of Maj equals the standard's |
| `Sha256Transform.RotrValue` | alg/sha256.c:200-207 | rotation in terms of quotient and remainder |
| `Sha256Transform.PlusValue` | alg/sha256.c:209-226 | the sum of two words is the sum of their values modulo 2^32 |
| `Sha256Transform.BigSigmaMacros` | alg/sha256.c:200-207 | S0 and S1, made of shifts, are the two functions of section 4.1.2 of FIPS 180-4 |
| `Sha256Transform.SmallSigmaMacros` | alg/sha256.c:200-207 | s0 and s1 are the two others |
| `Sha256Transform.Be32DecValue` | util/sysendian.h:37-44 | four octets are read most significant first |
| `Sha256Transform.Be32DecEnc` | util/sysendian.h:37-55 | decoding undoes encoding, modulo 2^32 |
| `Sha256Transform.Rnd` | alg/sha256.c:209-222 | a round on eight slots with rotating indices is the round of section 6.2.2 of FIPS 180-4 |
| `Sha256Transform.Msch` | alg/sha256.c:224-226 | extends the message schedule by the standard's next word |
| `Sha256Transform.Transform` | alg/sha256.c:228-322 | the unrolled, interleaved rounds and schedule compute the compression function of section 6.2.2 |
| `Sha256.TransformBlock` | alg/sha256.c:228-322 | the code's transform is the compression function that the streaming results are used with |
| `Sha256.LengthField` | alg/sha256.c:331-358 | a padded message ends with eight octets that read as the number of its bits modulo 2^64 |
| `Sha256.EncodedAt` | alg/sha256.c:437-452 | each word of the state is written in four octets, most significant first |
| `BlockStream.CompleteBlocks` | alg/sha256.c:413-418 | the loop over complete blocks mixes all of them in order and leaves less than a block |
| `BlockStream.Absorb` | alg/sha256.c:407-421 | finishing a block, mixing whole blocks and keeping the rest loses no octet |
| `Sha256.Context.constructor` | alg/sha256.c:360-378 | nothing has been hashed; the buffer may hold anything |
| `Sha256.Context.Update` | alg/sha256.c:380-422 | for every length, the context stands for the message so far followed by the input |
| `Sha256.Context.Pad` | alg/sha256.c:331-358 | the state is that of the padded message of section 5.1.1 of FIPS 180-4, with the length modulo 2^64 |
| `Sha256.Context.Final` | alg/sha256.c:437-452 | the digest is the hash of everything fed since initialization, whatever the split into calls |
| `Sha256.HashBuf` | alg/sha256.c:470-487 | the hash of the buffer |
| `Hmac.MaskKey` | alg/sha256.c:510-523 | exclusive-or of the short key into a filled pad equals the zero-extended key exclusive-or the pad |
| `Hmac.Context256.constructor` | alg/sha256.c:489-524 | inner and outer context hold the masked key, long keys being hashed first |
| `Hmac.Context256.Update` | alg/sha256.c:543-554 | the text grows by the input |
| `Hmac.Context256.Final` | alg/sha256.c:569-587 | the digest is HMAC of key and text as in section 2 of RFC 2104 |
| `Hmac.HmacBuf` | alg/sha256.c:607-628 | HMAC of key and buffer |
| `Pbkdf2.Continue` | alg/sha256.c:668-671 | a copied context continues independently, and the original stays usable |
| `Pbkdf2.Iterations` | alg/sha256.c:673-685 | the exclusive-or of all iterates of a block |
| `Pbkdf2.Derive` | alg/sha256.c:630-702 | the output is the derived key of section 5.2 of RFC 8018 for every iteration count and every legal length |
| `Drbg.Generator.Update` | crypto/crypto_entropy.c:101-146 | HMAC_DRBG_Update of section 10.1.2.2 of NIST SP 800-90A, with and without data |
| `Drbg.Generator.Instantiate` | crypto/crypto_entropy.c:67-99 | the state of section 10.1.2.3 for the seed, or unchanged if there is no entropy, which is the only way to fail |
| `Drbg.Generator.Reseed` | crypto/crypto_entropy.c:148-178 | the state of section 10.1.2.4, or unchanged if there is no entropy, which is the only way to fail |
| `Drbg.Generator.Generate` | crypto/crypto_entropy.c:180-209 | returns the bits of section 10.1.2.5 and moves the state on |
| `Drbg.Generator.Read` | crypto/crypto_entropy.c:211-262 | what the buffer holds is exactly the output of the operations in the log, which is a log that the standard allows; on failure, of those before it; it fails only if the request takes a seed, being the first or using up the interval on its way, and the source does not provide it |
| `Drbg.SeededInTime` | crypto/crypto_entropy.c:211-262 | over every allowed log, at most 256 generate operations occur in a row, each of at most 65536 octets |
| `Md5.CountAdds` | alg/md5.c:224-236 | two 32-bit words with a carry count the bits modulo 2^64 |
| `Md5.EncodesBits` | alg/md5.c:180-181 | the two encoded words are the little-endian 64-bit count |
| `Md5.Buffered` | alg/md5.c:224-225 | the low word alone tells how many octets are buffered |
| `Md5.LengthField` | alg/md5.c:170-191 | a padded message ends with eight octets that read as the number of its bits modulo 2^64, least significant first |
| `Md5.EncodedAt` | alg/md5.c:264-276 | each word of the state is written in four octets, least significant first |
| `Md5.Context.Update` | alg/md5.c:213-257 | the context stands for the message so far followed by the input |
| `Md5.Context.Pad` | alg/md5.c:170-191 | padding by two updates gives the state of the padded message of section 3 of RFC 1321 |
| `Md5.Context.Final` | alg/md5.c:264-276 | the digest of everything fed since initialization |
| `ElasticArray.TargetFits` | datastruct/elasticarray.c:21-50 | the chosen allocation holds the data and is within a factor of four, also if doubling wraps |
| `ElasticArray.MovePaid` | datastruct/elasticarray.c:21-76 | unless doubling wraps, a move is paid for by four times the change of size and what was saved before |
| `ElasticArray.RunBound` | datastruct/elasticarray.h:6-12 | over every run of sizes the array stays within a factor of four; unless doubling wraps, all moves together cost at most four times the octets appended and removed |
| `ElasticArray.WrappingIsNotAmortized` | datastruct/elasticarray.c:29-40 | for every constant below 2^31 there is a run of appends, beyond half the address space, that moves more than that constant times what was appended |
| `ElasticArray.DivisionTest` | datastruct/elasticarray.c:124-128 | the division finds exactly the products that do not fit |
| `ElasticArray.ElasticArray.Resize` | datastruct/elasticarray.c:15-76 | keeps the common prefix; fails, changing nothing, exactly if a call of realloc is needed and finds no memory; total octets moved stay at most four times the octets appended and removed unless doubling wrapped or spare space was released |
| `ElasticArray.ElasticArray.ResizeRecords` | datastruct/elasticarray.c:114-141 | resizes to whole records; fails exactly on overflow, or if realloc is needed and finds no memory |
| `ElasticArray.ElasticArray.GetSize` | datastruct/elasticarray.c:143-155 | the number of whole records |
| `ElasticArray.ElasticArray.Append` | datastruct/elasticarray.c:157-197 | the contents grow by exactly the records; fails, changing nothing, exactly on overflow, or if realloc is needed and finds no memory |
| `ElasticArray.ElasticArray.Shrink` | datastruct/elasticarray.c:199-229 | removes the last records, all of them if there are fewer, and never fails |
| `ElasticArray.ElasticArray.Truncate` | datastruct/elasticarray.c:231-263 | contents kept, no spare space left; fails, changing nothing, exactly if there is data and spare space and realloc fails |
| `ElasticArray.ElasticArray.Export` | datastruct/elasticarray.c:294-325 | the buffer is exactly the contents, with the number of whole records; fails exactly as truncation does |
| `ElasticQueue.ElasticQueue.Add` | datastruct/elasticqueue.c:51-72 | the queue gains the record at its end; it stays as it was exactly if the array below cannot grow |
| `ElasticQueue.ElasticQueue.Compact` | datastruct/elasticqueue.c:98-106 | the loop of copies moves all records to the front, in order |
| `ElasticQueue.ElasticQueue.Delete` | datastruct/elasticqueue.c:74-114 | the first record is gone, also across compaction; an empty queue stays empty |
| `ElasticQueue.ElasticQueue.Get` | datastruct/elasticqueue.c:127-144 | the record at a position counted from the head, or NULL exactly beyond the end |
| `ElasticQueue.ElasticQueue.SpaceBound` | datastruct/elasticqueue.c:74-114 | at most 8 times the records' size plus 3 octets are in use unless a shrink failed, and no more records were ever moved than deleted |
| `SeqPtrMap.SeqPtrMap.Add` | datastruct/seqptrmap.c:46-72 | numbers are consecutive from 0; -1 exactly if the queue below cannot grow, and the map is unmodified |
| `SeqPtrMap.SeqPtrMap.Get` | datastruct/seqptrmap.c:74-101 | for every integer, the pointer added under it until deleted, else NULL |
| `SeqPtrMap.SeqPtrMap.GetMin` | datastruct/seqptrmap.c:103-121 | a number that no live one precedes, which is live unless a NULL was added under it, or -1; -1 exactly if nothing is live, as long as no NULL was added |
| `SeqPtrMap.SeqPtrMap.Delete` | datastruct/seqptrmap.c:123-152 | removes exactly that number from the map, whatever leading entries leave the queue |
| `SeqPtrMap.SeqPtrMap.SpaceBound` | datastruct/seqptrmap.h:6-13 | memory is bounded by the window from the least live number to the last one issued |
| `Json.StringThen` | util/json.c:42-70 | skipping a string stops right behind it, whatever its characters and escapes |
| `Json.NumberThen` | util/json.c:72-91 | skipping a number stops at the first character that is none of a number |
| `Json.ValueThen` | util/json.c:186-219 | skipping any rendered value, nested to any depth, stops exactly at its end |
| `Json.ElementsThen` | util/json.c:93-131 | the same for the elements of an array |
| `Json.MembersThen` | util/json.c:133-184 | the same for the members of an object |
| `Json.MatchThen` | util/json.c:221-296 | match_str walks to the end of a string with known escapes, and finds a match if and only if the string spells the name |
| `Json.SpellsDecoded` | util/json.c:221-296 | a string of the grammar spells the name if and only if it has no \u and stands for the name |
| `Json.SpellsWithNuls` | util/json.c:221-296 | for every string without \u and every name without NUL: it spells the name if and only if it stands for the name followed by any number of NULs |
| `Json.FindCorrect` | util/json.c:307-355 | for every object of the grammar, the value of the first member that spells the name, or the end |
| `Json.UnicodeNamesAreMissed` | util/json.c:221-296 | in every object whose names are all written with \u, nothing is found |
| `Json.NulsAreOverlooked` | util/json.c:221-355 | for every name and number of NULs behind it in an object, the name is found |
| `Json.UnfinishedObjectIsSearched` | util/json.c:307-355 | for every name without quotes and backslashes, and arbitrary bytes behind its colon: an object that is never closed, and whose value is no value, is searched all the same |
| `Json.FindStopsAtColon` | util/json.c:307-355 | for all members passed over, every matching name and arbitrary bytes behind its colon, the result is those bytes without leading white space |
| `Json.FoundExactly` | util/json.c:307-355 | for arbitrary bytes, something other than the end is returned if and only if there is an opening brace, members that do not match, a matching name, a colon and something behind it; and that is what is returned |
| `Json.SplitValue` | util/json.c:186-219 | for arbitrary bytes, what skip_value passes over is a value, if at least four bytes are left |
| `Json.SplitMatch` | util/json.c:221-296 | for arbitrary bytes, what match_str passes over is a string of known escapes |
| `Json.WsIsBlank` | util/json.c:8-23 | what is skipped as white space is exactly the characters 0x09, 0x0A, 0x0D and 0x20 |
| `Json.UnescapeMeans` | util/json.c:246-284 | the escapes known are those of section 7 of RFC 8259 other than \u, with the character codes given there |
| `Json.NumbersAreOk` | util/json.c:72-91 | every number of section 6 of RFC 8259 consists of characters that are skipped as a number |
| `Json.SkipWsAt` | util/json.c:8-23 | everything passed is one of the characters 0x09, 0x0A, 0x0D and 0x20, and what it stops at, within the buffer, is none of them |
| `Json.SkipLiteralAt` | util/json.c:25-40 | behind the literal, or the end |
| `Json.SkipStringAt` | util/json.c:42-70 | the loop equals the skipping function, for arbitrary bytes and within the buffer |
| `Json.SkipNumberAt` | util/json.c:72-91 | the loop equals the skipping function |
| `Json.SkipArrayAt` | util/json.c:93-131 | the loop equals the skipping function and terminates on arbitrary bytes |
| `Json.SkipObjectAt` | util/json.c:133-184 | the loop equals the skipping function and terminates on arbitrary bytes |
| `Json.SkipValueAt` | util/json.c:186-219 | the dispatch equals the skipping function |
| `Json.MatchStrAt` | util/json.c:221-296 | the loop equals the matching function, for arbitrary bytes |
| `Json.FindAt` | util/json.c:307-355 | the loop equals the finding function, for arbitrary bytes and within the buffer |
| `Base64.EncodedLength` | util/b64encode.c:9-47 | the output has ((len + 2) / 3) * 4 characters |
| `Base64.CharInAlphabet` | util/b64encode.c:6-7 | the character of each value is the one at that place of the alphabet, padding last |
| `Base64.RoundTrip` | util/b64encode.c:9-122 | for every octet string, its encoding is acceptable and decodes to it |
| `Base64.DecodeEncode` | util/b64encode.c:49-122 | any length that decoding an encoding reports is that of the original octets |
| `Base64.EncodeDecode` | util/b64encode.c:49-122 | encoding what was decoded gives back the text if and only if the bits that padding cuts off are zero |
| `Base64.Encode` | util/b64encode.c:9-47 | the loop with a wrapping 32-bit accumulator computes the encoding, and a NUL ends it |
| `Base64.Validate` | util/b64encode.c:65-86 | accepts exactly texts of whole groups over the alphabet with at most two trailing padding characters |
| `Base64.Decode` | util/b64encode.c:49-122 | accepts exactly the acceptable texts, and computes their octets and how many count |
| `HttpHeader.FindEol` | http/http.c:141-155 | the first end of a line, or the length |
| `HttpHeader.EolIsCrLf` | http/http.c:141-155 | a line ends with carriage return and line feed |
| `HttpHeader.LinesJoin` | http/http.c:465-541 | the lines, each with its end, make up the text |
| `HttpHeader.HeadLines` | http/http.c:465-478 | a header has at least two lines, and the last is empty |
| `HttpHeader.CountLines` | http/http.c:465-472 | counts the lines |
| `HttpHeader.GetLine` | http/http.c:157-177 | there is always a line to get, so that the sanity check holds |
| `HttpHeader.SplitHead` | http/http.c:465-541 | both sanity checks on line counts hold, and status line and header lines are exactly the lines of the header |
| `HttpHeader.ParseField` | http/http.c:518-537 | a header line is taken apart into name, value and the white space around the value |
| `HttpHeader.FieldUnique` | http/http.c:518-537 | there is only one such way to take a line apart |
| `HttpHeader.ParseHead` | http/http.c:465-541 | a header is refused exactly if one of its lines holds a NUL; otherwise every line is taken apart |
| `HttpBody.Response.Scan` | http/http.c:411-415 | the scan resumes where it stopped and misses no end of a header |
| `HttpBody.Response.Wait` | http/http.c:427-429 | the wait of the response on the reader: more octets of the stream are asked for, at least as many as are missing |
| `HttpBody.Response.Deliver` | netbuf/netbuf_read.c:218-251 | what the reader holds goes on to be the stream from the position consumed to what has arrived |
| `HttpBody.Response.ReadHeader` | http/http.c:396-458 | finds the first end of a header; gives up only if it lies beyond the limit, and dies only without memory; the reader is left waiting exactly if the response waits |
| `HttpBody.Response.ReceiveHeader` | http/http.c:396-458 | for every arrival of the octets, the header found is the first one, unless memory runs out or the connection breaks |
| `HttpBody.Response.AddBody` | http/http.c:179-223 | the body grows by exactly the data, within the maximum; fails only if the buffer has to grow and there is no memory |
| `HttpBody.Response.ChunkedHeader` | http/http.c:672-738 | on a well-formed body, the outcome stays the expected one and every wait is for octets that will come |
| `HttpBody.Response.ReadData` | http/http.c:605-670 | the same while a chunk is read; its end of line is stripped |
| `HttpBody.Response.ReceiveBody` | http/http.c:605-738 | for every arrival of the octets, the body ends as expected, unless memory runs out or the connection breaks |
| `HttpBody.DeliveredIffFits` | http/http.c:605-738 | the body is delivered if and only if every chunk fits with two octets to spare, and then it is the data of all chunks in order |
| `HttpBody.ExactFitAborts` | http/http.c:179-188 | a body of exactly the maximum length aborts |
| `HttpBody.Receive` | http/http.c:396-738 | header and chunked body together, read through the buffered reader with its in-place buffer: for every arrival of the octets the outcome is the expected one, and another one only if memory runs out or the connection breaks |
| `NetbufRead.Reader.Peek` | netbuf/netbuf_read.c:93-105 | exactly the octets received and not yet consumed |
| `NetbufRead.Reader.ResizeBuffer` | netbuf/netbuf_read.c:107-139 | room for the wanted octets without losing any, also if doubling wraps; fails exactly without memory |
| `NetbufRead.Reader.Wait` | netbuf/netbuf_read.c:141-200 | an immediate callback exactly if enough is there; otherwise a read request for exactly the missing octets at least, which is non-empty and within the buffer; fails exactly if registration fails, or a larger buffer is needed and there is no memory |
| `NetbufRead.Reader.CallbackSuccess` | netbuf/netbuf_read.c:202-216 | success leaves at least the wanted octets |
| `NetbufRead.Reader.CallbackRead` | netbuf/netbuf_read.c:218-251 | the stream grows by exactly what was delivered, and success leaves at least the wanted octets |
| `NetbufRead.Reader.Consume` | netbuf/netbuf_read.c:278-291 | advances in the stream by exactly the length |
| `NetbufWrite.Writer.Poke` | netbuf/netbuf_write.c:99-137 | an idle, unfailed writer with something queued starts one write, of the octets that come next in the stream; aborts exactly on an empty buffer, and fails exactly if a write is due and cannot be started |
| `NetbufWrite.Writer.Writbuf` | netbuf/netbuf_write.c:58-97 | anything but a complete write is a failure, after which nothing more is written; after a complete one the next queued buffer is given to the network; aborts if and only if space is reserved, or the write was complete and the next buffer is empty |
| `NetbufWrite.Writer.Reserve` | netbuf/netbuf_write.c:219-276 | space at the end of the last queued buffer, never in the one in flight; fails if and only if a buffer is needed and memory runs out, and aborts if and only if space is reserved already |
| `NetbufWrite.Writer.Consume` | netbuf/netbuf_write.c:278-313 | the stream grows by what was stored, unless a write has failed; success leaves a write in flight or nothing queued; aborts if and only if nothing is in flight and the next buffer is empty |
| `NetbufWrite.Writer.Write` | netbuf/netbuf_write.c:315-345 | everything given to the network is a prefix of what was accepted, in order, and success leaves a write in flight or nothing queued; aborts if and only if a reservation has failed before, or nothing is written while nothing is queued or in flight; and it is stated exactly when it leaves an empty buffer next |
| `NetbufWrite.NothingQueued` | netbuf/netbuf_write.c:99-137 | with nothing queued, the network was given exactly what was accepted |
| `NetbufWrite.Flush` | netbuf/netbuf_write.c:58-137 | once the writes in flight and queued have completed, the network was given exactly what was accepted |
| `NetbufWrite.Session` | netbuf/netbuf_write.c:58-345 | over every run of non-empty writes with completions at any time in between: in the end the network was given exactly what was written, in order, and only a lack of memory can prevent that |
| `NetbufWrite.EmptyWriteWhileBusy` | netbuf/netbuf_write.c:58-97 | writing nothing while the last buffer is in flight makes the callback abort |
| `NetbufWrite.RefusedWriteWhileBusy` | netbuf/netbuf_write.c:58-97 | a write refused for lack of memory makes the callback abort |
| `Getopt.SearchOpt` | util/getopt.c:119-142 | the first matching slot |
| `Getopt.SearchFinds` | util/getopt.c:119-142 | with valid, distinct names free of '=', the slot found is that of the option |
| `Getopt.RegisterOpt` | util/getopt.c:297-328 | accepts exactly names of the two forms that nothing registered matches; for names without '=' that is exactly the new ones, and the table stays one of distinct names |
| `Getopt.Getopt.Next` | util/getopt.c:144-263 | one call: option, argument, opt_found and optind as the cursor semantics says, for every command line |
| `Getopt.FormYields` | util/getopt.h:8-14 | each documented spelling yields its options with their arguments |
| `Getopt.UnknownLetter` | util/getopt.c:170-215 | a letter within packed options that no option has is reported alone, and the letters behind it are looked at next |
| `Getopt.UnknownLong` | util/getopt.c:216-263 | a long option that matches none, with or without a value, is reported as it is written |
| `Getopt.MissingAfterLetter` | util/getopt.c:170-263 | an option whose argument is missing at the end of the command line, as the last letter of packed options |
| `Getopt.MissingAfterLong` | util/getopt.c:216-263 | the same for a long option |
| `Getopt.ValueInExcess` | util/getopt.c:216-263 | a value given to an option that takes none is reported |
| `Getopt.CommandLine` | util/getopt.h:8-30 | successive calls return exactly the options that the command line spells, and then NULL with optind at the other arguments |
| `Getopt.Options` | util/getopt.c:144-263 | the getopt loop collects exactly those options |

## Left out

- The OpenSSL parts, Diffie-Hellman, SIMD bodies of SHA-256 and AES, and the ARM files: the block
  cipher and the MD5 block function are arbitrary functions here, the accelerated AES and CRC
  paths are modelled up to single instructions.
- SHA-256 round constants and initial hash value: parameters of the model.
- SHA-1, HMAC-MD5 and SHA256's, MD5's and HMAC's memory clearing.
- Self-tests that select hardware acceleration, lazy initialization, atexit handlers and statistics.
- events_spin and events_run: they only repeat the call modelled by `EventLoop`; callbacks do not call
  the loop themselves, and a call is followed for any finite number of turns.
- Sockets, connecting, sending requests, TLS, addresses, daemon and password helpers, aws.
- PtrHeap.PtrHeap.Create: setreccookie is the callback that stores the position in the record; the
  heap's array is a sequence, without the spare space of the elastic array below it.
- NetworkEvents.Network.Register: a descriptor of INT_MAX or more is excluded, as the code asserts.
- Json.NumberThen: a number is any nonempty run of characters that occur in numbers, as in the code,
  a superset of section 6 of RFC 8259.
- AesCtr.Stream.StreamSoftware: a stream of 2^64 octets or more, which the code asserts against.
- Base64.Encode: the output is a sequence, not a buffer of the caller.
- HttpHeader.ParseHead: the lines are taken apart as values; no NUL is written into the header.
- HttpBody.Receive: status lines, 1xx responses, bodies with a Content-Length or up to the end of the
  connection; the parser of chunk lengths is an arbitrary function; trailers are not read, as in the
  code.
- Getopt.Getopt.Next: the switch macros, warnings and the dummy option; a table of registered options is given.
- NetbufRead.Reader.CallbackRead: octets read before an end of file that comes too early are lost by
  the code and do not count as delivered.
- ElasticArray.ElasticArray.Resize: elasticarray_exportdup and the typed wrappers.
- Drbg.Generator.Read: entropy is an arbitrary source; the optional processor entropy is mixed in as an
  additional update, which the standard does not have.
- Pointers and structures as memory: buffers are arrays or sequences, and aliasing is modelled for
  the AES-CTR buffers, heap and timer records and write buffers only.
