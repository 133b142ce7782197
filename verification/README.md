# see-object: a verified model of messages, containers, classes and reference counts

see-object is a small object system in C: classes are structs of function pointers,
objects are counted by reference, and on top of that there are growable arrays, stacks,
durations and binary messages that travel over serial lines. This project models the parts
of it whose correctness spans several functions and proves what those functions promise
together. The model is of the release build (assertions compiled out) on a 64-bit
little-endian host.

`dafny verify dfyconfig.toml` checks everything.

| file | models |
|---|---|
| Base.dfy | integer widths, result codes, assumptions about the platform |
| Endian.dfy | byte order (src/utilities.c): the mask-and-shift swaps on bit vectors, tied to the bytes in memory |
| Wire.dfy | the wire format of messages as a printer and a parser on byte strings |
| Memory.dfy, PartSpec.dfy, MsgPart.dfy | parts of messages (src/MsgBuffer.c): C strings, setters, getters, copy, equality, write, read |
| MsgSpec.dfy, MsgBuffer.dfy | messages (src/MsgBuffer.c): the cached length, add, get, serialise, parse, copy, equality |
| Arith.dfy | multiply-then-divide overflow checks, division that rounds towards zero |
| Float.dfy | the comparison of two floating point numbers, on bit patterns and on the numbers they denote |
| Shuffling.dfy, DynamicArray.dfy | the growable array (src/DynamicArray.c) and its shuffle |
| Stack.dfy | the stack (src/Stack.c) |
| SyncSpec.dfy, Serial.dfy | messages over a device that splits transfers (src/Serial.c, src/posix/PosixSerial.c) |
| OnceInit.dfy, NestedInit.dfy | class creation by racing threads (src/Error.c, src/CopyError.c) |
| ClassTable.dfy | class tables copied down from the parent (src/MetaClass.c, src/SeeObject.c) |
| RefSpec.dfy, RefCount.dfy | reference counts over arrays and messages |
| Duration.dfy | durations (src/Duration.cpp) |

Most modules have the same shape: a specification on values (an encoding, a sequence, a
list, a lookup, a transition system), classes whose methods do what the C functions do, in
place and with the same branches, and contracts that tie the two together.

## Where the code and its documentation part ways

The model follows the code. Each of these is proved with the exact condition under which
the code does what is expected, or with an input for which it does not.

- The search for the start of a message (src/Serial.c:183-200) stops as soon as *one* of
  four bytes matches, and puts each new byte at index 7 instead of 9 (`sizeof` of a
  pointer). `SyncSpec.Documented` is the search of src/Serial.h:376-378; `ResyncExactly`
  says when the two agree: without junk, and behind a single byte of junk that is not an
  'S' if the last three bytes of the message's length are equal. On an aligned stream they
  agree, and on this stream fidelity rests.
- A header that announces fewer than 10 bytes is accepted as an empty message
  (`Wire.ShortLengthIsEmpty`). The serial reader writes outside its block exactly if the
  first window that ends its search holds such a header (`SyncSpec.FaultExactly`), on an
  aligned stream exactly if the header there is one (`SyncSpec.AlignedFaultExactly`).
- `msg_buffer_add_part` stores a part before it finds that the part was never written.
  Serialising a message with such a part reports an error exactly if everything before the
  part can be written and there is room for its tag (`MsgSpec.RefusedAt`); if it is the only
  fault and the last part, the tag goes one byte behind the buffer
  (`MsgSpec.UnwrittenLastOverruns`).
- `msg_part_read` fetches the length of a text before it compares anything: it reads beyond
  the memory exactly if that ends within the length, and then rejects the part whatever it
  has read (`MsgParts.MsgPart.Read`).
- Copying a text cuts it at its first NUL and keeps the length it was given
  (`PartSpec.CopyReadableExactly`).
- `msg_buffer_equal` reports messages with different numbers of parts as equal, and reports
  nothing for two empty ones (`MsgSpec.EqualIsSameBytesExactly`). A message that was sent
  and parsed again is equal to the original unless a text was given a shorter length or a
  number is a NaN (`MsgSpec.ReceivedEqualExactly`).
- `msg_part_read` of no bytes at all succeeds without a part.
- `see_dynamic_array_set` drops the error of `array_set`; growing with resize does not
  change the size; shrinking an empty array to fit gives the buffer back and keeps the
  pointer.
- `array_pop_back` leaks a reference (`RefSpec.PopBackLeaks`), and so do a part that was
  read from a buffer but could not be added, and the part on which
  `msg_buffer_calc_length` fails.
- `array_set` gives back the old element first. The new one is then used after it was freed
  unless something keeps it without the slot (`RefCounts.Store.SetIsSafeExactly`), which
  without circles means that a handle leads to it on another way
  (`SetIsSafeOnPathExactly`). It happens for the element that is in the slot already
  (`ReplaceWithItselfExactly`) and for one that only the old element held
  (`SetFreesWhatTheOldHeld`).
- A class whose init function fails is freed, but the caller's pointer is set to it.
- A call of `see_error_init` that saw no class but comes late to the counter returns an
  error although the class is there (`OnceInit.RefusedExactly`).

## Model

| member | source | states |
|---|---|---|
| Bits.SwapStoredBackwards | src/utilities.c:26-62 | the swaps, done with masks and shifts on a word of 2, 4 or 8 bytes, leave the bytes of the word in memory in reverse order |
| Bits.SwapInvolution | src/utilities.c:26-62 | each swap is its own inverse for every word |
| Endian.HostToNetworkBytes | src/utilities.c:64-98 | the bytes that a word converted to network order has in memory are the big-endian bytes of its value |
| Endian.NetworkToHostValue | src/utilities.c:100-134 | converting fetched bytes from network order yields their big-endian value |
| Endian.NetworkToHostUndoes | src/utilities.c:64-134 | network-to-host undoes host-to-network for every value of every width |
| Wire.DecodeEncodePart | src/MsgBuffer.c:676-962 | reading the encoding of a part, whatever follows it, gives back the part and exactly the number of bytes it took |
| Wire.EncodeDecodePart | src/MsgBuffer.c:676-962 | whatever is read as a part is the encoding of that part |
| Wire.PartPrefixFree | src/MsgBuffer.c:676-962 | parts are self-delimiting: two encodings with anything behind them agree only if the parts and the remainders agree |
| Wire.PartAcceptedExactly | src/MsgBuffer.c:761-962 | a part is read exactly from those byte strings that begin with the encoding of one |
| Wire.NumberLayout | src/MsgBuffer.c:676-758 | byte by byte: the tags 1, 2, 3, 4, 6 and 7 of the six kinds, and then 4 or 8 bytes, the most significant first |
| Wire.TextLayout | src/MsgBuffer.c:676-758 | a text is the tag 5, the length of the whole part in four bytes, and the characters without a NUL |
| Wire.DecodeEncodeParts | src/MsgBuffer.c:1850-1867 | a concatenation of parts parses to exactly those parts |
| Wire.EncodeDecodeParts | src/MsgBuffer.c:1929-1950 | what parses as parts is exactly their concatenation, with no byte over |
| Wire.MsgRoundTrip | src/MsgBuffer.c:1811-1960 | every well-formed message, followed by anything, decodes to its id, its parts and its length |
| Wire.MsgLayout | src/MsgBuffer.c:1837-1867 | a message is the bytes "SMSG", two bytes of id, four of the length of the whole message, and its parts |
| Wire.DecodedIsEncoded | src/MsgBuffer.c:1881-1960 | what is accepted with an announced length of at least 10 is the encoding of what it is decoded to, and announces no more than there is |
| Wire.AcceptedExactly | src/MsgBuffer.c:1881-1960 | the parser accepts exactly the byte strings that begin with the encoding of some message, and those that announce fewer than 10 bytes |
| Wire.ShortLengthIsEmpty | src/MsgBuffer.c:1916-1929 | an announced length below 10 yields an empty message, which is not what the bytes encode |
| Wire.MsgPrefixFree | src/MsgBuffer.c:1811-1960 | no encoding of a message is a proper prefix of another's |
| Memory.StoreNetwork | src/MsgBuffer.c:676-758 | converting to network order and copying into a buffer puts the big-endian bytes there and changes nothing else |
| Memory.FetchNetwork | src/MsgBuffer.c:761-962 | copying out of a buffer and converting yields the big-endian value |
| Memory.CStrUnique | src/MsgBuffer.c:527-575 | a C string ends at its first NUL |
| PartSpec.CopyReadableExactly | src/MsgBuffer.c:229-307 | a copied part can be written exactly when its text has no NUL before its last character, and is then written as the original |
| PartSpec.StoredExactly | src/MsgBuffer.c:527-547 | a part that is sent and stored again is the same part exactly when its given length covers the whole text |
| Floats.NaNPatterns | src/MsgBuffer.c:199-204 | the patterns that equal nothing are those beyond 0x7f800000 or 0x7ff0000000000000, sign aside |
| Floats.ZeroPatterns | src/MsgBuffer.c:199-204 | two patterns of each width are zero and two infinite |
| Floats.NextExponentDoubles | src/MsgBuffer.c:199-204 | what a pattern denotes: the first ones their own value, and from there on the next exponent twice the number |
| Floats.SignNegates | src/MsgBuffer.c:199-204 | with the sign bit the same number negated |
| Floats.DenotedUnique | src/MsgBuffer.c:199-204 | different patterns denote different numbers, except the two zeros |
| Floats.NumEqualExactly | src/MsgBuffer.c:199-204 | `==` holds between numbers that are the same number or the same infinity, and never with a NaN |
| PartSpec.PartEqualIsWireEqual | src/MsgBuffer.c:134-213 | on written parts with exact lengths and without NaN or negative zero, equality is equality of what goes over the wire |
| PartSpec.PartEqualExactly | src/MsgBuffer.c:134-213 | for all parts: equality means the same kind and the same number, infinity or C string, whatever the lengths; unwritten parts are equal, and a NaN equals nothing |
| PartSpec.ArrivesEqualExactly | src/MsgBuffer.c:134-213 | a part equals what arrives when it is sent exactly when its length covers the whole text and it is not a NaN |
| MsgParts.MsgPart.DestroyContent | src/MsgBuffer.c:63-86 | the part is unwritten afterwards |
| MsgParts.MsgPart.WriteNumber | src/MsgBuffer.c:358-634 | a numeric setter leaves the part in the state that reading the same number off the wire would |
| MsgParts.MsgPart.GetNumber | src/MsgBuffer.c:377-655 | a getter returns the number of a part of its kind and a type error for every other part |
| MsgParts.MsgPart.WriteString | src/MsgBuffer.c:526-547 | a string setter keeps the characters and the given length plus 5, modulo 2^32; with the true length the part stands for that text |
| MsgParts.MsgPart.GetString | src/MsgBuffer.c:549-575 | a text is returned up to its first NUL, every other part gives a type error |
| MsgParts.MsgPart.Copy | src/MsgBuffer.c:229-307 | a new part in the copied state, unwritten parts included |
| MsgParts.MsgPart.Equal | src/MsgBuffer.c:134-213 | an object equals itself; two objects are equal exactly if they are of the same kind and hold the same number, infinity or C string, and no NaN |
| MsgParts.MsgPart.BufferLength | src/MsgBuffer.c:657-674 | the length of a written part, an error for an unwritten one |
| MsgParts.MsgPart.Write | src/MsgBuffer.c:676-758 | succeeds exactly if the part is written and its bytes exist and fit; then the buffer has the encoding at the offset and is otherwise unchanged; an error is reported exactly for an unwritten part with room for its tag |
| MsgParts.MsgPart.Read | src/MsgBuffer.c:761-962 | agrees with the parser on every byte string: the same part, the same number of bytes, the same rejections; it reads beyond the memory exactly where that ends within the length of a text, and then rejects |
| MsgSpec.CachedIsTotal | src/MsgBuffer.c:1689-1777 | the cached length is the recomputed length modulo 2^32, and equal to it exactly when that fits |
| MsgSpec.EncodedLength | src/MsgBuffer.c:1857-1867 | the lengths of the parts add up to the length of their encoding |
| MsgSpec.SendableIsValidMsg | src/MsgBuffer.c:1811-1873 | a message that can be sent has a well-formed encoding whose length is the cached one |
| MsgSpec.RefusedAt | src/MsgBuffer.c:1850-1867 | serialising reports an error exactly if the first part that cannot be written is an unwritten one with room for its tag |
| MsgSpec.UnwrittenLastOverruns | src/MsgBuffer.c:1850-1867 | behind a message that could be sent an unwritten part leads to no error, but to a write outside the buffer |
| MsgSpec.RoundTripExactly | src/MsgBuffer.c:1811-1960 | the parts that arrive are the parts that were sent, exactly when no text was given a length shorter than the text |
| MsgSpec.RewritableExactly | src/MsgBuffer.c:1736-1777 | a parsed message can be written again exactly when its texts have no NUL before their last character, and then it stands for the same parts |
| MsgSpec.ReproducedExactly | src/MsgBuffer.c:1811-1960 | serialising a parsed message reproduces the announced bytes exactly when at least 10 are announced and no text has a NUL before its last character |
| MsgSpec.EqualIsSameBytesExactly | src/MsgBuffer.c:1517-1603 | equality reports whether the encodings are the same bytes, except exactly for messages of the same id and length with different numbers of parts or with none |
| MsgSpec.ReceivedEqualExactly | test/msgbuffer_test.c:449-456 | a message with parts equals what its receiver makes of its bytes exactly when no text was given a length shorter than itself and no number is a NaN |
| MsgSpec.UnequalCountsReportedEqual | src/MsgBuffer.c:1551-1603 | a text of five characters and two 32-bit numbers are reported equal and sent differently |
| MsgBuffers.MsgBuffer.constructor | src/MsgBuffer.c:1447-1482 | a new message is empty with a cached length of 10 |
| MsgBuffers.MsgBuffer.SetId | src/MsgBuffer.c:1669-1677 | sets the id and nothing else |
| MsgBuffers.MsgBuffer.AddPart | src/MsgBuffer.c:1736-1777 | appends a private copy and accounts for its length; fails if the array cannot grow or the part is unwritten, which in the second case stays in the message |
| MsgBuffers.MsgBuffer.GetPart | src/MsgBuffer.c:1779-1799 | a fresh part in the state of the n-th, or an index error |
| MsgBuffers.MsgBuffer.CalcLength | src/MsgBuffer.c:1689-1734 | the sum over the parts, equal to the cached length; fails exactly for unwritten parts or a sum of 2^32 and more |
| MsgBuffers.MsgBuffer.GetBuffer | src/MsgBuffer.c:1811-1879 | succeeds exactly on messages that can be sent and yields their encoding in a buffer of exactly the cached length; reports an error exactly where an unwritten part is met first, and leaves a block in all other cases |
| MsgBuffers.MsgBuffer.WriteParts | src/MsgBuffer.c:1850-1867 | the loop puts the parts end to end behind the header, or stops at the first that cannot be written |
| MsgBuffers.MsgBuffer.FromBuffer | src/MsgBuffer.c:1881-1960 | on every byte string: a message exactly where the parser accepts, with its id, its parts and its length, and an error everywhere else |
| MsgBuffers.MsgBuffer.ReadParts | src/MsgBuffer.c:1929-1950 | the loop ends, stays within the announced length and adds exactly the parts the parser finds |
| MsgBuffers.MsgBuffer.Copy | src/MsgBuffer.c:1620-1667 | a fresh message with the same id, parts and cached length; fails exactly if some part was never written |
| MsgBuffers.MsgBuffer.Equal | src/MsgBuffer.c:1517-1603 | an object equals itself; otherwise false if ids or lengths differ, then true if the numbers of parts differ, unassigned for two empty messages, and else whether all parts are equal |
| Arith.UnsignedCheckExact | src/DynamicArray.c:223-230 | the test `x / a == b` after `x = a * b` holds exactly when the product fits in size_t |
| Arith.SignedCheckExact | src/Duration.cpp:185-240 | the test `r / s == f` after `r = s * f` with wrap-around holds exactly when the product fits in int64_t |
| Arith.QuotientParts | src/Duration.cpp:455 | the quotient is that of the absolute values, with a sign if the operands differ in theirs |
| Arith.RoundsTowardsZero | src/Duration.cpp:455 | division rounds towards zero: the quotient is the one number that leaves a remainder smaller than the divisor and with the sign of the dividend |
| Shuffling.ShuffledRearranges | src/DynamicArray.c:626-681 | a shuffle keeps the multiset of elements and every position outside the range |
| Shuffling.DrawsUnique | src/DynamicArray.c:626-681 | on distinct elements two sequences of draws with the same outcome are the same |
| Shuffling.ShuffleBijection | src/DynamicArray.c:626-681 | on distinct elements each rearrangement of the range is the outcome of exactly one sequence of draws, and nothing else is an outcome |
| ArraySpec.CapacityIsLeastPower | src/DynamicArray.c:266-291 | the capacity reached by adding n elements is the least power of two that is at least n |
| ArraySpec.PowerOfTwoTight | src/DynamicArray.c:266-291 | that power is below 2n |
| ArraySpec.NextIsCarried | src/DynamicArray.c:130-408 | position by position: a failed operation changes nothing, and after a successful one every element is the one that the operation puts there or the one that was there, which determines the contents |
| DynamicArrays.DynamicArray.New | src/DynamicArray.c:58-88 | an empty array, or an error for elements of no size |
| DynamicArrays.DynamicArray.Reserve | src/DynamicArray.c:213-245 | the contents stay; it fails exactly if the bytes cannot be allocated, overflow of the product included, and then nothing changes |
| DynamicArrays.DynamicArray.Add | src/DynamicArray.c:266-291 | appends one element, doubling a full array; a failure changes nothing |
| DynamicArrays.DynamicArray.MemMove | src/DynamicArray.c:390-393 | copies overlapping elements as if all were read first |
| DynamicArrays.DynamicArray.Insert | src/DynamicArray.c:364-408 | the contents become the elements before the position, the new ones and those from the position on; failures change nothing |
| DynamicArrays.DynamicArray.Set | src/DynamicArray.c:175-195 | stores the element at its position and leaves all other positions and the size as they were, or reports an index error and changes nothing |
| DynamicArrays.DynamicArray.PublicSet | src/DynamicArray.c:544-562 | stores the same as Set, but reports success in either case |
| DynamicArrays.DynamicArray.Get | src/DynamicArray.c:197-211 | one element, or an index error that leaves the caller's variable alone |
| DynamicArrays.DynamicArray.Resize | src/DynamicArray.c:307-362 | shrinking keeps the front and the capacity; growing only reserves |
| DynamicArrays.DynamicArray.ShrinkToFit | src/DynamicArray.c:247-264 | capacity becomes size and the contents stay, except exactly for an empty array with capacity, whose buffer is lost |
| DynamicArrays.DynamicArray.Copy | src/DynamicArray.c:130-173 | a new array with the same contents and exactly the needed capacity |
| DynamicArrays.DynamicArray.ShuffleRange | src/DynamicArray.c:626-681 | swaps in place to what the draws make of the sequence; an end beyond the size is an index error |
| DynamicArrays.DynamicArray.Run | src/DynamicArray.c:213-408 | over every run of operations the contents, the capacity and every answer are those of a sequence with a capacity, up to the first shrink that releases the buffer |
| DynamicArrays.DynamicArray.Apply | src/DynamicArray.c:213-408 | each operation answers and changes the array as specified on sequences, position by position; a failed one changes nothing |
| DynamicArrays.AddAll | src/DynamicArray.c:213-291 | n adds to a new array end with the least power of two as capacity, below 2n, and all reallocations together moved fewer than 2n elements |
| Stacks.UnderflowMeansEmpty | src/Stack.c:146-150 | `size - 1 > size` on size_t holds exactly for an empty stack |
| Stacks.Stack.Top | src/Stack.c:142-154 | the head of the list, or an index error on an empty one |
| Stacks.Stack.Pop | src/Stack.c:156-169 | removes the head of the list; on an empty one an index error and no change |
| Stacks.Stack.Push | src/Stack.c:171-175 | puts an element in front of the list, or fails and leaves it as it was |
| Stacks.Stack.Copy | src/Stack.c:100-140 | the same list in memory of its own |
| Stacks.Stack.Apply | src/Stack.c:142-175 | a push that succeeds puts its element in front, a pop removes the head and fails exactly on an empty list, a failure changes nothing, and the top afterwards is the head |
| Stacks.Stack.Run | src/Stack.c:142-175 | over every run of pushes and pops all answers are those of a list; a pop fails exactly on an empty one, a push only where a buffer of twice the size could not be had |
| Stacks.RunAnswers | src/Stack.c:142-175 | each answer of such a run, by the list as it was at that point |
| Stacks.BalancedRestores | src/Stack.c:142-175 | last in, first out: pushes and pops that pair up like brackets leave the list as it was |
| Stacks.Stack.RunBesideCopy | src/Stack.c:100-175 | no run of operations on a stack can be seen in a copy made before it |
| SyncSpec.WindowShifts | src/Serial.c:183-200 | closed form of the search as written: bytes 8 and 9 of the stream never move through the window |
| SyncSpec.SearchStops | src/Serial.c:173-226 | the search as written ends at the first window with one matching byte, with that window for a header |
| SyncSpec.FirstTenTaken | src/Serial.c:185-222 | an 'S', 'M', 'S' or 'G' in its place among the first ten bytes is enough: they are taken for a header, and as many bytes as it announces for the message |
| SyncSpec.LaterWindowTaken | src/Serial.c:185-222 | otherwise the first later window with such a byte is taken; all its bytes, the announced length and what is left are given by positions in the stream |
| SyncSpec.NothingTaken | src/Serial.c:185-200 | without any such byte, or with fewer than ten bytes, the reader waits for more |
| SyncSpec.FaultExactly | src/Serial.c:202-222 | the reader writes outside its block exactly on the streams in which the first window that ends the search announces fewer than ten bytes |
| SyncSpec.AlignedFaultExactly | src/Serial.c:202-222 | at the start of a header it does so exactly if that header announces fewer than ten bytes |
| SyncSpec.DocumentedResync | src/Serial.h:376-378 | the documented search obtains the message at the first "SMSG", whatever junk precedes it, and leaves what follows |
| SyncSpec.DocumentedDry | src/Serial.h:376-378 | without a start in the stream it waits for more |
| SyncSpec.AlignedMessage | src/Serial.c:140-234 | at the start of a message the search as written obtains exactly that message |
| SyncSpec.ResyncExactly | src/Serial.c:173-226 | the search as written does what is documented exactly if there is no junk, or one byte of it that is not an 'S' before a message of which the last three bytes of the length are equal |
| SyncSpec.ShortMessagesNeedAlignment | src/Serial.c:173-226 | for messages of fewer than 65793 bytes it does so exactly if there is no junk |
| SyncSpec.StrayByteDoesNoHarm | src/Serial.c:173-226 | one stray byte other than 'S' before a message of 65793 bytes does no harm |
| SyncSpec.StrayByteLosesMessage | src/Serial.c:173-226 | one stray byte other than 'S' before an empty message makes the code wait for 655360 bytes |
| Serials.Device.Write | src/posix/PosixSerial.c:243-270 | hands over a non-empty prefix of the bytes and advances the caller's position by its length |
| Serials.Device.Read | src/posix/PosixSerial.c:273-304 | takes a non-empty prefix of what is queued, at most what was asked for |
| Serials.ReadFully | src/Serial.c:176-181 | however the device splits, the loop takes exactly the next n bytes in order |
| Serials.WriteFully | src/Serial.c:126-133 | however the device splits, the loop sends exactly the bytes of the buffer in order; on a failure a prefix of them |
| Serials.WriteMsg | src/Serial.c:111-138 | exactly the encoding of the message is appended to what is under way; on a failure a prefix of it; nothing if serialising it reports an error |
| Serials.ObtainSynced | src/Serial.c:140-234 | the loops over the device compute the search on the stream, and consume exactly the bytes that belong to the result; one matching byte among the first ten makes it the beginning of the stream; they leave the block on no other streams than FaultExactly says |
| Serials.ReadMsg | src/Serial.c:236-266 | the message that the obtained bytes decode to, with each possible error |
| Serials.StreamFirst | src/Serial.c:140-266 | a stream of messages gives up its first message and keeps the others |
| Serials.OutboxDelivers | src/Serial.c:111-266 | every message that can be sent arrives as one that can be sent again with the same value |
| Serials.ArrivesAlike | src/Serial.c:111-266 | a message that arrives stands for the value that was sent, and has the same parts exactly when no text was given a shorter length |
| Serials.Exchange | src/Serial.c:111-266 | for every sequence of sends and receives over a reliable device messages arrive in order, each with its value, the device holds exactly the bytes of those under way, and a receive fails only when there is none |
| Serials.SendsExactly | src/Serial.c:111-138 | a schedule sends as many messages as it has entries for, or all |
| Serials.ReceivesCatchUp | src/Serial.c:236-266 | m receives in a row fetch m messages, or all that were sent |
| Serials.AllDelivered | src/Serial.c:111-266 | with a send entry for each of n messages and n receives at the end all are delivered |
| OnceInit.StepInv | src/Error.c:199-235 | every step of every call keeps the invariant of the protocol |
| OnceInit.OnceOnly | src/Error.c:199-235 | at most one call is inside new_class, the pointer is set only to the complete table and never changed, and a call that returned finds it set |
| OnceInit.RunOnceOnly | src/Error.c:199-235 | for any number of calls and any interleaving the class is made at most once and stays |
| OnceInit.RunIsSafe | src/Error.c:199-235 | over any run at most one call is inside new_class at a time, and every call that has returned finds the one complete class |
| OnceInit.StepRank | src/Error.c:229-232 | every step that changes anything brings its call nearer to its end |
| OnceInit.NoDeadlock | src/Error.c:229-232 | while a call is under way some call can make a step |
| OnceInit.RunsEnd | src/Error.c:199-235 | a run of effective steps is at most ten steps a call long |
| OnceInit.CanFinish | src/Error.c:229-232 | any run can be continued until all calls have returned |
| OnceInit.ServedAtOnce | src/Error.c:203-204 | a call that has not passed the test on entry when the class is there is never refused and never touches the counter, whatever the other calls do |
| OnceInit.ServedInTwoSteps | src/Error.c:203-204 | and it has returned SUCCESS after its second step at the latest |
| OnceInit.RefusedExactly | src/MetaClass.c:149-150 | over a whole run a call returns an error exactly if it drew 1 and then found the class there already; it saw no class in its test on entry |
| OnceInit.PastTestSawNone | src/Error.c:203-206 | a call that went on after the test on entry saw no class in it |
| OnceInit.LateCall | src/Error.c:199-235 | two calls and an order of their steps in which the second returns that error |
| NestedInit.NeverStuck | src/CopyError.c:132-139 | the parent class is there whenever it is used |
| NestedInit.SysStepInv | src/CopyError.c:123-159 | every step of either function keeps the invariants of both levels |
| NestedInit.NestedOnceOnly | src/CopyError.c:123-159 | for any number of calls of both functions in any interleaving no call misses its parent and both levels keep their invariants |
| NestedInit.NestedRunIsSafe | src/CopyError.c:123-159 | over any run of both functions each level has at most one maker at a time, and every call that has returned finds its class and the parent complete |
| NestedInit.ReturnedHasClasses | src/CopyError.c:123-159 | a call that returned finds both classes, the child with the parent's table and its own overrides |
| NestedInit.SysStepRank | src/CopyError.c:154-157 | every step of either function that changes anything brings its call nearer to its end |
| NestedInit.NestedNoDeadlock | src/CopyError.c:154-157 | the two waits cannot block each other |
| NestedInit.NestedRunsEnd | src/CopyError.c:123-159 | a run of both functions in which every step changes something is at most twenty steps a call long |
| NestedInit.NestedCanFinish | src/CopyError.c:154-157 | any run of both functions can be continued until no call is under way |
| NestedInit.NestedServedAtOnce | src/CopyError.c:127-139 | over any run of both functions, at either level: a call that has not passed the test on entry when the class is there is never refused; with the parent class there, no call enters see_error_init for it |
| ClassTables.WrittenIsOverrides | src/MetaClass.c:55-60 | after the init function a slot holds the last function assigned to it, or else what was copied |
| ClassTables.LastWriteCounts | src/MetaClass.c:55-60 | the last assignment to a slot counts, and a slot without one stays |
| ClassTables.WrittenIsRecipe | src/MetaClass.c:55-60 | the copied table with the overrides is the table that OnceInit publishes |
| ClassTables.OwnerIsNearest | src/SeeObject.h:186-194 | lookup by walking psuper finds the nearest override: an ancestor that overrides, of which every other such ancestor is an ancestor |
| ClassTables.AncestorsRankLower | src/SeeObject.c:579-586 | the parents form no circle, so the walk ends and no class is an ancestor of its own ancestors |
| ClassTables.AncestorOfAncestor | src/SeeObject.c:565-588 | ancestors of ancestors are ancestors |
| ClassTables.AncestorIsChain | src/SeeObject.c:579-586 | the ancestors are exactly the classes that a path along psuper comes to |
| ClassTables.CopiedInheritsExactly | src/MetaClass.c:55-60 | dispatch through the copied table is dispatch by lookup exactly when the copy leaves behind no function that the init function does not replace |
| ClassTables.Adopt | src/MetaClass.c:55-60 | a new class affects lookup from no other class |
| ClassTables.SeeClass.NewClassInit | src/MetaClass.c:31-61 | the header, the parent and the table of the new class, or an error that leaves it an empty object |
| ClassTables.ClassSystem.constructor | src/SeeObject.c:317-339 | the static class has no parent, is its own class and serves for lookup |
| ClassTables.ClassSystem.MetaInit | src/MetaClass.c:169-198 | the metaclass is a subclass of SeeObject with three overrides and a slot of its own, made once |
| ClassTables.ClassSystem.NewCls | src/MetaClass.c:63-125 | the new class, or on failure a freed one that the caller is still given |
| ClassTables.ClassSystem.NewClass | src/MetaClass.c:135-167 | each refusal leaves *out alone; on success the class joins the others, and all tables still serve for lookup exactly when its copy forgot nothing |
| ClassTables.CreateAll | src/MetaClass.c:31-198 | after any sequence of class creations the planned hierarchy exists and every slot of every table holds what a walk along psuper finds |
| ClassTables.CreateOne | src/MetaClass.c:135-167 | a well-formed request adds one class, with the parent, the instance size and the slots asked for; any other adds none |
| ClassTables.EveryRequestServed | src/MetaClass.c:135-167 | a sequence of well-formed requests makes a class for each, as requested |
| ClassTables.IsInstanceOf | src/SeeObject.c:565-588 | 1 exactly if the class is the object's class or an ancestor of it, 0 without an object, an error without a class; the loop ends |
| RefSpec.ReleaseInv | src/SeeObject.c:120-132 | releasing references, with all destruction it causes, keeps every count equal to the slots and handles that hold the object, and never meets a destroyed object |
| RefSpec.ReleaseLastExactly | src/SeeObject.c:120-132 | the last reference destroys the object; any other release only counts |
| RefSpec.ReleaseKeeps | src/DynamicArray.c:110-128 | survivors keep their slots and nothing comes back to life |
| RefSpec.SurvivesExactly | src/SeeObject.c:120-132 | a release leaves alive exactly the objects that handles, or objects kept themselves, hold without the references given back |
| RefSpec.SurvivesOnPathExactly | src/SeeObject.c:120-132 | without circles these are exactly the objects that a handle leads to |
| RefSpec.ReachableIsLive | src/SeeObject.c:112-132 | nothing is destroyed that the program can still get at |
| RefSpec.LiveIsReachable | src/SeeObject.c:112-132 | without circles nothing lives that the program cannot get at |
| RefSpec.NoHandlesNothingLives | src/SeeObject.c:112-132 | without circles everything is destroyed once the program holds no handle |
| RefSpec.SelfHolderLeaks | src/DynamicArray.c:266-291 | an array that holds itself stays alive without any handle |
| RefSpec.CountsDetermined | src/SeeObject.c:112-132 | slots and handles determine all counts |
| RefSpec.PopBackLeaks | src/DynamicArray.c:293-305 | after pop_back the element counts exactly one reference too many |
| RefCounts.Store.Ref | src/SeeObject.c:112-118 | one more reference, held by the caller |
| RefCounts.Store.Decref | src/SeeObject.c:120-132 | the heap after the release of one reference; NULL is ignored |
| RefCounts.Store.Destroy | src/DynamicArray.c:110-128 | the loop gives back the reference of every slot, recursively |
| RefCounts.Store.CopyByRef | src/see_functions.c:31-37 | the slot holds the object and the object counts one more |
| RefCounts.Store.Add | src/DynamicArray.c:266-291 | the element is in the array and counts one more; nothing changes on failure |
| RefCounts.Store.Insert | src/DynamicArray.c:364-408 | the elements are inserted, each counted, all others as before; nothing changes on failure |
| RefCounts.Store.Set | src/DynamicArray.c:175-195 | the old element is released before the new one is stored; the new one is still there exactly if something keeps it without the slot, as a handle of the caller does |
| RefCounts.Store.SetIsSafeExactly | src/DynamicArray.c:175-195 | that is decided on the heap before the call: by objects that support one another and the element without the slot |
| RefCounts.Store.SetIsSafeOnPathExactly | src/DynamicArray.c:175-195 | without circles: exactly if a way leads from a handle to the element and not through the slot |
| RefCounts.Store.SetFreesWhatTheOldHeld | src/DynamicArray.c:175-195 | an array holding an object that holds another: setting the second in place of the first destroys it |
| RefCounts.Store.ReplaceWithItselfExactly | src/DynamicArray.c:175-195 | an element may be put where it already is exactly if something else holds it |
| RefCounts.Store.Get | src/DynamicArray.c:197-211 | the caller gets a counted reference to the element, or an index error |
| RefCounts.Store.Copy | src/DynamicArray.c:130-173 | a new array that counts every element once more; what *array_out held is released |
| RefCounts.Store.AddPart | src/MsgBuffer.c:1736-1777 | the message owns a copy with one reference, or the copy is destroyed; for an unwritten part the call fails and the message keeps the copy |
| RefCounts.Store.GetPart | src/MsgBuffer.c:1779-1799 | the caller owns a copy with one reference |
| RefCounts.Store.MeasureParts | src/MsgBuffer.c:1709-1724 | all copies made on the way are destroyed, except the one the loop fails on |
| RefCounts.Store.CopyMsg | src/MsgBuffer.c:1620-1667 | a message with parts of its own on an otherwise untouched heap; a copy that fails leaves nothing behind |
| RefCounts.Store.Parse | src/MsgBuffer.c:1925-1959 | a message with parts of its own; a failed read leaves nothing behind, a failed add exactly the part that was read |
| RefCounts.ReleaseBuilt | src/MsgBuffer.c:1507-1515 | giving a message back that nobody else knows leaves the heap as it was before it was made |
| RefCounts.Store.Step | src/SeeObject.c:112-132 | each call of a program has the effect on the heap and on the handles that its operation specifies, and the counts stay right |
| RefCounts.Store.Run | src/SeeObject.c:112-132 | over every program of these operations each call has its effect and the counts are right after each; if the program ends without handles and circles nothing is left |
| Durations.NewNs | src/Duration.cpp:242-270 | a new duration, releasing what *out held, or a refusal that changes nothing |
| Durations.NewScaled | src/Duration.cpp:185-240 | succeeds exactly if the nanoseconds fit in int64_t, stores exactly them, and reads back as the number it was made from |
| Durations.NewS | src/Duration.cpp:185-202 | succeeds exactly if 10^9 times the number fits in int64_t, and stores that |
| Durations.NewMs | src/Duration.cpp:204-221 | succeeds exactly if 10^6 times the number fits, and stores that |
| Durations.NewUs | src/Duration.cpp:223-240 | succeeds exactly if 10^3 times the number fits, and stores that |
| Durations.AddOrSub | src/Duration.cpp:287-357 | the sum or difference of the operands as they were, also if the result object is one of them |
| Durations.Multiply | src/Duration.cpp:359-391 | the product with the operand as it was, also if the operand is the object whose last reference is given back |
| Durations.Divide | src/Duration.cpp:426-458 | likewise the quotient: the remainder is smaller than the divisor and has the sign of the dividend; defined exactly unless the divisor is 0, or -1 for the least number |
| Durations.CanDivideExactly | src/Duration.cpp:455 | that is exactly unless the divisor is 0 or the quotient does not fit |
| Durations.MadeAndReadBack | src/Duration.cpp:500-522 | a duration made in a unit reads back in that unit as the same number |
| Durations.ReadBackTruncates | src/Duration.cpp:500-522 | reading in a coarser unit rounds towards zero |
| Durations.DivideUndoesMultiply | src/Duration.cpp:359-458 | dividing undoes multiplying exactly if the product did not wrap around |

## Left out

- Devices beyond the transfer of bytes: opening, closing, speeds, timeouts, Windows, and errors of a device other than a failed or timed-out transfer.
- Clocks, time points, sleeping and the random generator; a random draw is an arbitrary number of its range.
- The text of errors and the individual error classes; only result codes are kept. The `error_out` checks of the public wrappers are left out except where they change what a function does.
- Failure of allocations other than those of the array buffer; realloc is taken to grant up to a limit of at most 2^63-1 bytes.
- Floating point values are bit patterns; only the comparison of parts looks inside them. The floating point operations on durations are left out.
- Assertions: a debug build would stop at some of the states that are described here, such as an unknown tag in a buffer.
- `msg_part_not_equal` and `msg_buffer_not_equal`, `msg_part_length`, the six relational wrappers of SeeObject and the speed tables, which would only add easy members.
- `see_init` and the deinit functions: a deinit may run beside a new init, and there is no property without a rule for the callers.
- OnceInit, NestedInit: memory is sequentially consistent and threads are not starved; the other error classes follow the same protocol as CopyError.
- RefSpec, RefCounts: the heap is a map from addresses to cells that are never used again; an object is taken for gone when its destroy function starts, and counts do not overflow. Threads are left out. Shuffle and shrink are left out here because they pass the address of a slot, not the element, to the free function.
- RefCounts.Store.Set: where the element is freed while it is being put into the array the result is UNDEFINED; what the program does afterwards is not described.
- Serials.WriteMsg: where serialising the message leaves a block the result is UNDEFINED and the device may have got any bytes; what the code really reads there is not described.
- Serials.ObtainSynced: malloc of no bytes is taken to succeed, as it does in glibc.
- DynamicArrays.DynamicArray.Resize: growing initialises slots beyond the size; what they hold is not described.
- MsgBuffers.MsgBuffer.FromBuffer: demands a buffer of a size that an object can have.
- ClassTables.ClassSystem.NewClass: demands that sizes describe structs that contain their parent's, as C gives them; classes are not referenced or released after they are made.
- Durations.Multiply: signed overflow, undefined in C++, is taken to wrap around, as in AddOrSub and the constructors.
