# A verified model of the messenger client core

This project models, in Dafny, the parts of the messenger client whose behaviour is hardest to see from
one function body, and proves what they promise over all inputs, all runs or all interleavings.

| module | what it models |
|---|---|
| `Machine` | fixed-width integers and their little-endian images |
| `Codepoints`, `Conversion`, `UtfConverters`, `UtfLaws` | the strict UTF-16 to UTF-8 converter and its inverse, as array loops with cursors; the laws are proved once for any reader of characters and applied to both |
| `Md5` | MD5 fed in any chunks: block buffer, two-word bit counter, padding |
| `TlvWriter`, `TlvNesting`, `TlvFields` | the append-only TLV writer, children written ahead into the parent's buffer, and messages of strings |
| `TlvReader`, `TlvEncoding` | the two readers, and what they find in a recursive encoding or in whatever part of it there was room for |
| `Contacts`, `ContactsReader` | the contact list message, written two levels deep and read back |
| `Queue` | the spin-locked queue, one shared-memory access a step, any number of writers and one reader |
| `Registrar` | the three requests to the registrar, byte by byte, with the digest that answers a challenge |
| `Session`, `SessionHistory`, `SessionClient` | the connection state machine; what its state says of the events so far; its handlers and the Procc pass on the client's fields |
| `Timers` | the queue of deadlines beside the map of pending requests |
| `Clock` | the compare-exchange loop of the monotone clock, with spurious failures |
| `Gsm` | the GSM alphabet with its escapes |
| `Numerals`, `Addresses` | decimal numerals and ip:port text, printed and read |

Code that changes things step by step is modelled by methods on arrays and classes, and each of them is
tied by its postcondition to a specification function or a step of a state machine; the laws are lemmas about those.
Concurrency is a state machine whose actions are single accesses to shared memory. `Timers` and `Session`
count time in natural numbers of milliseconds; the code's own tests are computed modulo 2^32.

Where the code does not keep what one would expect of it, the model keeps the code and the exact condition
is proved:

- The UTF-8 decoder bounds the byte after an `ED` or `F4` lead only from above. A text is well formed if and only if it
  is accepted and those bytes are at least 0x80 (`UtfLaws.Utf8Soundness`), and it returns byte for byte under the same
  condition (`UtfLaws.Utf8RoundTrip`); `ED 00 80` is a counterexample (`UtfLaws.UnmarkedByteAccepted`).
- The block loop of MD5Update ends if and only if the buffered and the new bytes are together fewer than 2^32
  (`Md5.BlockLoopEnds`).
- From some moment on a test can end a pending request before its 15 seconds are over if and only if they are not over yet
  and an older entry of its id is still queued (`Timers.EarlyIffReused`, `Timers.ReuseFiresEarly`).
- A request times out at the first test after its 15 seconds if and only if no answer came since StartTimer: one that came
  between the sending and StartTimer is forgotten (`Timers.TimesOutIffUnanswered`, `Timers.EarlyAnswerIsForgotten`).
- The requests to the registrar drop what does not fit their buffers and are sent all the same. The bytes carry the stored
  challenge if and only if its records fit with what is before them, and the digest over it if and only if all of that fits
  (`Registrar.ChallengeIsCarriedIff`, `Registrar.AnswerIsCarriedIff`); the client can go online with a challenge it never
  sent back (`Session.LongRealmIsDropped`).
- The 32-bit room test of the TLV writer tells what fits if and only if its sum does not wrap (`TlvWriter.RoomTest`). The
  length test of the readers is exact for lengths of up to four bytes; with eight bytes a length of 2^32 + 1 passes
  (`TlvReader.CastTest`, `TlvReader.LongLengthPasses`).
- The statuses told to the application follow the session if and only if no ok response comes outside its own wait state
  while the last status is not registration (`Session.StatusRefinesPhase`, `Session.LateOkIsUnannounced`).
- A client that is switched off obeys Online_Req if and only if no late response has taken it to open, need_req or need_auth
  (`Session.OnlineObeyedIff`, `Session.OffCanBeOpen`).
- An accepted numeral is exact if and only if no beginning of it denotes one of the four numbers from 2^32 (2^64) on
  (`Numerals.ExactIff`, `Numerals.ModulusReadsAsZero`). The length an octet reports is how far the reader moved if and
  only if nothing was skipped before it (`Addresses.OctetConsumedIff`), and that of a whole address if and only if every octet
  begins with a digit where its reader stands (`Addresses.AddressConsumedIff`). An accepted address is read within its limit
  if and only if what was skipped and the blanks and digits after the colon are fewer than the octets left of it
  (`Addresses.AddressWithinIff`); `Addresses.BlankReadsPast` and `Addresses.PortReadsPast` are read past it.
- The decoder of the GSM alphabet has the characters of section 6.2.1 of 3GPP TS 23.038, question marks for those outside ASCII, for every septet but
  0x5b (`Gsm.DecodesAsStandard`).
- A contact's strings return unchanged if and only if each is shorter than 65536 bytes (`ContactsReader.KeptIsPlain`).

## Model

| member | source | states |
|---|---|---|
| `UtfConverters.ConvertUtf16ToUtf8` | d-mon/dsymbconv.cpp:2254-2319 | the array loop returns the result, cursors and bytes of the resumable conversion `ToUtf8`, and touches nothing outside the target range |
| `UtfConverters.ConvertUtf8ToUtf16` | d-mon/dsymbconv.cpp:2183-2252 | the same for `ToUtf16` |
| `UtfConverters.LegalDecodes` | d-mon/dsymbconv.cpp:2151-2180 | for a legal sequence, what the shifts and the offset table compute is the number its payload bits spell, a scalar value, without wrapping below zero |
| `UtfConverters.Next16Inverts` | d-mon/dsymbconv.cpp:2264-2293 | the UTF-16 reader reads exactly the character whose image stands at the cursor |
| `UtfConverters.Next8Inverts` | d-mon/dsymbconv.cpp:2156-2247 | the UTF-8 reader reads exactly the character whose image stands at the cursor |
| `UtfLaws.Utf8OfCharacters` | d-mon/dsymbconv.cpp:2254-2319 | the bytes written are the RFC 3629 section 3 encoding of the characters, up to the last that fits; three bytes a unit always suffice |
| `UtfLaws.Utf16OfCharacters` | d-mon/dsymbconv.cpp:2183-2252 | the units written are the RFC 2781 section 2.1 encoding of the characters, up to the last that fits |
| `UtfLaws.AcceptsUtf16` | d-mon/dsymbconv.cpp:2264-2293 | UTF-16 is accepted if and only if it is well formed |
| `UtfLaws.Utf16RoundTrip` | d-mon/dsymbconv.cpp:2183-2319 | every well-formed UTF-16 text converts to UTF-8 and back to the same units, all consumed |
| `UtfLaws.NoLoneSurrogate` | d-mon/dsymbconv.cpp:2217-2247 | whatever bytes are read, and wherever the run stops, the units written are well-formed UTF-16 |
| `UtfLaws.Utf8Soundness` | d-mon/dsymbconv.cpp:2156-2252 | bytes are well formed by RFC 3629 section 4 if and only if they are accepted and every byte after an ED or F4 is at least 0x80 |
| `UtfLaws.Utf8RoundTrip` | d-mon/dsymbconv.cpp:2156-2319 | accepted bytes re-encode to themselves under that condition and no other |
| `UtfLaws.UnmarkedByteAccepted` | d-mon/dsymbconv.cpp:2170-2172 | the ill-formed ED 00 80 is accepted as U+B000, like EB 80 80 |
| `UtfLaws.Utf16Stops` | d-mon/dsymbconv.cpp:2264-2318 | UTF-16 is given up as cut off if and only if a single high surrogate is left, as illegal if and only if the rest begins with a surrogate without its other half, and for want of room only over a character whose bytes do not fit |
| `UtfLaws.Utf8Stops` | d-mon/dsymbconv.cpp:2189-2251 | UTF-8 is given up as cut off if and only if fewer bytes are left than the leading bits announce, as illegal if and only if that many are left and are no accepted character, and for want of room only over a character whose units do not fit |
| `UtfLaws.Utf16Resumable` | d-mon/dsymbconv.cpp:2303-2318 | run into any sequence of targets of at least four bytes, the outputs joined are the one-shot conversion |
| `UtfLaws.Utf8Resumable` | d-mon/dsymbconv.cpp:2213-2251 | the same for targets of at least two units |
| `UtfLaws.Utf16InPieces` | d-mon/dsymbconv.cpp:2264-2293 | a source fed in two pieces, the unread end of the first before the second, converts like the whole |
| `UtfLaws.Utf8InPieces` | d-mon/dsymbconv.cpp:2190-2199 | the same for bytes |
| `UtfLaws.ConsumedPrefix` | d-mon/dsymbconv.cpp:2190-2319 | on every return both cursors are between two characters: the consumed part alone converts completely, to exactly what the target holds |
| `UtfLaws.ResumeAfterFullTarget` | d-mon/dsymbconv.cpp:2213-2216 | after a full target the run from the cursors is the run into a larger target |
| `UtfLaws.ConvertUcs2ToUtf8` | d-mon/dsymbconv.cpp:2405-2425 | the byte count or 0; for well-formed text with room, what was written converts back to the units |
| `UtfLaws.ConvertUtf8ToUcs2` | d-mon/dsymbconv.cpp:2457-2478 | the byte count of the units written, or 0 |
| `Conversion.RunsAreOneShot` | d-mon/dsymbconv.cpp:2183-2319 | for any proper reader, a resumed conversion that did not end for want of room is the one-shot conversion |
| `Conversion.WhyItStopped` | d-mon/dsymbconv.cpp:2183-2319 | for any proper reader, the result tells what stands at the cursor that comes back: the end, a character without room, or why there is none |
| `Conversion.ReadThrough` | d-mon/dsymbconv.cpp:2189-2248 | for any proper reader, a run with room ends well if and only if the source reads character by character to its end, and then writes those characters |
| `Md5.Md5Context.Init` | def/md5.cpp:69-77 | the context holds the empty message |
| `Md5.Md5Context.Update` | def/md5.cpp:80-108 | a context that holds a message holds it with the input appended: fold over the full blocks, tail in the buffer, bit count modulo 2^64 in two words |
| `Md5.Md5Context.AddCount` | def/md5.cpp:87-90 | the two words with their hand-made carry are eight times the byte count modulo 2^64 |
| `Md5.Md5Context.AppendPadding` | def/md5.cpp:111-125 | after the two calls of MD5Final the context holds the message padded by sections 3.1 and 3.2 of RFC 1321 |
| `Md5.Md5Context.Final` | def/md5.cpp:111-132 | the digest is the little-endian image of the fold over the padded message; the context is wiped |
| `Md5.DigestOfChunks` | def/md5.cpp:69-132 | however a message is cut into calls, the digest is that of the whole message |
| `Md5.PadWhole` | def/md5.cpp:121-125 | the padded message is a whole number of 64-byte blocks |
| `Md5.PadInjective` | def/md5.cpp:111-125 | messages of any length with the same padded form are the same, also where the bit count has wrapped |
| `Md5.PadIsRfc` | def/md5.cpp:111-125 | the padded message as bits: those of the message, a one, the fewest zeros that make the length 448 modulo 512, and the length in bits modulo 2^64, low byte first |
| `Md5.InitialIsRfc` | def/md5.cpp:69-77 | the initial words are, low byte first, 01 23 45 67 89 ab cd ef fe dc ba 98 76 54 32 10, as section 3.3 of RFC 1321 has them |
| `Md5.DigestIsOfBlocks` | def/md5.cpp:111-132 | the digest decodes to the words of the fold over the padded message, which for fewer than 56 bytes is one application of the compression function to the padded block |
| `Md5.BlockLoopEnds` | def/md5.cpp:99-100 | the loop's 32-bit test fails at some turn if and only if buffered and new bytes are fewer than 2^32 |
| `Md5.CountAdds` | def/md5.cpp:88-90 | the carry arithmetic adds the new bits to the 64-bit count |
| `Md5.DecodeInvertsEncode` | def/md5.cpp:223-244 | Decode gives back the words that Encode wrote |
| `Md5.EncodeInvertsDecode` | def/md5.cpp:223-244 | Encode gives back the bytes that Decode read |
| `Md5.Encode` | def/md5.cpp:223-234 | the loop writes the little-endian image and nothing else |
| `Md5.Decode` | def/md5.cpp:237-244 | the loop reads the words of the image |
| `TlvWriter.PrimitiveTlv.Init` | d-mon/dptlv.cpp:107-129 | a child takes the parent's free bytes less the shift, or stays as it was |
| `TlvWriter.PrimitiveTlv.Seek` | d-mon/dptlv.cpp:268-287 | moves over what fits by the 32-bit test, or fails with the error set; the cursor stays within the size |
| `TlvWriter.PrimitiveTlv.SetHeader` | d-mon/dptlv.cpp:245-266 | reserves a header at the cursor, or fails |
| `TlvWriter.RoomTest` | d-mon/dptlv.cpp:276-298 | the 32-bit sum tells what fits if and only if it does not wrap; where it wraps it passes |
| `TlvWriter.PrimitiveTlv.AddWord` | d-mon/dptlv.cpp:312-332 | succeeds by the 32-bit test, writes the image of the word at the cursor and no other byte; where the sum does not wrap, that is an append |
| `TlvWriter.PrimitiveTlv.AddDword` | d-mon/dptlv.cpp:334-354 | the same for four bytes |
| `TlvWriter.PrimitiveTlv.AddBin` | d-mon/dptlv.cpp:356-377 | the same for a byte string of any 32-bit length |
| `TlvWriter.PrimitiveTlv.AddwTwLV` | d-mon/dptlv.h:45-67 | appends the whole record or nothing |
| `TlvNesting.WriteForest` | plib/plib/ClientImpl.cpp:2310-2337 | written ahead and closed from the inside out, trees of any depth append exactly `Lay`, also when adds fail; no byte below the cursor or past the writer's part changes |
| `TlvNesting.WriteNode` | plib/plib/ClientImpl.cpp:2310-2336 | the same for one node with its children |
| `TlvNesting.Close` | plib/plib/ClientImpl.cpp:2334-2336 | tag, length and seek turn what the child laid ahead into one record, its length not truncated |
| `TlvNesting.CloseNone` | plib/plib/ClientImpl.cpp:2334-2336 | what the same three calls leave when there was no room for a child |
| `TlvNesting.Fits` | plib/plib/ClientImpl.cpp:2310-2337 | where the recursive encoding fits, what is laid down is the recursive encoding |
| `TlvEncoding.LayReads` | plib/plib/ClientImpl.cpp:2310-2337 | whatever room there was, what is laid down reads as exactly the records that were kept, in order, with fewer than four bytes after them |
| `TlvEncoding.FoundIffTheyFit` | d-mon/dptlv.h:45-67 | the first n leaves of a list are all found, each with its value, if and only if their records fit together |
| `TlvEncoding.EncodingReads` | d-mon/dttablepoint.h:30-65 | the records of a recursive encoding are its trees, tags, payloads and order, to the last byte |
| `TlvFields.FieldIsCast` | plib/plib/ClientImpl.cpp:2319-2327 | of a string under a 16-bit length a multiple of 65536 bytes is lost, at its end |
| `TlvFields.HeaderReadsBack` | plib/plib/ClientImpl.cpp:4791-4801 | every message is taken for the service, command and request id its header was made of, and its body is what follows |
| `TlvReader.Parse` | d-mon/dttablepoint.h:30-65 | every entry below the table's size becomes the last record of its tag, or stays; lengths of up to four bytes |
| `TlvReader.GetParam` | d-mon/dpointer.h:25-56 | for every width of tag and length, the field of the first head with the tag, believed as the cast length lets it pass, or nothing |
| `TlvReader.SearchIsFirst` | d-mon/dpointer.h:25-56 | with lengths of up to four bytes that is the first complete record with the tag, and the search never leaves the message |
| `TlvReader.CastTest` | d-mon/dpointer.h:41 | the cast length tells whether the value is there if and only if no length of 2^32 or more passes |
| `TlvReader.LeftIsOfCast` | d-mon/dpointer.h:51-52 | once the test is passed, the 32-bit difference counts what is left as if the length were its cast |
| `TlvReader.LongLengthPasses` | d-mon/dpointer.h:36-49 | with lengths of eight bytes, a field of 2^32 + 1 bytes is found in a message with a single byte left |
| `TlvReader.RecordsApart` | d-mon/dttablepoint.h:39-62 | the records of any byte string are in bounds, in order and disjoint |
| `TlvReader.LastIsGreatest` | d-mon/dttablepoint.h:54-58 | the record Parse keeps is the one of greatest index with its tag |
| `TlvReader.FirstIsLeast` | d-mon/dpointer.h:44-49 | the record GetParam finds is the one of least index |
| `TlvReader.ReadersAgree` | d-mon/dpointer.h:25-56 | the two readers agree on a tag if and only if at most one record has it |
| `TlvReader.RecordsOfConcat` | d-mon/dttablepoint.h:39-62 | the records of a ++ b, where a is all records, are those of a and then those of b moved |
| `TlvReader.ParseOfConcat` | d-mon/dttablepoint.h:30-65 | parsing a ++ b is parsing a, overridden by parsing b |
| `Contacts.PutContacts` | plib/plib/ClientImpl.cpp:2301-2337 | the message is the header and what the two-level writing of the contact trees lays down |
| `Contacts.AddContact` | plib/plib/ClientImpl.cpp:2317-2331 | one contact is laid as one node with its present fields as leaves |
| `ContactsReader.ReadContact` | plib/plib/ClientImpl.cpp:6398-6413 | each field is the value of the last record with its tag |
| `ContactsReader.ReadContacts` | plib/plib/ClientImpl.cpp:6373-6434 | the contacts of all complete contact records in order, and the last flag |
| `ContactsReader.ReadMessageBody` | plib/plib/ClientImpl.cpp:6436-6460 | the result code, the contacts of the last contacts record, and their last flag |
| `ContactsReader.SendAndRead` | plib/plib/ClientImpl.cpp:2301-2337 | for every request id, number and list that fits, the message that is sent is read as the same contacts in the same order |
| `ContactsReader.ContactReadsBack` | plib/plib/ClientImpl.cpp:6396-6416 | the encoding of a contact reads back as its four strings, the rest at their defaults |
| `ContactsReader.ContactsRoundTrip` | plib/plib/ClientImpl.cpp:2310-2337 | every list of contacts that fits the message reads back as the same contacts in the same order, beside the own number |
| `ContactsReader.MessageReadsBack` | plib/plib/ClientImpl.cpp:2301-2308 | the message is taken for a list of contacts under its request id |
| `ContactsReader.FieldReadsBack` | plib/plib/ClientImpl.cpp:2319-2327 | a contact is sent with its number and with those of its three names that are not empty, and with nothing else |
| `ContactsReader.FullReadsBack` | plib/plib/ClientImpl.cpp:6396-6416 | a contact with all its eight fields reads back as it is: six strings, the messenger byte, and the index of eight bytes |
| `ContactsReader.ResponseReadsBack` | plib/plib/ClientImpl.cpp:6373-6470 | a response with any result, any list of contacts with all their fields and any flag is read as that result, that list in that order and that flag |
| `ContactsReader.EachIsCollected` | plib/plib/ClientImpl.cpp:6392-6420 | whatever other records stand between them, every contact record gives one contact, in the order of the records |
| `ContactsReader.FlagIsLast` | plib/plib/ClientImpl.cpp:6421-6427 | the flag is that of the last flag record that is not empty, or what it was before |
| `ContactsReader.KeptIsPlain` | plib/plib/ClientImpl.cpp:2321-2327 | a contact's strings survive unchanged if and only if each is shorter than 65536 bytes |
| `Queue.MutualExclusion` | plib/utils/SpinLock.h:42-61 | in every interleaving at most one thread is between try_lock and unlock |
| `Queue.Fifo` | plib/utils/MpscPollableQueue.h:20-62 | in every reachable state everything pushed is what was read, then what is unread, then what the writers' vector holds; what was read is the beginning of what was pushed |
| `Queue.ProgramOrder` | plib/utils/MpscPollableQueue.h:53-62 | each writer's values are pushed in the order of its calls, each once |
| `Queue.CountsAreSafe` | plib/plib/ClientImpl.cpp:4422-4441 | the cached count of either reading loop never lets reader_get_unsafe run past the vector |
| `Queue.EmptyMeansAllRead` | plib/utils/MpscPollableQueue.h:29-35 | when the reader is told that nothing is there, all that was pushed has been read |
| `Queue.FlagMeansEmpty` | plib/utils/MpscPollableQueue.h:30-35 | no value waits unannounced: while the lock is free, wait_event_fd_ is set only over an empty vector |
| `Queue.FlagUntilPush` | plib/utils/MpscPollableQueue.h:53-62 | a reader that was told of nothing keeps wait_event_fd_ set until something is pushed |
| `Queue.LeftAlone` | plib/plib/ClientImpl.cpp:175-196 | from every sound state with the lock free the reader alone reads everything pushed |
| `Queue.PutAlone` | plib/utils/MpscPollableQueue.h:53-62 | the steps of one uninterrupted writer_put come to one append |
| `Queue.MpscPollableQueue.WriterPut` | plib/utils/MpscPollableQueue.h:53-62 | the sequential method does what those steps come to |
| `Queue.WaitAlone` | plib/utils/MpscPollableQueue.h:20-44 | the steps of one uninterrupted reader_wait_nonblock come to `Waited` |
| `Queue.MpscPollableQueue.ReaderWaitNonblock` | plib/utils/MpscPollableQueue.h:20-44 | the sequential method does what those steps come to, and returns the count |
| `Queue.MpscPollableQueue.ReaderGetUnsafe` | plib/utils/MpscPollableQueue.h:45-48 | the value at the position, and the position moved |
| `Session.RunSafe` | plib/plib/ClientImpl.cpp:4582-4747 | over all runs: off implies offline, wait_disconnect, open, need_req or need_auth; on implies neither offline nor wait_disconnect |
| `Session.OnlineIsEarned` | plib/plib/ClientImpl.cpp:5301-5426 | online is entered only while on, by an ok response in its own wait state; the last request was then made of the latest challenge, or of a code the application gave, and its bytes carry that if and only if it fits |
| `Session.ChallengeIsFresh` | plib/plib/ClientImpl.cpp:4655-4667 | in every reachable wait_reg_auth the last request was made of the stored challenge, which is that of the latest unauthorized response; its bytes carry the challenge if and only if it fits, and the digest over it if and only if that does |
| `Session.LongRealmIsDropped` | plib/plib/ClientImpl.cpp:576-602 | with a number of one byte and a realm of 4076 no realm is found in the request that goes out, and an ok response takes the client online |
| `Registrar.ChallengeIsCarriedIff` | plib/plib/ClientImpl.cpp:506-600 | what GenRegisterAuth sends reads back as realm, nonce and opaque if and only if their records fit the 4096-byte buffer with the number and perhaps the uid |
| `Registrar.AnswerIsCarriedIff` | plib/plib/ClientImpl.cpp:576-600 | it carries URI, algorithm and the digest besides if and only if all of that fits |
| `Registrar.RealmIsSentIff` | plib/plib/ClientImpl.cpp:576-578 | a realm is found in it, as the 16-bit length let it through, if and only if its record fits, and otherwise none |
| `Registrar.CodeIsCarriedIff` | plib/plib/ClientImpl.cpp:419-465 | what GenRegisterNewReg sends carries the code if and only if it fits |
| `Registrar.NumberIsCarriedIff` | plib/plib/ClientImpl.cpp:389-416 | each of the three requests carries the number if and only if its record fits the buffer alone |
| `Registrar.UidsAreSentIff` | plib/plib/ClientImpl.cpp:419-441 | the uid goes with every registration and with the answer to a challenge that asked for it, the device id with a registration alone; each is found if and only if its record fits |
| `Registrar.InfoIsSentIff` | plib/plib/ClientImpl.cpp:444-456 | all that a request is to say inside reg_info, the user agent with its type, version and client among it, is found there, and nothing of what it is not to say, if and only if all the records fit |
| `Registrar.WireIsRead` | plib/plib/ClientImpl.cpp:389-408 | the bytes are taken for the request that they are, under its id |
| `Registrar.Build` | plib/plib/ClientImpl.cpp:389-598 | the calls of the three functions lay down the bytes these lemmas speak of, header and all |
| `Registrar.GenMD5` | plib/plib/ClientImpl.cpp:471-504 | three digests, the last over the hexadecimal forms of the others with the nonce between them; what their texts say is `Registrar.SecretParts`, `Registrar.MethodParts` and `Registrar.AnswerParts` |
| `Registrar.TextIsCast` | plib/plib/ClientImpl.cpp:485-503 | of a text under a 32-bit length a multiple of 2^32 bytes is lost, at its end |
| `Registrar.HexReadsBack` | d-mon/dstr.cpp:42-60 | any bytes read back from their lower-case hexadecimal digits, the high digit first |
| `Registrar.SecretParts` | plib/plib/ClientImpl.cpp:482 | read at its colons the first text gives number, realm and uid, where number and realm have no colon |
| `Registrar.MethodParts` | plib/plib/ClientImpl.cpp:479-483 | the second text is REGISTER and the URI, which is sips, the host and its parameters, whatever the host |
| `Registrar.AnswerParts` | plib/plib/ClientImpl.cpp:493-503 | the third text is the hexadecimal first digest up to a colon, the whole nonce, a colon, and the hexadecimal second digest; the answer denotes the digest of that |
| `Session.CodesAreSentOnce` | plib/plib/ClientImpl.cpp:4640-4654 | over all runs the codes sent, and the one still held, are codes the application gave, in the order it gave them, each once |
| `SessionHistory.OpensOverSocket` | plib/plib/ClientImpl.cpp:4593-4622 | over all runs, in connect and wait_open the last event of the socket was that it connected |
| `SessionHistory.FieldsAreHistory` | plib/plib/ClientImpl.cpp:609-736 | in every reachable state the switch, the id, the subscriber, the code, the challenges and the uid flag are what the events so far have last made them |
| `SessionHistory.RequestsAreCurrent` | plib/plib/ClientImpl.cpp:4623-4667 | a request is sent by exactly the passes that are to send one, and is made of the id, subscriber, code and challenge last given |
| `SessionHistory.PhaseIsHistory` | plib/plib/ClientImpl.cpp:4581-4789 | the phase is the one into which the last event that leads into any has led |
| `SessionHistory.StepLeads` | plib/plib/ClientImpl.cpp:4581-4789 | each phase is entered by its own causes, as these are listed by phase, and by nothing else |
| `SessionHistory.WaitIsBegun` | plib/plib/ClientImpl.cpp:4593-4667 | every wait was begun by a pass that had the socket and a successful call (or was in open), and is timed from that pass |
| `SessionHistory.GivenUpIsRetried` | plib/plib/ClientImpl.cpp:4669-4692 | a wait is given up only when timed out, and back into the phase in which it was begun, or into open from need_req and need_auth |
| `SessionHistory.IndicationsAreDue` | plib/plib/ClientImpl.cpp:609-736 | every step tells the application exactly what is due: one answer to each request under its own id, Online_Rsp on coming online, the status of the phase it leads to, and the demand for a code |
| `Session.StepAgrees` | plib/plib/ClientImpl.cpp:4581-4789 | a step keeps the last status told equal to the phase if and only if it is not an unannounced one |
| `Session.StatusRefinesPhase` | plib/plib/ClientImpl.cpp:5250-5426 | the statuses told agree with the phase throughout a run if and only if the run has no unannounced step |
| `Session.LateOkIsUnannounced` | plib/plib/ClientImpl.cpp:5342-5345 | a run that goes online and then to open by a second ok response, the application still believing it is online |
| `Session.OnlineObeyedIff` | plib/plib/ClientImpl.cpp:651-675 | a client that is off and has a number obeys Online_Req unless it is in open, need_req or need_auth, where nothing at all happens |
| `Session.OffCanBeOpen` | plib/plib/ClientImpl.cpp:5290-5295 | a run that reaches such a state |
| `Session.WaitsAreGivenUp` | plib/plib/ClientImpl.cpp:4669-4692 | no wait state outlives by ten seconds the pass that entered it and then another pass, when passes are less than 2^31 - 10000 ms apart |
| `Session.NoneIsGivenUpEarly` | plib/plib/ClientImpl.cpp:4669-4692 | no pass gives up a wait state before its ten seconds are over |
| `SessionClient.Client.Procc` | plib/plib/ClientImpl.cpp:4581-4700 | a pass on the fields takes the machine's Pass step |
| `SessionClient.Client.OnRequestOnline` | plib/plib/ClientImpl.cpp:647-676 | takes the OnlineReq step |
| `SessionClient.Client.RequestOffline` | plib/plib/ClientImpl.cpp:678-701 | switches off, and reports whether the socket command succeeded |
| `SessionClient.Client.OnRequestOffline` | plib/plib/ClientImpl.cpp:703-720 | takes the OfflineReq step |
| `SessionClient.Client.OnRegistrationRequiredCnf` | plib/plib/ClientImpl.cpp:722-736 | takes the RegistrationCnf step |
| `SessionClient.Client.OnSetSubscriberInfo` | plib/plib/ClientImpl.cpp:609-644 | takes the SetSubscriber step |
| `SessionClient.Client.OnConnect` | plib/plib/ClientImpl.cpp:4722-4731 | takes the SocketConnected step |
| `SessionClient.Client.OnDisconnect` | plib/plib/ClientImpl.cpp:4733-4747 | takes the SocketClosed step |
| `SessionClient.Client.StrStream` | plib/plib/ClientImpl.cpp:4749-4789 | takes the Text step |
| `SessionClient.Client.OnRegister` | plib/plib/ClientImpl.cpp:5271-5298 | takes the InitRsp step |
| `SessionClient.Client.OnRegisterAuth` | plib/plib/ClientImpl.cpp:5322-5363 | takes the AuthRsp step |
| `SessionClient.Client.OnRegisterReg` | plib/plib/ClientImpl.cpp:5384-5426 | takes the RegRsp step |
| `SessionClient.Client.OnLogoutRsp` | plib/plib/ClientImpl.cpp:5429-5476 | takes the LogoutAnswer step |
| `Timers.TimerTable.StartTimer` | plib/plib/ClientImpl.cpp:285-299 | takes the start step: queued always, pending only if the id is not pending already |
| `Timers.TimerTable.TestTimers` | plib/plib/ClientImpl.cpp:4538-4567 | the loop takes the test step, with exactly the responses of its timeouts |
| `Timers.TimerTable.Erase` | plib/plib/ClientImpl.cpp:5181-5186 | takes the answer step |
| `Timers.TimerTable.OnTimer` | plib/plib/ClientImpl.cpp:4443-4536 | answers the commands that have a CASE, and is silent for Ping and TestMsg |
| `Timers.SilentCommands` | plib/plib/ClientImpl.cpp:4460-4534 | of the numbered requests that start a timer exactly Ping (9) and TestMsg (11) have no CASE |
| `Timers.EachIsAnswered` | plib/plib/ClientImpl.cpp:4453-4462 | there are as many responses as timeouts of commands with a CASE, and each of those is answered in its turn, under its id and command |
| `Timers.TestPops` | plib/plib/ClientImpl.cpp:4544-4564 | a test pops exactly the expired entries: none hides behind the first young one |
| `Timers.TestTimesOut` | plib/plib/ClientImpl.cpp:4544-4564 | a test ends exactly the pending requests with an expired entry, and leaves the others as they are |
| `Timers.TestFires` | plib/plib/ClientImpl.cpp:4553-4560 | every timeout is of a request that was pending, by an entry that has expired |
| `Timers.FirstStartCounts` | plib/plib/ClientImpl.cpp:285-299 | over every run a pending request has the command and the time of the start that made its id pending, whatever starts of the id came since |
| `Timers.EarlyIffReused` | plib/plib/ClientImpl.cpp:4544-4564 | from now on some test ends a pending request before its 15 s are over if and only if they are not over yet and an older entry of its id is queued |
| `Timers.RunEarlyIff` | plib/plib/ClientImpl.cpp:4538-4567 | the same in every state of a timed run |
| `Timers.ReuseFiresEarly` | plib/plib/ClientImpl.cpp:285-299 | an id answered and started again times out after 5 s |
| `Timers.RunSound` | plib/plib/ClientImpl.cpp:4538-4567 | over every timed run pending ids are among the queued ids, the queue is in time order, none of its entries had expired at the last test (so no 32-bit age wraps), and every timeout came of an expired entry |
| `Timers.TestedRequestsAreYoung` | plib/plib/ClientImpl.cpp:4538-4567 | completeness: after a test no pending request is 15 s old |
| `Timers.TimeoutsAreTrue` | plib/plib/ClientImpl.cpp:4538-4567 | soundness: where no id is started while an entry of it is queued, no request times out before 15000 ms |
| `Timers.StartsEndOnce` | plib/plib/ClientImpl.cpp:5181-5186 | over every run each request that became pending is pending, answered once or timed out once, and only one of these |
| `Timers.NoTimeoutAfterAnswer` | plib/plib/ClientImpl.cpp:5181-5186 | after an answer no timeout of the id until it is started again |
| `Timers.TimesOutIffUnanswered` | plib/plib/ClientImpl.cpp:4538-4567 | the first test after its 15 s times a request out if and only if no answer came since StartTimer |
| `Timers.EarlyAnswerIsForgotten` | plib/plib/ClientImpl.cpp:773-779 | answered between its sending and StartTimer, a request times out all the same |
| `Clock.StoreMonotone` | d-mon/dmain.h:67-98 | over all interleavings within a window of 2^31 ticks the store never moves back |
| `Clock.ResultsAreCurrent` | d-mon/dmain.h:74-98 | each result was in the store during its call and is no earlier than the store at the call's first load |
| `Clock.CallsAreMonotone` | d-mon/dmain.h:74-98 | a call that begins after another returned yields no earlier time |
| `Clock.NeverBelowRaw` | d-mon/dmain.h:70-86 | every call that returned began with a sample, a load and turns of its own thread, in that order, and returned no less than the raw time of that sample |
| `Clock.ResultsAreTimes` | d-mon/dmain.h:74-98 | no call makes a time up: it returns what the store began with or a raw time that was sampled |
| `Clock.FailureIsProgress` | d-mon/dmain.h:77-84 | a compare-exchange that fails, and not spuriously, fails because the store has moved forward |
| `Clock.DifferenceIsOrder` | d-mon/dmain.h:77 | inside a window the signed 32-bit difference is the difference of the ages |
| `Clock.CallAlone` | d-mon/dmain.h:67-98 | the steps of one uninterrupted call, whatever fails spuriously, store and return the later of the raw and the stored time |
| `Clock.TimeStore.GetTickCount` | d-mon/dmain.h:67-98 | alone, the loop stores and returns the later of the two times, whatever fails spuriously |
| `Gsm.ConvertAsciiToGsm` | d-mon/dsymbconv.cpp:1854-1894 | writes the encoding of the longest beginning of the text there is room for, so no escape pair is split, and nothing after it |
| `Gsm.ConvertGsmToAscii` | d-mon/dsymbconv.cpp:1908-1937 | writes as much of the decoded text as there is room for |
| `Gsm.ConvertSymbol` | d-mon/dsymbconv.cpp:1807-1852 | one whole code or nothing |
| `Gsm.DecodeOfEncode` | d-mon/dsymbconv.cpp:430-958 | decoding an encoding gives every character's image, a question mark for ASCII outside the alphabet |
| `Gsm.RoundTripIff` | d-mon/dsymbconv.cpp:1807-1937 | for every byte string the round trip returns it if and only if it is over LF, CR and 0x20 to 0x7e without the backquote |
| `Gsm.EncodesAsStandard` | d-mon/dsymbconv.cpp:430-693 | an ASCII character is given the septets that section 6.2.1 of 3GPP TS 23.038 has for it if and only if it is LF, CR or 0x20 to 0x7e without the backquote |
| `Gsm.DecodesAsStandard` | d-mon/dsymbconv.cpp:695-826 | every septet but the escape gives the standard's character where that is ASCII and a question mark where not, if and only if it is not 0x5b, which gives 0x28 |
| `Gsm.DecodesExtension` | d-mon/dsymbconv.cpp:828-958 | after an escape the printable ASCII characters of the standard's extension table come back |
| `Gsm.NoExtension` | d-mon/dsymbconv.cpp:828-958 | after an escape every other septet gives a question mark |
| `Gsm.ShortEncodingDecodes` | d-mon/dsymbconv.cpp:1854-1937 | what was encoded into any room decodes to a beginning of the text |
| `Numerals.PrintDword` | d-mon/dstr.cpp:546-598 | the digits of every dword fit the 12-byte buffer; the padded canonical numeral, its spaces and a NUL are written, and the result is the length in one byte |
| `Numerals.PrintQword` | d-mon/dstr.cpp:601-651 | the same for every qword and 22 bytes |
| `Numerals.DwordRoundTrip` | d-mon/dstr.cpp:2030-2059 | every dword that is printed is read as itself, wholly consumed |
| `Numerals.QwordRoundTrip` | d-mon/dstr.cpp:2061-2090 | every qword likewise |
| `Numerals.PaddedOnTheLeft` | d-mon/dstr.cpp:572-590 | the numeral stands at the right of what is printed, the symbol before it as often as the count demands |
| `Numerals.ZeroPaddedReads` | d-mon/dstr.cpp:2030-2092 | every number printed with leading zeros reads back as itself, zeros and all |
| `Numerals.NumeralIsCanonical` | d-mon/dstr.cpp:559-570 | every digit string without a leading zero is what is printed for its value |
| `Numerals.NumeralReads` | d-mon/dstr.cpp:2030-2092 | every number below 2^32 (2^64) reads back from its numeral, wholly consumed |
| `Numerals.GetDecimal` | d-mon/dstr.cpp:2030-2092 | the loop with its guard and its wrapping arithmetic computes `Decimal` |
| `Numerals.AcceptedIsCongruent` | d-mon/dstr.cpp:2043-2055 | what is accepted is right modulo 2^32 (2^64) |
| `Numerals.ExactIff` | d-mon/dstr.cpp:2043-2055 | what is accepted is exact if and only if no beginning denotes one of the four numbers from 2^32 (2^64) on |
| `Numerals.SmallIsExact` | d-mon/dstr.cpp:2043-2055 | a numeral below 2^32 (2^64) is accepted and exact |
| `Numerals.ModulusReadsAsZero` | d-mon/dstr.cpp:2050-2053 | 4294967296 is accepted and read as 0 |
| `Addresses.IpToText` | d-mon/dstr.cpp:2718-2782 | succeeds if and only if the text and a NUL fit, and has then written them |
| `Addresses.PortToText` | d-mon/dstr.cpp:2799-2818 | the same for a colon and the port |
| `Addresses.IpPortToText` | d-mon/dstr.cpp:2820-2840 | succeeds if and only if max_len is at least the text's length + 1 |
| `Addresses.AddressRoundTrip` | d-mon/dstr.cpp:3219-3231 | for every ip and port the printed text reads back as the same ip and port, wholly consumed, whatever follows that is not a digit |
| `Addresses.OctetExactIff` | d-mon/dstr.cpp:2876-2915 | an accepted octet is what is written if and only if no beginning of its digits wraps |
| `Addresses.OctetHasForm` | d-mon/dstr.cpp:2876-2915 | an accepted octet is digits between bytes that cannot be seen, up to the end it was asked for, and its value is theirs modulo 2^32, at most 255 |
| `Addresses.OctetOfForm` | d-mon/dstr.cpp:2876-2915 | everything of that form and of a value up to 255 is accepted as it is if it has that end, and otherwise rejected |
| `Addresses.PortHasForm` | d-mon/dstr.cpp:3178-3217 | an accepted port is a colon, blanks or tabs and digits, and its value is theirs modulo 2^32, at most 65535 |
| `Addresses.PortOfForm` | d-mon/dstr.cpp:3178-3217 | everything of that form and of a value up to 65535 is accepted as it is |
| `Addresses.AcceptedIsAddress` | d-mon/dstr.cpp:3069-3231 | what is accepted has the form of an address: four octets in a row with dots, then colon and port; the first octet has the highest value |
| `Addresses.OctetConsumedIff` | d-mon/dstr.cpp:2881-2888 | the reported length is how far the reader moved if and only if nothing was skipped before the digits |
| `Addresses.AddressConsumedIff` | d-mon/dstr.cpp:3219-3231 | the length of an accepted address is how far the reader moved if and only if every octet begins with a digit where its reader stands |
| `Addresses.AddressWithinIff` | d-mon/dstr.cpp:3178-3231 | an accepted address is read within its limit if and only if the bytes skipped before octets, and the blanks and digits after the colon, are fewer than what the octets left of it; its length stays within the limit if and only if those after the colon do |
| `Addresses.IpMoves` | d-mon/dstr.cpp:3069-3125 | the four octets move the reader as far as their length says and as far as they skipped, and they skipped nothing if and only if each begins with a digit where its reader stands |
| `Addresses.BlankReadsPast` | d-mon/dstr.cpp:2881-2888 | with one blank before it every address is read one byte past a limit of its length, which is the length reported |
| `Addresses.PortReadsPast` | d-mon/dstr.cpp:3191-3205 | a colon, two blanks and a digit are accepted with a limit of 3: the reader moves 4 bytes and reports 4 |
| `Addresses.ParseOctet` | d-mon/dstr.cpp:2876-2915 | the three loops compute `OctetAt` |
| `Addresses.ParseIp` | d-mon/dstr.cpp:3080-3125 | the four octets and their dots compute `IpAt` |
| `Addresses.ParsePort` | d-mon/dstr.cpp:3178-3217 | computes `PortAt` |
| `Addresses.ParseAddress` | d-mon/dstr.cpp:3219-3231 | computes `AddressAt` |

## Left out

- Md5.Md5Context.Update: demands that buffered and new bytes are fewer than 2^32 together; beyond that the block loop does not end (`Md5.BlockLoopEnds`), so there is no result to state.
- TlvReader.Parse: demands lengths of up to four bytes, as all tables of the original have. The results on records hold for every width.
- TlvReader.GetParam: demands that the search does not step out of the message, which lengths of up to four bytes never make it do (`TlvReader.SearchIsFirst`) and one of eight bytes can; what it would read there is not modelled.
- TlvWriter.PrimitiveTlv.AddWord: demands that the bytes it writes are memory, where a wrapped sum takes them past the writer's own part; AddDword and AddBin do the same.
- Timers.EarlyIffReused: demands that no entry is so old that its 32-bit age would wrap before the request's 15 seconds are over; `Timers.RunEarlyIff` shows it for runs whose last test is less than 2^32 - 30000 ms ago.
- UtfConverters.ConvertUtf16ToUtf8: strict mode only; no caller asks for lenient conversion. Cursors are indices, and null pointers have no counterpart.
- Clock.StoreMonotone: all times lie within one window of 2^31 ticks, without which the signed difference is no order.
- Session.WaitsAreGivenUp: passes are less than 2^31 - 10000 ms apart; the 32-bit subtraction of ticks is taken to wrap.
- Timers.RunSound: tests are less than 2^32 - 15000 ms apart, without which 32-bit ages mean nothing.
- Queue.MpscPollableQueue.ReaderWaitNonblock: counts are unbounded; the original narrows them to int.
- The compression function of MD5 is any function of state and block; its 64 steps are not modelled, so the digests are those of that function.
- A little-endian host is assumed throughout, as the original's casts do; bit operations are written as the sums and remainders they compute.
- Socket, string, binary and log callbacks: each is a boolean result and, where something is sent, an entry in a log. Sleeping and real threads are not modelled.
- The decoding of registrar responses: they enter the session machine as result, flag and challenge. Strings of any length are allowed there, and the 16-bit and 32-bit casts of lengths are those of the senders.
- Session handlers are atomic steps: interleavings inside a handler, on fields the original shares without a lock, are not modelled.
- The other request handlers and response decoders of ClientImpl.cpp, near copies of one another, add only easy members.
- Timers.TimerTable.TestTimers: the clock of one test is read once, and OnTimer's responses go to a log.
- Memory ordering: accesses to shared memory are sequentially consistent steps.
- The in-place setters of dptlv.cpp and the other record layouts, the hexadecimal numerals and the swapped-order variants.
- The win1251 and ISO 8859-5 tables, finite lookups.
- DPString formatting and trimming.
