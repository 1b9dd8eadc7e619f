# Verified models of APE

APE is a push server in C. This project models, in Dafny, the parts of it and of the code it ships that work on state
with hard invariants, and proves what they promise:

- `Words.dfy`, `Bigint.dfy`: the integer arithmetic of `dtoa.c` on arrays of 32-bit words, up to the exact quotient
  digit of `quorem`, the cached powers of five and the digit loop.
- `JsonTable.dfy` to `JsonReadBack.dfy`: the JSON automaton, the tree of pointers that its callback builds, the
  printer, the functions that make trees, and the round trip between them. The language is given as syntax trees
  (`JsonGrammar.dfy`) and the automaton accepts exactly that language. `JsonForest.dfy` and `JsonProperty.dfy` hold
  the constructors, `JsonReadBack.dfy` the way from a tree that was made to the tree that is read, and `JsonRfc.dfy`
  compares the language with RFC 8259. `JsonUnicode.dfy` reads UTF-8 and escapes independently, and `JsonLiteral.dfy`
  says what digits, limits, marks and nodes are in plain numbers and characters.
- `DnsQuery.dfy`, `DnsRule.dfy`, `DnsResolver.dfy`: the queries of the stub resolver, with a measure that bounds the
  sends of a query, and the rules for replies and turns written out.
- `DnsName.dfy`, `DnsText.dfy`, `DnsPacket.dfy`: domain names on the wire, as text and compressed in packets.
- `Sha1Spec.dfy`, `Sha1.dfy`, `Sha1Vector.dfy`: SHA-1 by RFC 3174, the streaming code against it, and the first test
  digest of the standard.
- `WebSocketFrame.dfy`, `WebSocket.dfy`: the frames of a client by RFC 6455, and the byte-driven parser.
- `RawPool.dfy`, `RawQueue.dfy`, `RawFlush.dfy`, `RawUsers.dfy`: messages shared by reference count between the queues
  of subusers; every message sits in exactly max(1, refcount) slots.
- `Ticks.dfy`: timers in a list of differences, as a map from timer to remaining ticks.
- `Hash.dfy`: the chained table with its doubly linked list, as a map keyed by case-folded strings.
- `Sock.dfy`: the output queue of a socket. `Base64.dfy`: the coding of RFC 4648.
- `Options.dfy`, `Bytes.dfy`: what several of these share.

Code that works on objects and buffers is a class with the fields of the source, or a method over arrays, and its
contracts tie the new state to functions of the old one. The predicates `Valid` hold the invariants of all runs. What
the kernel or the network decides (`write`, `sendto`, replies, reads, the clock) is nondeterministic or a parameter.

## Where the code falls short

Some promises hold only under a condition, which the model states exactly:

- A tree is read back from its printed text only under the conditions of `JsonExact.ReadBackExactly`: a parsed `true`
  holds 1 and is printed as that number, empty containers are printed as `0`, keys are printed without escapes, and
  the printer's escape of a single quote is refused by the parser.
- `dns_getdn` stays within a buffer of the size it was given if and only if the labels do not fill that size
  (`DnsPackets.GetDn`, `DnsPackets.WithinSize`); otherwise it writes one byte behind it (`DnsPackets.OnePastTheEnd`):
  its test for the terminating zero looks at the start of the buffer, not at the position.
- A message that was posted without a copy must not be posted again before its count is repaired
  (`RawQueues.PostKeeps`, `RawQueues.CopyKeeps`): otherwise it is freed while a slot still holds it
  (`RawQueues.Hub.FreeSlot`, `RawQueues.Hub.PostTwice`). The repair in `addsubuser` gives it a count
  (`RawUsers.Repair`).
- `sendbin` without data but with the wish to shut down does so although bytes are queued (`Socks.BufOut.SendBin`).
- The language of the table is not RFC 8259. An accepted text that is not blank is a JSON text if and only if no
  number in it has a point without digits behind it (`JsonRfc.AcceptedIsRfc`). A JSON text is accepted if and only if
  it is a container nested at most 15 deep, of ASCII, whose escapes of surrogates are pairs, without an exponent right
  behind a bare zero (`JsonRfc.RfcIsAccepted`).

## Model

| member | source | states |
|---|---|---|
| Words.ValFirstDifference | deps/js/src/dtoa.c:1027-1059 | the higher word that differs decides the order of two numbers of the same length, which is why the loop of cmp may stop there |
| Bigints.MultAdd | deps/js/src/dtoa.c:607-662 | the value becomes exactly b*m+a; at most one word is added, the sign stays, and a number without leading zero words stays one when m >= 1 |
| Bigints.AddMultiple | deps/js/src/dtoa.c:840-854 | the inner loop of mult, with its double-word carry: it adds y * a * 2^(32j) to c, and the words behind do not change |
| Bigints.Mult | deps/js/src/dtoa.c:800-908 | the product in a fresh number whose top word is not zero; zero is the number without words |
| Bigints.PowersOfFive.Extend | deps/js/src/dtoa.c:910-965 | the cached chain keeps holding 5^4, 5^8, 5^16 and so on, however far it is extended, and never loses an entry |
| Bigints.ChainMult | deps/js/src/dtoa.c:932-965 | the loop over the binary digits of k multiplies by exactly 5^(4k) |
| Bigints.Pow5Mult | deps/js/src/dtoa.c:910-965 | the value becomes b * 5^k for every k, without leading zero words if b had none, as quorem and cmp need it |
| Bigints.LShift | deps/js/src/dtoa.c:967-1025 | b * 2^k for every k, without leading zero words if b had none |
| Bigints.Cmp | deps/js/src/dtoa.c:1027-1059 | the sign of the result is the sign of a - b |
| Bigints.Diff | deps/js/src/dtoa.c:1061-1153 | the absolute difference, trimmed, with sign 1 exactly when a < b |
| Bigints.Hi0Bits | deps/js/src/dtoa.c:702-735 | 32 for zero, otherwise the shift that brings the highest bit of the word to the top |
| Bigints.QuotientEstimate | deps/js/src/dtoa.c:2347-2385 | the estimate from the top words alone is never above the quotient, at most one below it, and at most 9 |
| Bigints.QuoRem | deps/js/src/dtoa.c:2347-2463 | for b < 10 * S and the top word of S in [2^27, 2^28): the result is floor(b / S), and b is left as the remainder, trimmed |
| Bigints.PrepareDivision | deps/js/src/dtoa.c:3034-3063 | the common shift keeps the quotient and makes every S a divisor that quorem accepts |
| Bigints.GenerateDigits | deps/js/src/dtoa.c:3187-3199 | b * 10^(n-1) = digits * S + rest with rest < S: the n digits are the leading decimal digits of b / S, fewer than asked for only when nothing is left |
| JsonParsers.ActionSources | src/json_parser.c:266-311 | every action of the transition table occurs only in the states and for the characters that its code relies on |
| JsonInvariants.InvStart | src/json_parser.c:446-486 | the reset parser satisfies the invariant that ties state, stack, type and buffer together |
| JsonInvariants.InvStep | src/json_parser.c:788-1110 | every accepted character keeps that invariant, in every state and for every class of character |
| JsonParsers.AssertionsHold | src/json_parser.c:367-640 | on every invariant state and character, the assertions of the source on types, modes, escapes and buffer contents hold for the entry that is taken, and no null pointer is followed |
| JsonParsers.JsonParser.AddEscapedChar | src/json_parser.c:717-758 | after the backslash has been taken out, the two characters of a unicode escape fit into the space reserved for one, and every other escape becomes the character it stands for |
| JsonParsers.JsonParser.AddChar | src/json_parser.c:760-779 | with the buffer of 3500 characters that doubles, the space assertions hold and the buffer is what the pure step says |
| JsonParsers.JsonParser.DecodeUnicodeChar | src/json_parser.c:645-715 | the four digits become UTF-8 bytes in the space that is there; a high half is kept, and the low half after it gives four bytes that hold 0x10000 and the ten bits of each; single halves are refused |
| JsonParsers.JsonParser.Char | src/json_parser.c:788-1110 | the imperative step does what the pure automaton does on all fields, stack and tree, and keeps the invariant and the source's assertions |
| JsonParsers.JsonParser.Finish | src/json_parser.c:1111-1121 | the end of the text is accepted exactly when one container has been closed, or nothing but blanks was read |
| JsonSound.TakeDoc | src/json_parser.c:266-311 | soundness of the table: every accepted text is the text of a syntax tree of the grammar, which the lemma finds |
| JsonSound.ParsesExactly | src/json_parser.c:788-1121 | the automaton accepts exactly the texts of the grammar, blank or one container nested at most 15 deep, and its callback events are those of the text's meaning |
| JsonRfc.UniqueText | src/json_parser.c:266-311 | a text has at most one syntax tree in the grammar of RFC 8259, also when points without digits are allowed |
| JsonRfc.AcceptedIsRfc | src/json_parser.c:266-311 | an accepted text that is not blank is a text of RFC 8259 if and only if no number in it has a point without digits behind it |
| JsonRfc.RfcIsAccepted | src/json_parser.c:266-311 | a text of RFC 8259 is accepted if and only if it is a container, nested at most 15 deep, of ASCII, with escapes of surrogates in pairs only and no exponent right behind a bare zero |
| JsonRfc.EmptyFraction | src/json_parser.c:308 | `[1.]` is accepted and is no text of RFC 8259 |
| JsonRfc.BareZero | src/json_parser.c:289 | `[0e1]` is a text of RFC 8259 and is refused |
| JsonRfc.NotAscii | src/json_parser.c:282 | so is a string with a character above 127 |
| JsonRfc.SingleSurrogate | src/json_parser.c:648-715 | so is a string with an escape of a single surrogate |
| JsonRfc.TopLevel | src/json_parser.c:275 | so is the number 1 on its own; the empty text is accepted and is none |
| JsonContexts.JsonContext.Callback | src/json.c:707-825 | the pointer code that links child, next and father does to the heap what the pure callback does to node records, with no other node changed |
| JsonLayout.FoldRoot | src/json.c:707-825 | the events of any container, fed to json_callback, build a tree of pointers that represents it, and no other node |
| JsonLayout.RepUnique | src/json.c:707-825 | a structure of pointers represents at most one tree |
| JsonParsers.InitJsonParser | src/json.c:827-864 | for every text without zero bytes: a root is returned exactly for a container of the grammar, and its pointers represent the parse tree of the text |
| JsonUnicode.Utf8Back | src/json_parser.c:689-712 | the bytes of every code point are read back as it by the table of section 3 of RFC 3629 |
| JsonUnicode.PairBits | src/json_parser.c:645 | the bytes of a pair of surrogates hold 0x10000 and the ten low bits of each |
| JsonUnicode.HexBack | src/json_parser.c:657-673 | four digits of either case are read as the number that they write |
| JsonUnicode.LetterMeans | src/json_parser.c:717-758 | the escapes of one letter are the eight of section 7 of RFC 8259, with their characters |
| JsonReadBack.ReadCodePoint | src/json.c:827-864 | from text to tree, for every code point but the surrogates: its escape, or pair of escapes, is read as bytes that an independent decoder maps back to it |
| JsonLiterals.NaturalIs | src/json_parser.c:623 | every digit counts for the power of ten of its place |
| JsonLiterals.NestedAccepted | src/json.c:838 | n opening and n closing brackets are accepted if and only if n is at most 15 |
| JsonLiterals.HoldsIs | src/json.c:707-825 | the fields of a node that stands for a tree, kind by kind |
| JsonLiterals.EscapeCharIs | src/json.c:194-240 | the printer puts a backslash and a letter for eight characters, and writes the others as they are |
| JsonLiterals.PrintedObject | src/json.c:242-355 | nothing is written between keys, values and marks |
| JsonPrinters.Itos | src/utils.c:58-79 | the digits of the number, with its sign, end just before the zero at the end of the buffer |
| JsonPrinters.EvaluateStringSize | src/json.c:171-192 | the foreseen size is that of the tree that the pointers represent |
| JsonPrint.TextFits | src/json.c:171-355 | the text of any tree never exceeds twice the foreseen size, with room for the terminating zero |
| JsonPrinters.WriteList | src/json.c:242-355 | the recursive loop appends exactly the text of the siblings and all below them, and never leaves the buffer |
| JsonPrinters.ToString | src/json.c:242-355 | the whole text of a tree is written into the buffer that was sized for it, and terminated |
| JsonRoundTrip.PrintThenParse | src/json.c:242-355 | the printed text of a printable tree is accepted, and is read as that tree with true nodes that hold 1 read as the number 1 |
| JsonRoundTrip.RereadSame | src/json.c:296-317 | what is read back is the same tree if and only if true nodes hold 0, as the constructors leave them, or there are none |
| JsonExact.SameEvents | src/json.c:707-825 | two trees have the same events exactly when they are equal, so that the events decide which tree was read |
| JsonRefused.TreeRefused | src/json_parser.c:717-758 | the parser refuses the text of every tree with a string character that it does not take back or with too deep nesting, wherever in the tree that is |
| JsonAligned.KeyAligned | src/json.c:256-266 | if the text of a key as it was printed means that key, then it has no escapes: a quote in the text would need a quote in the key further ahead, and so on |
| JsonAligned.ValueAligned | src/json.c:242-355 | a value read from where a tree was printed, and equal to that tree, ends where the printed tree ends, and all keys of the tree are fit to be printed |
| JsonExact.ReadBackExactly | src/json.c:242-355 | a tree with 64-bit integers and no floats comes back from its text if and only if it is a container without empty containers, at most 15 deep, with keys in objects only and of characters that need no escape, of strings without the refused characters, and without true nodes unless those hold 0 |
| JsonExact.SingleQuoteLost | src/json.c:194-240 | the failing input: no text with a string that has a single quote is accepted, since the printer escapes it and the parser does not know that escape |
| JsonExact.KeyLost | src/json.c:256-266 | the failing input: an object with a quote in a key has the text of an object with two members |
| JsonRoundTrip.EmptyContainerLost | src/json.c:242-355 | the failing input: an array that holds an empty array is printed as `[0]` |
| JsonForests.GrownMeans | src/json.c:465-490 | adding a child changes the tree of that node by one kid at its end, and no tree in which the node does not occur |
| JsonForests.AllStillHeld | src/json.c:465-490 | after the pointers of one child have been set, every node still represents a tree: its old one, grown at the place of the father |
| JsonProperties.JsonNodes.NewObject | src/json.c:449-455 | one more node, which holds an empty object |
| JsonProperties.JsonNodes.NewArray | src/json.c:457-463 | one more node, which holds an empty array |
| JsonProperties.JsonNodes.SetPropertyObj | src/json.c:465-490 | a tree that stands alone becomes the last child of a container, also when either has already been filled; all other trees are kept |
| JsonProperties.JsonNodes.SetPropertyInt | src/json.c:497-523 | a new integer is the last child, and every tree grows accordingly |
| JsonProperties.JsonNodes.SetPropertyFloat | src/json.c:532-559 | the same for a float |
| JsonProperties.JsonNodes.SetPropertyBoolean | src/json.c:561-590 | the same for a boolean, whose node holds the number 0 also when it is true |
| JsonProperties.JsonNodes.SetPropertyNull | src/json.c:592-618 | the same for null |
| JsonProperties.JsonNodes.SetPropertyStr | src/json.c:621-657 | the same for a string |
| JsonReadBack.PrintThenRead | src/json.c:827-864 | from the constructors through json_to_string to init_json_parser: the parser builds the tree that was made if and only if it is a container without empty containers, at most 15 deep, with keys that need no escape and strings that the parser takes back |
| DnsQueries.LeftSubmitted | deps/udns-0.0.9/udns_resolver.c:857-903 | a query starts with at most (S + 1) * nserv * (ntries + 1) sends left, for S search suffixes, and the search list always yields a first name |
| DnsQueries.LeftNextSearch | deps/udns-0.0.9/udns_resolver.c:708-726 | going on to the next suffix, which resets tries and servers, never raises the number of sends left |
| DnsQueries.LeftChoose | deps/udns-0.0.9/udns_resolver.c:817-842 | each choice of a server lowers the number of sends left, and picks a server that may be asked |
| DnsQueries.LeftEDNS0 | deps/udns-0.0.9/udns_resolver.c:1112-1130 | asking the same server again without EDNS0 lowers it, too |
| DnsQueries.LeftReply | deps/udns-0.0.9/udns_resolver.c:1055-1165 | no reply of any kind lets a query send more than before |
| DnsRules.ChooseMeans | deps/udns-0.0.9/udns_resolver.c:817-842 | the next server that is not skipped is asked, then the first one in the next try, and the query is given up when all tries are used up or all servers skipped |
| DnsRules.SentMeans | deps/udns-0.0.9/udns_resolver.c:797-811 | the deadline is one second while another server is left in this try, and timeout * 2^try after the last one |
| DnsRules.NextMeans | deps/udns-0.0.9/udns_resolver.c:708-726 | the search goes on with the first suffix that fits into 255 bytes, which is the root at the end of the list unless the name has been asked as it is, and starts over with all servers |
| DnsRules.SubmittedMeans | deps/udns-0.0.9/udns_resolver.c:857-903 | the name is asked as it is first when no search is wanted or it has more labels than ndots, and with the first suffix otherwise |
| DnsRules.SilentQuery | deps/udns-0.0.9/udns_resolver.c:746-842 | without any answer a name is sent exactly nserv * ntries times, the send with number k to server k % nserv in try k / nserv |
| DnsResolvers.Resolver.Submit | deps/udns-0.0.9/udns_resolver.c:857-903 | the new query is first in the list with deadline 0, the list stays sorted, and its length stays the counter |
| DnsResolvers.Resolver.NextSrch | deps/udns-0.0.9/udns_resolver.c:708-726 | the loop finds the first suffix that fits, skipping a second root, or none |
| DnsResolvers.Resolver.EndQuery | deps/udns-0.0.9/udns_resolver.c:606-624 | the callback of the query runs now, and the query leaves the list |
| DnsResolvers.Resolver.SendThis | deps/udns-0.0.9/udns_resolver.c:746-811 | the query is sent with one attempt, or up to ten while the socket fails; then it fails, or waits for this server and is put where its new deadline belongs, so that the list stays sorted |
| DnsResolvers.Resolver.Send | deps/udns-0.0.9/udns_resolver.c:817-842 | the next server is asked, or the query ends with a temporary failure just when none is left; the sends left of all queries together go down |
| DnsResolvers.Resolver.Process | deps/udns-0.0.9/udns_resolver.c:1055-1165 | reply by reply, in numbers: an answer ends the query with its status; no data or no such name leads to the next suffix, and to -4 or -3 after the last one, where no data seen before prevails; codes 1 and 4 are asked again without EDNS0, once; all others skip the server, and wait or go on |
| DnsResolvers.Resolver.Receive | deps/udns-0.0.9/udns_resolver.c:977-1165 | the first active query with the id of the packet is dealt with in that way, if the question agrees and its server was asked, and no other changes; without one nothing happens |
| DnsResolvers.Resolver.Timeouts | deps/udns-0.0.9/udns_resolver.c:1174-1207 | it terminates with no expired query left, returns the smaller of maxwait and the time to the nearest deadline, takes back no callback, and keeps every query that has not expired as it is and in its order; each expired query has been sent once more, to the server whose turn it is, or is over |
| DnsResolvers.Resolver.Cancel | deps/udns-0.0.9/udns_resolver.c:1281-1292 | the query leaves the list, and its callback will not run |
| DnsResolvers.Resolver.ExactlyOnce | deps/udns-0.0.9/udns_resolver.c:606-624 | in every reachable state without active queries, each query that was not cancelled has had its callback run exactly once, after at most (S + 1) * nserv * (ntries + 1) sends |
| DnsResolvers.Resolver.RunDown | deps/udns-0.0.9/udns_resolver.c:1174-1207 | on a silent network going from deadline to deadline ends every query, with its callback run once |
| Sha1.Schedule | src/sha1.c:92-98 | the new word in the ring of 16 is the word of the 80-word schedule of RFC 3174, in its low 32 bits |
| Sha1.Process | src/sha1.c:69-223 | with words wider than 32 bits, rotating register roles and the ring, the low halves of the state are those of section 6.1 of RFC 3174 |
| Sha1.LengthParts | src/sha1.c:272-296 | the two shifted counters make the eight bytes of the length in bits, whatever they hold |
| Sha1.Sha1Context.Update | src/sha1.c:225-262 | the context stands for the message so far followed by the input, across partial blocks and counter overflow |
| Sha1.Sha1Context.Finish | src/sha1.c:272-296 | padding and length are those of section 4 of RFC 3174, and the result is the digest of the whole message |
| Sha1.Checksum | src/sha1.c:325-332 | one call gives the digest of RFC 3174 |
| Sha1.ChecksumOfParts | src/sha1.c:225-296 | however a message is cut into updates, the digest is that of the concatenation |
| Sha1Vectors.DigestOfAbc | src/sha1.c:69-223 | the digest of the text abc is that of section 7.3 of RFC 3174, through all 80 rounds |
| WebSocketFrames.XorTwice | src/http.c:171-177 | unmasking with the key that masked gives the byte back |
| WebSocketFrames.LengthBack | src/http.c:155-170 | the extended lengths of section 5.2 of RFC 6455 are read back as they were written |
| WebSocketFrames.XorBit | src/http.c:171-177 | a bit of the unmasked byte is set if and only if exactly one of the two bits is |
| WebSocketFrames.FrameShape | src/http.c:110-245 | a frame by section 5.2 of RFC 6455, bit by bit: length, key and masked payload stand where the standard has them, and opcodes 9 and 10 are ping and pong |
| WebSockets.WebSocket.EndFrame | src/http.c:179-238 | at the last byte of a payload exactly that payload is delivered, or a ping answered, and the unread bytes stay |
| WebSockets.WebSocket.NextByte | src/http.c:110-245 | one byte takes the parser from any position in any frame of the stream to the next position, with all earlier frames delivered |
| WebSockets.WebSocket.ProcessFrame | src/http.c:110-245 | the loop uses up the whole buffer and keeps that state |
| WebSockets.WebSocket.Grow | src/http.c:378-403 | doubling the buffer keeps the bytes and the position in the stream |
| WebSockets.WebSocket.Read | src/http.c:378-403 | a read of any length, at any place of a frame in a stream of any length, keeps the parser at its place in the stream; the socket is shut down, without a delivery, exactly when the buffer holds more than 502400 bytes |
| WebSockets.WebSocket.AllDelivered | src/http.c:110-245 | when all has been read, the deliveries are exactly the unmasked payloads of all frames, in order, once each |
| RawPools.Pool.Post | src/raw.c:100-117 | the queue gets the message at its end, the pool grows before it is full, and the messages in the slots are those before and this one |
| RawQueues.PostRawSub | src/raw.c:100-117 | the message goes to the queue of its priority and to no other |
| RawQueues.PostKeeps | src/raw.c:100-117 | for all messages in all slots of all subusers: one more slot without a count keeps every message in max(1, refcount) slots if and only if the message was in none |
| RawQueues.CopyKeeps | src/raw.c:89-94 | one more slot with one more count does so if and only if the message was in none or already counted |
| RawQueues.Hub.FreeSlot | src/raw.c:62-71 | in any state: emptying a slot frees a message while another slot still holds it if and only if its count is at most one although it is in two slots or more |
| RawQueues.Hub.PostTwice | src/raw.c:484-485 | the failing input: a new message posted twice without a copy is freed with its first slot, and still is in the second |
| RawQueues.Hub.PostRaw | src/raw.c:120-127 | every subuser gets the message once at the end of its queue, and the count goes up by their number |
| RawQueues.Hub.Release | src/raw.c:62-71 | emptying a slot frees the message exactly when no other slot of any subuser holds it |
| RawUsers.PostRawChannel | src/raw.c:148-161 | every subuser of every user has the message at the end of its queue as often as it was reached, which is once if no user is in the channel twice; the count goes up by their number |
| RawUsers.Once | src/raw.c:148-161 | a subuser of one user only is reached once |
| RawFlushes.RawsSize | src/raw.c:350-382 | the foreseen size is the number of bytes that a flush emits, brackets and commas included |
| RawFlushes.HeadDecodes | src/raw.c:433-466 | section 5.2 of RFC 6455 decodes the header to the announced length, in all three forms, with the payload right behind it |
| RawFlushes.SendAll | src/raw.c:467-500 | high priority newest first, then low priority oldest first, with commas between; every slot is emptied and each message freed with its last slot |
| RawFlushes.SendRaws | src/raw.c:385-505 | the bytes of a flush: nothing for empty queues, else the headers the first time, the left padding, for a framed transport a header whose decoded length is that of all bytes up to the right padding, the text, and the right padding; both queues are empty afterwards |
| RawFlushes.MessageAt | src/raw.c:467-500 | the text is `[`, the messages with `,` between any two, and `]` |
| RawFlushes.OrderAt | src/raw.c:467-500 | the messages of high priority come from the last one back, then those of low priority in order |
| RawUsers.DestroyRawPool | src/raw.c:532-551 | every slot of the pool is given up, and exactly the messages that no other slot holds are freed |
| RawUsers.DelSubuser | src/users.c:566-589 | removing a subuser frees exactly the messages that only it held |
| RawUsers.ClearSubusers | src/users.c:591-597 | the same for all subusers of a user |
| RawUsers.Repair | src/users.c:478-488 | a message that was queued without a count gets its first one, so that it may be shared |
| RawUsers.AddSubuser | src/users.c:428-493 | the low priority queue of the newest subuser is copied in order, and slots and counts agree again for every message |
| Ticks.InsertLeft | src/ticks.c:58-96 | in the list of differences one entry more is one key more in the map of remaining ticks, and no other entry changes |
| Ticks.Timers.AddTimeout | src/ticks.c:58-96 | the loop puts the timer before the first that is due later, or at the same time, with the differences corrected |
| Ticks.PositionIs | src/ticks.c:73-83 | the place of a new timer is behind exactly those that are due earlier |
| Ticks.Timers.AddPeriodical | src/ticks.c:101-108 | the map from timer to remaining ticks gets one entry and keeps all others |
| Ticks.Timers.ProcessTick | src/ticks.c:29-56 | it terminates; every entry comes one tick closer; exactly those that reach zero fire, once each, whatever the callbacks add meanwhile; and a periodic one starts again or goes when its count is used up |
| Ticks.Timers.GetFirstTimerMs | src/ticks.c:147-157 | the least number of ticks that any timer has left, or -1 |
| Ticks.Timers.Run | src/ticks.c:29-108 | over any number of ticks a timer whose callback leaves its flag alone fires in exactly the ticks that its entry says |
| Ticks.FiresExactly | src/ticks.c:29-56 | those ticks are the first one and then every ticks_need, as often as the count says, or for ever without a count |
| DnsNames.DnToP | deps/udns-0.0.9/udns_dn.c:290-337 | the text of the name with its zero is written exactly when it fits; otherwise the answer tells whether a larger buffer could do |
| DnsNames.DnToPSize | deps/udns-0.0.9/udns_dn.c:253-285 | the length of that text with its zero, or 0 above the largest text |
| DnsNames.DnLen | deps/udns-0.0.9/udns_dn.c:27-32 | the number of bytes of the name on the wire |
| DnsNames.ValidTextFits | deps/udns-0.0.9/udns_dn.c:253-285 | the text of no valid name exceeds the limit, so the size of a valid name is never 0 |
| DnsNames.EscapeIs | deps/udns-0.0.9/udns_dn.c:300-328 | a backslash before six special characters, three decimal digits for what is not printed, and the others as they are |
| DnsTexts.PToDn | deps/udns-0.0.9/udns_dn.c:66-145 | the wire form of the labels that the text stands for by section 5.1 of RFC 1035, or the refusal, exactly as the text and the buffer demand; absolute exactly for a dot at the end |
| DnsTexts.FirstIs | deps/udns-0.0.9/udns_dn.c:80-133 | a dot ends a label; one to three digits after a backslash are a decimal number of at most 255, and any other character there stands for itself |
| DnsTexts.PrintThenRead | deps/udns-0.0.9/udns_dn.c:66-145 | every valid name is read back from the text that dns_dntop prints for it |
| DnsPackets.ExpansionIs | deps/udns-0.0.9/udns_parse.c:42-89 | what dns_getdn is measured by is the inductive expansion of section 4.1.4 of RFC 1035 with at most 100 pointers |
| DnsPackets.StandsIs | deps/udns-0.0.9/udns_parse.c:42-89 | with 100 pointers that is what dns_getdn follows, each to the place that its 14 bits name, behind the 12 bytes of the header |
| DnsPackets.CycleRefused | deps/udns-0.0.9/udns_parse.c:65-75 | a name whose pointers lead back to it has no expansion |
| DnsPackets.GetDn | deps/udns-0.0.9/udns_parse.c:42-89 | on every packet it terminates; a name with an expansion that has room is copied exactly, the bytes behind it kept, and the cursor left after the first pointer or the name; otherwise it fails and the cursor stays; a buffer of dnsiz bytes is enough, unless the labels fill it: then it takes one byte more |
| DnsPackets.PlainExpands | deps/udns-0.0.9/udns_parse.c:42-89 | a name without pointers expands to its own labels, wherever it stands in a packet |
| DnsPackets.WithinSize | deps/udns-0.0.9/udns_parse.c:57-64 | the result stays within dnsiz if and only if the labels do not fill it |
| DnsPackets.OnePastTheEnd | deps/udns-0.0.9/udns_parse.c:57-64 | the failing input: for labels of 255 bytes and a dnsiz of 255 the result is 256, and 255 bytes are not enough |
| DnsPackets.FullName | deps/udns-0.0.9/udns_parse.c:57-64 | there are such labels: three of 63 bytes and one of 62 |
| HashTables.HachString | src/hash.c:29-40 | the bucket is that of 5381 * 33^n plus the folded characters, each times 33 for every later one, in 32 bits |
| HashTables.SameBucket | src/hash.c:29-40 | keys that strcasecmp takes for equal share a bucket |
| HashTables.FoldSame | src/hash.c:107 | strcasecmp takes two strings for equal if and only if they differ in the case of letters only |
| HashTables.Table.Append | src/hash.c:80-127 | the map from folded key to address gets this entry; a new key is one item at the head of the list, a known one keeps all items in place |
| HashTables.Table.Seek | src/hash.c:170-191 | the address that the map holds for the folded key, or none |
| HashTables.Table.Erase | src/hash.c:130-168 | the map loses exactly the folded key; the list loses that item and keeps all others in order, with chains and both list links consistent; an unknown key changes nothing |
| Socks.BufOut.SendBin | src/sock.c:584-635 | with the answers of write as ghost output: the first bytes go out until all have or write takes none, the others are queued behind those that wait, unless write failed; the socket is marked to be shut down exactly if bytes were queued with that wish; it is cut off with bytes in its queue exactly by a call without data that asks for it |
| Socks.BufOut.SendQueue | src/sock.c:544-582 | waiting bytes are written in order until all are out or write takes none; what was taken leaves the queue, except after a failure, and 1 is returned exactly when none are left |
| Socks.BufOut.SafeShutdown | src/sock.c:637-644 | shut down at once exactly if nothing is queued, otherwise marked to be |
| Socks.BufOut.Writable | src/sock.c:399-411 | a marked socket is shut down when this call has emptied its queue, and no other is |
| Socks.BufOut.LastMessage | src/sock.c:399-411 | over any run: after a last message that had to wait, the socket is shut down by the call that empties the queue and by no earlier one |
| Base64.Base64Encode | src/base64.c:61-87 | the letters and padding of section 4 of RFC 4648, 4*ceil(n/3) of them, within the allocation of len*4/3+12, and a zero |
| Base64.SextetBits | src/base64.c:61-87 | the bits of the input, most significant first, are those of the characters, six in each |
| Base64.AlphabetIs | src/base64.c:26-52 | the letters are those of table 1 of RFC 4648, and no other character has a value |
| Base64.Base64Decode | src/base64.c:40-59 | -1 for a character outside the alphabet; otherwise the bytes that the six-bit groups hold, as many as fit, and the bytes behind them stay |
| Base64.ByteBits | src/base64.c:40-59 | the bits of the characters, most significant first, are those of the bytes |
| Base64.EncodeThenDecode | src/base64.c:40-87 | the decoding of the encoding of any bytes gives the bytes |

## Left out

- Bigints.QuoRem: the caller brings b < 10 * S and a divisor whose top word is in [2^27, 2^28), as `dtoa` arranges it.
- Bigints.Mult: the free lists of `Balloc` and `Bfree` are not modelled; a product of zero has no words, as in the
  source.
- Floating point in `dtoa.c` (`_strtod`, `dtoa` but for its division and digit loop, `ratio`, `b2d`, `d2b`) and the
  other preprocessor variants.
- JsonParsers.InitJsonParser: a float is its text, without `strtod`; allocation does not fail; comments, the locale's
  decimal point and the error codes are not modelled. Integers that 64 bits cannot hold, which `sscanf` leaves open,
  are taken to be the nearest bound.
- JsonPrinters.ToString: trees without floats, whose text `snprintf` makes and the code cuts at 16 characters; the
  nodes are not freed while they are printed.
- JsonPrinters.WriteList: the same for a list of siblings.
- JsonPrint.TextFits: the same for the size of the text, and integers above `-2^63`, whose negation fits.
- JsonExact.ReadBackExactly: trees without floats, as above.
- JsonRfc.RfcIsAccepted: characters are bytes; that bytes from 0x80 on make UTF-8 is not part of the grammar here,
  since any of them is refused.
- JsonProperties.JsonNodes.SetPropertyObj: the value stands alone and does not contain the node that gets it, and that
  node is an array or an object; the source checks none of these. The variants that measure the key or value with
  `strlen`, `json_item_copy` and `free_json_item` are not modelled.
- JsonReadBack.PrintThenRead: strings and keys have no zero bytes, since the text that is parsed ends at the first
  one.
- The older `struct json` functions, `json_lookup` and the unlimited depth of the parser.
- DnsResolvers.Resolver.Timeouts: callbacks do not submit queries; the callback that asks for the next time-out is
  left out.
- DnsResolvers.Resolver.Receive: the packet is given by its id, question and outcome; headers, addresses of servers
  and the contents of answers are not modelled. The list of active queries is a sequence, without its prev and next
  pointers, and masks over servers are sets.
- DnsResolvers.Resolver.SendThis: `timeout << try` is taken modulo 2^32 for every try, with 0 seconds from the 33rd
  try on, where C leaves the shift open.
- DnsTexts.PToDn: the text is already delimited; with a length of 0 the source measures it first.
- DnsPackets.GetDn: either of the two high bits of a length makes a pointer, as in the code, so its test for labels
  over 63 bytes, which cannot be reached, is missing.
- WebSockets.WebSocket.ProcessFrame: masked frames with a payload, on a host that stores the low byte first. Close
  frames, frames without payload or mask, and the older drafts are left out.
- `sha1_file`, `sha1_hmac` and `md5.c`.
- RawQueues.Hub.PostRaw: users' lists are sequences, and the linked slots of a pool are a sequence with the foot as
  index. Posting to pipes, restricted posting and `send_raw_inline` are left out.
- RawFlushes.SendRaws: the headers are bytes of the transport, without the fields of `http_send_headers`; whether
  `sendbin` could write at once is not part of the result.
- RawUsers.AddSubuser: sessions, channels and the properties of a subuser are not modelled.
- Ticks.Timers.AddPeriodical: timers of 0 ms, as for all that is said about ticks.
- Ticks.Timers.AddTimeout: `del_timer_identifier` and the flag that protects a timer are left out; the function and
  its argument are one number, and times have no fixed width.
- HashTables.Table.Append: keys are not null, and the table is not freed. The signed hash is taken to wrap.
- Socks.BufOut.SendBin: lengths have no fixed width, and sockets are one at a time.
- Base64.Base64Decode: the accumulator of the decoder, a signed number in the source, is taken to wrap.
- Bindings to JavaScript, plug-ins, the event loops, commands, channels and the proxy.
