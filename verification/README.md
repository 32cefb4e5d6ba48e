# UCE: a verified model of its core

UCE is a C++ runtime that compiles page templates into shared objects and serves
them.  This project models the parts of it that carry unbounded properties, in
Dafny 4.11, and proves those properties.  `dafny verify dfyconfig.toml` checks
everything.

What is modelled, by file:

- **Websocket dispatch** (`Dispatch`, `LineStream`, `Broker`, `Protocol`,
  `ProtocolTheorems`, `ProtocolProgress`, `ProtocolLiveness`).  A broker queues jobs and talks to a
  forked executor over a byte stream.  `Broker` is the object with the source's
  globals; `Protocol` is the whole system of broker, sockets and executors as a
  transition system in which a stream may be cut anywhere, a write may be partial,
  a liveness check may fail and an executor may die at any step.
- **The tree and its text forms** (`DTree`, `PushOrder`, `Json`, `JsonCode`,
  `JsonRoundTrip`, `JsonWritten`, `Xml`, `XmlCode`, `XmlRoundTrip`, `XmlWritten`).  Each
  parser exists twice: as a function of the text that is left, about which the round
  trips are proved, and as methods that move a cursor, proved to compute that
  function.  The `Written` files say what the parsers make of texts that others wrote:
  a writing is a value that fixes what its writer was free to choose.
- **Byte codecs** (`Base64`, `WsFrame`, `Utf8`, `Query`, `QueryWritten`), **SHA-1**
  (`Sha1`) and **noise** (`Noise`).
- **The template compiler** (`CppLiteral`, `Template`, `TemplateMeaning`) and the
  **cache of compiled units** (`UnitCache`).
- **Markdown** (`MarkdownInline`, `Markdown`, `MarkdownTermination`,
  `MarkdownRender`, `MarkdownText`, `MarkdownOrder`).  `MarkdownSpelling`,
  `MarkdownForms` and `MarkdownLayout` relate sources to nodes without the parser, and
  prove that the parser's nodes, and no others, stand in that relation;
  `MarkdownMarkup` reads the HTML back.
- `Text`, `Arith` and `Bits` hold what these share.

A `char` stands for one byte of a C++ `String`; a `std::map` is its entries in key
order.  Words that wrap are reduced explicitly.  Code that never returns is a value
of the model: `Diverges`, `Hangs`, or `None` where a comment says so.

## Where the code does less than one would expect

Each of these is a property one would expect and the code does not have.  The
lemmas named give the input that shows it and the exact condition under which the
property holds.

- The JSON decoder does not consume a minus sign.  A map that holds a negative
  number is cut short there, and a list that holds one is never finished
  (`JsonRoundTrip.RoundTripIff`, `NegativeNumberWitness`).  So a negative number in
  a connection's state makes the executor drop the job, or the broker the result,
  without a word, and the in-flight slot is not freed until the executor is
  replaced (`Dispatch.JobRunsIff`, `ResultAppliesIff`,
  `ProtocolProgress.AnswerFreesIff`, `SignedJobStaysInFlight`).
- A pushed list is walked in the order of its decimal keys.  That is the order of
  the pushes only up to ten (`DTreeModel.WalkedInPushOrderIff`).  So the commands of
  a handler are applied in the order of issue if and only if the places that change
  hold commands that do the same (`Dispatch.CommandsInOrderIff`,
  `ElevenCommandsOutOfOrder`).  An XML tree comes back unchanged if and only if
  walking every node in that order and dropping blank texts, which the printer
  writes and the parser ignores, change nothing (`XmlRoundTrip.XmlRoundTripIff`,
  `ElevenChildrenChange`, `BlankTextIsLost`, `OneBlankIsLost`).
- The JSON decoder does not decode the escape of a code point
  (`JsonWritten.CodePointIsNotRead`), and every word it does not know is an empty text
  (`OtherWordsAreEmpty`).
- The XML parser looks for the end of a comment from its opening on, so `<!-->` is a
  whole comment.  A comment or instruction ends where XML 1.0 has it end if and only if
  the end mark does not stand before, the opening included (`XmlWritten.SkippedIff`,
  `CommentEndsEarly`).
- The base64 decoder reads texts that no encoder writes, such as `QR==`: padding in
  the first two places of the last group, and bits that belong to no byte
  (`Base64.IsEncodingIff`, `OtherTextsAreRead`).
- A Markdown directive line such as `:::note =` is never finished: the loop over
  its attributes stays at a `=` that no attribute name stands before
  (`MarkdownTermination.BareEqualsHangs`).  The parser hangs if and only if such a
  line stands where it looks for a directive (`SourceHangsIff`): one with a word
  like `=`, `=b` or `a.b=c` outside of quotes (`StuckIffBadWord`).
- `gen_noise64` is no permutation in its index, because its first multiplier is
  even (`Noise.Noise64MeetsIff`).
- `gen_sha1` passes the length on as 32 bits, so a string of 4 GiB or more is cut to
  its length modulo 2^32 (`Sha1Code.GenSha1`).
- A cached unit need not be the build that the metadata describes, nor be built from
  the current source: an object that was written and not loaded (a failed load, a
  crash) is served later by whoever finds stamps and signature fitting, and stamps
  are whole seconds (`UnitCache.OtherBuildIsServed`, `StaleBuildIsServed`).  It is
  that build exactly if the last object written before it was cached had been loaded
  (`ServedIsDescribedIff`); in a run where each object is loaded it always is, and
  is current (`CleanRunServesCurrent`).
- A failed load is remembered until the object or its metadata changes: with compiling on request
  switched off the worker is given no unit again, although it would load
  (`UnitCache.FailureIsRemembered`).
- A missing source is compiled again by each request (`UnitCache.MissingSourceCompiles`,
  `QuietAfterCompileIff`).

## Model

| member | source | states |
|---|---|---|
| Protocol.NextInv | src/linux_fastcgi.cpp:149-596 | every step of broker, sockets and executors, whatever the cut, partial write, crash or replacement, keeps the invariant: at most one job outstanding, the bytes in all buffers make up its line or its answer |
| Protocol.ReachableInv | src/linux_fastcgi.cpp:149-596 | the invariant holds after every run from a fresh broker |
| Protocol.ReceiveCases | src/linux_fastcgi.cpp:344-353 | a completed line is exactly the response of the last job handled by this executor; nothing else ever stands in the read buffer |
| Protocol.DrainOne | src/linux_fastcgi.cpp:344-353 | draining one whole line applies its result once and leaves the buffer empty |
| Protocol.ApplyOwn | src/linux_fastcgi.cpp:284-307 | the result that is applied is the answer to the job in flight, on its own connection: the mismatch branch is not taken |
| Protocol.TakenLine | src/linux_fastcgi.cpp:513-522 | the only line an executor can complete is the whole line of the one job sent to it and not yet run |
| Protocol.LoseKeeps | src/linux_fastcgi.cpp:173-197 | giving the executor up keeps the invariant and leaves no socket, no job in flight and no byte behind |
| Protocol.OfferCases | src/linux_fastcgi.cpp:199-220 | a message changes nothing, or is refused or dropped with one log entry, or becomes the newest pending job within the memory bound |
| Protocol.LineBytesFront | src/linux_fastcgi.cpp:206-207 | the bytes of the pending lines are those of the oldest and of the rest, so moving it into the slot keeps the sum |
| ProtocolTheorems.SlotIsSafe | src/linux_fastcgi.cpp:284-385 | in every reachable state the write buffer is an end of the line of the job in flight, bytes come back only when it is empty, no mismatch was ever logged, and the slot was only ever freed by the job's own result |
| ProtocolTheorems.EveryJobInOnePlace | src/linux_fastcgi.cpp:173-220 | in every reachable state an accepted job is exactly once settled, in flight or pending; jobs are started in acceptance order |
| ProtocolTheorems.HandlerRunsAtMostOnce | src/linux_fastcgi.cpp:445-596 | no two handler runs, in one executor or in two, are of the same job; a run is given the message, scope, parameters and state of its job unchanged |
| ProtocolTheorems.RetainedBytes | src/linux_fastcgi.cpp:149-155 | in-flight and pending lines are at most limit + 1 bytes, the write buffer at most the in-flight line, all together at most 2 * limit + 2 |
| ProtocolProgress.RestMeans | src/linux_fastcgi.cpp:284-385 | with a live executor nothing can move exactly when the job line was taken and nothing is coming back |
| ProtocolProgress.RestsOnlyWhenSigned | src/linux_fastcgi.cpp:284-483 | the dispatcher comes to rest with a job in flight only if a negative number was in the connection state or in the state the handler left |
| ProtocolProgress.AnswerFreesIff | src/linux_fastcgi.cpp:284-307 | the read that completes the answer frees the slot if and only if no negative number was involved |
| ProtocolProgress.SignedJobStaysInFlight | src/linux_fastcgi.cpp:284-385 | otherwise no step but losing or replacing the executor ends the job |
| ProtocolProgress.InnerStepsEnd | src/linux_fastcgi.cpp:284-385 | moving bytes and handling lines falls in a measure, so the job in flight is answered or at rest after finitely many steps |
| ProtocolProgress.TickIsRun | src/linux_fastcgi.cpp:583-596 | one tick, whatever its reads and writes come to, is a run of protocol steps |
| ProtocolProgress.MessageIsRun | src/linux_fastcgi.cpp:951-984 | handling a client message is a run of protocol steps |
| ProtocolProgress.FollowReaches | src/linux_fastcgi.cpp:583-596 | steps that follow a run make a longer run, so the object below stays in reachable states |
| ProtocolLiveness.AcceptedIff | src/linux_fastcgi.cpp:199-220 | a message becomes the newest pending job if and only if the executor is alive, the connection has a name and the line fits; otherwise nothing is accepted, and nothing else changes |
| ProtocolLiveness.IdleMeans | src/linux_fastcgi.cpp:284-385 | a served broker at which no step makes progress, starting a job included, has nothing pending, or has a job in flight that involves a negative number |
| ProtocolLiveness.MoveKeeps | src/linux_fastcgi.cpp:284-385 | each step that makes progress keeps the accepted jobs, settles jobs only by their results, and leaves less to do |
| ProtocolLiveness.StoppedIsSettled | src/linux_fastcgi.cpp:284-385 | without negative numbers any run of such steps that cannot go on, however bytes are cut and whatever unsigned answers are given, has settled every accepted job by its result |
| ProtocolLiveness.SettlesAll | src/linux_fastcgi.cpp:357-385 | from every such state there is a finite run of such steps, and it ends there |
| ProtocolLiveness.MessageIsSettled | src/linux_fastcgi.cpp:951-984 | in every reachable state with a living executor and no negative number, a message without one that has a connection name and fits is accepted, and steps follow after which its result has been applied |
| BrokerModel.Broker.QueueJob | src/linux_fastcgi.cpp:199-220 | the queue loop adds up write buffer, in-flight and pending lines, and drops or appends the job |
| BrokerModel.Broker.HandleIpcLine | src/linux_fastcgi.cpp:284-316 | applies a result line to the in-flight slot |
| BrokerModel.Broker.DrainBuffer | src/linux_fastcgi.cpp:344-353 | takes every complete line off the read buffer, in order |
| BrokerModel.Broker.ReadResultsLoop | src/linux_fastcgi.cpp:318-355 | the read loop with data, nothing to read, and a lost socket |
| BrokerModel.Broker.FlushQueueLoop | src/linux_fastcgi.cpp:357-385 | the write loop with partial writes and a lost socket; the front job is started whenever nothing is in flight, as `ProtocolLiveness` needs |
| BrokerModel.Broker.EnsureExecutor | src/linux_fastcgi.cpp:526-581 | replaces an executor that does not respond |
| BrokerModel.Broker.HandleMessage | src/linux_fastcgi.cpp:951-984 | refuses or queues the job of a message |
| BrokerModel.Broker.TickOnce | src/linux_fastcgi.cpp:583-596 | liveness check, reads, then writes |
| Dispatch.JobRunsIff | src/linux_fastcgi.cpp:387-483 | the executor runs the handler on exactly what was dispatched (message, scope, opcode, flags, parameters, state; the peers in the order of their decimal names) and answers with one line if and only if the connection state holds no negative number; otherwise it skips the job silently or never comes back; a job line contains no newline |
| Dispatch.ResultAppliesIff | src/linux_fastcgi.cpp:284-316 | the broker applies a result, for the job's own connection, if and only if the state left behind holds no negative number |
| Dispatch.EncodeHasNoNewline | src/lib/functionlib.cpp:999-1041 | no encoded tree contains a newline byte |
| Dispatch.JobTreeFields | src/linux_fastcgi.cpp:951-984 | the job tree holds exactly the fields of the request, whatever its parameters and peers |
| Dispatch.PeersArrive | src/linux_fastcgi.cpp:401-403 | the handler sees the peers in the order of their decimal names; a scope without peers is read as one peer without a name |
| Dispatch.WordArrives | src/lib/dtree.cpp:240-250 | a whole number read back from its text is the number, cut to the size of its word |
| Dispatch.SignedMapLosesType | src/lib/functionlib.cpp:2268-2354 | decoding a map with a negative number under "connection_state" loses every later key, "type" among them, or does not end |
| Dispatch.CommandArrives | src/linux_fastcgi.cpp:234-282 | a command does at the broker what the handler asked for: payload, addressee, flag, status code and reason |
| Dispatch.CommandsInKeyOrder | src/linux_fastcgi.cpp:301-305 | any number of commands is applied in the order of their decimal names |
| Dispatch.CommandsInOrderIff | src/linux_fastcgi.cpp:301-305 | that is the order of issue if and only if the places it changes hold commands that do the same |
| Dispatch.CommandsInOrder | src/linux_fastcgi.cpp:301-305 | up to ten commands are applied in the order of issue |
| Dispatch.ManyCommandsOutOfOrder | src/linux_fastcgi.cpp:301-305 | beyond ten, the command issued eleventh is applied third, so the order differs unless it does what the third does |
| Dispatch.ElevenCommandsOutOfOrder | src/linux_fastcgi.cpp:301-305 | eleven messages with different payloads are not applied in the order of issue |
| LineStream.SplitIndependentOfChunks | src/linux_fastcgi.cpp:344-353 | the lines of a stream do not depend on where it is cut |
| LineStream.ReadLines | src/linux_fastcgi.cpp:513-522 | feeding chunks one by one takes the lines of the whole stream and keeps its unfinished end |
| DTreeModel.PushAllHoldsInOrder | src/lib/dtree.cpp:698-728 | any number of pushes puts the children under exactly the keys 0 .. n-1, in order, also past ten where the list test fails |
| DTreeModel.WalkedInPushOrderIff | src/lib/dtree.cpp:165-180 | the keys of a pushed list stand in the order 0, 1, 2, ..., so that the list test holds, if and only if there are at most ten |
| DTreeModel.FreeIndexIsLeast | src/lib/dtree.cpp:698-728 | outside list mode a push takes the least free index from the counter on |
| DTreeModel.LookupPut | src/lib/dtree.cpp:674-690 | assigning a key changes that key and no other |
| DTreeModel.SortedIsCanonical | src/lib/dtree.cpp:674-690 | two sorted maps that answer every lookup alike are equal |
| DTreeModel.SetKeyFacts | src/lib/dtree.cpp:674-690 | assignment keeps the map sorted and all other entries |
| DTreeModel.DTree.Push | src/lib/dtree.cpp:698-728 | push in place on map, list mode and index |
| DTreeModel.DTree.Put | src/lib/dtree.cpp:674-690 | get-or-create and assignment in place |
| DTreeModel.DTree.IsListNow | src/lib/dtree.cpp:165-180 | the loop over the map compares each key with its position |
| DTreeModel.DTree.SetArray | src/lib/dtree.cpp:622-634 | makes the tree an empty list |
| DTreeModel.DTree.Clear | src/lib/dtree.cpp:763-774 | empties every field |
| JsonRoundTrip.RoundTripIff | src/lib/functionlib.cpp:999-1041 | decoding what was encoded gives the same type and the same key-to-value map at every node, numbers as text of the same value, if and only if no node is a negative number |
| JsonRoundTrip.NegativeNumberWitness | src/lib/functionlib.cpp:2299-2309 | a list with a negative number never ends to decode; a map with one comes back without it |
| JsonRoundTrip.DecodePairsSigned | src/lib/functionlib.cpp:2313-2354 | a map is cut short at its first signed value |
| JsonRoundTrip.DecodeItemsSigned | src/lib/functionlib.cpp:2356-2381 | a list with a signed value never ends to decode |
| JsonRoundTrip.DecodeEscaped | src/lib/functionlib.cpp:2165-2217 | every escaped byte string reads back, with what follows it untouched |
| JsonRoundTrip.NumTextReadsBack | src/lib/functionlib.cpp:2248-2266 | the text of a number has its value |
| JsonWritten.DocumentReads | src/lib/functionlib.cpp:2165-2387 | every writing of a value decodes to its tree: white space anywhere, either quote, any character behind a backslash, numbers, words, nested lists and maps with a key given twice |
| JsonWritten.ObjectHolds | src/lib/functionlib.cpp:2313-2354 | the tree of a map holds for every key the value of the last member of that key, and nothing else |
| JsonWritten.OtherWordsAreEmpty | src/lib/functionlib.cpp:2299-2309 | every word but `true` and `false`, `null` among them, is an empty text |
| JsonWritten.CodePointIsNotRead | src/lib/functionlib.cpp:2202-2204 | the escape of a code point is not decoded: its four digits stay as text |
| JsonCode.JsonEscape | src/lib/dtree.cpp:794-839 | the escaping loop |
| JsonCode.EncodeTree | src/lib/functionlib.cpp:999-1041 | the encoder with its loops over lists and maps |
| JsonCode.DecodeValueAt | src/lib/functionlib.cpp:2268-2311 | the value parser moves the cursor exactly over what the specification reads |
| JsonCode.DecodeMapAt | src/lib/functionlib.cpp:2313-2354 | the map loop with the shared cursor |
| JsonCode.DecodeArrayAt | src/lib/functionlib.cpp:2356-2381 | the list loop; where it does not advance it is reported as never ending |
| JsonCode.DecodeStringAt | src/lib/functionlib.cpp:2165-2217 | the string loop with its escapes |
| Base64.Base64Encode | src/lib/uri.cpp:7-32 | the accumulator loop, in 32-bit words, yields the groups of section 4 of RFC 4648 |
| Base64.Base64Decode | src/lib/uri.cpp:53-108 | the decoder loop, with every error return |
| Base64.RoundTrip | src/lib/uri.cpp:7-108 | decoding an encoding succeeds with the same bytes, for every byte string |
| Base64.IsEncodingIff | src/lib/uri.cpp:53-108 | a text that is accepted is, but for white space, the encoding of what it is read as if and only if its last group has no padding in its first two places and no bit set that belongs to no byte |
| Base64.OtherTextsAreRead | src/lib/uri.cpp:96-104 | `QR==` is read as the byte of `QQ==`, and `=AAA` as the bytes of `AAAA` |
| WsFrame.EncodeFrame | src/lib/uri.cpp:870-898 | the frame of sections 5.2 and 5.5 of RFC 6455, the length most significant byte first |
| WsFrame.WSFrame.ParseInto | src/lib/uri.cpp:909-992 | the fields of the record, or the error, are those of the parse; an unfinished frame is no error; on failure too flags, opcode and lengths are those that could be read |
| WsFrame.ReadHead | src/lib/uri.cpp:928-962 | the length field with its three sizes and its three errors |
| WsFrame.Unmask | src/lib/uri.cpp:984-990 | the unmasking loop in place |
| WsFrame.ParseUndoesEncode | src/lib/uri.cpp:870-992 | parsing an encoding, whatever follows, gives back payload, opcode and flag; for a control frame over 125 bytes or a length from 2^63 on it gives the error that says so |
| WsFrame.EncodeUndoesParse | src/lib/uri.cpp:909-992 | what was parsed starts with the encoding of the frame: every accepted frame is the one encoding of its fields |
| WsFrame.ParseUnmasks | src/lib/uri.cpp:909-992 | a masked frame decodes to the payload that was masked |
| WsFrame.MaskTwice | src/lib/uri.cpp:984-990 | masking twice with one key is no change |
| WsFrame.PrefixStable | src/lib/uri.cpp:909-992 | success and errors survive any extension of the buffer |
| WsFrame.StrictPrefixIncomplete | src/lib/uri.cpp:909-992 | a strict prefix of a frame is neither a frame nor an error |
| Utf8.IsValidUtf8 | src/lib/uri.cpp:110-169 | the checking loop |
| Utf8.ValidIff | src/lib/uri.cpp:110-169 | accepted are exactly the concatenations of encodings of Unicode scalar values (sections 3 and 4 of RFC 3629) |
| Utf8.EncodeAllInjective | src/lib/uri.cpp:110-169 | such a concatenation is unique |
| Utf8.NulFreeIsWrittenOnce | src/lib/functionlib.cpp:1233-1261 | every accepted string without NUL is what the code point encoder writes for one sequence of code points and no other |
| Query.MapRoundTrip | src/lib/uri.cpp:221-263 | a map that was encoded as a query, walked in key order, is parsed back as it was, for every byte string as key or value, the empty map and empty keys included; so a session reloads unchanged |
| Query.QueryRoundTrip | src/lib/uri.cpp:221-263 | entries that were encoded in a row are parsed back by assigning them in that row |
| Query.UriRoundTrip | src/lib/uri.cpp:181-219 | percent decoding undoes percent encoding on every byte string |
| Query.MapOfHolds | src/lib/uri.cpp:251-263 | walking a map in key order and assigning the entries rebuilds each of them |
| Query.MapOfHoldsOnly | src/lib/uri.cpp:251-263 | and adds none |
| QueryWritten.QueryReads | src/lib/uri.cpp:226-249 | whatever client wrote the query, characters as they are, as `+` or percent-encoded in either case, parts with, without or of nothing: the map holds for every key what the last part about it says, nothing else, and the first key without a `=` is told |
| QueryWritten.GlyphsRead | src/lib/uri.cpp:181-202 | every writing of a text decodes to it |
| Query.UriDecodeLoop | src/lib/uri.cpp:181-202 | the decoding loop |
| Query.UriEncodeLoop | src/lib/uri.cpp:204-219 | the encoding loop |
| Query.SplitLoop | src/lib/functionlib.cpp:680-698 | splitting by repeated search |
| Query.ParseQueryLoop | src/lib/uri.cpp:226-249 | parts, keyless parts and pairs |
| Query.EncodeQueryLoop | src/lib/uri.cpp:251-263 | entries joined by an ampersand |
| Sha1Code.GenSha1 | src/lib/hash.cpp:259-275 | the digest is that of section 6.1 of RFC 3174 on the padding of section 4, in binary or upper-case hexadecimal, for every string under 4 GiB; longer ones are first cut to their length modulo 2^32 |
| Sha1Code.Transform | src/lib/hash.cpp:114-170 | sixteen words in a circle and variables that trade places compute the 80-word compression |
| Sha1Code.FiveRounds | src/lib/hash.cpp:137-156 | after five uses of the macros every variable is back in its place |
| Sha1Code.NextWordIsW | src/lib/hash.cpp:88-104 | the word written into the circle is the word of the 80-word schedule; the byte swap loads big-endian |
| Sha1Code.MixedIsF | src/lib/hash.cpp:106-111 | the mixing functions of the macros are those of the standard |
| Sha1Code.Context.Update | src/lib/hash.cpp:189-209 | after any piece of a message the context holds the message so far, as long as piece and unfinished block together are under 2^32 bytes, which is when the 32-bit indices do not wrap |
| Sha1Code.Context.Final | src/lib/hash.cpp:214-256 | padding by single updates yields the digest of the message |
| Sha1Code.CountAdds | src/lib/hash.cpp:194-197 | the two-word counter with its carry is the 64-bit bit length |
| Sha1Code.CountOctetsAreLength | src/lib/hash.cpp:234-237 | the eight bytes appended are that length, most significant first |
| Sha1Code.DigestOfPieces | src/lib/hash.cpp:189-209 | however a message is cut into updates, the digest is the same |
| Noise.Noise32Permutes | src/lib/hash.cpp:282-293 | for each seed every output comes from exactly one index |
| Noise.Noise64PermutesSeeds | src/lib/hash.cpp:299-310 | for each index every output comes from exactly one seed |
| Noise.Noise64MeetsIff | src/lib/hash.cpp:295-310 | in its index the 64-bit function is no permutation: two indices meet if and only if they are equal or 2^63 apart |
| CppLiteral.LiteralReadsBack | src/lib/compiler-parser.cpp:24-66 | unless every delimiter candidate occurs in the content, the literal is a raw string that reads back as exactly the content ([lex.string] of ISO C++) |
| CppLiteral.ShortLiteralReadsBack | src/lib/compiler-parser.cpp:24-66 | so it does for all content under 1138 characters |
| CppLiteral.FallbackIsLong | src/lib/compiler-parser.cpp:57-66 | the non-raw fallback needs 69 different terminators side by side |
| CppLiteral.CandidatesDiffer | src/lib/compiler-parser.cpp:24-46 | the 69 candidates are different for every content |
| CppLiteral.CandidatesLegal | src/lib/compiler-parser.cpp:24-46 | every candidate is a legal delimiter of at most sixteen characters |
| CppLiteral.NoOverlap | src/lib/compiler-parser.cpp:48-53 | two different terminators cannot overlap |
| CppLiteral.RawStringDelimiter | src/lib/compiler-parser.cpp:24-55 | hash, candidate list and search |
| Template.Preprocess | src/lib/compiler-parser.cpp:492-593 | for a source in which no line of code is a #load or EXPORT line the character loop yields the C++ of the segments, in order; the loop meets such a line exactly when the source has one |
| Template.CodeState.Consume | src/lib/compiler-parser.cpp:68-121 | one token of the lexer: quotes with their escape rule, both comments |
| Template.CaptureField | src/lib/compiler-parser.cpp:193-214 | a field is everything up to the first closing delimiter outside of quotes and comments |
| Template.CodeRebuilds | src/lib/compiler-parser.cpp:492-593 | the segments with their delimiters, in order, are the source: no byte lost or moved |
| Template.CodeEndIsFirst | src/lib/compiler-parser.cpp:68-121 | code ends at the first delimiter that is met outside of quotes and comments, and at no other |
| Template.CodeKeepsItsLine | src/lib/compiler-parser.cpp:492-593 | every character of code stands on the line it has in the source, when the literals are raw strings |
| Template.LiteralKeepsLines | src/lib/compiler-parser.cpp:216-222 | a printed literal has the newlines of its text |
| TemplateMeaning.TemplatePrints | src/lib/compiler-parser.cpp:492-593 | what the emitted C++ does, read as print statements over any values of expressions: literals are printed as they are, a field behind `<?=` as its value escaped, one behind `<?:` as its value bare, and the code between runs, all in source order; fields are told apart by their delimiters in the source |
| TemplateMeaning.WordsAreLawful | src/lib/compiler-parser.cpp:216-222 | there are such values, so the statement is about something |
| TemplateMeaning.CodeKinds | src/lib/compiler-parser.cpp:492-593 | which segment stands behind which delimiters |
| XmlRoundTrip.XmlRoundTrip | src/lib/functionlib.cpp:1045-1523 | for every element tree with valid names and string attributes and texts, and any root name, decoding what was encoded gives the same tree, with the children of a node in key order and without blank texts |
| XmlRoundTrip.XmlRoundTripTen | src/lib/functionlib.cpp:1045-1523 | with at most ten children a node and no blank text it is exactly the same tree |
| XmlRoundTrip.XmlRoundTripIff | src/lib/functionlib.cpp:1045-1523 | with any number of children and any texts it is exactly the same tree if and only if dropping blank texts and walking the children of every node in key order leave the element as it is |
| XmlRoundTrip.ReturnedSameIff | src/lib/functionlib.cpp:1193-1212 | where the children themselves come back unchanged, that holds if and only if their order is that of their decimal names and the text is not blank |
| XmlRoundTrip.KeyOrderedIsSame | src/lib/functionlib.cpp:1193-1212 | it holds if the children of every node stand in the order of their decimal names and no text is blank |
| XmlRoundTrip.BlankTextIsLost | src/lib/functionlib.cpp:1450-1495 | a tree with a blank text anywhere does not come back as it was |
| XmlRoundTrip.OneBlankIsLost | src/lib/functionlib.cpp:1450-1495 | an element whose text is one blank comes back without a text |
| XmlRoundTrip.EleventhChildComesThird | src/lib/functionlib.cpp:1193-1212 | beyond ten, the child pushed eleventh comes back third |
| XmlRoundTrip.ElevenChildrenChange | src/lib/functionlib.cpp:1045-1523 | a list of eleven numbered items does not come back as it was |
| XmlWritten.DocumentReads | src/lib/functionlib.cpp:1499-1509 | every writing of an element, with instructions, comments, doctypes and white space around it, decodes to the tree of the element |
| XmlWritten.WritingReads | src/lib/functionlib.cpp:1410-1497 | of one element: text as any mix of characters, named and numeric references and CDATA sections, comments and instructions anywhere in the content, attributes in any order and either quote with space around them, `<a/>` or `<a></a>` |
| XmlWritten.GlyphsRead | src/lib/functionlib.cpp:1263-1310 | a text decodes to its characters, however each is written: itself, one of the five names, its number in decimal or hexadecimal, as UTF-8 |
| XmlWritten.SameAttrs | src/lib/functionlib.cpp:1420-1440 | attributes that give every name the same value make the same tree, whatever their order |
| XmlWritten.CdataIsKept | src/lib/functionlib.cpp:1466-1475 | a CDATA section is text as it stands |
| XmlWritten.SkippedIff | src/lib/functionlib.cpp:1338-1347 | a comment or instruction ends where it is meant to if and only if its end mark does not stand before, the opening included |
| XmlWritten.CommentEndsEarly | src/lib/functionlib.cpp:1460-1464 | the comment of XML 1.0 whose body is `>` ends inside its own opening |
| XmlWritten.OtherNameFails | src/lib/functionlib.cpp:1445-1458 | with the closing tag of another name it is refused, whatever the content |
| PushOrder.PushedEntries | src/lib/dtree.cpp:698-728 | a pushed list is held in the order of its decimal keys |
| PushOrder.EleventhIsThird | src/lib/dtree.cpp:143-160 | walked in key order, beyond ten the entry pushed eleventh comes third |
| Xml.DecodeUndoesEscape | src/lib/functionlib.cpp:1045-1310 | the text decoder undoes both escapers on all strings (section 4.6 of XML 1.0) |
| Xml.XmlEscapeLoop | src/lib/functionlib.cpp:1045-1097 | the escaping loops |
| Xml.DecodeTextLoop | src/lib/functionlib.cpp:1263-1310 | the decoding loop |
| XmlCode.XmlParser.Document | src/lib/functionlib.cpp:1499-1509 | the parser object on a whole document, with every exception it throws |
| XmlCode.XmlParser.ElementHere | src/lib/functionlib.cpp:1410-1440 | one element, cursor and all |
| XmlCode.XmlParser.AttrsHere | src/lib/functionlib.cpp:1420-1440 | the attribute loop |
| XmlCode.XmlParser.ContentHere | src/lib/functionlib.cpp:1442-1497 | the content loop: closing tag, comment, CDATA, instruction, child, text |
| XmlCode.XmlParser.SkipMiscellany | src/lib/functionlib.cpp:1332-1372 | the loop over what may stand around the root |
| Markdown.ParseBlocks | src/lib/markdown.cpp:1033-1150 | the block loop; each block takes at least one line and each inner parse gets strictly fewer characters, by the measure of the function it is proved against |
| MarkdownInline.ParseInline | src/lib/markdown.cpp:531-707 | the loop over running text; each inner parse gets a strictly shorter text |
| MarkdownSpelling.SpellsIff | src/lib/markdown.cpp:531-707 | a text spells a list of nodes (text by its characters, each behind a backslash or where no construct stands, strong between `**` or `__`, emphasis, strike-through, code between equal runs of backticks, links and images, addresses, raw HTML, each up to its first end mark and by rank) if and only if it is what the parser makes of the text |
| MarkdownSpelling.TargetIff | src/lib/markdown.cpp:502-519 | a link target is a URL, or a URL and a title parted by the first blank, each without its quotes |
| MarkdownSpelling.AddressIff | src/lib/markdown.cpp:467-500 | an address goes up to a blank or angle bracket, without the punctuation at its end |
| MarkdownLayout.DocumentIff | src/lib/markdown.cpp:1362-1366 | a source has a list of nodes as its AST if and only if its lines, parted by LF, CR LF or CR, lay out those nodes |
| MarkdownLayout.LaysIff | src/lib/markdown.cpp:1033-1150 | lines lay out a list of block nodes (headings, fences, rules, directives, quotes, lists, tables, raw HTML, paragraphs, each told by its first lines in the order of rank, with the lines that belong to it) if and only if it is what the parser makes of them; where it never comes back they lay out none |
| MarkdownLayout.TextIff | src/lib/markdown.cpp:711-759 | which lines make a paragraph |
| MarkdownLayout.ItemsIff | src/lib/markdown.cpp:761-839 | which lines make the items of a list, and of each its task box, own line and inside |
| MarkdownLayout.QuotedIff | src/lib/markdown.cpp:841-870 | which lines make a quote, without their marks |
| MarkdownLayout.CodeIff | src/lib/markdown.cpp:872-908 | which lines make the body of a fence |
| MarkdownLayout.RowsIff | src/lib/markdown.cpp:910-960 | which lines make the rows of a table |
| MarkdownLayout.BodyIff | src/lib/markdown.cpp:962-1011 | which lines make the body of a directive, nested ones included |
| MarkdownForms.AtxIff | src/lib/markdown.cpp:404-426 | one to six `#`, a blank and the content without its closing run |
| MarkdownForms.SetextIff | src/lib/markdown.cpp:428-448 | a text underlined with `=` or `-` |
| MarkdownForms.FenceIff | src/lib/markdown.cpp:321-338 | three or more backticks or tildes and the info text |
| MarkdownForms.RuleIff | src/lib/markdown.cpp:340-357 | three or more of one mark, and blanks |
| MarkdownForms.MarkerIff | src/lib/markdown.cpp:359-390 | a bullet or digits with `.` or `)`, a blank and the content; the start is the value of the digits |
| MarkdownForms.TaskIff | src/lib/markdown.cpp:392-402 | the three task boxes |
| MarkdownForms.RowIff | src/lib/markdown.cpp:245-279 | the cells of a row: parted by bars, backslashes taken off, trimmed, an empty cell at either end dropped |
| MarkdownForms.SeparatorIff | src/lib/markdown.cpp:281-319 | three or more dashes in every cell, aligned by the colons |
| MarkdownForms.OpenerIff | src/lib/markdown.cpp:450-465 | a directive line: its name, and its title from the attributes or the loose words |
| MarkdownForms.TokenIff | src/lib/markdown.cpp:170-224 | the token at the front: quoted text, a named value, or a word |
| Markdown.ItemShrinks | src/lib/markdown.cpp:761-839 | the lines of a list item hold strictly fewer characters than the list |
| Markdown.QuoteShrinks | src/lib/markdown.cpp:841-870 | the lines of a quote hold strictly fewer characters than the quote |
| MarkdownTermination.AttrsHangIff | src/lib/markdown.cpp:170-224 | the loop over directive attributes ends if and only if no token in front of a '=' fails to be an attribute name |
| MarkdownTermination.StuckIffBadWord | src/lib/markdown.cpp:170-224 | that is so if and only if in every word with a '=' outside of quotes an attribute name stands before the first one |
| MarkdownTermination.OpenerHangsIff | src/lib/markdown.cpp:450-465 | reading a directive line never ends exactly when its attributes are stuck |
| MarkdownTermination.SourceHangsIff | src/lib/markdown.cpp:711-1150 | the parser never comes back from a source if and only if one of the lines at which it looks for a directive (the first of a block that is no heading, fence or rule, those a paragraph goes on to, and all inside a directive) has stuck attributes |
| MarkdownTermination.BlocksHangIff | src/lib/markdown.cpp:711-1150 | the same for the lines of any block, list item, quote or directive |
| MarkdownTermination.BareEqualsHangs | src/lib/markdown.cpp:170-224 | the parser never comes back from `:::note =`, nor with any other name |
| MarkdownTermination.StuckDirectiveHangs | src/lib/markdown.cpp:1033-1106 | a source that starts with such a line never comes back |
| MarkdownTermination.SafeSourceReturns | src/lib/markdown.cpp:1033-1150 | the parser comes back from every source in which no end of a line opens a directive with stuck attributes |
| Markdown.AstNoRaw | src/lib/markdown.cpp:1033-1150 | with raw HTML off the parser makes no node that passes source text through |
| MarkdownRender.HtmlIsWellNested | src/lib/markdown.cpp:1195-1378 | with raw HTML off and no hooks the HTML of any source is well nested, as read by an independent scanner of tags |
| MarkdownRender.RenderBalanced | src/lib/markdown.cpp:1195-1354 | every node renders to balanced tags |
| MarkdownText.HtmlShowsText | src/lib/markdown.cpp:1195-1378 | taking the tags out of that HTML leaves the text of the parsed nodes, escaped, in parse order: nothing lost, added or moved |
| MarkdownText.RenderShows | src/lib/markdown.cpp:1203-1354 | every node shows its own text and that of its children, in order |
| MarkdownMarkup.HtmlReads | src/lib/markdown.cpp:1195-1378 | read back by an independent reader of tags, attributes and character references, the HTML of any source is exactly the elements of its nodes, with their attributes and their characters, in parse order |
| MarkdownMarkup.RenderReads | src/lib/markdown.cpp:1203-1354 | every node reads as its element: which tag, which attributes, what inside |
| MarkdownRender.EscapedIsSafe | src/lib/functionlib.cpp:924-955 | escaped text has no angle bracket and no quote |
| MarkdownRender.HtmlEscapeLoop | src/lib/functionlib.cpp:924-955 | the escaping loop |
| MarkdownOrder.ChildrenInParseOrder | src/lib/markdown.cpp:226-243 | children render in parse order for any count, although their keys are stored in another order beyond ten |
| UnitCache.ServedIsDescribedIff | src/lib/compiler.cpp:369-421 | after any run of requests, edits, crashes and compiles by any workers, within one second or many: a unit served from a cache is the build the metadata describes, by its token, if and only if the last object written before it was cached had been loaded; then its inputs are the source, template and ABI version as they are, as they also are if the object is strictly younger; and if the last object written by now has been loaded, it is the object on disk |
| UnitCache.ReachableInv | src/lib/compiler.cpp:816-958 | what every run keeps about disk, stamps and caches |
| UnitCache.CleanRunServesCurrent | src/lib/compiler.cpp:369-421 | in every run in which each object that is written is loaded, a unit served from a cache is the build the metadata describes, of the source, template and ABI version as they are, and between compiles the object on disk |
| UnitCache.DescribedIff | src/lib/compiler.cpp:816-872 | in every run the metadata describes the object on disk if and only if the last object written was loaded at the end of its compile |
| UnitCache.OtherBuildIsServed | src/lib/compiler.cpp:816-958 | after a forced compile whose load fails another worker serves a build whose token is not that of the metadata |
| UnitCache.StaleBuildIsServed | src/lib/compiler.cpp:816-958 | within one second: build, edit, a build that is never described, edit back; the build of the edit is served for the original |
| UnitCache.QuietAfterCompileIff | src/lib/compiler.cpp:135-164 | after a compile, however it ends, the unit needs no other if and only if there was a source |
| UnitCache.CompilesBounded | src/lib/compiler.cpp:874-958 | with unchanged files any number of unforced requests by any workers makes at most one compile, none if the last one is done, and at most one more for each time a good object does not load; none at all while a failure stands |
| UnitCache.MissingSourceCompiles | src/lib/compiler.cpp:816-827 | a missing source is reported anew by every request that may compile |
| UnitCache.AnswerServesIff | src/lib/compiler.cpp:874-958 | who gets an object, in every reachable state with a source and the lock free: a reusable entry is kept; otherwise the worker has one if and only if the object on disk is good and loads, or a compile is made and its script and load go well; then it is the new build of the files as they are, with the token just given out, described by the metadata, and it serves the next request |
| UnitCache.RequestServesCurrentIff | src/lib/compiler.cpp:874-958 | in a run in which each object is loaded, a request that meets no failure leaves the worker with an object of the current inputs if and only if no failed load is remembered for it and the object is good, or no failure is deferred and compiling on request is on |
| UnitCache.ForcedServes | src/lib/compiler.cpp:851-856 | a forced request whose compile goes well leaves the worker with the new build, whatever was cached or deferred |
| UnitCache.FailureIsRemembered | src/lib/compiler.cpp:874-958 | with compiling on request off a worker that once failed to load a good object is given none again, although it would load |
| UnitCache.Server.GetSharedUnit | src/lib/compiler.cpp:874-958 | the request on the object that holds disk and caches |
| UnitCache.Server.CompileSharedUnit | src/lib/compiler.cpp:816-848 | the compile up to the written object |
| UnitCache.Server.FinishCompile | src/lib/compiler.cpp:849-872 | load, metadata, failure output; the build that was loaded is cached, as `AnswerServesIff` needs |

## Left out

- Sockets, processes, signals, clocks, files, dlopen and the compile script appear only as nondeterministic steps, parameters, or stamps that do not go back.
- The FastCGI and HTTP transport: closing a connection and sending to it are entries of a log.
- Pointers and references inside a tree, NaN and infinities, and floating-point rounding: a number is a sign and a count of millionths, which is what the printer writes.
- Dispatch.WordArrives: reads plain decimal texts, digits, a point and digits, which is what the printer writes; other forms that strtod accepts are not modelled.
- Protocol.NextInv: the queue limit is a number that does not change during a run; a broker that never returns from decoding takes no further step.
- Reading one past the end of a text is modelled as the NUL that a C++ string keeps there.
- Sha1Code.Context.Update: where piece and unfinished block together reach 2^32 bytes the source's 32-bit index wraps and the call is undefined; `gen_sha1` makes no such call.
- Sha1Code.DigestOfPieces: the same bound on each piece.
- `split` keeps its positions in an `int`, and several cursors are `u32`: strings of 2 GiB and more are not covered where those are used.
- TemplateMeaning.TemplatePrints: for sources whose literals are all raw strings and whose fields hold expressions; what code between the fields does is a label of a run, not evaluated.
- Template.Preprocess: does not say what becomes of a source from its first `#load` or `EXPORT` line on; named entry points and fragment attributes, which rewrite text before the character loop, are not modelled, nor is nested markup inside code, which the loop here does not process, nor what a literal in the non-raw fallback reads back as.
- XmlWritten.DocumentReads: texts that are no writing of an element, but for the closing tag of another name, are left to the model of the parser: an `&` that starts no reference, which is kept as it stands, and unfinished input.
- JsonWritten.DocumentReads: the same for malformed JSON, which the parser cuts short without an error.
- XML: attribute values and texts that are not strings, and elements without a name, which the printer accepts and the parser does not give back in the same form.
- Xml.DecodeTextLoop: numeric references follow the C library's conversion of text to a number, written out here; a locale other than "C" is not covered.
- Markdown: component hooks; the fields of a node that nothing renders (sources, fence metadata, directive attributes but the title); list numbers from 2^53 on, which the source rounds.
- UnitCache: one unit; `opt_so_optional` units, timing statistics and the registry of known units; a signature stands for the inputs it hashes, and a token is never given twice; the clock does not go back; a compile is not disturbed by edits; a compile script that prints nothing has written the object, and writes it at once.
- YAML, `task` and its lock, multipart bodies, cookies, routing, sessions beyond their serialisation: other code, or easy members.
