# The delivery path of a beamed item, modelled and proved in Dafny

ClipBeam moves an item (an image, a file, a text) from one machine to another. This project
models the way such an item takes through the Go sources, from the bytes on the wire to the
agent or the clipboard that gets it, and proves what each part is for.

* **The `/clip` parser** (`JsonString`, `JsonText`, `JsonUnicode`, `JsonScan`, `JsonValues`,
  `Envelope`, `EnvelopeText`, `EnvelopeMeaning`, `EnvelopeRefused`, `EnvelopeGrammar`,
  `EnvelopeEndings`, `EnvelopeScratch`, `Base64`, `Base64Stream`, `ClipHandler`). The stream reader
  of a JSON string, the helpers that skip and read values, and the forward-only parser of an
  envelope are classes and methods over one shared reader. Each is proved to do what a recursive
  function over the text says. Those functions are then proved against what is independent of
  them. A tree of JSON values, spelled with any white space, escapes, key order, nulls and unknown
  members, comes back as what its keys mean; of all well-formed documents exactly the envelopes
  are accepted; and whatever is accepted, well-formed or not, is a text of a written-down grammar.
  The base64 decoder that payloads are read through is that of Go's standard library, with its
  buffer of 1024 bytes; it is proved against the encoding of RFC 4648 and the texts that are one.
* **Delivery to agents** (`AgentFifo`, `FifoProtocol`, `PathWaiters`, `PathProtocol`, `Journal`,
  `JournalNames`, `JournalProtocol`). The critical sections are methods on classes. The
  interleavings are state machines in which every lock, send, receive, timeout, listing, rename
  and removal is a step of its own; the main results hold in every state of every run. What is
  written to the journal is what drains give back, and `Delivery` follows a text to its reader.
* **The CB01 frame** (`Cb01`, `Cb01Stream`, `Cb01Layout`). Encoder, decoder, what a cut stream
  becomes, and the layout of bytes that is exactly what is decoded.
* **Saving and accounting** (`Sanitize`, `CleanNames`, `Utf8Cut`, `Collisions`, `Paths`,
  `SaveProtocol`, `Store`, `IngestTerms`, `IngestJob`, `Ingest`). From an arbitrary name to a file,
  alone and with other saves running, and from a list of items to the point where the cap stops it.
* **Arithmetic and printers** (`Base32`, `Base64`, `Numbers`, `RecvBody`, `ShellWord`).

Text is a `string` in which one character stands for one byte; payloads are sequences of bytes.
Methods stand where the Go code loops or changes fields, and each is proved against a function.
A long Go function is split into several methods; each of them is a stretch of the original.

Shifts and masks are written as products, quotients and remainders. The clock, the random part of
a temporary name and the stamp of a fallback name are parameters, of any value of the right shape.

Where comments in the sources promise more than the code does, the code is modelled, and a lemma
says exactly when the promise holds:

* A directory sort of journal names is the order of `(nanos, seq)` only for times of equal width
  (`JournalNames.NameOrder`, `JournalNames.WidthMatters`), and drains follow name order in
  every run if and only if names are published in that order (`JournalProtocol.ClaimOrderIff`).
* The text of a `/recv` body is not taken verbatim: a newline that is its last byte and its only
  one is lost, and so is a token in front (`RecvBody.RoundTripIff`).
* A `/wait` can time out although a resume had already taken it (`PathProtocol.MissedIff`).
* A file that goes over the cap is removed, but the agent has been given its path: all paths
  given exist if and only if no file takes the counted bytes over the maximum
  (`IngestJob.PathsExistIff`, `IngestJob.DanglingInput`).
* Scratch files are all listed for removal, of an accepted body or of a rejected one, if and
  only if no item opens a second payload (`EnvelopeScratch.ScratchIsListedIff`).
* A base64 payload may have more text behind its padding, where the padding ends a full buffer
  of the library's decoder (`Base64Stream.OneShotIff`, `Base64Stream.BehindPadding`).
* A relative save directory written as `.` reports an escape for every name
  (`Collisions.EscapesIff`).
* Cleaning a name twice changes it if the cap cuts it right behind a space
  (`Sanitize.IdempotentIff`).
* A payload that ends inside a group of four symbols is refused, but as an unexpected end and not
  as malformed (`EnvelopeRefused.PayloadErrors`).
* A version may be written with a fraction or an exponent, which do not count, but not with both
  (`EnvelopeRefused.AcceptedIff`).
* The encoder of CB01 takes strings that its decoder refuses (`Cb01.FrameRoundTrip`).

## Model

| member | source | states |
|---|---|---|
| JsonString.StringReader.Read | internal/httpd/jsonstream.go:40-95 | one read into a buffer of any size gives the next bytes of the one-shot string, keeps what does not fit, and reports an end only behind the last byte |
| JsonString.StringReader.ReadEscape | internal/httpd/jsonstream.go:99-126 | the escape behind a backslash is decoded, or refused, as the token function says, and the reader is left behind it |
| JsonString.StringReader.ReadUnicodeEscape | internal/httpd/jsonstream.go:130-157 | a code unit or a surrogate pair is read and encoded; lone surrogates are refused |
| JsonString.StringReader.ReadHex4 | internal/httpd/jsonstream.go:160-181 | four hexadecimal digits are read as their value |
| JsonString.ReadInPieces | internal/httpd/jsonstream.go:40-95 | for every sequence of buffer sizes the pieces concatenate to a prefix of the one-shot string; an end comes only behind all of it, with the input just past the quote |
| JsonString.ReadShortString | internal/httpd/clip.go:540-547 | the whole string, however the copy splits it |
| JsonText.PieceIsToken | internal/httpd/jsonstream.go:40-126 | every spelling of a character is read as one token that means that character |
| JsonText.UnescapeSpelled | internal/httpd/jsonstream.go:40-95 | a string spelled with any mix of raw bytes and escapes is unescaped to its meaning, up to its quote |
| JsonText.AcceptedIsSpelled | internal/httpd/jsonstream.go:40-95 | conversely, every string that is accepted is the spelling of what it is read as |
| JsonUnicode.AcceptedIff | internal/httpd/jsonstream.go:130-157 | an escape is accepted if and only if it begins with a spelling of a code point: its four digits, or those of its two surrogates |
| JsonUnicode.PairsBiject | internal/httpd/jsonstream.go:137-152 | surrogate pairs and the code points 0x10000 to 0x10FFFF determine each other |
| JsonUnicode.HexInverts | internal/httpd/jsonstream.go:160-181 | four hexadecimal digits of either case are read as the number they were written for |
| JsonUnicode.EscapeIsItsEncoding | internal/httpd/jsonstream.go:130-157 | an accepted escape gives the only UTF-8 encoding of its code point, and a decoder reads that code point back |
| Utf8.DecodeInvertsEncode | internal/httpd/jsonstream.go:185-201 | a decoder written from RFC 3629 section 4 inverts the encoder on every scalar value |
| Utf8.EncodeInvertsDecode | internal/httpd/jsonstream.go:185-201 | every accepted encoding is the one the encoder writes |
| JsonScan.SkipWs | internal/httpd/clip.go:505-521 | skips white space up to the first other byte |
| JsonScan.SkipWsThen | internal/httpd/clip.go:524-536 | skips white space and the wanted byte, or fails |
| JsonScan.ReadStringValue | internal/httpd/clip.go:551-556 | reads a string value behind white space |
| JsonScan.TryConsumeNull | internal/httpd/clip.go:573-591 | consumes a null, and leaves anything else unread |
| JsonScan.ReadStringOrNull | internal/httpd/clip.go:560-568 | a string, or none for a null |
| JsonScan.ReadNumber | internal/httpd/clip.go:594-639 | the integer part of a number, with a fraction only skipped |
| JsonScan.SkipJsonValue | internal/httpd/clip.go:644-686 | does what the skipping function says on every input; the recursion ends by the remaining bytes and the function called |
| JsonScan.SkipJsonContainer | internal/httpd/clip.go:691-713 | the same for the inside of an object or array |
| JsonValues.SkipSpelled | internal/httpd/clip.go:644-713 | any well-formed value of any depth is skipped exactly, and nothing of what follows it |
| Envelope.ReadKey | internal/httpd/clip.go:169-200 | the next key of an object, or its end |
| Envelope.ClipParser.StreamBase64ToTemp | internal/httpd/clip.go:406-438 | a payload string is decoded into a new scratch file; one that is refused leaves a half-written file and its error |
| Envelope.CopyDecoded | internal/httpd/clip.go:418-421 | one read of the string after another into the decoder's buffer gives what the stream decoder makes of the whole text, and how the string ended |
| Envelope.ClipParser.ParseOneItem | internal/httpd/clip.go:298-399 | an item is parsed as the item function says, whatever its members |
| Envelope.ClipParser.ParseItemsStreaming | internal/httpd/clip.go:249-293 | the items array, with the scratch files of its items |
| Envelope.ClipParser.ParseEnvelopeStreaming | internal/httpd/clip.go:169-245 | the whole envelope: result, items, scratch list and files are those of the parsing function, on every input |
| EnvelopeText.ItemSpelled | internal/httpd/clip.go:298-399 | every spelling of an item does what its members do one after the other |
| EnvelopeText.ItemsSpelled | internal/httpd/clip.go:249-293 | the same for an array of items |
| EnvelopeMeaning.EnvelopeSpelled | internal/httpd/clip.go:169-245 | the same for an envelope document, repeated keys included |
| EnvelopeMeaning.ParsesEverySpelling | internal/httpd/clip.go:169-399 | without repeated keys the parse gives the version, channel and items that the keys name, each payload decoded, and stops just behind the document |
| EnvelopeMeaning.OrderDoesNotMatter | internal/httpd/clip.go:169-399 | two documents with the same members in any order are parsed alike |
| EnvelopeMeaning.BytesAtEncoded | internal/httpd/clip.go:375-391 | a payload that spells the encoding of some bytes, with line breaks anywhere, is these bytes |
| EnvelopeRefused.AcceptedIff | internal/httpd/clip.go:169-399 | of all well-formed documents in every spelling exactly those are accepted whose known members have the right kinds of values, payloads of base64 included |
| EnvelopeRefused.BadPayloadIsRefused | internal/httpd/clip.go:406-438 | whatever the text: a payload that ends inside a group, holds a character that is no symbol or does not end is refused, and its scratch file abandoned |
| EnvelopeRefused.PayloadErrors | internal/httpd/clip.go:421-432 | symbols that end inside a group give an unexpected end, whole groups that are not base64 a malformed request |
| EnvelopeGrammar.AcceptedIsEnvelope | internal/httpd/clip.go:169-713 | every body that is accepted, well-formed JSON or not, is a text of the grammar: members separated by single commas, known ones with values of their kinds, others with whatever balances |
| EnvelopeEndings.CutOrEnd | internal/httpd/clip.go:169-713 | a body that is cut and one that ends there have the same outcome and files, but that what fails for want of more is a failing source if it is cut, and never one if it ends |
| EnvelopeEndings.OpenString | internal/httpd/jsonstream.go:66-73 | a string without its closing quote is malformed if the body ends and a failing source if it is cut |
| EnvelopeEndings.BlankEnds | internal/httpd/clip.go:505-521 | white space up to the end is an incomplete body if it ends and a failing source if it is cut |
| EnvelopeEndings.CutNumber | internal/httpd/clip.go:594-639 | digits up to the cut are no version |
| ClipHandler.DecodeAndIngest | internal/httpd/clip.go:92-141 | a body that is not parsed, has another version or no items, or an item without anything to open changes nothing; any other goes into the ingest item by item |
| ClipHandler.DocumentIsGiven | internal/httpd/clip.go:92-141 | however an envelope is spelled, the ingest is given the kind, names, channel and bytes that its keys mean, or nothing if an item has neither text nor payload |
| EnvelopeScratch.ScratchIsListedIff | internal/httpd/clip.go:165-399 | whatever the body and whether it is accepted, every scratch file created is listed for removal if and only if no item in it opens a second payload |
| EnvelopeScratch.DocumentIsListedIff | internal/httpd/clip.go:165-399 | of a well-formed document in any spelling: if and only if no item has two members that are payloads |
| EnvelopeScratch.RepeatedPayloadIsNotListed | internal/httpd/clip.go:387-391 | a document whose first payload file is not listed |
| EnvelopeScratch.RejectedBodyIsNotListed | internal/httpd/clip.go:167-168 | a body cut in mid-parse whose first payload file is not listed |
| Base64.DecodeInvertsEncode | internal/httpd/clip.go:406-438 | the decoder inverts the encoding of RFC 4648 section 4 |
| Base64.Alphabet | internal/httpd/clip.go:418-421 | the symbols are those of RFC 4648, table 1 |
| Base64.DecodesIff | internal/httpd/clip.go:418-421 | exactly the texts are decoded that are whole groups of symbols with padding only at the end |
| Base64.EncodeInvertsDecode | internal/httpd/clip.go:418-421 | and each to the bytes whose encoding it is, but for unused bits in front of the padding |
| Base64Stream.OneShotIff | internal/httpd/clip.go:418-421 | the stream decoder, buffer by buffer, accepts what the one-shot decoder accepts, as the same bytes, and beyond that exactly texts with padding before their last four symbols |
| Base64Stream.StreamInvertsEncode | internal/httpd/clip.go:418-421 | the encoding of some bytes, with line breaks anywhere, is read as these bytes |
| Base64Stream.BehindPadding | internal/httpd/clip.go:418-421 | texts that only the stream decoder accepts: one encoding behind another |
| Base64Stream.AcceptedText | internal/httpd/clip.go:418-421 | what the stream decoder accepts is whole groups of four known symbols; without padding before the last four exactly base64 |
| Base64.DecodedLength | internal/wire/ceiling.go:29-49 | the loop counts symbols and padding |
| Base64.LengthIs | internal/wire/ceiling.go:43-48 | three bytes for every group less the pads, and never less than none |
| Base64.LengthOfEncoding | internal/wire/ceiling.go:29-49 | of the encoding of b, with white space inserted anywhere, the count is the length of b |
| Base64.EncodedSizeBound | internal/wire/ceiling.go:16-18 | how far encoding can inflate a list of payloads |
| Base64.EnvelopeFits | internal/wire/ceiling.go:16-18 | payloads within the cap stay under the ceiling if the other bytes and three for each payload fit in 64 KiB |
| Base64.CeilingIs | internal/wire/ceiling.go:16-18 | four thirds of the cap rounded down once, and 64 KiB; 69970602 for 50 MiB |
| Base64.CeilingHolds | internal/wire/ceiling.go:16-18 | what stays under the ceiling goes over the cap by 48 KiB at most |
| AgentFifo.Fifo.Enqueue | internal/store/waiters.go:23-34 | the first waiters get the first items, one each, and no send blocks |
| AgentFifo.Fifo.TakeOrPark | internal/store/waiters.go:39-50 | the oldest item is taken, or a new empty channel is parked |
| AgentFifo.Fifo.RemoveWaiter | internal/store/waiters.go:69-78 | takes exactly that channel off the list |
| AgentFifo.Fifo.TryReceive | internal/store/waiters.go:51-64 | the last look leaves the channel empty |
| FifoProtocol.StepKeeps | internal/store/waiters.go:23-78 | every step of every call keeps the invariant |
| FifoProtocol.SendNeverBlocks | internal/store/waiters.go:23-34 | in every run the first waiter's channel is empty when it is sent to |
| FifoProtocol.ExactlyOnceInOrder | internal/store/waiters.go:23-65 | items handed out followed by the queue are the enqueue history; each is held by a different call; queue or waiter list is empty outside the lock |
| FifoProtocol.TimeoutLosesNothing | internal/store/waiters.go:51-64 | a receive that returned nil left nothing in its channel, and nothing was queued when it left the list |
| FifoProtocol.EnqueueIsSteps | internal/store/waiters.go:23-34 | an undisturbed enqueue is a path of the protocol with the effect of the method |
| FifoProtocol.ReceiveIsSteps | internal/store/waiters.go:39-65 | an undisturbed receive takes the oldest item, or parks, times out with nothing and leaves the list |
| FifoProtocol.CallsGoOn | internal/store/waiters.go:23-78 | in every reachable state every call and the holder of the lock have their next step open to them |
| PathWaiters.Waiters.Resume | internal/store/waiters.go:90-98 | all who are parked get the path, and nobody stays parked |
| PathWaiters.Waiters.Park | internal/store/waiters.go:101-105 | a wait parks a new empty channel at the end |
| PathWaiters.Waiters.Remove | internal/store/waiters.go:121-130 | takes exactly that channel off the list |
| PathProtocol.MoveKeeps | internal/store/waiters.go:90-130 | every move of every call keeps the invariant |
| PathProtocol.SendNeverBlocks | internal/store/waiters.go:90-98 | a resume's next send never blocks, even after the waiter has gone |
| PathProtocol.SentOnce | internal/store/waiters.go:90-98 | no channel is sent to twice |
| PathProtocol.ResultIsFirstResume | internal/store/waiters.go:90-119 | a path that a wait returns is that of the first resume to take the lock after it parked |
| PathProtocol.MissedIff | internal/store/waiters.go:101-119 | a wait that leaves misses a resume exactly when that resume has not come to its send yet |
| PathProtocol.SomeWaitMisses | internal/store/waiters.go:90-119 | a run in which that happens |
| PathProtocol.CallsGoOn | internal/store/waiters.go:90-130 | in every reachable state every wait and every resume has its next step open to it |
| Journal.RecordRoundTrip | internal/store/agentjournal.go:126-137 | a drained item is the enqueued one unless its path was present and empty |
| Journal.JournalDir.Write | internal/store/agentjournal.go:61-74 | adds one record, named by the time and the next number; no name this process has used before is that name, and the record is listed from then on |
| JournalNames.NameInjective | internal/store/agentjournal.go:72 | a name tells its time and its number |
| JournalNames.NameText | internal/store/agentjournal.go:72 | a name is the time in decimal, a dash, the number in twenty digits and ".json" |
| Journal.RecordIff | internal/store/agentjournal.go:142-161 | what is listed: files that end in ".json" and do not start with ".taken-" |
| Journal.SidecarIsNoRecord | internal/store/agentjournal.go:98-104 | so no claim is listed again |
| Journal.JournalDir.ListRecords | internal/store/agentjournal.go:142-164 | exactly the unclaimed records, in ascending order |
| Journal.JournalDir.Claim | internal/store/agentjournal.go:98-119 | moves a record to its sidecar, reads it there and removes the sidecar; one that is gone is not claimed, and nothing changes |
| Journal.JournalDir.ClaimOldest | internal/store/agentjournal.go:97-119 | one pass over any listing, however old, takes out the names that are still there, up to the first record that can be read |
| Journal.JournalDir.DrainAgentDisk | internal/store/agentjournal.go:84-122 | alone, a drain returns the oldest record that can be read and takes out exactly it and the unreadable ones before it |
| Journal.WriteThenDrain | internal/store/agentjournal.go:61-122 | items written under ascending names into an empty journal come back one drain after the other, in that order, and nothing else does |
| Journal.SteadyClock | internal/store/agentjournal.go:72 | names ascend as long as the clock neither goes back nor changes its width |
| Delivery.TextArrivesIff | internal/store/agentjournal.go:126-137 | the reader of a drained text gets the bytes that were ingested exactly when they neither end in their only newline nor start with a token |
| Delivery.FileArrives | internal/store/agentjournal.go:126-137 | the reader of a drained file gets its path and its kind |
| JournalNames.NameOrder | internal/store/agentjournal.go:72 | exactly when one name sorts before another; for times of one width this is the order of (nanos, seq) |
| JournalNames.WidthMatters | internal/store/agentjournal.go:22-28 | a later record that sorts first |
| JournalProtocol.StepKeeps | internal/store/agentjournal.go:61-122 | every step of every writer and drainer keeps the invariant |
| JournalProtocol.Accounted | internal/store/agentjournal.go:84-122 | written = still listed + in flight + delivered + dropped, and only unreadable records are dropped |
| JournalProtocol.AtMostOnce | internal/store/agentjournal.go:97-119 | no record is delivered to two drains |
| JournalProtocol.RecordStays | internal/store/agentjournal.go:61-122 | a published record stays what was written through every claim and read |
| JournalProtocol.ClaimsOldest | internal/store/agentjournal.go:97-104 | of the records published before its listing, a pass claims the least that is still there |
| JournalProtocol.ClaimedInNameOrder | internal/store/agentjournal.go:84-122 | names published in increasing order are claimed in exactly that order, whoever claims them |
| JournalProtocol.ClaimOrderIff | internal/store/agentjournal.go:22-28 | for any names that can be published: they are claimed in ascending order in every run if and only if they are published in ascending order |
| JournalProtocol.LateNameIsClaimedLate | internal/store/agentjournal.go:22-28 | so a smaller name can be claimed after a larger one |
| JournalProtocol.EffortFalls | internal/store/agentjournal.go:86-121 | while no writer comes, a drain's own steps bring it nearer to its end and no other drain's step takes it away |
| JournalProtocol.Progress | internal/store/agentjournal.go:86-121 | in every reachable state a drain that has not returned can list, claim or read |
| JournalProtocol.DrainEnds | internal/store/agentjournal.go:86-121 | so in every run its own steps are bounded, and as long as it has neither returned nor been cancelled it has a step to take |
| JournalProtocol.SecondListingIsEmpty | internal/store/agentjournal.go:120-121 | a listing made again without a new record in between is empty |
| JournalProtocol.DrainIsSteps | internal/store/agentjournal.go:84-122 | an undisturbed drain is a path of the protocol with the effect of the method |
| Cb01.UvarintInverts | internal/sshx/cb01.go:337-346 | a number is read back, with what follows left over |
| Cb01.StringInverts | internal/sshx/cb01.go:348-378 | a string is read back if it is within the limit, and is a bad frame if not |
| Cb01.ItemsInvert | internal/sshx/cb01.go:90-229 | the same for a list of items |
| Cb01.FrameRoundTrip | internal/sshx/cb01.go:90-187 | a sent frame, whatever follows it, is received item for item and consumed exactly, if and only if its strings are within the limit; its count is one that a slice can be made for |
| Cb01.ReceivedAt | internal/sshx/cb01.go:90-229 | which received item is which sent item |
| Cb01.CutFrame | internal/sshx/cb01.go:150-229 | any decodable stream, cut at any byte: bad before the last payload, a short last payload inside it, unchanged behind it |
| Cb01.SentFrameCut | internal/sshx/cb01.go:90-229 | so a strict prefix of a sent frame is bad or has a short last payload and nothing else wrong |
| Cb01Layout.DecodedIsFrame | internal/sshx/cb01.go:150-229 | whatever is decoded is "CB01", the channel, the count, and items of kind, three texts of at most 65536 bytes, size and payload, each where it belongs |
| Cb01Layout.FrameIsDecoded | internal/sshx/cb01.go:150-229 | and every frame of that layout is decoded to its items, or ends in a panic for want of a slice |
| Cb01Layout.SentIsFrame | internal/sshx/cb01.go:90-134 | what is sent is a frame of that layout |
| Cb01Stream.PutUvarint | internal/sshx/cb01.go:337-346 | a 64-bit number fits the buffer and is its encoding |
| Cb01Stream.EncodeStreaming | internal/sshx/cb01.go:90-134 | a frame is sent whole exactly when all items can be, with the first error otherwise, and an unsent one is a prefix of itself |
| Cb01Stream.OutcomeIsFirstFailure | internal/sshx/cb01.go:106-131 | the error of a frame that is not sent is that of its first item without a reader or with one that ends early |
| Cb01Stream.EncodeBuffered | internal/sshx/cb01.go:70-83 | buffered items are always sent, unless there are none |
| Cb01Stream.ReadUvarint | internal/sshx/cb01.go:166 | reads a number of at most ten bytes and 64 bits |
| Cb01Stream.ReadString | internal/sshx/cb01.go:362-378 | reads a string within the limit |
| Cb01Stream.ReadHead | internal/sshx/cb01.go:193-213 | reads an item's metadata |
| Cb01Stream.GuardedReader.Read | internal/sshx/cb01.go:254-264 | one read, into an empty buffer too, gives the next bytes of the payload and never more than it has |
| Cb01Stream.GuardedReader.ReadAll | internal/sshx/cb01.go:254-264 | reads with any buffer add up to the payload and leave what is behind it |
| Cb01Stream.Decoder.SpillPayload | internal/sshx/cb01.go:278-298 | an early payload is spilled whole, or no file is left |
| Cb01Stream.Decoder.DecodeCB01 | internal/sshx/cb01.go:150-187 | the verdict of the decoding function, a panic for counts from any given limit on included, a reader for the last payload, and one spill for each earlier item; a refused frame leaves no spill |
| Cb01Stream.Decoder.Receive | internal/sshx/cb01.go:136-187 | decoding and draining the last payload gives all items and stops just behind the frame |
| Utf8Cut.Truncate | internal/sanitize/sanitize.go:218-230 | the loop drops bytes until a rune ends |
| Utf8Cut.LongestValidPrefix | internal/sanitize/sanitize.go:216-230 | valid UTF-8 is cut to its longest valid prefix within the limit |
| Utf8Cut.DropsToRune | internal/sanitize/sanitize.go:218-230 | any other string is cut to its longest prefix that ends in a rune |
| Utf8Cut.AsciiIsJustCut | internal/sanitize/sanitize.go:218-230 | ASCII is cut at the limit |
| Sanitize.CleanLeaf | internal/sanitize/sanitize.go:96-124 | the mapping loop, the trim, the fallback and the cap compute the clean name |
| CleanNames.CleanedIs | internal/sanitize/sanitize.go:96-124 | of the last component of a path, rune by rune: a listed character for itself, an underscore for any other rune or stray byte, without blanks at the ends; or the dated name, if nothing is left or a dot is in front |
| CleanNames.Glyphs | internal/sanitize/sanitize.go:102-109 | every name is made of such runes and bytes |
| CleanNames.OthersAreUnderscores | internal/sanitize/sanitize.go:96-124 | a name of up to 200 runes keeps their number, with an underscore for each that is not listed |
| CleanNames.CappedIs | internal/sanitize/sanitize.go:191-214 | what is longer is cut at 200 bytes, in front of an extension of 1 to 198 |
| CleanNames.Extensions | internal/sanitize/sanitize.go:151-190 | the extension of the dated name for each kind and uti |
| Sanitize.CleanIsSafe | internal/sanitize/sanitize.go:93-124 | every name becomes 1 to 200 allowed bytes without a dot in front |
| Sanitize.KeptIff | internal/sanitize/sanitize.go:96-124 | a name is kept as it is exactly when it is safe and has no space at an end |
| Sanitize.IdempotentIff | internal/sanitize/sanitize.go:96-124 | cleaning any raw name again changes nothing, if and only if the cap has not cut the mapped and trimmed name right behind a space |
| Sanitize.CleaningTwiceDiffers | internal/sanitize/sanitize.go:191-214 | a name for which it does |
| Sanitize.ExtensionSurvivesCap | internal/sanitize/sanitize.go:191-214 | an extension of 1 to 198 bytes survives the cap |
| Sanitize.ExtensionOf | internal/sanitize/sanitize.go:232-253 | the extension and the base of a name put together with a dot |
| Collisions.Itoa | internal/sanitize/sanitize.go:268-288 | the decimal form, in a buffer that always fits |
| Collisions.CollisionInjective | internal/sanitize/sanitize.go:259-266 | different numbers give different candidates |
| Collisions.CandidateIs | internal/store/concrete.go:196-206 | the candidates are the leaf itself and then, from 2 on, the number in parentheses between the base and the extension |
| Numbers.AtoiInvertsItoa | internal/sanitize/sanitize.go:268-288 | the decimal form is read back as its number |
| Collisions.CollisionIsStorable | internal/sanitize/sanitize.go:255-266 | a candidate is one path component and no temporary file |
| Collisions.ExtensionSurvivesCollision | internal/sanitize/sanitize.go:255-266 | the number goes in front of the extension |
| Collisions.StorableIsNotTemporary | internal/store/fsutil.go:30 | no leaf is a temporary name |
| Collisions.EscapesIff | internal/sanitize/sanitize.go:75-91 | a leaf escapes if and only if the save dir resolves to "." |
| Collisions.AbsoluteDirIsSafe | internal/sanitize/sanitize.go:75-91 | never for an absolute save dir, and the candidate is in it |
| Paths.JoinUnder | internal/sanitize/sanitize.go:82 | joining a leaf to a cleaned directory only puts a slash between them |
| Paths.DetoursAreDropped | internal/sanitize/sanitize.go:130-135 | cleaning drops empty components, dots, and names with the way back out of them, wherever they are |
| Paths.RootIsTop | internal/sanitize/sanitize.go:130-135 | there is no way up from the root |
| Paths.CanonicalIsClean | internal/sanitize/sanitize.go:130-135 | and nothing else is changed |
| Paths.BaseOfPath | internal/sanitize/sanitize.go:98 | the base of a path is its last component |
| SaveProtocol.StepKeeps | internal/store/concrete.go:155-191 | every step of every save keeps the invariant |
| SaveProtocol.StepLeavesOthers | internal/store/concrete.go:155-191 | a step alters no file but those of its own save |
| SaveProtocol.OldFilesUntouched | internal/store/concrete.go:155-191 | files that were there before are never altered or removed |
| SaveProtocol.ReservationIsFresh | internal/store/concrete.go:170-183 | the reserved path is free at the reservation, so the retry is never taken |
| SaveProtocol.LiveNamesDiffer | internal/store/concrete.go:170-191 | two live saves never hold one path |
| SaveProtocol.DoneIsStored | internal/store/concrete.go:185-190 | a finished save has its payload under its path |
| SaveProtocol.PayloadIsWhole | internal/store/concrete.go:185-190 | and that payload is all that it has appended, in order |
| SaveProtocol.OverLeavesNothing | internal/store/concrete.go:185-189 | a failed or removed save leaves no file, temporary or not |
| SaveProtocol.ProbingEnds | internal/store/concrete.go:196-206 | every probe brings the end of the probing nearer |
| SaveProtocol.OthersDoNotDelay | internal/store/concrete.go:196-206 | and no other save puts it off |
| SaveProtocol.ProbesBounded | internal/store/concrete.go:196-206 | so in every run a save that has the mutex probes at most once for each name then there and once more |
| SaveProtocol.SaveIsSteps | internal/store/concrete.go:155-191 | an undisturbed save is a path of the protocol that stores the payload under the first free candidate |
| SaveProtocol.SavesGoOn | internal/store/concrete.go:155-191 | in every reachable state the mutex is free or its holder is looking for a name, and every save has its next step open to it |
| Store.ReceiveStore.UniqueLeaf | internal/store/concrete.go:196-206 | terminates with the first candidate that is free |
| Store.ReceiveStore.SaveAs | internal/store/concrete.go:170-190 | reserve and write: one new file, or none |
| Store.ReceiveStore.WriteAtomic | internal/store/fsutil.go:24-56 | writes through a temporary file that does not stay |
| Store.ReceiveStore.SaveStream | internal/store/concrete.go:155-191 | one new file under the first free name of the clean leaf, or an error and no change |
| Store.ReceiveStore.SaveClipboardItem | internal/store/concrete.go:45-47 | the same in the save dir, named by the item's name; a free and safe name is kept as it is |
| Store.ReceiveStore.SaveClipboardText | internal/store/concrete.go:54-65 | a short text is not written, another goes to the first free candidate of clipbeam-<stamp>.txt |
| Store.ReceiveStore.FinishClipboard | internal/store/concrete.go:70-83 | last path, its file, recents and waiters, or nothing for no path; files that cannot be written stay as they were, and the rest is done all the same |
| Store.ReceiveStore.AppendRecents | internal/store/recents.go:27-44 | the last twenty of the old and the new, in order, each with its path and sender; a recents file that cannot be read counts as empty, and one that cannot be written stays |
| Store.ReceiveStore.SaveAgentItem | internal/store/concrete.go:88-112 | a file saved in the inbox under its name is given to the agent as an image or a file with that path, and to the journal where there is one; if the journal fails the file and the queued item stay, and the save reports an error |
| Store.ReceiveStore.EnqueueAgentText | internal/store/concrete.go:121-128 | a text is given with exactly its bytes, to the journal too, with the same error |
| IngestTerms.Terms.AcceptedIff | internal/ingest/ingest.go:99-205 | items are accepted if and only if nothing is wrong with any of them and their counted bytes do not exceed the maximum |
| IngestTerms.Terms.StopsAtFirstFault | internal/ingest/ingest.go:99-205 | otherwise the ingest stops at the first item with which something is wrong or the maximum is exceeded |
| IngestTerms.Terms.VerdictTells | internal/ingest/ingest.go:99-205 | which fault each verdict tells of |
| IngestTerms.Terms.Counting | internal/ingest/ingest.go:110-142 | what counts: every byte but those of clipboard texts that are not written |
| IngestTerms.Terms.StopsAtLeastExcess | internal/ingest/ingest.go:110-117 | of items that are only too large, that is the last item of the least prefix that exceeds it |
| Ingest.IngestClipboardItem | internal/ingest/ingest.go:103-144 | one item: saved under the first free candidate for its own name, counted, and removed again when it goes over |
| Ingest.IngestClipboardItems | internal/ingest/ingest.go:99-144 | the files of the items before the stop are there, each under its name, and no other new file |
| Ingest.IngestClipboard | internal/ingest/ingest.go:99-151 | besides, a refused ingest leaves last path, recents and waiters alone |
| IngestJob.NamedPlainly | internal/ingest/ingest.go:103-121 | an item whose safe name nothing has yet is stored under that name |
| Ingest.IngestAgentItem | internal/ingest/ingest.go:166-201 | one agent item: its file under its name, what the agent and the journal are given, a text with its bytes, and the cap |
| Ingest.IngestAgent | internal/ingest/ingest.go:161-205 | every item before the stop is given to the agent with its file in place under its name, or with its text; a file over the cap is given and gone; all paths given exist if and only if no file takes the counted bytes over the maximum |
| IngestJob.PathsExistIff | internal/ingest/ingest.go:161-205 | whenever an agent ingest stops, every path given exists if and only if no file of the items takes the counted bytes over the maximum before anything else stops it |
| IngestTerms.Terms.StopsOverFileIff | internal/ingest/ingest.go:173-182 | an ingest stops over a file exactly when the items go over the maximum with one |
| IngestTerms.Terms.GoesOverIff | internal/ingest/ingest.go:173-182 | of items without other faults: exactly when one with which they begin to exceed the maximum is a file |
| IngestJob.DanglingInput | internal/ingest/ingest.go:173-182 | one file of one byte and a maximum of none: the agent is given a path that does not exist |
| Ingest.Ingest | internal/ingest/ingest.go:81-93 | the first item's channel decides, and what the FIFO, the journal, the directory, last path and recents get is that of the channel; an empty list is malformed and changes nothing |
| Base32.DecodeInvertsEncode | internal/auth/auth.go:89-109 | an independent decoder inverts the encoding of RFC 4648 section 6 at every length |
| Base32.AlphabetIs | internal/auth/auth.go:14 | the symbols are those of RFC 4648, table 3 |
| Base32.EncodeInjective | internal/auth/auth.go:78-87 | different tokens have different texts |
| Base32.EncodedLength | internal/auth/auth.go:89-109 | n bytes make ceil(8n/5) symbols, and 15 make 24 |
| Base32.ShiftIn | internal/auth/auth.go:96 | the low bits of the wrapping register are the pending bits, after a byte is shifted in |
| Base32.TakeOut | internal/auth/auth.go:98-101 | and after five are taken out |
| Base32.FillUp | internal/auth/auth.go:104-107 | the last bits are filled up to a group |
| Base32.Base32Encode | internal/auth/auth.go:91-109 | the loops over the register compute the bit-wise encoding |
| RecvBody.ParseRecvBody | cmd/clipbeam/cli/recvparse.go:27-70 | the loop over lines computes the parse |
| RecvBody.ParsePrinted | internal/httpd/response.go:88-103 | what every printed item is parsed to |
| RecvBody.RoundTripIff | cmd/clipbeam/cli/recvparse.go:19-70 | the item comes back exactly when its text neither ends in its only newline nor starts with a token |
| RecvBody.ExtractPrepended | cmd/clipbeam/cli/recvparse.go:96-121 | a token is taken off as it was put on, unless it has a closing bracket of its own |
| RecvBody.TokenText | cmd/clipbeam/cli/recvparse.go:119-121 | what is put in front of a text |
| RecvBody.CidRoundTripIff | cmd/clipbeam/cli/recvparse.go:96-121 | text and token come back exactly when the token has no closing bracket and the whole does not end in its only newline |
| ShellWord.ShellQuote | cmd/clipbeam/cli/verbs_send.go:217-232 | the loop quotes the string |
| ShellWord.RemoteIngestCommand | cmd/clipbeam/cli/verbs_send.go:206-215 | to a POSIX shell the command is the program, the recorded path or the bare name, and the one argument "ingest" |
| ShellWord.RemoteCommandIsTwoWords | cmd/clipbeam/cli/verbs_send.go:206-232 | a POSIX shell sees the two words, the path and "ingest", for every path without NUL |
| ShellWord.BareCommandIsTwoWords | cmd/clipbeam/cli/verbs_send.go:206-215 | so it does without a recorded path |

## Left out

- Envelope.ClipParser.StreamBase64ToTemp: a disk on which no scratch file can be created or written is not modelled. Nor is that Go's decoder reads on behind a bad escape which directly follows a buffer of nothing but line breaks.
- Envelope.ClipParser.ParseOneItem: as for StreamBase64ToTemp, which it calls.
- Envelope.ClipParser.ParseItemsStreaming: as for StreamBase64ToTemp.
- Envelope.ClipParser.ParseEnvelopeStreaming: as for StreamBase64ToTemp.
- EnvelopeMeaning.ParsesEverySpelling: is about documents without repeated keys and without lone surrogates; what repeated keys do is in EnvelopeSpelled, and any input at all in ParseEnvelopeStreaming.
- EnvelopeGrammar.AcceptedIsEnvelope: that every text of the grammar is accepted is proved for well-formed documents only.
- ClipHandler.DecodeAndIngest: the gate and the status codes in front of and behind it, the removal of the scratch files, and the mime type, which the ingest does not use.
- Cb01Stream.Decoder.DecodeCB01: errors of the stream other than its end are not told apart, and a count that memory runs out for is like one that panics.
- Cb01Stream.EncodeStreaming: what of an unsent frame's prefix has already left the buffered writer is not modelled.
- Journal.JournalDir.DrainAgentDisk: one drain alone is a method; several are the protocol, in which a name is published once and a rename fails only when the name is gone, and a listing is one step. Context cancellation between passes is a step of the protocol only.
- Store.ReceiveStore.SaveStream: one directory of one process. Two processes can still choose one name, and a disk that fails is one flag of the save; modes, fsync and symbolic links of the candidates are left out.
- Base64.EnvelopeFits: is over unbounded integers, without the overflow of a 64-bit int.
- Ingest.Ingest: classification of the source, the sender (always empty there) and the reply's JSON are left out; an item's reader is a sequence of bytes and a flag for failing.
- FifoProtocol.StepKeeps: goroutines are steps; the memory model of Go and the fairness of its scheduler are not part of it.
- The class of the store records what is given to the FIFO, to the waiters and to the journal; how these pass it on is in their own modules.
- Go's encoding/json for journal records and configuration: records are values here.
- HTTP, SSH, Tailscale, setup, status codes, configuration, the recents file's format, timing of the token comparison: not modelled.
- byteBuffer.Write, sliceReader.Read and itoa64 are as easy as what they resemble and are left out.
