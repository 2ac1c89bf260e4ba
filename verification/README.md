# A model of the SIP media controller's parsers and dialogue engine

The program receives SIP over UDP and TCP, follows the calls it sees, and talks to its controller and
media server in JSON; configuration and bodies may be XML, and binary data is carried as base64. This
project models the parts in which bytes become messages and messages become calls, and proves what
holds of them for every input and every run.

The code that changes things in place is modelled as classes and loops (`MessageBuffer`, `SipParser`,
`SipConnection`, `SipDialogueManager`, `SipInterface`, `Reader`, `FastWriter`, `XmlDocument`, the
tokenisers and the base64 loops). Every such method is proved equal to a function of its inputs and the
old state, and the theorems below are about those functions.

| file | content |
|---|---|
| `Bytes.dfy` | bytes, options, concatenation |
| `MessageBuffer.dfy`, `ByteQueue.dfy`, `DelimiterScan.dfy` | the ring buffer, as a byte queue, and its delimiter search |
| `SipFraming.dfy`, `Segmentation.dfy`, `StaleCuts.dfy`, `DrainBuffer.dfy`, `Datagrams.dfy` | cutting a TCP stream or a datagram into messages, which cuts lose messages, and which overrun the buffer |
| `HeaderFields.dfy` | unfolding, normalising and splitting header fields |
| `CallEngine.dfy`, `Dialogues.dfy`, `CallRuns.dfy` | the dialogue engine, its classes, and what holds over every run |
| `JsonValues.dfy`, `JsonNumbers.dfy`, `JsonStrings.dfy` | the order of values, integer text, string quoting |
| `JsonGrammar.dfy`, `JsonReader.dfy`, `JsonWriter.dfy`, `JsonRoundTrip.dfy` | the reader, the writer, and that the one inverts the other |
| `XmlGrammar.dfy`, `XmlDocument.dfy`, `XmlRoundTrip.dfy`, `XmlLookup.dfy` | the XML parser, that it inverts rendering, path lookup |
| `Buffers.dfy`, `Base64.dfy` | the tokenisers and base64 |

## Main results

- **The ring is a queue.** Any run of pushes, pulls and flushes hands out the bytes of a queue, and no
  byte is lost, repeated or moved (`RingRefinesQueue`, `RingConserves`).
- **The delimiter search is exactly characterised.** It finds the first CRLFCRLF if and only if the run
  of CRs before it has even length (`HitIsFirstDelimiter`).
- **TCP segmentation matters exactly at harmful cuts.** A stream of well-formed messages, cut anywhere, is
  delivered as it was sent if and only if no cut inside a header section lets the search from the start
  of that section find a match beyond the cut, among the bytes the ring held before
  (`DeliveredIffHarmless`). The first cells, the messages and the places of the cuts decide this. On a new
  connection whose cells hold no LF, every cutting of a stream that does not fill the ring is delivered
  (`DeliveredWithoutLf`); with CR and LF in the next two cells every message is lost that is first read up
  to the end of a header line (`LostMessage`, `LostBehindLine`).
- **The drain buffer is overrun exactly by large shares of a body.** A stream of well-formed messages, with
  bodies of any size an `int` holds, is delivered as it was sent without copying past the buffer if and only if no cut
  does harm and no chunk holds more than 1024 bytes of one body (`SafelyDeliveredIff`).
- **A datagram with one message delivers it**, whatever the unused cells hold (`DatagramDelivers`).
- **Calls do not interfere.** In any interleaving the outputs of a call are the whole log of an engine that
  sees that call alone, with channel 1 replaced by the call's own channel (`CallsDoNotInterfere`); every
  call's events are well formed and carry its channel (`RunIsTraced`); the two indexes agree if and only
  if at most 2^32 calls were seen (`IndexesAgree`).
- **JSON round trip.** Reading what the writer wrote yields the value, whatever bytes follow, if and only
  if it is at most 1000 levels deep (`RoundTrip`); the value order is a strict total order
  (`StrictTotalOrder`).
- **XML round trip.** For every tree with safe names, attributes and texts and any white space between its
  tags, the parser rebuilds the tree, at every nesting depth, if and only if it is well spaced
  (`ParseInverts`, `NodeParses`): no line break stands directly behind a start or end tag, white space in
  front of an element ends with a blank or a line break, and white space behind a start tag ends with a
  line break. Header lines and tags that close themselves are covered (`ClosedParses`).
- **Header fields survive any folding** (`FieldsSurviveFolding`), **splitting undoes
  joining** (`SplitUndoesJoin`), and **base64 decoding inverts encoding** (`Base64.RoundTrip`).

## Where the code differs from its documentation or from what one expects

The model follows the code. Each of these is visible in a definition or proved as a lemma.

- The delimiter search restarts at zero on a mismatch without looking at that byte again. It misses the
  delimiter in `CR CR LF CR LF` (`MissedDelimiter`). It finds a match only if the match ends before the
  last byte of the caller's buffer, and it is not bounded by the stored bytes: old cells may complete a
  match, and the pull then takes everything stored (`StalePullTakesAll`, `LostMessage`).
- `pull(buf, bufSize, bytes)` does not compare the count with `bufSize`, and the TCP loop pulls up to
  Content-Length bytes into 1024. The model has an outcome `overrun` for this, and says exactly when it
  occurs (`OnTcpRecv`, `OnlyBodiesOverrun`, `OverrunIffLargeShare`, `BodyOverruns`). A negative Content-Length counts as a huge one.
- A second INVITE of a call fires a new-call event even when its CSeq is the old one, which the log
  message calls ignoring it.
- The recording event that a BYE fires carries the request's own channel field, which nothing sets.
- The channel counter wraps at 2^32 and the insertion into the channel map keeps the old entry.
- The CLEARING state is never reached (`RunIsTraced`).
- The JSON reader takes a lone `-` for the integer 0 (`LoneMinusIsZero`) and accepts leading zeros, both
  excluded by section 6 of RFC 8259. It accepts a closing brace behind a comma when the last name was
  empty, and any token in place of a separator behind a comment. Its depth counter is not
  counted down after a syntax error.
- The JSON reader takes the escape of a lone low surrogate, and decodes it to an ill-formed UTF-8 sequence
  (`LoneLowSurrogate`), which section 3 of RFC 3629 excludes; a high surrogate is combined with any
  second escape (`HighSurrogateTakesAny`).
- Integers are read back as signed up to 2^31 - 1 and as unsigned above, so the round trip is exact for
  exactly the trees whose integers have those types (`CanonicalIsExact`).
- A string value whose pointer is null leaves no text in the written document.
- The header normaliser stops at the first line without a value, so that a Content-Length behind a field
  with an empty value is lost (`FieldsBehindAreLost`). It writes no colon behind a name of at most
  one letter, and keeps at most 63 characters of a name and 511 of a value.
- An XML start tag directly followed by a line break makes the parser read the same property for ever
  (`LineBreakHangs`); an end tag directly followed by one loses the last character of its name
  (`TailRead`). A tag that closes itself directly behind its name, such as `<b/>`, is taken for a start tag
  (`BareTagIsStartTag`); with attributes or a blank it is not. Of white space behind a start tag that does not end with a line
  break, the last character becomes the element's value, no child is read, and an element with children
  is not valid (`BlankFirstGap`).

## Model

| member | source | states |
|---|---|---|
| MessageBuffers.MessageBuffer.constructor | src/components/utilities/MessageBuffer.cpp:12-19 | an empty buffer of the given capacity whose cells are arbitrary |
| MessageBuffers.MessageBuffer.Push | src/components/utilities/MessageBuffer.cpp:27-47 | an oversize chunk changes nothing; otherwise the chunk stands behind the stored bytes in ring order, also across the wrap, and no other cell changes |
| MessageBuffers.MessageBuffer.PullCount | src/components/utilities/MessageBuffer.cpp:68-93 | the first min(wanted, stored) bytes are handed out in order and the rest of the caller's buffer is zeroed; or the original copies past the end of that buffer, exactly when the count exceeds its size |
| MessageBuffers.MessageBuffer.Find | src/components/utilities/MessageBuffer.cpp:110-145 | the search loop looks at the ring's cells in order from the read position, wrapping |
| MessageBuffers.MessageBuffer.PullDelimited | src/components/utilities/MessageBuffer.cpp:95-155 | what a pull up to a delimiter takes, including too few stored bytes and an empty delimiter |
| MessageBuffers.MessageBuffer.Flush | src/components/utilities/MessageBuffer.cpp:157-161 | nothing is stored, the cells stay, and the whole capacity is available |
| MessageBuffers.MessageBuffer.StoredByteCount | src/components/utilities/MessageBuffer.cpp:163-168 | the number of stored bytes from the two positions, wrapped or not |
| MessageBuffers.MessageBuffer.SpaceAvailableByteCount | src/components/utilities/MessageBuffer.cpp:170-172 | stored and available bytes together are the capacity |
| MessageBuffers.RotateFurther | src/components/utilities/MessageBuffer.cpp:79-90 | moving the read position, wrapped or not, turns the ring by exactly that many cells |
| MessageBuffers.PushWrapped | src/components/utilities/MessageBuffer.cpp:35-44 | the two copies of a wrapped push put the chunk behind the stored bytes and touch no stored byte |
| ByteQueues.OperationRefines | src/components/utilities/MessageBuffer.cpp:27-161 | one push, pull or flush does to the stored bytes what append, take and clear do to a queue; a refused push changes nothing |
| ByteQueues.RingRefinesQueue | src/components/utilities/MessageBuffer.cpp:27-161 | every run of operations hands out and keeps the bytes of a queue with the same capacity |
| ByteQueues.RunConserves | src/components/utilities/MessageBuffer.cpp:27-161 | over every run of a queue, what it held and accepted is what departed and what it still holds, in order |
| ByteQueues.RingConserves | src/components/utilities/MessageBuffer.cpp:27-161 | over every run of the ring, the bytes held at the start and accepted are those handed out, flushed and still held, in order |
| ByteQueues.LeftIsHandedOut | src/components/utilities/MessageBuffer.cpp:68-161 | but for flushes, what leaves the ring is what its operations hand out |
| DelimiterScan.HitIsSound | src/components/utilities/MessageBuffer.cpp:118-141 | what the search stops at ends in CRLFCRLF |
| DelimiterScan.HitIsFirstDelimiter | src/components/utilities/MessageBuffer.cpp:118-141 | the search stops at the first CRLFCRLF if and only if the run of CRs in front of it has even length |
| DelimiterScan.HitOnCrLfText | src/components/utilities/MessageBuffer.cpp:118-141 | on text in which LF follows every CR, the search finds the first delimiter |
| DelimiterScan.HitNeedsDelimiter | src/components/utilities/MessageBuffer.cpp:118-145 | without a delimiter the search finds nothing |
| DelimiterScan.MissedDelimiter | src/components/utilities/MessageBuffer.cpp:129-133 | a text whose only delimiter is missed |
| DelimiterScan.PullIsHit | src/components/utilities/MessageBuffer.cpp:95-155 | a pull whose search stays within the stored bytes takes up to the match, if that ends before the buffer's size |
| DelimiterScan.StalePullTakesAll | src/components/utilities/MessageBuffer.cpp:118-152 | a search that a match in old cells ends makes the pull take everything stored |
| SipFraming.SipParser.LoadMessageData | src/components/sip/SipParser.cpp:22-72 | header state and body counting: what is delivered, what stays pending, and the state afterwards |
| SipFraming.SipConnection.DrainOnce | src/components/sip/SipInterface.cpp:219-229 | one turn of the drain loop takes a header section or pending body bytes and feeds the parser, for any Content-Length; or it overruns its buffer, exactly when it pulls more than 1024 bytes |
| SipFraming.SipConnection.OnTcpRecv | src/components/sip/SipInterface.cpp:210-230 | a read stores its chunk and drains until a pull yields nothing, unless a pull of that drain overruns the buffer |
| SipFraming.OnlyBodiesOverrun | src/components/sip/SipInterface.cpp:215-224 | a pull overruns the buffer if and only if more than 1024 body bytes are expected and stored |
| SipFraming.BoundedDrainFits | src/components/sip/SipInterface.cpp:218-230 | with Content-Lengths of 0 to 1024 no drain overruns its buffer |
| SipFraming.LoadStaysBounded | src/components/sip/SipParser.cpp:48-69 | with Content-Lengths of 0 to 1024 the pending count always fits the drain buffer |
| SipFraming.UdpSlicesConserve | src/components/sip/SipInterface.cpp:172-179 | the slices of a datagram concatenate to the datagram, whatever the unused cells hold |
| SipFraming.UdpSlicesAreHits | src/components/sip/SipInterface.cpp:172-179 | every slice ends where the search stops in the rest of the datagram; the last one is what remains |
| SipFraming.OnUdpRecv | src/components/sip/SipInterface.cpp:165-179 | the loop ends; the parser is given exactly those slices, none of them empty; a datagram over 4096 bytes is dropped |
| Datagrams.DatagramDelivers | src/components/sip/SipInterface.cpp:172-179 | an idle parser that is given the slices of a datagram with one message, its body included, delivers exactly that message and is idle again, wherever the slices end |
| Segmentation.SegmentationIndependence | src/components/sip/SipInterface.cpp:210-230 | every cutting of a stream delivers every message once, in order, with header bytes and body size, if and only if no search goes past the stored bytes; nothing is then left pending or stored |
| DrainBuffer.SafelyDeliveredIff | src/components/sip/SipInterface.cpp:210-230 | a cut stream is delivered as sent, without an overrun on the way, if and only if no cut does harm and no chunk holds more than 1024 bytes of one body |
| DrainBuffer.OverrunIffLargeShare | src/components/sip/SipInterface.cpp:215-224 | where no cut does harm, the buffer is overrun if and only if some chunk holds more than 1024 bytes of one body |
| DrainBuffer.RunFitsIff | src/components/sip/SipInterface.cpp:215-224 | from any point inside a stream on, a run without a stale search overruns the buffer if and only if some chunk holds such a share |
| DrainBuffer.DrainFitsIff | src/components/sip/SipInterface.cpp:218-230 | one drain, before or inside any message, overruns the buffer if and only if some body has more than 1024 bytes among the stored ones |
| DrainBuffer.SmallBodiesFit | src/components/sip/SipInterface.cpp:215-224 | with bodies of at most 1024 bytes no chunk holds such a share, however the stream is cut |
| Segmentation.BodyOverruns | src/components/sip/SipInterface.cpp:215-224 | behind one header section with any Content-Length, also a negative one, of which all is still to come or more than 1024, the drain overruns its buffer if and only if more than 1024 bytes wait |
| Segmentation.CleanRunDelivers | src/components/sip/SipInterface.cpp:218-230 | from any point inside a stream on, a run without such a search delivers the remaining messages |
| Segmentation.DirtyRunLosesMessages | src/components/sip/SipInterface.cpp:218-230 | a run with such a search never delivers exactly the messages sent |
| Segmentation.DrainInSync | src/components/sip/SipInterface.cpp:218-230 | one drain keeps the connection in step with the stream and delivers the messages completed by it |
| Segmentation.PullInSync | src/components/utilities/MessageBuffer.cpp:95-155 | waiting for a header, a pull takes the whole header section or nothing |
| StaleCuts.DeliveredIffHarmless | src/components/sip/SipInterface.cpp:210-230 | a cut stream is delivered as sent if and only if no cut does harm, told from the first cells, the messages and the cut points alone |
| StaleCuts.CleanRunIff | src/components/utilities/MessageBuffer.cpp:118-141 | from any point inside a stream on, the searches of a run stay within the stored bytes if and only if none of its cuts does harm |
| StaleCuts.CleanDrainIff | src/components/sip/SipInterface.cpp:218-230 | the searches of one drain do if and only if the cut in front of which it runs does no harm |
| StaleCuts.PushWindow | src/components/utilities/MessageBuffer.cpp:35-44 | the cells of a ring are a window of the stream and of what was stored a ring's length earlier; a push moves the end of the window |
| StaleCuts.DropWindow | src/components/utilities/MessageBuffer.cpp:79-90 | a pull moves its start |
| StaleCuts.DeliveredWithoutLf | src/components/utilities/MessageBuffer.cpp:12-19 | on a new connection whose cells hold no LF every cutting of a stream that leaves 1024 cells of the ring unused is delivered |
| StaleCuts.LostMessage | src/components/utilities/MessageBuffer.cpp:118-141 | for every parser, stream and new connection: if the first read ends in the first header section behind two matched bytes and the next two cells hold CR and LF, the stream is not delivered as sent |
| StaleCuts.LostBehindLine | src/components/utilities/MessageBuffer.cpp:118-141 | so it is for every message with CRLF header lines that is first read up to the end of one of them |
| HeaderFields.ReadHeaderLine | src/components/sip/SipParser.cpp:247-328 | one unfolded header line, its name, and where the next one starts |
| HeaderFields.Normalise | src/components/sip/SipParser.cpp:186-240 | the normal form of a header section |
| HeaderFields.BuilderFields | src/components/sip/messages/SipMessage.cpp:74-96 | the names and values that the message builder splits the normal form into |
| HeaderFields.SentIsNormalised | src/components/sip/SipParser.cpp:186-328 | a section of well-formed fields, however folded, normalises to one line for each field |
| HeaderFields.NormalFormSplits | src/components/sip/messages/SipMessage.cpp:74-96 | splitting that normal form gives the names and values |
| HeaderFields.RawFieldsSurvive | src/components/sip/SipParser.cpp:186-240 | normalising and splitting fields gives back their names and scanned values |
| HeaderFields.FieldsSurviveFolding | src/components/sip/SipParser.cpp:186-240 | for every list of fields, with CRLF in front of any blank around the colon or in the value, and whatever follows the line that ends them, normalising and splitting gives back exactly the names and values |
| HeaderFields.FieldsBehindAreLost | src/components/sip/SipParser.cpp:200-236 | a field without a value loses every field behind it |
| HeaderFields.EmptyLineEnds | src/components/sip/SipParser.cpp:300-327 | the empty line ends the header section, whatever follows it |
| HeaderFields.FoldedField | src/components/sip/SipParser.cpp:276-321 | a field with blanks around the colon and CRLF in front of any of its blanks has its unfolded value |
| Dialogues.SipDialogue.constructor | src/components/sip/SipDialogue.cpp:9-20 | a dialogue holds the request that created it and, for an INVITE, its SDP |
| Dialogues.SipDialogue.SetCurrentTransaction | src/components/sip/SipDialogue.cpp:22-73 | the transaction is set with the offer of an INVITE |
| Dialogues.SipDialogueManager.RetrieveByChannel | src/components/sip/SipDialogueManager.cpp:47-61 | the dialogue of a channel, filed under its own channel id and call-id, or none |
| Dialogues.SipDialogueManager.RetrieveByCallId | src/components/sip/SipDialogueManager.cpp:63-78 | the dialogue of a call-id, or none |
| Dialogues.SipDialogueManager.GetNextChannelId | src/components/sip/SipDialogueManager.cpp:103-108 | the counter goes up by one and wraps at 2^32 |
| Dialogues.SipDialogueManager.StartTransaction | src/components/sip/SipDialogueManager.cpp:17-45 | a known call-id yields no transaction; otherwise a new dialogue is filed under its call-id and, unless the channel id is taken, under that |
| Dialogues.SipDialogueManager.UpdateTransaction | src/components/sip/SipDialogueManager.cpp:110-201 | only an INVITE for an unknown call changes anything |
| Dialogues.SipInterface.ProcessMessage | src/components/sip/SipInterface.cpp:50-108 | a request without a transaction is dropped; any other goes to its handler |
| Dialogues.SipInterface.ProcessInvite | src/components/sip/SipInterface.cpp:445-468 | the dialogue becomes INCOMING; a trying response and a new-call event follow |
| Dialogues.SipInterface.ProcessAck | src/components/sip/SipInterface.cpp:470-483 | an INCOMING dialogue becomes CONNECTED with an answered event; otherwise nothing changes |
| Dialogues.SipInterface.ProcessBye | src/components/sip/SipInterface.cpp:485-516 | a CONNECTED dialogue becomes CLEARED with an OK response and a cleared event, and a recording event if it was recording |
| Dialogues.SipInterface.StartRecordingCall | src/components/sip/SipInterface.cpp:394-410 | the dialogue of the channel is recording and the event says so; -1 for an unknown channel |
| Dialogues.SipInterface.GetMediaOffer | src/components/sip/SipInterface.cpp:337-354 | the offer of the channel's transaction, empty for an unknown channel |
| CallRuns.RunIsIndexed | src/components/sip/SipDialogueManager.cpp:17-45 | after every run, channel ids count the calls in order of their first INVITE and each dialogue holds that INVITE |
| CallRuns.IndexesAgree | src/components/sip/SipDialogueManager.cpp:103-108 | the two indexes are in bijection if and only if at most 2^32 calls were seen |
| CallRuns.MediaOfferIsFirstSdp | src/components/sip/SipInterface.cpp:337-354 | a channel's media offer is the SDP of the INVITE that opened it, whatever happens later |
| CallRuns.UnknownCallIgnored | src/components/sip/SipDialogueManager.cpp:166-176 | a request other than an INVITE for an unknown call has no effect |
| CallRuns.RunIsStamped | src/components/sip/SipInterface.cpp:394-516 | in every run each new-call, answered, recording-started and cleared event carries the channel id of its own call |
| CallRuns.RunIsTraced | src/components/sip/SipInterface.cpp:445-516 | in every run each answered event directly follows a new-call event of the call and each cleared event an answered one; all of them carry the call's channel; the last determines the state; CLEARING is not reached |
| CallRuns.TraceCounts | src/components/sip/SipInterface.cpp:445-516 | a call is cleared at most as often as answered and answered at most as often as announced |
| CallRuns.StepAlone | src/components/sip/SipInterface.cpp:50-108 | one step of an interleaved run is, for each call, a step of that call alone or nothing |
| CallRuns.RunAlone | src/components/sip/SipInterface.cpp:50-108 | the state of a call after any interleaving is that after its own actions |
| CallRuns.CallsDoNotInterfere | src/components/sip/SipInterface.cpp:50-108 | in every interleaving the events and responses of the i-th call are those of its own actions alone, with channel 1 replaced by the channel of the i-th call |
| CallRuns.UnknownCallIsSilent | src/components/sip/SipInterface.cpp:50-108 | nothing is sent or fired for a call that no INVITE opened |
| JsonValues.Trichotomy | lib/json/jsoncpp.cpp:2949-2994 | of two different values exactly one is less |
| JsonValues.Transitive | lib/json/jsoncpp.cpp:2949-2994 | the order is transitive through nested arrays and objects |
| JsonValues.BytesTrichotomy | lib/json/jsoncpp.cpp:2708-2720 | keys are totally ordered by the common length first and the length second |
| JsonValues.EqualIsIdentity | lib/json/jsoncpp.cpp:3002-3045 | equality holds of identical trees only |
| JsonValues.StrictTotalOrder | lib/json/jsoncpp.cpp:2949-3045 | irreflexive, asymmetric, transitive, and neither side less exactly when equal |
| JsonNumbers.UintToString | lib/json/jsoncpp.cpp:149-155 | the decimal digits end before the final NUL, and at most 21 cells are written |
| JsonNumbers.IntToString | lib/json/jsoncpp.cpp:124-138 | the decimal text of every 64-bit signed value, without underrunning the 25-byte buffer |
| JsonNumbers.UIntToString | lib/json/jsoncpp.cpp:140-146 | the decimal text of every 64-bit unsigned value |
| JsonNumbers.DecodeNumber | lib/json/jsoncpp.cpp:753-793 | the integer path is taken for exactly the digit strings in -2^63..2^64-1, and no intermediate value exceeds the bound |
| JsonNumbers.DecimalIsNumber | lib/json/jsoncpp.cpp:149-155 | the digits printed stand for the number |
| JsonNumbers.IntegerRoundTrip | lib/json/jsoncpp.cpp:753-793 | decoding a printed integer gives it back, unsigned only above 2^31 - 1 |
| JsonNumbers.LoneMinusIsZero | lib/json/jsoncpp.cpp:753-793 | a lone minus sign is the integer 0 |
| JsonStrings.ValueToQuotedString | lib/json/jsoncpp.cpp:4271-4332 | both paths of the writer give the escaped text between quotes |
| JsonStrings.ContainsControlCharacter | lib/json/jsoncpp.cpp:4114-4122 | whether a byte from 0 to 31 occurs |
| JsonStrings.StringEndIsClosingQuote | lib/json/jsoncpp.cpp:637-647 | the reader stops at the closing quote the writer wrote, whatever follows |
| JsonStrings.UnescapeEscaped | lib/json/jsoncpp.cpp:828-879 | decoding undoes every escape |
| JsonStrings.QuotingRoundTrip | lib/json/jsoncpp.cpp:828-937 | every byte string survives quoting, scanning and decoding |
| JsonStrings.Utf8RoundTrip | lib/json/jsoncpp.cpp:104-130 | a code point becomes its one well-formed, shortest UTF-8 sequence if and only if it is no surrogate and at most U+10FFFF |
| JsonStrings.LoneLowSurrogate | lib/json/jsoncpp.cpp:881-908 | the escape of a lone low surrogate is decoded to an ill-formed sequence |
| JsonStrings.HighSurrogateTakesAny | lib/json/jsoncpp.cpp:881-908 | a high surrogate is combined with the escape of a letter |
| JsonGrammar.ReadToken | lib/json/jsoncpp.cpp:444-513 | a token lies within the text and only the end of the text is a token without characters |
| JsonGrammar.ReadValue | lib/json/jsoncpp.cpp:350-432 | reading ends on every text without passing its end, and a value takes at least one character |
| JsonReader.Reader.ReadToken | lib/json/jsoncpp.cpp:444-513 | the cursor reads exactly the next token |
| JsonReader.Reader.RecoverFromError | lib/json/jsoncpp.cpp:949-960 | recovery ends behind the first token of the wanted kind or at the end, and keeps no error of its own |
| JsonReader.Reader.DecodeString | lib/json/jsoncpp.cpp:828-879 | the decoded bytes, or exactly one error |
| JsonReader.Reader.DecodeUnicodeCodePoint | lib/json/jsoncpp.cpp:881-908 | the code point of an escape or a surrogate pair |
| JsonReader.Reader.ReadArray | lib/json/jsoncpp.cpp:705-741 | the elements of an array, or exactly one recorded error |
| JsonReader.Reader.ReadObject | lib/json/jsoncpp.cpp:649-703 | the members of an object, or exactly one recorded error |
| JsonReader.Reader.ReadValue | lib/json/jsoncpp.cpp:350-432 | the value at the cursor, exactly one error, or the exception for too deep nesting |
| JsonReader.Reader.Parse | lib/json/jsoncpp.cpp:308-348 | the value a document starts with, and whether an error was recorded |
| JsonWriter.FastWriter.Write | lib/json/jsoncpp.cpp:4351-4357 | the text of the value and a line feed |
| JsonWriter.FastWriter.WriteValue | lib/json/jsoncpp.cpp:4359-4411 | the text of a value is appended, with separators between elements and members |
| JsonRoundTrip.ValueParses | lib/json/jsoncpp.cpp:350-432 | the text of a value is read back at every depth, whatever ends it |
| JsonRoundTrip.ArrayParses | lib/json/jsoncpp.cpp:705-741 | so is the text of an array |
| JsonRoundTrip.ObjectParses | lib/json/jsoncpp.cpp:649-703 | so is the text of an object, keys in order |
| JsonRoundTrip.RoundTrip | lib/json/jsoncpp.cpp:308-348 | reading what the writer wrote gives the value back, unless it is nested more than 1000 levels deep |
| JsonRoundTrip.CanonicalIsExact | lib/json/jsoncpp.cpp:753-793 | the value read back is the very same if and only if its integers have the types the reader gives |
| XmlDocuments.XmlDocument.Read | src/components/utilities/XmlDocument.cpp:126-133 | the next character that is not skipped, or none |
| XmlDocuments.XmlDocument.SkipWhiteSpace | src/components/utilities/XmlDocument.cpp:155-160 | white space is skipped up to its last character |
| XmlDocuments.XmlDocument.Unread | src/components/utilities/XmlDocument.cpp:162-171 | the cursor goes back over line breaks and one character |
| XmlDocuments.XmlDocument.ReadValue | src/components/utilities/XmlDocument.cpp:173-208 | the value at the cursor, or that the code leaves what it defines |
| XmlDocuments.XmlDocument.ParseProperty | src/components/utilities/XmlDocument.cpp:328-399 | the attribute at the cursor, unquoted |
| XmlDocuments.XmlDocument.ParseProperties | src/components/utilities/XmlDocument.cpp:309-326 | all attributes of a tag, the first of a name; or that the loop never ends |
| XmlDocuments.XmlDocument.ParseNode | src/components/utilities/XmlDocument.cpp:210-307 | the node at the cursor with its children, its validity, and where it ends |
| XmlDocuments.XmlDocument.Parse | src/components/utilities/XmlDocument.cpp:401-428 | the top-level nodes up to the first that is not valid |
| XmlDocuments.XmlDocument.GetValue | src/components/utilities/XmlDocument.cpp:21-64 | the value at a dotted path, or the default |
| XmlDocuments.SplitItems | src/components/utilities/util.cpp:37-52 | the items between delimiters, none behind a delimiter at the very end |
| XmlGrammar.ParseNode | src/components/utilities/XmlDocument.cpp:210-307 | a valid node always moves the cursor on, so the loops over nodes end |
| XmlGrammar.ParseProperty | src/components/utilities/XmlDocument.cpp:328-399 | a property never moves the cursor back, so a loop over properties runs for ever only by standing still |
| XmlRoundTrip.AllProperties | src/components/utilities/XmlDocument.cpp:309-399 | the attributes of any kind of tag are read back, with line breaks, blanks and `<` allowed in their values |
| XmlRoundTrip.TailRead | src/components/utilities/XmlDocument.cpp:286-299 | an end tag carries the name if no line break follows, and never if one does |
| XmlRoundTrip.ForestParses | src/components/utilities/XmlDocument.cpp:261-274 | a row of elements is rebuilt, up to the end tag around it, if and only if it is well spaced |
| XmlRoundTrip.NodeParses | src/components/utilities/XmlDocument.cpp:210-307 | an element, a tag that closes itself or a header, with any white space in front of it and between its tags, is rebuilt exactly, at any depth, if and only if the white space in front ends well, its gaps are well spaced, and no line break directly follows an end tag |
| XmlRoundTrip.ClosedParses | src/components/utilities/XmlDocument.cpp:251-259 | a tag that closes itself and a header line with attributes or a blank are rebuilt, whatever follows them |
| XmlRoundTrip.BareTagIsStartTag | src/components/utilities/XmlDocument.cpp:191-193 | a tag that closes itself directly behind its name, with no line break behind it, is read as a start tag |
| XmlRoundTrip.BlankFirstGap | src/components/utilities/XmlDocument.cpp:260-299 | of white space behind a start tag that does not end with a line break, the last character becomes the value, no child is read, and an element with children is not valid |
| XmlRoundTrip.ParseInverts | src/components/utilities/XmlDocument.cpp:401-428 | a document with header lines, elements and tags that close themselves, safe names, values and texts and any white space between tags is parsed into its trees if and only if it is well spaced |
| XmlRoundTrip.NodeHangs | src/components/utilities/XmlDocument.cpp:309-326 | a start tag directly followed by a line break is never read to its end |
| XmlRoundTrip.LineBreakHangs | src/components/utilities/XmlDocument.cpp:162-171 | a line break directly behind a start tag makes the parser run for ever |
| XmlLookup.ItemsOfJoined | src/components/utilities/util.cpp:37-52 | a dotted path splits into the names it was made of |
| XmlLookup.ValueAtBuilt | src/components/utilities/XmlDocument.cpp:21-64 | a path leads to the attribute, else to the first element of that name, as in the tree |
| XmlLookup.ValuesOfRendered | src/components/utilities/XmlDocument.cpp:21-64 | in the parse of a rendered document, a dotted path yields what stands there in the tree, or the default |
| Buffers.RunsOfWeave | src/components/utilities/buffers.cpp:169-193 | splitting pieces with separators between and around them gives the pieces |
| Buffers.TextIsWoven | src/components/utilities/buffers.cpp:169-193 | every text is its runs with separators between and around them, so the runs are maximal and nothing else is lost |
| Buffers.SplitLines | src/components/utilities/buffers.cpp:137-167 | the lines are the maximal runs without CR and LF, in order |
| Buffers.Split | src/components/utilities/buffers.cpp:169-193 | the pieces are the maximal runs without the delimiter and NUL, in order |
| Buffers.SplitOnFirst | src/components/utilities/buffers.cpp:195-218 | the parts around the first delimiter, or the whole text and nothing |
| Buffers.Join | src/components/utilities/buffers.cpp:100-111 | the pieces from an offset on, with a delimiter between each two, and in front of the first one too unless the offset is zero |
| Buffers.SplitUndoesJoin | src/components/utilities/buffers.cpp:169-193 | splitting inverts joining, from any offset on, for non-empty pieces without the delimiter and NUL |
| Buffers.Contains | src/components/utilities/buffers.cpp:76-98 | true if and only if the value stands at some position, with or without regard to case |
| Base64.Encode | src/components/utilities/base64.cpp:7-50 | the loops produce the encoding, four characters for each three bytes, padded at the end |
| Base64.Decode | src/components/utilities/base64.cpp:52-101 | the loops decode the characters in front of the first one outside the alphabet |
| Base64.EncodedShape | src/components/utilities/base64.cpp:7-50 | the length is 4*ceil(n/3) and only the end is padding |
| Base64.RoundTrip | src/components/utilities/base64.cpp:52-101 | decoding an encoding gives the bytes back |
| Base64.EncodingIsInjective | src/components/utilities/base64.cpp:7-50 | different bytes have different encodings |
| Base64.FillerIsInert | src/components/utilities/base64.cpp:81-98 | on every text, what stands for the missing characters of the last group does not reach the output |

## Left out

- Sockets, timers, logging, `sendMessage`, the media and control interfaces, `MediaSessionManager` and `ResourceManager`: I/O, foreign calls or stubs; responses sent and events fired are entries of a log.
- `answerCall`, `rejectCall`, `clearCall`, `processCancel`, `processResponse`, `endTransaction`, `releaseDialogue`: not implemented or not reached by the requests the builder constructs. The re-INVITE flag, which nothing reads, is left out too.
- `MessageBuffer::getchar` and `putchar`: the SIP path does not call them.
- Message body contents and multipart bodies: framing is stated in body byte counts.
- The header parser inside the framing model is a parameter that yields a Content-Length or nothing; `HeaderFields.dfy` models the header text itself. The header and request classes, SDP classes and `buffer_starts_with`, `buffer_equals` and the trim functions are left out.
- SipFraming.SipConnection.OnTcpRecv: behind an overrun of the drain buffer nothing is said of the state. The received count is an unbounded integer; on TCP it never exceeds the Content-Length, an `int`. For datagrams its overflow beyond 2^31 is left out.
- MessageBuffers.MessageBuffer.PullCount: behind an overrun of the caller's buffer nothing is said of the state.
- Segmentation.SegmentationIndependence: assumes header sections of at most 1023 bytes whose first delimiter the search finds, bodies of less than 2^31 bytes, chunks of at most 8192 bytes as the read buffer allows, and a connection that has seen nothing yet. StaleCuts.DeliveredIffHarmless and DrainBuffer.SafelyDeliveredIff assume the same.
- HeaderFields.ReadHeaderLine: the two character arrays are sequences bounded by the arrays' sizes; the byte behind the message is taken to be NUL.
- HeaderFields.FieldsSurviveFolding: covers names of 2 to 63 letters and hyphens not starting with a hyphen and non-empty values of at most 510 bytes without line breaks, not starting with a blank or colon; the normaliser merges or drops the others.
- HeaderFields.BuilderFields: every line of the normal form is split at its first colon, the first line included; the choice of header class is left out. The branch for a line split into one part is never taken, because the split always yields two.
- CallRuns.CallsDoNotInterfere: the event for the end of a recording carries the request's own channel field and is compared unchanged.
- JSON: the text of doubles is a parameter in both directions and the round trip excludes doubles and null string pointers. Comments are skipped but not collected. The styled writers, `OurReader`, `Path`, sparse arrays, the options of `FastWriter`, and the partly built root and the node stack after a failed parse are left out.
- JsonValues.StrictTotalOrder: doubles are real numbers, so NaN is left out, and sizes are compared as integers, without the 32-bit wrap of their difference.
- JsonReader.Reader.Parse: errors are counted; their texts and places are left out.
- XmlDocuments.XmlDocument.ParseProperties: where the original repeats the same property for ever, the method ends with the outcome `Endless`; where it reads through a null pointer or behind the byte after the document, or asks for a string of negative length, the outcome is `Undefined`.
- XmlRoundTrip.ParseInverts: covers documents with a NUL behind them, names without white space, NUL and the characters `< > / " \ = ?`, attribute values without `>`, `"` and `\`, texts without `<` and `>` that do not start with white space, one blank before each attribute, quoted attribute values, and attributes or a blank in a tag that closes itself.
- XmlDocuments.XmlDocument.Parse: a method of its own here; the original calls it in the constructor. The flag that says whether a document has any node is left out.
- `XmlDocument::getProperties` and the printing of nodes: the first reads a flag that was never set when a name is missing.
- Base64.Decode: the input is a string of characters shorter than 2^31, so its `int` index does not overflow.
