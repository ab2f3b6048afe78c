# YABWF, a single-process web server, in Dafny

YABWF serves HTTP from one process: an event loop moves requests between three linked queues and calls the handler of
each request's state. This project models the parts of it that work in place on lists, tables and buffers, and proves
what the rest of the server relies on:

- **The scheduler** (Queues, Scheduler, PollLoop, SelectLoop). The ready, blocked and free queues are intrusive doubly
  linked lists; requests are blocked, freed, kept alive and accepted while the ready queue is walked. In every state at
  the top of either event loop the queues are well formed, disjoint and together hold every request;
  total_connections is |ready| + |blocked|, at most max_connections + 1; and the poll table is in bijection with the
  blocked queue. One pass serves each request that was ready exactly once.
- **Byte ranges** (RangeSyntax, RangeStandard, RangeTable, Layout, PartReader, WireOrder, Delivery, Turns, RangeService,
  Decimal). The transition table of the parser accepts a recursive grammar; the list surgery against the file size is a
  map and filter that loses no node; under every schedule of short and blocked writes the slices of the file are handed
  over in order and exactly once. Any number of turns writes the response in its order, part headers included; the
  socket gets it in that order if and only if no direct write overtakes bytes in the buffer; and a client that reads it
  by sections 14.16 and 19.2 of RFC 2616 gets just the parts of the answer, each of which says truly which bytes it has.
  The answer to a header value with numbers below 2^32-1 is the one that section 14.35.1 wants exactly under a condition
  on the value that is given in full, malformed values included.
- **The mmap cache** (MmapCache). Open addressing with reference counts; a pigeonhole argument ends every probe.
- **Input** (HeaderSyntax, HeaderReader, BodySpool). The header state machine is a line splitter for every way the
  bytes arrive, pipelined requests included; the body spool writes exactly Content-Length bytes.
- **Texts** (PathText, Escape, UriText, OutputBuffer, AliasTable). The path cleaner computes the normal form of a
  rewriting system; decoding undoes escaping; the output buffer is first in, first out; the hashed alias index agrees
  with a linear scan.
- **CGI output** (CgiHeader). The stripper leaves only header lines, and all that there are up to the last line that is
  none; there is exactly one place to cut at, and it is found. It works once.

C structs that are updated in place are classes; the ghost fields of a node (its list, its place there) replace pairwise
distinctness. `unsigned long` is a word of 32 bits, as on the ARM targets that the server's own README.md:103 names.
Strings are sequences of characters, and positions stand for pointers. Results of system calls are parameters, or
arbitrary values.

## Where the code differs from what is said about it

- A suffix range `-N` with N >= filesize loses the first byte of the file (src/range.c:156-180), against section 14.35.1
  of RFC 2616; `RangeTable.FixMeaning` says exactly when. `RangeTable.WholeFileSuffix` is such a range.
- A range whose last byte is below its first makes the RFC ignore the header; the code drops just the range, and answers
  416 when no other is left (src/range.c:188-203). `RangeService.InvertedIsDropped` is such a header.
  `RangeService.RangesServed` says exactly when the answer is the RFC's, these two failures together.
- A Range header that is not understood is answered with 416 (src/request.c:980-983); by the RFC it is ignored, as
  `RangeService.LoneHyphenIsRefused` shows. Ranges without a comma between them are served (src/range.c:291-373), where
  the RFC has the header ignored: `RangeService.NoCommaIsServed`. A blank in front of the '=' is refused
  (src/range.c:249): `RangeService.BlankIsRefused`. Numbers of 2^32 and more wrap around:
  `RangeService.WrappedIsServed`. The ranges of an empty file are not looked at (src/get.c:271-280).
  `RangeService.AnsweredAsDue` says exactly when the answer to a header value is the RFC's, all of these together but
  for large numbers.
- process_requests calls the handler after a flush that was short (src/request.c:478-491), and the handler writes past
  the buffer: the socket gets the response out of order. `Turns.Turn` says exactly when, `Delivery.Overtaken` is a case.
- The comment at src/get.c:412 trusts 256 free bytes to hold what follows the first range, but the copy in front of it
  takes all of the buffer: `Delivery.PartKilled` is a request that dies by it, `Delivery.Transfer.FirstCopy` says when.
- free_request lets a request go whose last flush is blocked, with bytes unsent (src/request.c:315-326); its comment
  says that it does what the DONE branch does, where such a request waits. `Turns.Release` says exactly when.
- A file that is held in the mmap cache is not found behind a slot that has been freed, and is mapped a second time, as
  the comment at src/mmap_cache.c:56-63 concedes; `MmapCache.FoundIfNoGap`, and `MmapCache.MappedTwice` for a case.
- The limit of the mmap cache is compared with `>` (src/mmap_cache.c:76), so that 129 mappings can be held;
  `MmapCache.OneMore`.
- add_alias means to leave out duplicates, but does not compare with the last node of the bucket (src/alias.c:109-113);
  `AliasTable.AddedTwice`. No answer changes by it. The alias "/" is in a bucket that longer URIs do not look into;
  `AliasTable.BucketScan`.
- strip_cgi_prefix looks for the last wildcard name in a line, and the last letter of a name followed by ": " is one
  (src/cgi_header.c:233-241): such a name is cut down to that letter; `CgiHeader.TokenIsKept` says exactly when a token
  survives. The copy of the function in test/unit/test_cgi_strip_prefix.c:366-382 expects a line that begins with
  "DEBUG: " to be stripped; src/cgi_header.c:71-86 takes such a line for a header. The comment at
  src/cgi_header.c:66-70 leaves out that a blank must follow the colon.
- The closing separator of a multipart response is dropped when the buffer has no room for it, and the request is done
  all the same (src/response.c:158-160); `Delivery.Transfer.CloseParts`, and `Delivery.SeparatorLost` for an input.
- In the select loop, a request in io_shuffle that waits for its file is not put back into its descriptor set
  (src/select.c:184-191); `SelectLoop.FdsetUpdate` has it as the one exception, `SelectLoop.Forgotten` is a
  case.
- HEX_TO_DECIMAL takes any two characters for hex digits (src/defines.h:173-175): "%4G" is decoded to "P";
  `UriText.TildeIsDecoded`. On hex digits it is right: `UriText.TripletIsDecoded`.
- escape_string leaves '?' alone (src/escape.c:51-54), so that decoding does not give the text back;
  `UriText.EscapeRoundTrip`.

## Model

| member | source | states |
|---|---|---|
| PathText.CleanPathname | src/util.c:47-71 | clean_pathname on a buffer: the C string at its front becomes its normal form, followed by NUL; what lies behind is not touched |
| PathText.CompactInPlace | src/util.c:47-71 | the one pass with a read and a write position in the same buffer leaves there what the pure function Clean gives for the text that was in it |
| PathText.SkipSegments | src/util.c:54-64 | the inner loop stops exactly behind the redundant segments |
| PathText.CleanInvariant | src/util.c:47-71 | rewriting "//", "/./" or "/../" to "/" at any place of the input does not change the result |
| PathText.CleanIsNormal | src/util.c:47-71 | the result contains none of the three |
| PathText.NormalIsFixed | src/util.c:47-71 | a path that contains none of the three is left alone |
| PathText.CleanIdempotent | src/util.c:47-71 | cleaning twice is cleaning once |
| PathText.DerivationKeepsClean | src/util.c:47-71 | any number of rewriting steps, at any places, leads to a text with the same result |
| PathText.CleanIsReached | src/util.c:47-71 | the result is reached from the input by rewriting steps |
| PathText.CleanIsTheNormalForm | src/util.c:47-71 | the result is the unique normal form: every way of rewriting until nothing is left to rewrite ends in it, and one such way exists |
| PathText.CleanKeepsCharacters | src/util.c:47-71 | cleaning only drops characters |
| Escape.BuildNeedsEscape | src/escape.c:46-80 | from any contents of the table, the bit of every character below 128 is clear exactly for the special characters |
| Escape.MarkOne | src/escape.c:72-79 | after the bit of one more character is cleared, every other character is marked as it was |
| Escape.SpecialIsPlain | src/escape.c:49-51 | the special characters are the unreserved ones of section 2.4.1 of RFC 2396 and the listed marks, '?' among them |
| Escape.TestIsNeedsEscape | src/escape.h:44 | the bit that needs_escape tests on a built table is set exactly for the characters that are not plain |
| UriText.UnescapeUri | src/util.c:372-422 | the in-place decoder computes Unescape, which TripletIsDecoded, FragmentIsDropped and EscapeSplitsAtQuery pin down; success flag included, bytes behind the NUL are as before, and the query position points at the raw query |
| UriText.FindQuery | src/util.c:400-412 | behind a fragment mark, the first '?' starts the query |
| UriText.QueryBehindPath | src/util.c:372-422 | the decoded path is never longer than what was read for it, so that the query lies behind it untouched |
| UriText.DecodeAndClean | src/request.c:804-819 | decoding and then cleaning in one buffer: accepted exactly when decoding succeeds and the clean path begins with '/'; the accepted path is normal, and the query still holds its raw bytes |
| UriText.EscapeString | src/buffer.c:271-299 | the buffer, given or new, holds the escaped text; no result exactly without a buffer when the text is empty or malloc fails |
| UriText.HexRoundTrip | src/defines.h:172-175 | HEX_TO_DECIMAL undoes INT_TO_HEX on every byte |
| UriText.TripletIsDecoded | src/defines.h:173-175 | a percent sign and two hex digits of section 2.4.1 of RFC 2396, in any mix of upper and lower case, stand for the byte with that number, which is decoded when it is printable ASCII and refused otherwise |
| UriText.TripletIsWritten | src/buffer.c:288-296 | an escaped byte is written as a percent sign and the two hex digits of its number, the higher one first; every other byte as itself |
| UriText.TildeIsDecoded | src/defines.h:173-175 | "/%7Ebob" and "/%7ebob" are "/~bob"; and "%4G", which is no hex number, is taken for "P" |
| UriText.FragmentIsDropped | src/util.c:400-414 | a fragment is dropped, and a query behind it is found |
| UriText.UnescapePrefix | src/util.c:372-422 | decoding an escaped text gives its characters back and goes on with what follows it |
| UriText.UnescapeUpTo | src/util.c:372-422 | what decoding an escaped text gives when its first character that does not survive is known |
| UriText.EscapeSplitsAtQuery | src/buffer.c:271-299 | with a '?', decoding gives the part before it and leaves the escaped rest as the query |
| UriText.EscapeRoundTrip | src/buffer.c:271-299 | decoding an escaped text succeeds with that text exactly when all its characters are printable ASCII other than '?' |
| UriText.QueryIsCutOff | src/escape.c:52-54 | a concrete text that does not come back: its '?' was not escaped |
| Decimal.SimpleItoa | src/util.c:476-492 | the digits end at the last place of the 22-character buffer and are the decimal form of the number |
| Decimal.NumberOfDec | src/util.c:476-492 | the decimal form of a number stands for that number |
| Decimal.DigitsAre | src/util.c:476-492 | a digit stands for its place among the ten |
| Decimal.CanonicalForms | src/util.c:476-515 | the texts without a leading zero are exactly the decimal forms of the numbers |
| Decimal.BoaAtoi | src/util.c:498-515 | accepted exactly: digits without a leading zero whose number is at most 2^31-1; then that number, and -1 for everything else, overflow included |
| Decimal.PrefixOfOwnValue | src/util.c:506-513 | the memcmp with the shorter or longer printed value accepts only the printed value itself, in spite of saturation |
| RangeSyntax.RunIsGrammar | src/range.c:291-373 | the transition table, run from the initial mode, accepts exactly the texts of the recursive grammar and submits exactly the ranges that the grammar gives |
| RangeSyntax.RunStart | src/range.c:291-373 | from mode startnum the table reads the rest of a first number, blanks, a hyphen and what follows it |
| RangeSyntax.RunGap2 | src/range.c:291-373 | from mode gap2 the table reads an optional last number and the end of the range |
| RangeSyntax.RunStop | src/range.c:291-373 | from mode stopnum the table reads the rest of the last number and submits or aborts |
| RangeSyntax.ParsePrinted | src/range.c:231-240 | one printed range, whatever its numbers, is read back, each number modulo 2^32 |
| RangeSyntax.ParsePrintedList | src/range.c:231-240 | the printed form of a list of closed, open and suffix ranges with any numbers is parsed to the pairs of words that it denotes exactly when none of them is (-1, -1), and refused otherwise |
| RangeSyntax.NumberWraps | src/range.c:291-373 | a concrete range that is taken for another one, because its number does not fit into a word |
| RangeSyntax.DenotedInjective | src/range.c:231-240 | with numbers below 2^32-1, the pairs of words tell the lists apart |
| RangeSyntax.PrintListInjective | src/range.c:231-240 | two lists with numbers below 2^32-1 that print alike are the same list |
| RangeStandard.ElementsAreParsed | src/range.c:291-373 | every list of elements as section 14.35.1 of RFC 2616 defines it, with the list and white space rules of its section 2.1 and numbers of any size, is parsed to the pairs of words that it denotes, unless one of them is (-1, -1) |
| RangeStandard.PrintedIsRfc | src/range.c:231-240 | a printed list is a byte-ranges-specifier of the RFC, with these ranges |
| RangeStandard.NoComma | src/range.c:291-373 | a whole family: two closed ranges with a blank and no comma between them are taken for both; by the RFC they are no list |
| RangeStandard.BlankBeforeEquals | src/range.c:249-256 | a blank in front of the '=' is allowed by the RFC, and not by the comparison with "bytes=" |
| RangeStandard.BytesIs | src/range.c:249-253 | what is looked for is the token "bytes" in any case, with the '=' right behind it |
| RangeTable.RangeStore.RangeParse | src/range.c:241-376 | range_parse on the heap list: accepts exactly "bytes=" and a text of the grammar, and then appends exactly its ranges in order; after an abort the list is the one marker node |
| RangeTable.RangeStore.Act | src/range.c:348-369 | one table entry: abort, submit or nothing; a range with neither end given aborts |
| RangeTable.RangeStore.RangeAdd | src/range.c:90-113 | the new node is the last of the list; it is the first node of the pool, or a new one when the pool is empty |
| RangeTable.RangeStore.RangeAbort | src/range.c:80-88 | the list is the one marker node; list and pool hold the nodes that they held, and at most one new one |
| RangeTable.RangeStore.RangesReset | src/range.c:33-45 | all nodes go to the pool, in reverse |
| RangeTable.RangeStore.RangePoolPush | src/range.c:74-78 | the node is the first of the pool |
| RangeTable.RangeStore.RangePoolPop | src/range.c:47-64 | the first node of the pool, or a new one, cleared |
| RangeTable.RangeStore.RangePoolEmpty | src/range.c:66-72 | the pool ends up empty |
| RangeTable.RangeStore.RangesFixup | src/range.c:119-229 | the list is the map-then-filter of Fix in order; it returns 1 iff something survives; each dropped node is in the pool, and list and pool together hold the nodes they held |
| RangeTable.RangeStore.FixLoop | src/range.c:141-217 | the list surgery keeps the surviving nodes themselves, in order, and pushes the others |
| RangeTable.RangeStore.FixOne | src/range.c:141-217 | one node is kept behind the last one kept, or unlinked and pushed |
| RangeTable.FixMeaning | src/range.c:156-203 | a range that section 14.35.1 of RFC 2616 calls valid covers exactly the bytes that the RFC gives it if and only if it is not a suffix range with N >= filesize; what those become instead, and that an inverted range (last below first) is dropped |
| RangeTable.WholeFileSuffix | src/range.c:156-180 | a concrete suffix range that loses the first byte of the file |
| RangeTable.FixListInside | src/range.c:188-206 | every survivor has start <= stop < filesize |
| RangeTable.FixKeepsNodes | src/range.c:119-229 | the nodes kept and the nodes pushed are the nodes of the list, none lost and none twice |
| RangeTable.ChainsShareNothing | src/range.c:33-113 | the list of a request and the pool have no node in common |
| RangeTable.PushedHolds | src/range.c:33-45 | pushing a list node by node gives the pool all its nodes |
| OutputBuffer.Outgoing.ReqWrite | src/buffer.c:35-61 | the whole message is appended, or nothing and the request is dead; exactly when it does not fit |
| OutputBuffer.Outgoing.ReqWriteEscapeHttp | src/buffer.c:75-123 | success appends exactly the escaped message; the exact guard band that decides it, and otherwise the escaped prefix that is left in the buffer of the dead request |
| OutputBuffer.Outgoing.ReqWriteEscapeHtml | src/buffer.c:125-196 | the same for HTML entities |
| OutputBuffer.HtmlRoundTrip | src/buffer.c:134-176 | HTML text, with each entity read as what it stands for, is the text that was written |
| OutputBuffer.NoMarkup | src/buffer.c:134-176 | no angle bracket and no quote is left in it, and an ampersand only at the front of an entity |
| OutputBuffer.HttpTakenAll | src/buffer.c:83-120 | the loop writes the whole message exactly when its last character finds the room that the guard band asks for |
| OutputBuffer.HtmlTakenAll | src/buffer.c:133-193 | the same for the guard band of six characters |
| OutputBuffer.Outgoing.ReqFlush | src/buffer.c:206-250 | what the socket took leaves the front of the buffer; the return value and the state for blocked, failed and short writes |
| OutputBuffer.Outgoing.Play | src/buffer.c:35-250 | any run of writes and flushes: what was sent, followed by what is in the buffer, is everything appended |
| OutputBuffer.Outgoing.FirstInFirstOut | src/buffer.c:206-250 | the socket has got a prefix of what was appended, and the buffer holds what is missing |
| OutputBuffer.Outgoing.WriteDirect | src/get.c:447-484 | a write past the buffer: the order on the socket is kept exactly when nothing is written or nothing waits in the buffer |
| WireOrder.DirectKeeps | src/get.c:447-484 | the same about the places of the bytes, so that equal bytes do not hide a wrong order |
| WireOrder.StoredKeeps | src/buffer.c:35-61 | a write to the buffer neither breaks nor mends the order |
| WireOrder.FlushedKeeps | src/buffer.c:206-250 | nor does a flush, however short |
| WireOrder.OrderedWire | src/buffer.c:206-250 | with the order kept, what the socket has got, followed by what waits, is what was written |
| Layout.ScriptStep | src/response.c:143-167 | sending n bytes of the first range takes just them off the rest of the response: its bytes, the headers and bytes of further ranges, and the closing separator |
| Layout.AllFitMeans | src/buffer.c:35-61 | a row of messages fits exactly when all of them together do |
| Layout.HeaderLength | src/response.c:110-131 | the header of a part is no longer than its content type and 84 characters |
| PartReader.HeaderIsRead | src/response.c:110-131 | read by section 14.16 of RFC 2616, the header in front of a part says exactly start, stop and file size, behind its content type; it begins with a delimiter of the boundary if and only if there are several parts |
| PartReader.PartialIsRead | src/response.c:110-167 | a client that reads a whole partial response by section 19.2 of RFC 2616 gets exactly the parts that the ranges ask for: a single one, or those up to the closing delimiter |
| PartReader.SentPartsAre | src/response.c:110-167 | one part for each range, and each has the bytes of the file that its header names |
| Delivery.Transfer.SetUpRanges | src/get.c:282-335 | the ranges to deliver are those of the request, or the whole file, cut to the file; the response is partial exactly when the request had ranges |
| Delivery.Transfer.InitGet | src/get.c:254-419 | the set-up establishes the delivery invariant, for a mapped file or for io_shuffle; the opening, its part header included, is written first, and then exactly the rest of the response is written or owed; the request dies exactly when a range that was copied whole leaves no room for the next header; an empty file gets its header only, and with no range left nothing is touched |
| Delivery.Transfer.WriteAll | src/response.c:121-131 | a row of messages goes to the buffer up to the first that does not fit; then the request is dead |
| Delivery.Transfer.OpenPart | src/response.c:110-131 | the header of the next range is written when it fits, and reads back as the first byte, the last byte and the file size, with a delimiter if and only if there are several; otherwise the request dies |
| Delivery.Transfer.FirstCopy | src/get.c:364-415 | the bytes copied behind the header are the next bytes of the response; the request dies exactly when the first range is copied whole and the next header does not fit; when the last separator is lost |
| Delivery.Transfer.ProcessGet | src/get.c:431-496 | one write of a mapped file: blocked changes nothing, a short write delivers just as many bytes; what is written and what is owed stay the same text; the order on the socket breaks exactly when bytes waited in the buffer; DONE, DEAD and a lost separator by exact conditions |
| Delivery.Transfer.IoShuffleSendfile | src/pipe.c:171-253 | the same for sendfile |
| Delivery.Transfer.IoShuffle | src/pipe.c:265-366 | what is read from the file is appended to the output buffer right behind what it had; part headers follow their slices, in the order of the response; no separator is lost, and a header of up to 256 characters always fits |
| Delivery.Transfer.CompleteResponse | src/response.c:143-167 | the first node goes to the pool; with another part to send, its header goes to the buffer, and after the last of several parts the closing separator; otherwise the request is done and the buffer untouched |
| Delivery.Transfer.CloseParts | src/response.c:158-160 | the closing separator is appended exactly when it fits, and the request is done in either case |
| Delivery.SeparatorLost | src/response.c:158-160 | a run of two parts in which the buffer is full at the end: the request is done, and the separator is nowhere |
| Delivery.PartKilled | src/get.c:409-413 | a request for two ranges whose first one fills the buffer: it dies, against the comment that the 256 bytes are enough |
| Delivery.Overtaken | src/request.c:475-506 | a run in which a part is written past bytes that wait in the buffer: the socket does not get the response in order |
| Delivery.Transfer.Advance | src/get.c:484-492 | n bytes more, and the next range when the first is done: what is written and what is owed stay the same text, and the status is given exactly |
| Delivery.Transfer.Book | src/get.c:484-492 | only the start of the first range moves; the books of delivered and planned bytes, and of the text still owed, are kept |
| Delivery.Transfer.DeliveredInOrder | src/get.c:431-496 | what was delivered is a front of the plan, all of it once the request is done, less while it is not; bytes_written is its length for a mapped file |
| Turns.FlushFirst | src/request.c:475-491 | the flush at the start of a turn: when the handler is called, and whether bytes are left in the buffer |
| Turns.Turn | src/request.c:471-586 | one turn: flush, handler, free_request; a direct write overtakes bytes exactly when the flush before it was short |
| Turns.Release | src/request.c:308-327 | the flush of free_request: the request goes with bytes unsent exactly when that flush is blocked |
| Turns.TakeTurns | src/request.c:457-587 | any run of turns, on every path and under every schedule: what is delivered is a front of the plan; everything that is written, part headers and closing separator included, is the response in its order; the socket gets it in that order if and only if no direct write overtook bytes in the buffer; when everything goes well, the run ends in DONE with all of the response on the socket if the headers of the parts fit, and for direct writes only if |
| Turns.GoOn | src/request.c:457-587 | the same from init_get on, where a response that was copied whole goes to free_request at once |
| Turns.Received | src/buffer.c:206-250 | in order, the bytes on the socket, those in the buffer and those still owed make up the response |
| Turns.ShortHeadersFit | src/get.c:412 | a content type of up to 172 characters keeps every part header within 256 |
| RangeTable.RangeStore.PopFirst | src/response.c:147-150 | the first node of the list is the first of the pool; no node is lost |
| RangeTable.RangeStore.Advance | src/get.c:484-485 | only the start of the first range moves |
| Delivery.Transfer.ShuffleOut | src/pipe.c:331-366 | io_shuffle gives a request up only when the file has ended and the buffer is empty, or on an error |
| Layout.TakeBytes | src/get.c:484-492 | moving start on by n takes the first n bytes off what the ranges still denote |
| RangeService.ChosenIsInterval | src/get.c:379-415 | picking the denoted bytes one by one gives the slice of the interval |
| RangeService.OneServed | src/range.c:156-203 | a valid range gives the part that the RFC gives it, or nothing where that is not satisfiable; one that is too long gives one byte less |
| RangeService.AllServed | src/range.c:119-229 | for a list of valid ranges, the parts sent are the parts due when none is too long, and otherwise shorter by one byte for each that is |
| RangeService.ListServed | src/range.c:119-229 | the answer to a list of ranges is the answer of section 14.35.1 of RFC 2616 (the whole file, these parts, or 416) if and only if the list is empty, or no range is inverted and none too long; for an empty file, if and only if the list is empty or some range is inverted |
| RangeService.RangesServed | src/range.c:231-240 | the same for the header that prints the list |
| RangeService.AnsweredAsDue | src/range.c:241-376 | for any header value whose numbers are below 2^32-1, the answer is the one that the RFC wants, ignored values included, if and only if AsDue holds: the value is a byte-ranges-specifier with its '=' right behind "bytes" and a list as in ListServed, or one with a blank there and nothing to satisfy, or none and understood as no ranges |
| RangeService.NoCommaIsServed | src/range.c:291-373 | the header "bytes=0-1 3-4": two parts are sent, where the RFC has the header ignored |
| RangeService.LoneHyphenIsRefused | src/range.c:353-365 | the header "bytes=-": 416, where the RFC has the header ignored |
| RangeService.BlankIsRefused | src/range.c:249-256 | a header with a blank in front of the '=': 416, where the RFC has the ranges served |
| RangeService.InvertedIsDropped | src/range.c:188-203 | the header "bytes=5-2,0-1" on a file of ten bytes: two bytes are sent as a part, where the RFC has the header ignored and the whole file sent |
| RangeService.WrappedIsServed | src/range.c:291-373 | the range from 2^32 on is served with the whole file as a part, where the RFC finds nothing to send |
| RangeService.PlanIsBody | src/get.c:282-335 | the plan that delivery works off is the bytes of the answer |
| RangeService.Serve | src/get.c:254-419 | from init_get to the last turn: with an opening that fits, what is written or owed is the response, which behind its header reads as the answer; it gets done, and the socket gets all of it, by the conditions of TakeTurns and InitGet |
| RangeService.Respond | src/get.c:254-419 | for any header value and any schedule of reads and writes, from range_parse to the last turn: what is delivered is a front of the bytes of the answer, all of them when the request is done, as a part exactly when the answer is one; a single part whose opening fits ends in DONE when everything goes well; and a client that reads what the socket has got then reads the answer |
| RangeService.RespondAsDue | src/range.c:241-376 | a request that gets done has delivered what the RFC asks for if and only if AsDue holds of the header value; then 416 is answered exactly where the RFC wants it, a single part whose opening fits is delivered in full when everything goes well, and a client reads from the socket the answer that is due |
| RangeService.ResponseIsRead | src/response.c:110-231 | the text behind the header of the response is the whole file, or reads as parts that have just the bytes of the answer and say truly which ones |
| MmapCache.MmapTable.FindMmap | src/mmap_cache.c:36-119 | a handle to the file's own slot, shared or new, without touching any other slot; a handle is given if and only if the probe finds the file, or the limit is not passed and both system calls succeed; otherwise nothing is changed |
| MmapCache.ProbeEndsOnce | src/mmap_cache.c:41-70 | the probe has found the file exactly when it ends at a slot in use |
| MmapCache.FoundIfNoGap | src/mmap_cache.c:41-70 | the probe finds a file if and only if a slot holds it and no slot on the ring from its hash up to there is free |
| MmapCache.MappedTwice | src/mmap_cache.c:56-63 | a run after which a file that is held is not found, and is mapped a second time |
| MmapCache.MmapTable.Probe | src/mmap_cache.c:41-70 | the probe ends at a free or a matching slot; its way round the whole table is unreachable |
| MmapCache.MmapTable.ReleaseMmap | src/mmap_cache.c:121-135 | one user less; at the last one the mapping is unmapped, and it had not been before |
| MmapCache.MmapTable.AllReleased | src/mmap_cache.c:121-135 | once every handle is back, the table is empty and exactly the mappings made are unmapped |
| MmapCache.MmapTable.HeldIsMapped | src/mmap_cache.c:121-135 | a held mapping is not unmapped, and is in no other slot |
| MmapCache.FullTable | src/mmap_cache.c:55-69 | a table without a free slot has 256 slots in use |
| MmapCache.PassOne | src/mmap_cache.c:54-69 | a step of the probe that comes back to its start would prove the table full |
| MmapCache.UsedUpdate | src/mmap_cache.c:112-117 | how entries_used follows one slot |
| MmapCache.Mapped | src/mmap_cache.c:112-117 | a new mapping in a free slot keeps mappings and slots in one-to-one relation |
| MmapCache.Unmapped | src/mmap_cache.c:131-134 | so does unmapping the slot of a last user |
| MmapCache.OneMore | src/mmap_cache.c:76-79 | the limit is compared with `>`: 129 mappings can be held at once |
| HeaderSyntax.SplitExtends | src/read.c:57-144 | more bytes on the wire do not change the lines already found nor a header already complete |
| HeaderReader.Transition | src/read.c:70-107 | the status after a character says whether it ended a line, an empty line, or neither |
| HeaderReader.LineRead | src/read.c:117-144 | handing one line over is one step of the splitter |
| HeaderReader.Reader.Move | src/read.c:70-115 | one character through the state machine, and where header_end then points |
| HeaderReader.Reader.TakeLine | src/read.c:117-144 | the line delivered is the text up to the LF without the CRs before it |
| HeaderReader.Reader.Scan | src/read.c:57-217 | the bytes in the buffer are split as the simple splitter splits them |
| HeaderReader.Reader.ReadHeader | src/read.c:39-289 | for every way the bytes arrive, lines, outcome and the bytes left over are those of the simple splitter on all bytes of the request |
| HeaderReader.Reader.Sanitize | src/request.c:269-293 | the unread bytes move to the front, and the next request starts on them alone |
| HeaderReader.Connection.Serve | src/read.c:39-289 | over a kept connection, the requests found and those in the buffer are the requests that the bytes read hold |
| HeaderReader.Connection.Step | src/read.c:39-289 | one more request on the connection keeps the account of requests found and bytes carried over |
| HeaderReader.Connection.NextRequest | src/request.c:261-294 | bytes consumed and bytes carried over are the bytes read |
| HeaderReader.ChainedAll | src/request.c:269-278 | a chain of requests on the wire is what parsing the wire request by request finds |
| BodySpool.Spool.StartPost | src/read.c:157-213 | a body is accepted exactly for a canonical Content-Length within the limit; what is in the buffer beyond it is cut |
| BodySpool.Spool.ReadBody | src/read.c:310-358 | what was read waits to be written, or nothing changes; the end of the stream and errors close the request |
| BodySpool.Spool.WriteBody | src/read.c:368-428 | a short write moves as many bytes to the file; the CGI program is started exactly when the file has the declared length |
| BodySpool.Spool.SpooledExactly | src/read.c:385-402 | at that point the file holds exactly the first Content-Length bytes of the body (section 8.3 of RFC 1945) |
| BodySpool.Spool.Run | src/read.c:310-428 | the same for every schedule of short, blocked and failed reads and writes; when every read and write moves something, 3 * Content-Length + 2 of them are enough for the CGI program to be started |
| BodySpool.Spool.RunOnce | src/read.c:310-428 | one step keeps the invariant, and a step that moves something leaves fewer steps to go |
| CgiHeader.MatchesWildcardPattern | src/cgi_header.c:71-86 | a letter, name characters, and a colon with a blank behind it |
| CgiHeader.WildcardMeans | src/cgi_header.c:71-86 | a wildcard name is a letter, then letters, digits and hyphens, a colon and a blank |
| CgiHeader.NameCharsAre | src/cgi_header.c:75-82 | the characters of a name, and that matching a token ignores the case of letters and nothing else |
| CgiHeader.FindLineStart | src/cgi_header.c:120-141 | the start of the last line in front of a position that is not just line ends |
| CgiHeader.FindAnchor | src/cgi_header.c:159-172 | the first blank line; the search for CR LF CR LF never finds anything more |
| CgiHeader.FindBoundary | src/cgi_header.c:215-251 | the last wildcard name in the line, or else the last match of the last token that matches, or else the end of the line |
| CgiHeader.StripCgiPrefix | src/cgi_header.c:148-289 | the backward walk ends and cuts the text where it is to be cut: RightCut, which says so line by line and without the walk |
| CgiHeader.StripLeavesHeaders | src/cgi_header.c:148-289 | the result lies between the start and the first blank line, and every line from it up to there begins with a token or a wildcard name, or is blank |
| CgiHeader.StripIsRightCut | src/cgi_header.c:148-289 | exactly one position is right: the start without a blank line or when all lines in front of it are headers; otherwise, in the last of them that is none, its last wildcard name, or else the last match of the last token that occurs in it, or else its end |
| CgiHeader.HeadersAreKept | src/cgi_header.c:203-213 | when all lines from a line start up to the blank line are headers, none of them is stripped |
| CgiHeader.StrangerIsCut | src/cgi_header.c:215-251 | the cut lies in the last line that is no header, at the place that its names and tokens give |
| CgiHeader.BothAreKept | src/cgi_header.c:203-213 | a concrete text of two header lines of which none is stripped |
| CgiHeader.StripTwice | src/cgi_header.c:148-289 | stripping the rest again strips nothing |
| CgiHeader.NameIsCutShort | src/cgi_header.c:233-241 | a name inside a line is cut: what is left begins with a wildcard name whose second character is no letter |
| CgiHeader.TokenIsKept | src/cgi_header.c:220-251 | a token inside a line survives in full if and only if no wildcard name occurs in that line |
| CgiHeader.NameLost | src/cgi_header.c:233-241 | a concrete text in which "St: 1" is stripped to "t: 1" |
| AliasTable.GetAliasHashValue | src/alias.c:53-72 | the sum of the characters up to the first '/' behind the first character, in 32 bits, modulo 17 |
| AliasTable.MatchHasHash | src/alias.c:53-72 | a name other than "/" that matches a URI by the prefix rule hashes to the URI's bucket |
| AliasTable.BucketScan | src/alias.c:159-216 | scanning one bucket and scanning all aliases in insertion order agree if and only if the first match is not "/" in another bucket |
| AliasTable.RootIsMissed | src/alias.c:159-216 | a concrete URI for which the alias "/" is missed |
| AliasTable.AnswersAgain | src/alias.c:106-114 | a repeated add changes no answer |
| AliasTable.Table.AddAlias | src/alias.c:81-147 | the new alias is the last of its bucket; a name is not added again when it is there, but not as the last one |
| AliasTable.AddedTwice | src/alias.c:106-114 | two equal calls of add_alias in a row on an empty table: the bucket has two nodes |
| AliasTable.Table.LastAlias | src/alias.c:106-114 | the duplicate test leaves out the last node of the bucket |
| AliasTable.Table.FindAlias | src/alias.c:159-216 | after any calls of add_alias, the first match in global insertion order, with the one exception above |
| Queues.Queue.Enqueue | src/queue.c:136-145 | the request is the new head of a well-formed doubly linked list |
| Queues.Queue.Dequeue | src/queue.c:116-128 | the list without the request at that place is well formed; the request is on no list |
| Queues.ClosedUp | src/queue.c:116-128 | linking the two neighbours of a node closes the list |
| Queues.Queue.Distinct | src/queue.c:116-145 | the requests on a queue are different, and say that they are on it |
| Queues.Queue.Elsewhere | src/queue.c:36-107 | two queues of the server have no request in common |
| Scheduler.Server.TakeOff | src/queue.c:116-128 | dequeue on the right list: the other two queues are as they were |
| Scheduler.Server.PutOn | src/queue.c:136-145 | enqueue: the three queues hold every request again |
| Scheduler.Server.BlockRequest | src/queue.c:36-68 | the request moves from its place on the ready queue to the head of the blocked queue, with an entry of its own for what it waits on |
| Scheduler.Server.ReadyRequest | src/queue.c:76-107 | the way back |
| Scheduler.Server.Watch | src/defines.h:110-115 | a new entry at the end of the poll table, inside it, and pollfd_id points at it |
| Scheduler.Server.NewRequest | src/request.c:54-73 | the head of the free list, or a new struct, cleared |
| Scheduler.Server.GetRequest | src/request.c:82-259 | when a connection is taken up, where its struct comes from and that nothing in it is left of an earlier request, what happens to it when set-up fails, when pending_requests is cleared, and the count |
| Scheduler.Server.Admit | src/request.c:245-258 | one connection more; above the limit it is answered with 503 and DONE, and no further one is accepted |
| Scheduler.Server.FreeRequest | src/request.c:303-445 | exactly when a request stays to be flushed, is kept alive with nothing left of what it was, or is released; the queue it is then on, the counter, and the 408 that a time-out without an answer is logged with |
| Scheduler.Server.Retire | src/request.c:328-444 | the keep-alive condition decides between the blocked queue and the free queue |
| Scheduler.Server.Flush | src/buffer.c:206-250 | return values and status of a flush, on the bounds of the buffer |
| Scheduler.Server.Service | src/request.c:472-550 | one serving: the handler is called, once, exactly when the request is alive, not done, and has nothing to flush or a flush that went on; a dead or timed-out request is always given up; a finished one only with an empty buffer, by the outcomes of its flushes |
| Scheduler.Server.Dispatch | src/request.c:493-556 | the switch over the status: which call is made, and what comes of a request that is finished or dead |
| Scheduler.Server.Settle | src/request.c:562-585 | what becomes of a request by the result of its serving: -1 blocks it, 1 leaves it ready; with 0 it stays if and only if bytes were left and a short write leaves some of them, and otherwise it is blocked when the keep-alive condition holds, and is freed, with one connection less, when it does not |
| Scheduler.Server.Turn | src/request.c:471-586 | one turn: the next request is the one behind, whatever was accepted in front; what was behind stays in order; a request that is done with an empty buffer is off the ready queue, kept alive or released by the exact condition, and so is one whose handler has finished with nothing left; a dead one is freed |
| Scheduler.Server.Walk | src/request.c:469-586 | the walk ends, and serves just the requests ready at its start, in order |
| Scheduler.Server.ProcessRequests | src/request.c:457-587 | each request ready when the walk begins is served exactly once, and no other one, while requests are blocked, freed, kept alive and accepted; all invariants hold afterwards |
| Scheduler.ServeReady | src/request.c:457-587 | whoever is ready when process_requests is called is served, in order |
| Scheduler.WaitsForNextStep | src/queue.c:36-68 | a blocked request waits for the descriptor and the direction that the flush of its buffer uses, or, with an empty buffer, the first call of the handler of its status |
| Scheduler.Server.QueuesPartition | src/request.c:54-73 | the three queues are disjoint and hold every request ever allocated |
| Scheduler.Server.OneEntryEach | src/poll.c:126-137 | pollfd_id is a bijection from the blocked requests to 0..pfd_len-1, below MAX_FD, and each entry names what its request waits on |
| PollLoop.Update | src/poll.c:167-203 | one blocked request: it stays if and only if its entry has no events and its time is not up; it is dead if and only if the entry reports an error, and otherwise timed out if and only if its time is up |
| PollLoop.UpdateBlocked | src/poll.c:160-204 | the same for every blocked request: the stayers stay blocked, in order, with the first entries of the other table; the others are ready with their new status |
| PollLoop.VerdictsMean | src/poll.c:167-203 | the verdicts that the code gives are the ones just said |
| PollLoop.Listen | src/poll.c:83-119 | the server socket has the last entry exactly below the limit, and only an event on it sets pending_requests |
| PollLoop.Refresh | src/poll.c:126-137 | the tables change places, and the agreement with the blocked queue holds for the new one |
| PollLoop.Round | src/poll.c:43-141 | one round of the loop keeps the invariant, whichever of the two tables is in use, and serves whoever was ready at its top, in order |
| PollLoop.Loop | src/poll.c:33-142 | the invariant holds at the top of every round, however many there have been: queues, counter, limit and poll table |
| SelectLoop.Update | src/select.c:157-237 | one blocked request: it stays exactly when it is alive and its descriptor is not in the set, which it is then put into, but for one case of io_shuffle |
| SelectLoop.FdsetUpdate | src/select.c:152-238 | stayers and movers in order; a request whose time is up is never left blocked; when no descriptor is shared, exactly the requests that Judged names stay, judged by the sets as select left them, and a stayer's descriptor is in its set afterwards but for io_shuffle waiting for its file |
| SelectLoop.JudgedMeans | src/select.c:157-237 | a request is judged to stay if and only if it is alive, its time is not up, and its descriptor is not in the set for its direction |
| SelectLoop.RestingMeans | src/select.c:184-237 | a stayer's descriptor is in its set afterwards if and only if it is not in io_shuffle waiting for its file |
| SelectLoop.UpdateWatched | src/select.c:157-237 | one request more, with descriptors of its own: the sets of those already judged and of those still to come are untouched |
| SelectLoop.Forgotten | src/select.c:184-191 | a run of a server after which a request is blocked in io_shuffle, and its descriptor is in no set |
| SelectLoop.Listen | src/select.c:78-112 | the server socket is in the set that select is given if and only if the limit is not reached, and pending_requests is set if and only if select leaves it there |
| SelectLoop.Loop | src/select.c:46-134 | queues, counter and limit hold at the top of every round, however many there have been |
| SelectLoop.Round | src/select.c:46-134 | one round of the loop keeps the invariant, and serves whoever was ready at its top, in order |

## Left out

- `Scheduler.Server.Handle`: a handler may do anything to its own request and returns -1, 0 or 1; the handlers themselves are modelled in the other modules, without the queues.
- `Scheduler.Server.Sanitize`: only the fields that scheduling looks at; the client stream is in HeaderReader.
- `Scheduler.Server.FreeRequest`: nothing is said about what was still in the buffer when a request is freed; that is in `Turns.Release`.
- `Scheduler.Server.Service`: the status after a call of a handler is the handler's and left open.
- `PollLoop.Loop`: without signals, the shutdown branch and interrupted polls, and with max_connections fixed; time-outs of poll are left to the oracle.
- `SelectLoop.Loop`: that descriptors are not shared is a condition of `FdsetUpdate` and not carried through the rounds, because the handlers open files of their own.
- `HeaderReader.Reader.ReadHeader`: process_logline and process_option_line are an oracle on the lines so far that may scribble over the line it is given; process_header_end is not part of the model, and HTTP/0.9 is the oracle's answer Simple.
- `RangeTable.RangeStore.RangeParse`: after an abort, numranges and the order of the pool are left open.
- `RangeService.AnsweredAsDue`: for values whose numbers are below 2^32-1; a larger number wraps around or is the marker for "not given", so that two wrong ranges can make up for each other (`WrappedIsServed` has one that is wrong). Whether white space may stand next to a hyphen is left open by the RFC; it is proved for either reading.
- `RangeService.Respond`: one Range header and no HEAD; the pages of 416 and of an empty file are not part of this model, nor are the status line and the headers that depend on the clock: they are texts given from outside.
- `Turns.TakeTurns`: for io_shuffle without sendfile, part headers of up to 256 characters are enough to end in DONE; whether a longer one fits depends on how the reads fall, and no exact condition is stated.
- `Delivery.Transfer.ProcessGet`: bytes_written does not wrap around at 2^32.
- `Decimal.BoaAtoi`: atoi saturates at 2^31-1, as a 32-bit strtol does; C leaves an overflow open.
- `Delivery.Transfer.IoShuffleSendfile`: retries after EINTR are one call, and the offset of sendfile has no sign to be checked.
- `MmapCache.MmapTable.FindMmap`: use counts do not overflow.
- `BodySpool.Spool.Run`: the CGI program is started by a flag.
- `AliasTable.Table.AddAlias`: characters count as unsigned, as on ARM; running out of memory ends the server and is not modelled.
- System calls are parameters or arbitrary values: any short count, a block or an error.
- Signals, recovery from SIGBUS by setjmp, SIGHUP reload, SIGTERM shutdown and SIGCHLD.
- src/cgi.c, read_from_pipe and write_from_pipe, logging, configuration, access patterns, host names and dates: plumbing and library behaviour.
- Response texts, directory listings, on-the-fly decompression and the build scripts: no state worth a proof.
- src/hash.c and check_host: only easy members.
