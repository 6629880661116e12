# Models of nRF Connect SDK components

Dafny models of five components of the nRF Connect SDK, with proofs of what each is for. Each
component is modelled in its own form: code that changes things in place becomes classes and
methods with loops, proved against functions on values; the theorems are then about all inputs,
all runs or all reachable states of those functions.

- **`getopt_long` argument permutation** (`Permute`, `GetoptOption`, `GetoptRun`, `GetoptUses`,
  `GetoptScanner`). The gcd-cycle block exchange is proved to swap two adjacent blocks. A whole run of
  calls is proved to sort argv into options and non-options, both in their order. Options that are meant, laid
  out as argv in any of the ways there are, are proved to be reported with their values, arguments and indices, in all
  three modes and with the errors; and every argv that is read to its end is such a layout. A run stops
  exactly when no reached cluster of letters ends in `-`.
- **SLIP framing over RTT** (`Slip`, `SlipProtocol`, `SlipDriver`). The in-place, chunked decoder is proved equal
  to a one-pass decoder, and sent frames are proved delivered, each exactly when no chunk boundary
  falls between an escaped ESC and a byte that would complete an escape. On any wire bytes the frames handed over
  are proved to be those that RFC 1055 and the checksum give.
- **cJSON** (`JsonString`, `JsonLiteral`, `JsonText`, `JsonGrammar`, `JsonRoundTrip`, `JsonLayout`, `JsonOverread`,
  `JsonParser`, `JsonPrintBuffer`, `JsonCompare`, `JsonSiblings`). The parser takes exactly the texts of a grammar that
  is given on its own, with any blanks and within the nesting limit, and returns what they mean. Printing followed by
  parsing gives the tree with its numbers as their text says them, exactly up to that limit; where the
  printer puts blanks is said by two lexemes and the open containers. The parser ends on every buffer and
  stays inside it but for one byte, and where that happens is exact. The buffer printer produces the pure text and fails exactly when
  two bytes more than the text do not fit. The string decoder never writes past its estimate.
  Comparison is equality up to member order; on all trees it is symmetric and transitive, and reflexive
  exactly where members of the same name agree. Sibling lists keep their cached tail exactly under a
  condition on the node that goes.
- **Partition manager** (`NameLists`, `PartitionOrder`, `PartitionRounds`, `PartitionSpans`, `PartitionTidy`,
  `PartitionSolver`, `SortedSets`, `PartitionGaps`, `PartitionRegions`). Order solving places every partition once and
  where it asked to be, or fails for a stated reason. Its log explains the order it comes to, and a span passes the final
  check exactly if no partition was put where it breaks the span, which is so for every span with tidy requests. The gaps found by set difference are
  exactly the free space, under an exact condition on overlapping and empty partitions. Region keys are longest dependency paths.
- **Low-power UART** (`LpuartRx`, `LpuartRxDriver`, `LpuartTx`, `LpuartTxDriver`). The handlers
  refine two machines over atomic steps. No received byte is lost or overwritten. Each accepted
  transfer starts at most once. Packets and transfers, however they end, all get through one after the other. Two conditions
  are exact for never recovering: a starved receiver and a wedged FIFO.

`Bytes` and `Wrappers` hold shared types.

## How to read the models

`byte` and `uint16` are integers in range. Bit operations of the C code are written as the arithmetic they
stand for. C strings are sequences; reading at their end gives the terminator. Exceptions and error returns
are constructors of result types. The CRC is the fold of an arbitrary one-byte step, so the SLIP
results hold for every such checksum. `sprintf` and `strtod` are an arbitrary pair of functions
(`JsonText.Codec`); the round trip asks only that the numbers in the tree at hand are printed as null or
as text that is read whole, and says what they become. A double is its 64-bit pattern. Whether an
allocator grants a request is arbitrary.

Where code and documentation disagree the models follow the code:

- A cluster such as `-a-`, when a long-option table is given, is neither shortened nor passed over: `getopt_long`
  returns `?` for ever (`GetoptRun.DashAfterLetterNeverStops`).
- The SLIP decoder takes the last decoded byte for the last raw byte at a chunk boundary
  (`Slip.BadSplitExists`).
- Detaching or replacing the last sibling can leave the cached tail pointing at a node that is no longer in the list
  (`JsonSiblings.Parent.Detach`, `JsonSiblings.Parent.Replace`); what is added then is lost
  (`JsonSiblings.Parent.DetachLastThenAdd`).
- `cJSON_Compare` of an object with repeated names and a copy of it can fail
  (`JsonCompare.CompareIsReflexiveIff`, `JsonCompare.NamesakesCompareUnequal`).
- Parsing an object that is cut off after a comma looks at the byte after the buffer
  (`JsonOverread.CutObjectIsOverread`).
- The header of cJSON advises five spare bytes for a preallocated buffer; exactly two more than
  the text are needed (`JsonPrintBuffer.RenderPreallocated`).
- Overlapping or empty static partitions can be misread as gaps or as no gap
  (`PartitionGaps.GapsAreRightIff`, `PartitionGaps.OverlapIsMisread`, `PartitionGaps.EmptyPartIsMisread`).
- The message of `resolve` for parts that have not been placed cannot be reached, because looking up their
  index raises first (`PartitionSolver.CheckSpans`).
- Reading the rest of a packet outside the trampoline callback leaves the low-power UART receiver
  blocked (`LpuartRx.BlockedForeverIff`), and a FIFO transfer that does not end in `UART_TX_DONE`
  leaves the FIFO full (`LpuartTx.RefusedForeverIff`).

## Model

| member | source | states |
|---|---|---|
| Permute.Gcd | nrf/ext/freebsd-getopt/getopt_long.c:140-153 | Euclid's loop gives the greatest common divisor of two positive numbers, with Bezout coefficients. |
| Permute.OrbitCloses | nrf/ext/freebsd-getopt/getopt_long.c:169-189 | A cycle of the exchange is back at its start after (length / gcd) steps. |
| Permute.OrbitIsInjective | nrf/ext/freebsd-getopt/getopt_long.c:169-189 | Within those steps no position is visited twice. |
| Permute.OrbitCovers | nrf/ext/freebsd-getopt/getopt_long.c:169-189 | A cycle reaches every position of its residue class modulo the gcd, so the cycles are disjoint and cover the range. |
| Permute.SwapsShiftTheCycle | nrf/ext/freebsd-getopt/getopt_long.c:177-188 | Swapping along a cycle moves every element one step along it. |
| Permute.CycleMovesItsResidue | nrf/ext/freebsd-getopt/getopt_long.c:175-189 | One round of the outer loop puts exactly one residue class in its final place and leaves the others. |
| Permute.RunCycle | nrf/ext/freebsd-getopt/getopt_long.c:175-189 | The inner loop performs the swaps of one cycle in place and nothing else. |
| Permute.PermuteArgs | nrf/ext/freebsd-getopt/getopt_long.c:160-190 | For every array and non-empty adjacent blocks, the blocks are exchanged, each in its order, and nothing else changes. |
| GetoptOption.FindLong | nrf/ext/freebsd-getopt/getopt_long.c:238-267 | The one-pass table search finds the first exact name, else the first abbreviation unless a later abbreviation conflicts with it. |
| GetoptOption.OptionProgress | nrf/ext/freebsd-getopt/getopt_long.c:484-584 | Reading an option shortens the cluster or moves optind within argv, except for one text, which is characterised; only that text returns -1. |
| GetoptOption.ParseLongProgress | nrf/ext/freebsd-getopt/getopt_long.c:197-364 | A long option moves optind by one or two and within argv, or is handed to the short-option code unchanged. |
| GetoptRun.Call | nrf/ext/freebsd-getopt/getopt_long.c:370-585 | Every call keeps the static state consistent, so that each permute_args call has two non-empty blocks. |
| GetoptRun.SeekKeepsLayout | nrf/ext/freebsd-getopt/getopt_long.c:404-482 | Passing over non-options keeps argv as the options read so far with one block of non-options among them, or ends with argv sorted. |
| GetoptRun.RunFrom | nrf/ext/freebsd-getopt/getopt_long.c:370-585 | From every consistent state, the calls that follow report what a plain reading of the rest reports, then -1, with argv sorted. |
| GetoptRun.RunSortsArgv | nrf/ext/freebsd-getopt/getopt_long.c:370-585 | A full run from the start reports the options in order and then -1; argv ends as options with their arguments, then non-options, and optind is at the first non-option. |
| GetoptRun.RunToDeadEnd | nrf/ext/freebsd-getopt/getopt_long.c:484-525 | A run that meets a cluster coming down to a lone dash reports what is read up to there and keeps the layout of argv. |
| GetoptRun.ReadPartitions | nrf/ext/freebsd-getopt/getopt_long.c:155-159 | The options and the non-options are complementary subsequences of argv, both in their original order. |
| GetoptRun.RunStopsIffReadingEnds | nrf/ext/freebsd-getopt/getopt_long.c:484-499 | With a long-option table, some call returns -1 if and only if no cluster read as an option comes down to a lone dash. |
| GetoptRun.ClusterEndsIff | nrf/ext/freebsd-getopt/getopt_long.c:496-525 | Whether reading gets past a cluster, where only two dashes start a long option, can be seen from its text: it does not exactly when the only dash is the last character and every letter before it is unknown or takes no argument. |
| GetoptRun.RunWithoutTable | nrf/ext/freebsd-getopt/getopt_long.c:514-525 | Without such a table every run stops, and -1 is the last report and no other: with argv sorted, or at a lone dash inside a cluster, where the options so far still have one block of non-options among them. |
| GetoptRun.PlainArgumentsEnd | nrf/ext/freebsd-getopt/getopt_long.c:484-499 | That is so for every argv in which no argument of three or more characters starts and ends with a dash. |
| GetoptRun.DashAfterLetterNeverStops | nrf/ext/freebsd-getopt/getopt_long.c:496-499 | It fails for a single cluster of an unknown letter and a dash: no number of calls returns -1. |
| GetoptUses.ModeIsChosen | nrf/ext/freebsd-getopt/getopt_long.c:387-400 | A `-` or `+` in front of the letters is not one of them and chooses the mode; without one POSIXLY_CORRECT chooses. |
| GetoptUses.MatchIs | nrf/ext/freebsd-getopt/getopt_long.c:238-280 | What a key stands for: the row of that name, else the first of the rows it abbreviates if they are alike (for getopt_long_only, if it is the only one), else it is ambiguous or unlisted; one letter that is an option abbreviates nothing. |
| GetoptUses.FlagStep | nrf/ext/freebsd-getopt/getopt_long.c:514-555 | A letter without an argument, or an undeclared one, in front of others: its value or `?`, and the rest of the cluster is left. |
| GetoptUses.EndingStep | nrf/ext/freebsd-getopt/getopt_long.c:484-584 | Any other option: letters with an attached, separate, omitted or missing argument, and long options by `--`, `-`, `-Wname` or `-W name` with `=`, separate, no, missing or unexpected argument, ambiguous or unlisted; each takes its arguments and reports its value, argument and index. |
| GetoptUses.UsesRead | nrf/ext/freebsd-getopt/getopt_long.c:370-585 | Any list of words and options, laid out as argv before any rest, is read as exactly these words, arguments and events. |
| GetoptUses.PermutingRun | nrf/ext/freebsd-getopt/getopt_long.c:370-585 | So a permuting run reports the values, arguments and indices that were meant, then -1, and leaves the options before the words with optind between them. |
| GetoptUses.OrderedRun | nrf/ext/freebsd-getopt/getopt_long.c:424-445 | In the other modes argv stays as it is: words are reported in order as the argument of 1, or the first one stops the run with optind there. |
| GetoptUses.EveryLineIsMeant | nrf/ext/freebsd-getopt/getopt_long.c:370-585 | Every argv that is read to its end is the layout of such a list, up to `--` or the end. |
| GetoptScanner.Scanner.ParseLongOptions | nrf/ext/freebsd-getopt/getopt_long.c:197-364 | The method changes optind, optarg and the index as the function on the rest of argv says. |
| GetoptScanner.Scanner.ShortOption | nrf/ext/freebsd-getopt/getopt_long.c:514-584 | The same for one short option letter; what it reports is pinned by the layouts of `GetoptUses`. |
| GetoptScanner.Scanner.Permute | nrf/ext/freebsd-getopt/getopt_long.c:450-456 | Moving the skipped block behind the options after it, in place. |
| GetoptScanner.Scanner.Finish | nrf/ext/freebsd-getopt/getopt_long.c:407-423 | The end of a run: the last block is moved and optind goes to the first non-option. |
| GetoptScanner.Scanner.SkipNonOption | nrf/ext/freebsd-getopt/getopt_long.c:446-458 | A non-option joins the skipped block, after the block has been moved up to it. |
| GetoptScanner.Scanner.SeekOption | nrf/ext/freebsd-getopt/getopt_long.c:404-482 | The loop to the next option ends, and permutes argv in place as the function says. |
| GetoptScanner.Scanner.ReadOption | nrf/ext/freebsd-getopt/getopt_long.c:484-584 | The option half of a call, with its fall-back from a long to a short option. |
| GetoptScanner.Scanner.Getopt | nrf/ext/freebsd-getopt/getopt_long.c:370-585 | One call on static variables and argv in place is one step of the run that the theorems are about, for every table and including a pending reset. |
| GetoptScanner.Scanner.GetoptLong | nrf/ext/freebsd-getopt/getopt_long.c:370-403 | The prologue: the first character of the options string and POSIXLY_CORRECT choose between permuting, returning in order and stopping. |
| GetoptScanner.Scanner.GetoptAll | nrf/ext/freebsd-getopt/getopt_long.c:370-585 | Calling until -1 ends, reports the reading of argv, and leaves argv in place as options and then non-options, with optind between them. |
| Slip.CrcOfFragments | nrf/drivers/net/eth_rtt.c:194-236 | The running checksum of fragments is the checksum of the whole frame. |
| Slip.CrcIsFold | nrf/drivers/net/eth_rtt.c:202-202 | The checksum takes every byte, one after the other. |
| Slip.Step | nrf/drivers/net/eth_rtt.c:393-410 | Decoding a byte keeps a pending raw ESC visible as the last decoded byte. |
| Slip.StuffedDecodes | nrf/drivers/net/eth_rtt.c:194-236 | Escaped bytes decode to the bytes, from any decoder state between escapes. |
| Slip.FramesDecode | nrf/drivers/net/eth_rtt.c:384-416 | The wire form of any frames decodes to exactly their bodies, with nothing left over. |
| Slip.BodiesDeliver | nrf/drivers/net/eth_rtt.c:298-318 | Every such body passes the length and checksum tests and yields its frame; the empty ones between END bytes yield none. |
| Slip.DecodedTail | nrf/drivers/net/eth_rtt.c:391-391 | The decoded bytes end in ESC without a raw ESC exactly after an escaped ESC. |
| Slip.ChunksAgainstStream | nrf/drivers/net/eth_rtt.c:384-447 | Against the one-pass decoder, the polled one agrees while no boundary is bad, and after a bad one has lost a byte for good. |
| Slip.ChunkedIsStreamedIff | nrf/drivers/net/eth_rtt.c:384-447 | For all wire bytes and chunkings that do not overflow, polling gives the frames and partial frame of the one-pass decoder if and only if no boundary is bad. |
| Slip.EncodedPrefixFits | nrf/drivers/net/eth_rtt.c:431-435 | No prefix of the wire form of frames that fit makes the buffer overflow. |
| Slip.SentIsDeliveredIff | nrf/drivers/net/eth_rtt.c:179-250 | End to end, non-empty frames that fit are delivered complete and in order, in any chunking, if and only if no boundary is bad. |
| Slip.BadSplitExists | nrf/drivers/net/eth_rtt.c:391-391 | A frame and a chunking with a bad boundary. |
| SlipProtocol.DecodeIsProtocol | nrf/drivers/net/eth_rtt.c:384-410 | On any wire bytes the decoder finds the bodies that the PROTOCOL section of RFC 1055 gives, and the body begun last. |
| SlipProtocol.AcceptedCarries | nrf/drivers/net/eth_rtt.c:298-318 | A body yields a frame if and only if it is that frame, not empty, followed by the high and the low byte of its checksum. |
| SlipProtocol.DeliveredIsHanded | nrf/drivers/net/eth_rtt.c:298-318 | From any bodies, the frames handed over are exactly those they carry, in order. |
| SlipProtocol.ReceiverKeepsProtocol | nrf/drivers/net/eth_rtt.c:384-447 | For all wire bytes and chunkings without overflow and bad boundary, the receiver hands over exactly the frames that the wire carries. |
| SlipProtocol.SentIsProtocol | nrf/drivers/net/eth_rtt.c:179-250 | A frame is sent between two END bytes with none inside, and reads back as itself and its checksum. |
| SlipDriver.Transmitter.SendFragment | nrf/drivers/net/eth_rtt.c:194-236 | Runs of plain bytes and single escapes together write the escaped fragment, and the checksum is updated. |
| SlipDriver.Transmitter.SendEnd | nrf/drivers/net/eth_rtt.c:241-250 | The checksum is written escaped, high byte first, and then END. |
| SlipDriver.Transmitter.Send | nrf/drivers/net/eth_rtt.c:257-288 | The wire form depends only on the frame, however it is split; a packet without fragments is refused. |
| SlipDriver.Receiver.RecvFrame | nrf/drivers/net/eth_rtt.c:298-318 | Delivers the frame just when it is long enough and its checksum is right (`SlipProtocol.AcceptedCarries` says so without this function). |
| SlipDriver.Receiver.DecodeByte | nrf/drivers/net/eth_rtt.c:393-410 | One byte of in-place decoding: dst stays between the frame's start and src, and neither unread bytes nor anything before the frame is written. |
| SlipDriver.Receiver.DecodeBytes | nrf/drivers/net/eth_rtt.c:393-410 | The loop delivers the frames completed by the new bytes and leaves the partial frame in the buffer. |
| SlipDriver.Receiver.MoveToFront | nrf/drivers/net/eth_rtt.c:412-416 | The overlapping move keeps the partial frame. |
| SlipDriver.Receiver.DecodeNewSlipData | nrf/drivers/net/eth_rtt.c:384-417 | Decoding new bytes over themselves in the buffer is decoding them as a stream, from the last decoded byte. |
| SlipDriver.Receiver.Receive | nrf/drivers/net/eth_rtt.c:436-445 | A chunk read behind the partial frame is decoded with it. |
| SlipDriver.Receiver.Poll | nrf/drivers/net/eth_rtt.c:424-447 | The reading loop takes all pending bytes in some chunks, discards a full buffer, and delivers what the chunked decoder delivers. |
| SlipDriver.Receiver.Session | nrf/drivers/net/eth_rtt.c:384-447 | Over any number of polls of a fresh receiver, the frames handed over are exactly those that the bodies it decodes carry, and those that the wire carries if no chunk boundary is bad; frames that were sent are delivered complete and in order if and only if none is. |
| JsonString.ParseHex4 | nrf/ext/iperf3/cjson.c:620-653 | The loop over four digits gives their value, and 0 if one is not a digit. |
| JsonString.EncodeUtf8 | nrf/ext/iperf3/cjson.c:720-769 | The bytes of section 3 of RFC 3629, written from the last to the first, and nothing before them. |
| JsonString.Utf16LiteralToUtf8 | nrf/ext/iperf3/cjson.c:657-775 | One escape or surrogate pair: how much is read, what is written, and when it is refused. |
| JsonString.MeasureString | nrf/ext/iperf3/cjson.c:791-815 | The first pass finds the closing quote and counts the backslashes it skips. |
| JsonString.UnitFitsEstimate | nrf/ext/iperf3/cjson.c:791-882 | Each unit of the second pass writes no more than the estimate grows by, even where malformed escapes put the passes out of step. |
| JsonString.ResultFitsEstimate | nrf/ext/iperf3/cjson.c:791-882 | So for every input the result is at most one byte longer than the estimate, which is what is allocated. |
| JsonString.DecodeString | nrf/ext/iperf3/cjson.c:826-885 | The second pass writes the decoded bytes and a terminator inside an output of just that size, or fails when the string is malformed. |
| JsonString.ParseString | nrf/ext/iperf3/cjson.c:778-904 | The two passes together give the decoded string and the offset after its closing quote. |
| JsonLiteral.Utf8RoundTrip | nrf/ext/iperf3/cjson.c:720-769 | Decoding the UTF-8 of a code point gives the code point, whatever follows. |
| JsonLiteral.SurrogatesRoundTrip | nrf/ext/iperf3/cjson.c:682-713 | The two surrogates of a code point (section 2.2 of RFC 2781) combine to it. |
| JsonLiteral.LiteralDecodes | nrf/ext/iperf3/cjson.c:778-904 | Every well-formed string literal of section 7 of RFC 8259, before any rest, is decoded to what it means. |
| JsonLiteral.FindEndIsFirst | nrf/ext/iperf3/cjson.c:791-815 | The first pass stops at the first quote with an even number of backslashes before it, or there is none. |
| JsonLiteral.StringIff | nrf/ext/iperf3/cjson.c:778-904 | For all texts, well-formed or not: n bytes are read as a string if and only if they are a literal made of pieces, with four bytes that are not hexadecimal read as code point 0, and the result is what the pieces mean. |
| JsonText.Skip | nrf/ext/iperf3/cjson.c:1043-1066 | Skipping blanks never leaves an input that had bytes empty; where it steps back it lands on a blank, never on a separator. |
| JsonGrammar.NumberParsesIff | nrf/ext/iperf3/cjson.c:312-386 | A number is read if and only if strtod finds it in the longest run of number characters, cut off at 63. |
| JsonGrammar.DocParses | nrf/ext/iperf3/cjson.c:1317-1708 | Every document of the grammar, with any blanks around every token and before any rest, parses to what it means and that rest, or is nested too deep. |
| JsonGrammar.ParsedSays | nrf/ext/iperf3/cjson.c:1317-1708 | Whatever parses is such a document in front of what is left, nested within the limit. |
| JsonGrammar.ValueIff | nrf/ext/iperf3/cjson.c:1317-1708 | So a value and a rest are what a text parses to if and only if the text is a document that means the value in front of that rest. |
| JsonGrammar.DocumentIff | nrf/ext/iperf3/cjson.c:1100-1145 | A buffer parses to a value if and only if it is blanks and a document that means it, behind a byte order mark if there is one and five bytes, and before blanks that end in NUL if that is asked for. |
| JsonRoundTrip.QuotedParses | nrf/ext/iperf3/cjson.c:907-1026 | Every NUL-free string, quoted and escaped, is read back. |
| JsonRoundTrip.TextIsShown | nrf/ext/iperf3/cjson.c:1372-1822 | The text of a tree is that of a document of the grammar, before any rest. |
| JsonRoundTrip.TextSays | nrf/ext/iperf3/cjson.c:1372-1822 | That document is one of the grammar and means the tree, with each number as its text says it. |
| JsonRoundTrip.TextParses | nrf/ext/iperf3/cjson.c:1317-1822 | Every tree's text, formatted or not, at any depth and before any rest, parses to that rest and the tree as its number text says it, or fails if it is too deep. |
| JsonGrammar.ParsedIsWithinLimit | nrf/ext/iperf3/cjson.c:1446-1456 | Nothing deeper than the nesting limit is ever returned. |
| JsonRoundTrip.PrintedParses | nrf/ext/iperf3/cjson.c:554-617 | Parsing a printed document gives the tree with each number as its text says: null for one that is not finite, a number near it if digits were dropped; deeper trees than the limit give nothing. |
| JsonRoundTrip.PrintedParsesBackIff | nrf/ext/iperf3/cjson.c:1100-1145 | The printed document of a tree parses back to that tree if and only if its nesting is within the limit of 1000 and every number in it is read back as it was. |
| JsonLayout.UnformattedIsBare | nrf/ext/iperf3/cjson.c:1540-1822 | The unformatted text of any tree, raw text included, is its lexemes one after the other and nothing else. |
| JsonLayout.FormattedIsSpread | nrf/ext/iperf3/cjson.c:1540-1822 | The formatted text is the same lexemes with a gap between two of them: a newline and as many tabs as containers are open after an opening brace and between members, a newline and one tab less before a closing brace, one space after a comma in an array, one tab after a colon, and nothing elsewhere. |
| JsonLayout.GapIsBlank | nrf/ext/iperf3/cjson.c:1563-1802 | What stands between lexemes is blank. |
| JsonLayout.LexemesAreCompact | nrf/ext/iperf3/cjson.c:1372-1443 | If number text has no blanks, no lexeme but a string or raw text has any. |
| JsonLayout.EscapeIsShortest | nrf/ext/iperf3/cjson.c:976-1021 | Of all ways to write a byte of a string without control characters, the printer takes a shortest one, with lower case digits. |
| JsonOverread.ParsedLeavesTail | nrf/ext/iperf3/cjson.c:1317-1369 | What parse_value leaves is a tail of its input. |
| JsonOverread.OverreadFails | nrf/ext/iperf3/cjson.c:1658-1664 | The byte after the buffer is looked at only where the buffer ends in a comma, and then the parse fails. |
| JsonOverread.TerminatedIsReadInside | nrf/ext/iperf3/cjson.c:1084-1097 | A terminated text is never read past its end. |
| JsonOverread.CutObjectIsOverread | nrf/ext/iperf3/cjson.c:1658-1664 | An object cut off after the comma behind a member is. |
| JsonParser.ParseBuffer.SkipWhitespace | nrf/ext/iperf3/cjson.c:1043-1066 | The loop and its step back, inside the buffer. |
| JsonParser.ParseBuffer.ParseStringHere | nrf/ext/iperf3/cjson.c:778-904 | A string at the offset is the string function on the rest, and a success advances; at the end of the buffer the byte after it is looked at and the parse fails. |
| JsonParser.ParseBuffer.ParseNumberHere | nrf/ext/iperf3/cjson.c:312-386 | At most 63 number characters are handed to strtod; a success advances by what it took (`JsonGrammar.NumberParsesIff` says which). |
| JsonParser.ParseBuffer.ParseHere | nrf/ext/iperf3/cjson.c:1317-1369 | parse_value at the offset ends, is the value function on the rest, restores the depth on success, and looks past the buffer exactly where the predicate on the rest says. |
| JsonParser.ParseBuffer.ParseArrayHere | nrf/ext/iperf3/cjson.c:1446-1537 | The same for an array and its loop. |
| JsonParser.ParseBuffer.ItemHere | nrf/ext/iperf3/cjson.c:1503-1511 | One element, with the blanks before and after it. |
| JsonParser.ParseBuffer.ItemsHere | nrf/ext/iperf3/cjson.c:1481-1513 | The element loop is the function on the rest, and ends. |
| JsonParser.ParseBuffer.ParseObjectHere | nrf/ext/iperf3/cjson.c:1602-1708 | The same for an object and its loop. |
| JsonParser.ParseBuffer.MemberHere | nrf/ext/iperf3/cjson.c:1658-1682 | Name, colon and value, with blanks before, between and after them as in `JsonGrammar`. |
| JsonParser.ParseBuffer.MembersHere | nrf/ext/iperf3/cjson.c:1635-1685 | The member loop is the function on the rest, and ends; it looks past the buffer exactly where a member is followed by a comma and nothing else, or a value in it does. |
| JsonParser.ParseWithLengthOpts | nrf/ext/iperf3/cjson.c:1100-1145 | On every buffer the document parser is the document function, with byte order mark, leading blanks and required terminator, and looks past the buffer exactly where the predicate says. |
| JsonPrintBuffer.PrintBuffer.Ensure | nrf/ext/iperf3/cjson.c:446-531 | Room is granted exactly when the allocator does not refuse and offset, request and one byte fit the limit; growth keeps every byte printed and goes to twice what is needed or to the largest size, and a buffer that is large enough is left alone. |
| JsonPrintBuffer.PrintBuffer.UpdateOffset | nrf/ext/iperf3/cjson.c:534-544 | The offset moves to the end of the text just printed. |
| JsonPrintBuffer.PrintBuffer.PrintNumber | nrf/ext/iperf3/cjson.c:554-617 | Number text of at most 25 bytes is printed; longer text fails. |
| JsonPrintBuffer.PrintBuffer.CountEscapes | nrf/ext/iperf3/cjson.c:934-958 | The first pass counts exactly the bytes that escaping adds. |
| JsonPrintBuffer.PrintBuffer.WriteEscaped | nrf/ext/iperf3/cjson.c:976-1021 | The second pass writes exactly the escaped bytes. |
| JsonPrintBuffer.PrintBuffer.WriteQuoted | nrf/ext/iperf3/cjson.c:960-1025 | The quoted text and its terminator are written inside the reserved room, by copying or by escaping. |
| JsonPrintBuffer.PrintBuffer.PrintString | nrf/ext/iperf3/cjson.c:907-1026 | The quoted string follows what was printed, or there is no room for it and two bytes more. |
| JsonPrintBuffer.PrintBuffer.PrintHere | nrf/ext/iperf3/cjson.c:1372-1443 | print_value leaves exactly the pure text and its terminator behind the old bytes; it fails exactly when the allocator refuses, a number text is too long, or text and two bytes more do not fit. |
| JsonPrintBuffer.PrintBuffer.PrintArray | nrf/ext/iperf3/cjson.c:1540-1599 | The same for an array. |
| JsonPrintBuffer.PrintBuffer.PrintItem | nrf/ext/iperf3/cjson.c:1563-1586 | One element and its separator, or no room for them and two bytes more; where blanks go is said by `JsonLayout`. |
| JsonPrintBuffer.PrintBuffer.PrintItems | nrf/ext/iperf3/cjson.c:1563-1587 | The elements and separators in order; a failure means that the whole does not fit. |
| JsonPrintBuffer.PrintBuffer.PrintObject | nrf/ext/iperf3/cjson.c:1711-1822 | The same for an object, with indentation by depth. |
| JsonPrintBuffer.PrintBuffer.PrintName | nrf/ext/iperf3/cjson.c:1740-1773 | Indentation, name and colon, or no room for them and one byte more. |
| JsonPrintBuffer.PrintBuffer.PrintMember | nrf/ext/iperf3/cjson.c:1740-1799 | One member with its separator, or no room for it and two bytes more. |
| JsonPrintBuffer.PrintBuffer.PrintMembers | nrf/ext/iperf3/cjson.c:1738-1802 | The members in order; a failure means that the whole does not fit. |
| JsonPrintBuffer.Render | nrf/ext/iperf3/cjson.c:1192-1254 | For every tree and growth path the result is the pure text; there is none exactly when an allocation is refused, the last one included, a number text is too long, or the text is too long. |
| JsonPrintBuffer.RenderBuffered | nrf/ext/iperf3/cjson.c:1267-1295 | The same from any first size, with a negative one refused. |
| JsonPrintBuffer.RenderPreallocated | nrf/ext/iperf3/cjson.c:1297-1314 | Printing into a fixed buffer succeeds if and only if its length is at least two more than the text, and then holds the text and its terminator. |
| JsonCompare.SameNameIff | nrf/ext/iperf3/cjson.c:140-161 | Names are the same if and only if they are equal or, where case does not count, differ only in the case of letters. |
| JsonCompare.Find | nrf/ext/iperf3/cjson.c:1877-1907 | The first member of that name in the chosen case mode. |
| JsonCompare.CompareIffSame | nrf/ext/iperf3/cjson.c:2952-3075 | On trees whose objects have distinct names, comparison holds if and only if the trees are equal up to a permutation of members. |
| JsonCompare.CompareIsSymmetric | nrf/ext/iperf3/cjson.c:2952-3075 | On all trees comparison is symmetric. |
| JsonCompare.CompareIsTransitive | nrf/ext/iperf3/cjson.c:2952-3075 | On all trees it is transitive. |
| JsonCompare.CompareIsReflexiveIff | nrf/ext/iperf3/cjson.c:3034-3070 | A tree compares equal to another of the same value if and only if, in every object, members of the same name have values that compare equal. |
| JsonCompare.DistinctNamesAgree | nrf/ext/iperf3/cjson.c:3034-3070 | That is so wherever names are distinct. |
| JsonCompare.DuplicateComparesEqualIff | nrf/ext/iperf3/cjson.c:2676-2753 | A deep copy of any tree with NUL-free strings compares equal to it if and only if namesakes agree. |
| JsonCompare.NamesakesCompareUnequal | nrf/ext/iperf3/cjson.c:3034-3070 | An object with true and false under one name does not compare equal to its copy. |
| JsonSiblings.Parent.GetItem | nrf/ext/iperf3/cjson.c:1848-1865 | The node at an index of the represented sequence, or none. |
| JsonSiblings.Parent.Add | nrf/ext/iperf3/cjson.c:1953-1993 | Appends to the sequence, keeps links and cached tail, and sets the cache; with a stale cache the item hangs off the node that left and the list does not grow. |
| JsonSiblings.Parent.Insert | nrf/ext/iperf3/cjson.c:2263-2290 | Inserts at an index, or appends, and keeps links and cached tail; the first node, old or new, caches what the first one did, or the appended node. |
| JsonSiblings.Parent.InsertBefore | nrf/ext/iperf3/cjson.c:2277-2288 | The links around an inserted node, at the head or inside. |
| JsonSiblings.Parent.Detach | nrf/ext/iperf3/cjson.c:2193-2221 | Removes the node from the sequence; the first node left caches what the first one did, which stays right if and only if it did not name that node as the last of several. |
| JsonSiblings.Parent.DetachLastThenAdd | nrf/ext/iperf3/cjson.c:2193-2221 | What is added after the cached last node was detached is not in the list. |
| JsonSiblings.Parent.Replace | nrf/ext/iperf3/cjson.c:2292-2331 | Updates the sequence; the first node caches what the first one did, which stays right if and only if it did not name the replaced node. |
| PartitionOrder.ImagesToResolve | nrf/scripts/partition_manager.py:164-184 | With spans free of repetitions, every partition that asks for a place comes out once, parts of spans after the others and those of shorter spans after those of longer ones, each span's in the order of the span. |
| PartitionOrder.ByLengthIsStable | nrf/scripts/partition_manager.py:172-172 | Sorting by length keeps every span, and those of one length in their order. |
| PartitionOrder.ChosenKeepOrder | nrf/scripts/partition_manager.py:179-179 | The parts chosen from a span keep the order they have in it. |
| PartitionOrder.FirstDependent | nrf/scripts/partition_manager.py:193-193 | The unsolved partition chosen asks for the current one and no earlier one does; none is chosen only if none asks. |
| PartitionOrder.Anchor | nrf/scripts/partition_manager.py:195-203 | The anchor is the item asked for, if it is placed, and otherwise the placed part of the span asked for beyond which no other part lies on the asked side; there is none only if no part is placed. |
| PartitionOrder.InsertedLies | nrf/scripts/partition_manager.py:196-204 | An insertion adds the name once, on the asked side of its anchor, and keeps the ends in place. |
| PartitionOrder.InsertedIsNext | nrf/scripts/partition_manager.py:196-204 | It comes right next to its anchor, and nothing else changes. |
| PartitionOrder.InsertedKeeps | nrf/scripts/partition_manager.py:196-204 | It keeps the relative order of all that was there. |
| PartitionOrder.PlaceKeepsValid | nrf/scripts/partition_manager.py:193-206 | One insertion keeps: no repetition, nothing lost, "start" first and "end" last, every earlier placement on its side, everything placed reachable from the fixed places. |
| PartitionRounds.IdlePass | nrf/scripts/partition_manager.py:187-210 | A pass that places nothing has looked at everything that is placed and at every span. |
| PartitionRounds.RunIsOrderly | nrf/scripts/partition_manager.py:187-318 | The log of every run explains its order: each partition was put right next to what it asked for or the outermost part of it, was the first of those left to ask for that, and whatever asks for it on the same side comes right after it. |
| PartitionRounds.BeforeGoesFirst | nrf/scripts/partition_manager.py:312-315 | A partition that alone asks to lie before a fixed place is put right there in every run, whatever it asks to lie after. |
| PartitionSpans.ConsecutiveIff | nrf/scripts/partition_manager.py:323-331 | The test on the highest and lowest index holds if and only if the span is an unbroken piece of the solution. |
| PartitionTidy.FittingKeeps | nrf/scripts/partition_manager.py:196-204 | Placing a partition outside an unbroken span, or a part of it next to another, leaves the span unbroken. |
| PartitionTidy.BrokenStaysBroken | nrf/scripts/partition_manager.py:196-204 | Any other placement breaks it, and no placement mends it. |
| PartitionTidy.UnbrokenIffAllFit | nrf/scripts/partition_manager.py:187-318 | So over a whole run a span ends unbroken if and only if every partition was put where it fits. |
| PartitionTidy.TidyStaysUnbroken | nrf/scripts/partition_manager.py:187-318 | A span all of whose parts but one ask for parts, and whose inside nobody else asks for, is never broken, in any run. |
| PartitionTidy.UnbrokenIffWhole | nrf/scripts/partition_manager.py:323-331 | With all parts placed, not being broken is what the check tests. |
| PartitionTidy.PassesCheckIff | nrf/scripts/partition_manager.py:323-331 | A finished order passes the check of a span if and only if every partition was put where it fits, and always if the span is tidy. |
| PartitionSolver.Solver.PlaceNext | nrf/scripts/partition_manager.py:194-206 | One placement by the current item keeps everything and leaves less unsolved; it fails exactly when the span asked for has no placed part. |
| PartitionSolver.Solver.SolveDirection | nrf/scripts/partition_manager.py:187-210 | The loop ends, keeps all of the above, comes to the state that following each item's chain of requests in turn gives, and if it places nothing then no unsolved partition asks, in this direction, for anything placed or any span. |
| PartitionSolver.StuckIsUngrounded | nrf/scripts/partition_manager.py:312-318 | Two such rounds leave only partitions from which no chain of requests leads to a fixed place or a span. |
| PartitionSolver.UngroundedAreLeft | nrf/scripts/partition_manager.py:312-318 | When a round places nothing, what is left is exactly what cannot be reached. |
| PartitionSolver.Solver.SolveAll | nrf/scripts/partition_manager.py:312-318 | The rounds, each before and then after, end with nothing unsolved, or with exactly the unreachable partitions left, or with a span asked for of which no part is placed. |
| PartitionSolver.AllContent | nrf/scripts/partition_manager.py:312-331 | In a finished order with unbroken spans, each partition lies on the asked side of the item it was placed by, or of a part of the span and, unless it is a part itself, of all of it. |
| PartitionSolver.CheckSpans | nrf/scripts/partition_manager.py:323-336 | The final checks pass if and only if all parts are placed and every span is unbroken. |
| PartitionSolver.Solver.Resolve | nrf/scripts/partition_manager.py:308-338 | On return every partition is in the order exactly once and where it asked to be, and spans are unbroken; the log explains the order, and a span is unbroken in it if and only if every partition was put where it fits. It does return if all partitions are reachable, all parts are partitions, spans are tidy and those asked for have the dynamic partition in them. A tidy span never fails the check; "endless loop" is raised with exactly the unreachable partitions left, a missing anchor with no part of the span placed; and the assertion on "start" and "end" cannot fail. |
| SortedSets.IncreasingIsSorted | nrf/scripts/partition_manager.py:714-714 | A strictly increasing list is the sorted list of its elements. |
| SortedSets.PrefixOfSortedIff | nrf/scripts/partition_manager.py:714-714 | Some elements come first in sorted order if and only if all others are greater. |
| PartitionGaps.Sized | nrf/scripts/partition_manager.py:826-829 | The parts taken are those of the entries that have a size. |
| PartitionGaps.Proper | nrf/scripts/partition_manager.py:703-705 | Spans and the dynamic partition take none. |
| PartitionGaps.GapsAreRightIff | nrf/scripts/partition_manager.py:710-714 | For all partitions inside the region, overlapping or empty, the zipped differences are exactly the free space if and only if no empty partition sits at an edge of it, ends and starts that stray into other partitions are not both there, and they lie above the edges. |
| PartitionGaps.OverlapsAreReadIff | nrf/scripts/partition_manager.py:710-714 | Of non-empty partitions, overlapping or not, this is the condition on strays. |
| PartitionGaps.EmptiesAreReadIff | nrf/scripts/partition_manager.py:710-714 | Of disjoint partitions, empty or not, it is that no empty one sits at an edge of the free space. |
| PartitionGaps.GapsAreFree | nrf/scripts/partition_manager.py:710-714 | For disjoint, non-empty partitions inside the region, the zipped differences are separate, non-empty intervals that hold exactly the free bytes. |
| PartitionGaps.OneGapIff | nrf/scripts/partition_manager.py:710-716 | For every such layout there is the single gap [a, b) if and only if [a, b) is all the free space. |
| PartitionGaps.DynamicAreaIsTheFreeSpace | nrf/scripts/partition_manager.py:700-729 | Start and size are returned if and only if they are all the free space and every static partition has a size; otherwise it raises. |
| PartitionGaps.PackedConfigIff | nrf/scripts/partition_manager.py:822-855 | A simple region's static configuration is accepted if and only if its partitions are packed at the given side. |
| PartitionGaps.OverlapIsMisread | nrf/scripts/partition_manager.py:710-714 | Any two partitions that overlap below a gap are misread. |
| PartitionGaps.EmptyPartIsMisread | nrf/scripts/partition_manager.py:710-714 | Any partition with an empty one right behind it, below a gap, is misread. |
| PartitionRegions.RegionOf | nrf/scripts/partition_manager.py:1014-1015 | The region of the partition of a name, if there is one. |
| PartitionRegions.DependencyMeans | nrf/scripts/partition_manager.py:1009-1016 | What makes one region depend on another. |
| PartitionRegions.SortKeyIsLongestWalk | nrf/scripts/partition_manager.py:999-1018 | The key is undefined exactly when a dependency loop or a used region can be reached, and otherwise is the number of regions on the longest dependency path. |
| PartitionRegions.SortKeyIgnoresPath | nrf/scripts/partition_manager.py:999-1018 | Where it is defined, it does not depend on the regions used so far. |
| PartitionRegions.InsertByKey | nrf/scripts/partition_manager.py:1020-1021 | Insertion by key adds exactly the region. |
| PartitionRegions.SortRegions | nrf/scripts/partition_manager.py:1020-1021 | The result is a permutation of the regions, and there is one exactly when every key is defined. |
| PartitionRegions.SortRegionsSorts | nrf/scripts/partition_manager.py:1020-1021 | It is in the order of the keys. |
| PartitionRegions.SortRegionsIsStable | nrf/scripts/partition_manager.py:1020-1021 | Regions with the same key stay in their order. |
| PartitionRegions.DependenciesComeFirst | nrf/scripts/partition_manager.py:1020-1021 | Every region comes after each region that it takes sizes from. |
| LpuartRx.NothingIsLost | nrf/drivers/serial/uart_nrf_sw_lpuart.c:828-925 | Over every run, bytes read followed by bytes still unread are the bytes delivered, in order. |
| LpuartRx.ReadsArePrefix | nrf/drivers/serial/uart_nrf_sw_lpuart.c:908-925 | The results of all FIFO reads concatenate to a prefix of the delivered bytes. |
| LpuartRx.StepIsSound | nrf/drivers/serial/uart_nrf_sw_lpuart.c:494-925 | One step moves bytes from delivered to unread to read and nowhere else. |
| LpuartRx.BlockedForeverIff | nrf/drivers/serial/uart_nrf_sw_lpuart.c:845-861 | Reception stays blocked in every continuation without the transmit interrupt if and only if the packet has been read up, no timer is running and its handler is not in the callback. |
| LpuartRx.StarvedIsReachable | nrf/drivers/serial/uart_nrf_sw_lpuart.c:880-884 | One packet, read after it ended, leads there. |
| LpuartRx.PacketsGetThrough | nrf/drivers/serial/uart_nrf_sw_lpuart.c:330-925 | Any number of packets, read before or after their end, with or without a clock to wait for, and of requests withdrawn too early, are all received, and the receiver is ready for more. |
| LpuartRx.TransmitInterruptWakes | nrf/drivers/serial/uart_nrf_sw_lpuart.c:953-962 | Enabling the transmit interrupt wakes a starved receiver just when no transfer is pending. |
| LpuartRxDriver.Driver.ActivateRx | nrf/drivers/serial/uart_nrf_sw_lpuart.c:379-400 | Enabling the receiver, the blink and its failure, and the request that comes before a buffer. |
| LpuartRxDriver.Driver.StartRxActivation | nrf/drivers/serial/uart_nrf_sw_lpuart.c:425-434 | A request opens the receiver at once, or when the clock is ready. |
| LpuartRxDriver.Driver.ClockReady | nrf/drivers/serial/uart_nrf_sw_lpuart.c:402-412 | The clock callback is the machine's step. |
| LpuartRxDriver.Driver.RdyPinHandler | nrf/drivers/serial/uart_nrf_sw_lpuart.c:494-519 | A pin event, as armed, is the machine's step and keeps the triggers armed as the state says; an unexpected end goes back to idle. |
| LpuartRxDriver.Driver.OnReady | nrf/drivers/serial/uart_nrf_sw_lpuart.c:566-571 | Received data become the unread bytes. |
| LpuartRxDriver.Driver.OnBufRequest | nrf/drivers/serial/uart_nrf_sw_lpuart.c:573-580 | A full-size buffer is never asked to be replaced during a packet. |
| LpuartRxDriver.Driver.EndPacket | nrf/drivers/serial/uart_nrf_sw_lpuart.c:597-607 | A receiver that has stopped waits for its buffer just when that holds unread bytes. |
| LpuartRxDriver.Driver.OnDisabled | nrf/drivers/serial/uart_nrf_sw_lpuart.c:590-636 | After a packet the receiver is idle or waits for its buffer; after an unexpected stop reception is started again. |
| LpuartRxDriver.Driver.RxEnable | nrf/drivers/serial/uart_nrf_sw_lpuart.c:745-764 | The buffer is taken and the pin armed, or it is busy and nothing changes. |
| LpuartRxDriver.Driver.RxBufRsp | nrf/drivers/serial/uart_nrf_sw_lpuart.c:766-785 | A new buffer makes a waiting receiver idle and arms the pin. |
| LpuartRxDriver.Driver.IntDrivenRxFeed | nrf/drivers/serial/uart_nrf_sw_lpuart.c:833-843 | The buffer goes back with nothing in it. |
| LpuartRxDriver.Driver.IntDrivenBufRequest | nrf/drivers/serial/uart_nrf_sw_lpuart.c:880-884 | The buffer goes back just when it has been read up. |
| LpuartRxDriver.Driver.IntDrivenDisabled | nrf/drivers/serial/uart_nrf_sw_lpuart.c:888-898 | After an unexpected stop reception starts again with an empty buffer. |
| LpuartRxDriver.Driver.FifoRead | nrf/drivers/serial/uart_nrf_sw_lpuart.c:908-925 | Copies out the next unread bytes, as many as there are or fit. |
| LpuartRxDriver.Driver.IrqRxEnable | nrf/drivers/serial/uart_nrf_sw_lpuart.c:988-997 | Starts the timer just when something is unread. |
| LpuartRxDriver.Driver.IrqTxEnable | nrf/drivers/serial/uart_nrf_sw_lpuart.c:953-962 | Starts the timer just when no transfer is pending. |
| LpuartRxDriver.Driver.TrampolineTimeout | nrf/drivers/serial/uart_nrf_sw_lpuart.c:845-851 | The timer's handler calls the application. |
| LpuartRxDriver.Driver.TrampolineReturn | nrf/drivers/serial/uart_nrf_sw_lpuart.c:852-861 | After the callback, which may have read and may have started the timer again, the buffer goes back just when a blocked receiver has been read up. |
| LpuartRxDriver.Driver.constructor | nrf/drivers/serial/uart_nrf_sw_lpuart.c:1045-1092 | After initialisation the driver is idle and armed. |
| LpuartRxDriver.Driver.Perform | nrf/drivers/serial/uart_nrf_sw_lpuart.c:494-925 | Every step that the hardware can take is the step of the machine, with the same bytes read. |
| LpuartRxDriver.Driver.Run | nrf/drivers/serial/uart_nrf_sw_lpuart.c:494-925 | Over every run: HIGH is armed exactly in the idle state and HITOLO exactly in the active one, no assertion fails, the receiver gets the buffer only with nothing unread in it, and reads and unread bytes are the delivered ones. |
| LpuartTx.RunIsOrderly | nrf/drivers/serial/uart_nrf_sw_lpuart.c:436-487 | Over every run the events come in order: accept when free, start what was accepted, end. |
| LpuartTx.RunIsSound | nrf/drivers/serial/uart_nrf_sw_lpuart.c:453-487 | Over every run a transfer being sent is the one on the wire and is not timed any more. |
| LpuartTx.StartsFollowAccepts | nrf/drivers/serial/uart_nrf_sw_lpuart.c:453-743 | uart_tx is called at most once for each accepted transfer, with its buffer and length, never after it ended by abort, timeout or otherwise; a transfer is accepted only when the last one has ended. |
| LpuartTx.TransfersGetThrough | nrf/drivers/serial/uart_nrf_sw_lpuart.c:436-743 | Any number of transfers, sent, refused, aborted before or after the confirmation, or timed out, are accepted one after the other, start only if confirmed, end once, and leave the driver free. |
| LpuartTx.RefusedForeverIff | nrf/drivers/serial/uart_nrf_sw_lpuart.c:863-951 | In interrupt-driven use, filling the FIFO is refused in every continuation if and only if it counts as filled and no transfer that empties it is under way. |
| LpuartTx.UnsentWedges | nrf/drivers/serial/uart_nrf_sw_lpuart.c:645-680 | A waiting FIFO transfer that ends without being sent leads there. |
| LpuartTxDriver.Driver.Transmit | nrf/drivers/serial/uart_nrf_sw_lpuart.c:682-701 | Busy exactly while a transfer is pending, and then nothing changes; otherwise the transfer waits, armed and timed. |
| LpuartTxDriver.Driver.FifoFill | nrf/drivers/serial/uart_nrf_sw_lpuart.c:927-951 | Takes as many bytes as fit, or none while the FIFO is filled or a transfer is pending. |
| LpuartTxDriver.Driver.ReqPinHandler | nrf/drivers/serial/uart_nrf_sw_lpuart.c:453-487 | A confirmation starts the waiting transfer once, or ends it if the UART refuses; with no transfer it only ends. |
| LpuartTxDriver.Driver.OnDone | nrf/drivers/serial/uart_nrf_sw_lpuart.c:548-560 | The end of a transmission frees the driver, and the FIFO unless it was a polled byte. |
| LpuartTxDriver.Driver.OnAborted | nrf/drivers/serial/uart_nrf_sw_lpuart.c:561-564 | An abort reported by the UART changes nothing but the UART. |
| LpuartTxDriver.Driver.TxTimeout | nrf/drivers/serial/uart_nrf_sw_lpuart.c:645-680 | A timeout ends a waiting transfer; a transfer under way is only asked to stop. |
| LpuartTxDriver.Driver.TxAbort | nrf/drivers/serial/uart_nrf_sw_lpuart.c:703-743 | Ends a pending transfer, or reports that there is none; what the UART answers is passed on unless it was sending nothing. |
| LpuartTxDriver.Driver.Perform | nrf/drivers/serial/uart_nrf_sw_lpuart.c:436-743 | Every step that the hardware can take is the step of the machine, with the same events. |
| LpuartTxDriver.Driver.Run | nrf/drivers/serial/uart_nrf_sw_lpuart.c:436-743 | Over every run the driver's fields and events are those of the machine; an active transfer always has a buffer, and the pin is armed exactly for a waiting one. |

## Left out

- JsonPrintBuffer.PrintBuffer.Ensure: sizes are unbounded, so a sum past the largest size is refused rather than wrapped around; copying one byte past the offset is limited to the old buffer.
- JsonRoundTrip.PrintedParsesBackIff: does not cover raw text, which is printed as it is and need not be JSON.
- GetoptRun.RunSortsArgv: runs with a long option whose value is -1 are excluded; a single call with one is modelled, but what follows may pass the end of argv and move its terminator.
- GetoptUses.EveryLineIsMeant: argv that comes down to a lone dash in a cluster is not a layout; `GetoptRun` says what happens there.
- JsonLayout.LexemesAreCompact: asks that the text of no number has a blank, as is so for sprintf.
- JsonCompare.CompareIffSame: numbers are compared exactly, not within a relative epsilon, and two references to one tree, which compare equal at once, are taken as two trees.
- JsonCompare.DuplicateComparesEqualIff: the copy is modelled on values, so that its nodes are new is not captured.
- JsonParser.ParseWithLengthOpts: the tree that parsing builds is a value; how nodes are linked is the subject of JsonSiblings only.
- PartitionSolver.Solver.Resolve: starts after the clean-up and ambiguity passes over the requirements, and asks that names are distinct and not empty and that spans hold neither "start" nor "end". That it returns is promised for tidy spans only; whether a span with requests from outside on two sides ends unbroken depends on which of them is met first, and is exact in terms of the log.
- PartitionGaps.GapsAreRightIff: partitions that stick out of the region are not covered.
- LpuartRxDriver.Driver.Run: without api_rx_disable, and with hardware that reports data at most once per enable and stops only when asked.
- LpuartRxDriver.Driver.TrampolineReturn: what the application does in its callback is steps of its own between the two halves of the handler.
- cJSON: locale, integer values of numbers, error positions, memory failure while parsing, null strings and names, references, minification, and the helpers that create and add items.
- getopt: messages, optopt, the flag that long options store to, and the lookup of POSIXLY_CORRECT.
- eth_rtt: packet allocation, logging, poll timing and the polynomial of the CRC.
- partition_manager: reading and writing files, one_of and size clean-up, alignment and address assignment, which are re-checked after the fact.
- Low-power UART: GPIO details, clock control, busy waits, polled output, notification of the user, and pre-emption inside a handler.
- All other drivers, libraries, headers and scripts of the repository: wrappers, tables or declarations that would only add easy members.
