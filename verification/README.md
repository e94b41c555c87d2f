# HTTP/1.1 framing stack: a Dafny model with proofs

The repository teaches one small HTTP/1.1 stack three times, in C, Go and Rust: parsers that are
fed bytes as they come off a TCP connection, and a server that serves one `POST /echo` request.
This project models those parsers and the one-connection pipeline, and proves what they are for:
that TCP segmentation does not matter, that each machine accepts exactly a grammar, that the three
languages agree and precisely where they do not, and that what is printed can be read back.

How it is arranged:

- `Bytes`, `Streams`, `Numerals`, `Lines`, `Fields`: octets, byte-fed machines as folds, length
  arithmetic, strict CRLF lines, and the field-line grammar.
- `HeaderMachine`, `HeaderParserC`, `HeaderParserGo`, `HeaderParserRust`: the header section.
- `ChunkedGrammar`, `ChunkedMachine`, `ChunkedTheorems`: the course subset of the chunked transfer
  coding (section 7.1 of RFC 9112, trailers per section 7.1.2, no extensions) as a grammar, as a
  decoder of whole streams, and as a byte machine, with the theorems that tie them together.
- `ChunkedParserC`, `ChunkedParserGo`, `ChunkedParserRust`: the three parser objects; the Go and
  Rust machines are related to the C machine step by step.
- `RequestHead`, `RequestLine`, `Body`, `Framing`, `Response`, `LineReader`, `Buffers`: the other
  stages.
- `Connections`, `Echo`, `EchoServerRust`, `EchoServerC`: the pipeline, its one-pass meaning, and
  the grammar of the requests it accepts.

Every step function works on whole parser states, including fields no caller can see, and every
parser object is proved to follow its step function. Sizes are bounded by a parameter that stands
for `SIZE_MAX`, `usize::MAX` or Go's `MaxInt`.

What the proofs found about the code:

- Go's `strings.EqualFold` also takes a Kelvin sign (U+212A) for the `k` of `chunked`; C and Rust do
  not (`Framing.EqualFoldChunked`, `Framing.GoFramingAgrees`, `Framing.KelvinExample`). Where Go
  folds header names, the letters have no folding outside ASCII (`Framing.EqualFoldIsAscii`).
- Rust's number parser takes a leading `+` in a chunk size; C and Go refuse it
  (`ChunkedParserRust.RustAgreesWithC`, `ChunkedParserRust.RustInStepIff`,
  `ChunkedParserRust.PlusExample`).
- C answers 200 with an empty body when the stream ends inside a chunked body, although
  the documented requirements for milestone 9 ask for 400 on malformed framing, and it
  answers nothing when the stream ends inside the head (`EchoServerC.CutExample`,
  `EchoServerC.SilentExample`). `EchoServerC.CAgreesWithRustIff` gives the exact condition under
  which C and Rust reply alike, and `EchoServerC.CBytesAgreeWithRustIff` the one for the bytes.
- A Go response whose caller passed a Transfer-Encoding header carries both framings, and the
  repository's own reader refuses it (`Response.GoResponseRoundTrip`).

## Model

| member | source | states |
|---|---|---|
| ChunkedGrammar.DecodeSpells | c/chunked_parser.c:122-193 | Whole-stream decoding loses nothing: the completed chunks are well formed, and rendering them and then the leftover piece spells the stream. |
| ChunkedGrammar.DecodeRendered | c/chunked_parser.c:122-193 | Completeness of the grammar: every message, with anything after it, decodes to exactly its own chunks, last-chunk line and trailer lines, and the rest. |
| ChunkedGrammar.DecodeDone | c/chunked_parser.c:122-193 | Soundness of the grammar: whatever decodes to the end is a well-formed message followed by the rest. |
| ChunkedGrammar.MessageIsUnique | c/chunked_parser.c:122-193 | A stream has at most one message prefix, and only one reading of it: message and remainder are both determined. |
| ChunkedGrammar.PrefixFree | c/chunked_parser.c:122-193 | No message is a proper prefix of another, so completion can never come at two different bytes. |
| ChunkedGrammar.TakeChunk | c/chunked_parser.c:139-186 | A chunk taken off the front is well formed (its size text denotes its data length, which is positive) and, rendered and followed by the rest, is the stream. |
| ChunkedGrammar.SizeIsClean | c/chunked_parser.c:140-149 | A size that is accepted contains no CR and no LF, so a size line ends at its first CRLF. |
| ChunkedMachine.MachineRefinesDecode | c/chunked_parser.c:122-193 | After any stream the byte machine's status, body, trailers and remaining bytes are those whole-stream decoding predicts; in an open state the whole parser state is determined. |
| ChunkedMachine.ChunkRun | c/chunked_parser.c:163-186 | Running over one rendered chunk returns the machine to its ready state with exactly that chunk's data appended to the body. |
| ChunkedMachine.TrailerDone | c/chunked_parser.c:92-110 | A trailer section completes the parser on its last byte, leaves the section's fields, and puts every later byte into `remaining`. |
| ChunkedMachine.TrailerBad | c/chunked_parser.c:92-110 | A trailer section that the header machine refuses makes the parser Invalid, with the bytes after the fault dropped. |
| ChunkedMachine.CompleteKeepsRest | c/chunked_parser.c:131-137 | After Complete, every byte fed is appended to `remaining` and nothing else changes. |
| ChunkedMachine.InvalidAbsorbs | c/chunked_parser.c:130 | After Invalid, bytes are dropped and the whole state stays as it is. |
| ChunkedTheorems.DecodesMessage | c/chunked_parser.c:122-193 | For every message, following bytes and cut into feeds: Complete, body the concatenated data, trailers the normalised fields, remaining exactly the following bytes. |
| ChunkedTheorems.CompleteIffMessage | c/chunked_parser.c:122-193 | For every cut into feeds: Complete if and only if some prefix of the bytes fed is a message of the chunked grammar. |
| ChunkedTheorems.InvalidIffFault | c/chunked_parser.c:122-193 | For every cut into feeds: Invalid if and only if the bytes are complete chunks and then a faulty size line, a faulty data delimiter or a faulty trailer line. |
| ChunkedTheorems.HistoryInvariant | c/chunked_parser.c:139-190 | In every reachable open state: the bytes fed are the finished chunks and one unfinished piece, the piece fixes the whole state, the declared sizes sum to body length plus countdown, the countdown is positive in the data phase, and the trailer parser is open. |
| ChunkedTheorems.RoundTrip | c/tests/binary_acceptance_test.c:128-154 | For every cut of a body into non-empty chunks, every printable trailer list, every following bytes and every cut into feeds, decoding the encoder's output gives back body, normalised trailers and following bytes. |
| ChunkedTheorems.BoundMatters | go/internal/httprequest/chunked.go:137-140 | Two decoders that differ only in the size bound: the smaller completes exactly the messages whose chunks fit its bound, and then observes the same. |
| ChunkedTheorems.PlusMatters | rust/src/chunked.rs:144-150 | A decoder that takes a leading '+' completes a message the strict one does not exactly when one of its size lines has that '+'; otherwise they observe the same. |
| ChunkedTheorems.StrictDecides | c/chunked_parser.c:150-162 | On a complete message of the tolerant dialect the strict decoder is never left Incomplete. |
| ChunkedParserC.ChunkedParser.constructor | c/chunked_parser.c:112-120 | A new parser stands for the machine's initial state under SIZE_MAX, on fresh disjoint buffers. |
| ChunkedParserC.ChunkedParser.ParseChunkSize | c/chunked_parser.c:67-90 | Returns the mathematical value of the size line when it is a non-empty hexadecimal string of at most SIZE_MAX, and refuses otherwise. |
| ChunkedParserC.ChunkedParser.FeedTrailerByte | c/chunked_parser.c:92-110 | The three-buffer object takes exactly one trailer step of the machine, or changes nothing when a buffer is full. |
| ChunkedParserC.ChunkedParser.FeedByte | c/chunked_parser.c:127-190 | The switch over phases is one machine step on the whole state, or no change at all when a buffer is full. |
| ChunkedParserC.ChunkedParser.Feed | c/chunked_parser.c:122-193 | One feed call is a run of the machine over the input; on -1 a buffer holds SIZE_MAX bytes and exactly a prefix has been consumed. |
| ChunkedParserGo.SimilarStep | go/internal/httprequest/chunked.go:46-80 | The relation between C and Go states (phases, pending CR, shared line, countdown, observations) is preserved by every byte. |
| ChunkedParserGo.SimilarRun | go/internal/httprequest/chunked.go:37-83 | Related C and Go states stay related over every stream, from any related pair and not only from the start. |
| ChunkedParserGo.GoAgreesWithC | go/internal/httprequest/chunked.go:37-163 | With one size bound, C and Go have the same status, body, trailers and remaining bytes after every feed of every stream. |
| ChunkedParserGo.GoWithinItsBound | go/internal/httprequest/chunked.go:137-140 | With their real bounds, Go completes a C message exactly when no chunk exceeds MaxInt, and then observes the same. |
| ChunkedParserGo.ChunkedParser.FinishSizeLine | go/internal/httprequest/chunked.go:132-149 | Accepts exactly the size lines in range and moves to data or trailers; on refusal nothing has changed. |
| ChunkedParserGo.ChunkedParser.FinishTrailerLine | go/internal/httprequest/chunked.go:151-163 | Completes on an empty line, otherwise appends the parsed field; on refusal nothing has changed. |
| ChunkedParserGo.ChunkedParser.ConsumeLine | go/internal/httprequest/chunked.go:105-130 | One byte of the shared size and trailer line; it asks the feed to stop exactly when the parser became Invalid. |
| ChunkedParserGo.ChunkedParser.Feed | go/internal/httprequest/chunked.go:37-83 | Early returns and the bulk slice into `remaining` amount to one machine step per byte, from every state. |
| ChunkedParserRust.ParseChunkSize | rust/src/chunked.rs:144-150 | The size parser with its explicit refusal of ';' accepts exactly the sizes of the '+'-tolerant grammar. |
| ChunkedParserRust.TracksStep | rust/src/chunked.rs:92-142 | Every byte keeps the Rust and C machines equal, or Rust one byte early on a bad size, in which case the next byte makes C Invalid too. |
| ChunkedParserRust.RustTracksPlus | rust/src/chunked.rs:78-142 | On every stream and cut, Rust and the C machine under the same limits are equal or Rust is one byte early on a bad size. |
| ChunkedParserRust.RustCompleteIffMessage | rust/src/chunked.rs:78-142 | Rust is Complete if and only if a prefix of the stream is a message whose sizes may carry a leading '+'. |
| ChunkedParserRust.RustDecodesMessage | rust/src/chunked.rs:78-142 | Rust returns such a message's payload, normalised trailers and exactly the following bytes, for every cut. |
| ChunkedParserRust.RustAgreesWithC | rust/src/chunked.rs:144-150 | On a message Rust completes, C completes it exactly when no size line begins with '+', and then observes the same. |
| ChunkedParserRust.RustInStepWithC | rust/src/chunked.rs:92-111 | Over any cut of a stream without such a line, the two have equal body, trailers and remaining after the feeds, and equal status except for a bad size Rust reports one byte earlier. |
| ChunkedParserRust.RustInStepIff | rust/src/chunked.rs:92-150 | The Rust and C decoders are in step after every prefix of a stream if and only if the stream is not complete chunks followed by a CRLF-ended line that is a size only because a leading plus sign is taken. |
| ChunkedParserRust.OutOfStepAtPlus | rust/src/chunked.rs:149 | Right after the CRLF of such a line C has refused the stream and Rust is still open. |
| ChunkedParserRust.PlusExample | rust/src/chunked.rs:149 | A concrete stream, "+0" CRLF CRLF, that Rust completes and C refuses. |
| ChunkedParserRust.RustSettled | rust/src/chunked.rs:78-90 | After Complete later bytes only extend `remaining`; after Invalid they change nothing. |
| ChunkedParserRust.ChunkedParser.FeedByte | rust/src/chunked.rs:92-142 | The match over phases, with its nested header parser object, is one step of the Rust machine. |
| ChunkedParserRust.ChunkedParser.Feed | rust/src/chunked.rs:78-90 | One feed call is a run of the Rust machine over the chunk, from every state. |
| Streams.RunConcat | go/internal/httprequest/chunked.go:37-83 | For every machine, state and byte strings a and b: feeding a then b gives the same whole state as feeding a + b. |
| Streams.SegmentationIndependence | c/chunked_parser.c:122-193 | For every machine, however a stream is cut into feeds, the final state is that of one feed of the whole stream. |
| Numerals.Accumulate | c/chunked_parser.c:67-90 | The guarded accumulator succeeds iff the text is a non-empty digit string of value at most max, returns exactly that value, and never exceeds max on the way. |
| Numerals.DigitsAreThese | c/chunked_parser.c:76-84 | The decimal digits are the ten figures; the hexadecimal ones are these and the letters a to f in either case, and nothing else. |
| Numerals.DigitTable | c/chunked_parser.c:76-82 | Each figure and each letter, in either case, stands for its number, and is printed in lower case. |
| Numerals.ValueIsPositional | c/chunked_parser.c:85-86 | One more digit makes a value ten or sixteen times what it was, plus the number that digit stands for; the empty text is zero. With it every size text has one value. |
| Numerals.ParseMixedCase | c/chunked_parser.c:67-90 | Two hexadecimal digits in mixed case parse to sixteen times the first plus the second, for exactly the numbers within the bound. |
| Numerals.PrefixValue | c/body_parser.c:47-55 | A prefix of a digit string never denotes more than the whole, which is why an early overflow refusal is right. |
| Numerals.GuardIsExact | c/chunked_parser.c:85 | The division guard fires exactly when the next multiply-and-add would exceed the maximum. |
| Numerals.Print | c/http_response.c:22-26 | A printed number is a non-empty digit string denoting it, without leading zeros. |
| Numerals.ParsePrint | c/body_parser.c:41-58 | Parsing inverts decimal and hexadecimal printing for exactly the numbers that fit the bound. |
| Lines.ScanSpells | c/header_parser.c:130-169 | The pure CRLF split loses nothing, and classifies what follows the complete lines as blank, open or broken. |
| Lines.ScanPrefix | c/header_parser.c:130-169 | Splitting inverts rendering: proper lines in front of anything are found as they are. |
| Fields.ParsesAsSpelled | c/header_parser.c:99-122 | Any reading of a line as name, colon, optional whitespace, trimmed value, optional whitespace is the one the parser returns, the name lower-cased. |
| Bytes.LowerTable | c/header_parser.c:52-55 | Lower-casing maps the twenty-six capitals to their small letters and leaves every other byte alone. |
| Bytes.NamedOctets | c/header_parser.c:99-169 | CR, LF, HTAB, SP, plus sign, colon and DEL are the octets of those texts. |
| Fields.WhitespaceIsThese | c/header_parser.c:48-50 | Optional whitespace is space and horizontal tab only. |
| Fields.ParseFieldByOctets | c/header_parser.c:99-128 | A line parses if and only if a first colon has before it at least one octet, all of them visible ASCII or above ASCII; the field is then what stands on its two sides, lower-cased and trimmed. |
| Fields.ParseFieldIffGrammar | c/header_parser.c:99-122 | A line is accepted if and only if the field grammar can spell it. |
| Fields.ParsePrinted | c/header_parser.c:64-122 | Printing a well-formed field as `name: value` and parsing it gives the field with name lower-cased and value trimmed. |
| Fields.ParsedIsNormal | c/header_parser.c:64-122 | Every field the parser returns is in normal form and prints on one line. |
| Fields.TrimExact | rust/src/header.rs:155-165 | Trimming whitespace around a value that neither begins nor ends with it gives back that value. |
| Fields.TrimBounds | rust/src/header.rs:155-165 | The two index loops return bounds whose slice is the trimmed value. |
| Fields.ParseHeaderLine | c/header_parser.c:99-122 | The C loop that judges the name byte by byte on the way to the colon agrees with the find-then-judge form on every line. |
| Fields.LowerCopy | c/header_parser.c:72-76 | The in-place lower-casing loop over a copy yields the lower-cased name. |
| HeaderParserGo.AddHeader | go/internal/httprequest/header.go:82-113 | The Go scan with its separator sentinel agrees with the same line rule on every non-empty line. |
| HeaderParserGo.HeaderParser.Feed | go/internal/httprequest/header.go:25-61 | One Feed is a run of the header machine over the chunk, from every state. |
| HeaderParserRust.HeaderParser.AddHeader | rust/src/header.rs:106-131 | The find-then-judge form appends exactly the parsed field, or refuses and appends nothing. |
| HeaderParserRust.HeaderParser.Feed | rust/src/header.rs:69-104 | One feed is a run of the header machine over the chunk, from every state. |
| HeaderParserC.HeaderParser.constructor | c/header_parser.c:124-128 | A new parser stands for the initial machine state. |
| HeaderParserC.HeaderParser.FeedByte | c/header_parser.c:137-167 | One byte of an open section over the growable line buffer is one machine step, or no change when the buffer is full. |
| HeaderParserC.HeaderParser.Feed | c/header_parser.c:130-169 | One feed is a run of the header machine; on -1 the line buffer is full and exactly a prefix has been consumed. |
| HeaderMachine.HeaderRefinesSplit | c/header_parser.c:130-169 | After any stream the state and fields are those of splitting on CRLF and parsing line by line up to the first empty line, refusing at the first bare CR, bare LF or bad line. |
| HeaderMachine.SectionRecognised | c/header_parser.c:130-169 | For every cut into feeds a section followed by anything ends Complete with its fields, the rest dropped. |
| HeaderMachine.CompleteIffSection | c/header_parser.c:130-169 | Complete if and only if a prefix of the stream is a header section. |
| HeaderMachine.SectionEndsOnLastByte | c/header_parser.c:145-149 | The machine is still open one byte before the section's end and complete at its end. |
| HeaderMachine.PrintedFieldsNormalise | c/header_parser.c:64-169 | Printing any well-formed field list and parsing it gives the list in order, names lower-cased and values trimmed. |
| HeaderMachine.NormalFormIsFixedPoint | c/header_parser.c:64-169 | Fields that came out of the parser survive printing and reparsing unchanged. |
| HeaderMachine.Consumed | c/header_parser.c:137-149 | A terminal state reached at a byte is the state after the whole input: early return loses nothing observable. |
| RequestHead.FindBytes | c/http_echo_server.c:42-50 | The scan returns the first index at which the needle occurs, and none exactly when it occurs nowhere. |
| RequestHead.Find | c/http_echo_server.c:42-50 | The result matches, no earlier index does, and none means no index does. |
| RequestHead.HeadEndText | c/http_echo_server.c:135 | The head ends with the text CR LF CR LF. |
| RequestHead.FindIsStable | rust/src/tcp_server.rs:164-178 | Once a needle has been found, reading more bytes does not move its first occurrence. |
| RequestHead.FirstDouble | rust/src/tcp_server.rs:165-166 | In front of anything, proper lines and a blank line have their first CRLFCRLF at that blank line. |
| RequestHead.HeadRefinesSplit | c/request_parser.c:7-53 | The head machine's state after any stream, read off the pure CRLF split. |
| RequestHead.CompleteHeadIsLines | rust/src/tcp_server.rs:161-179 | A head cut at the first CRLFCRLF and accepted by the head machine is a non-empty list of proper lines and a blank line, and nothing more. |
| RequestHead.LinesAreACompleteHead | rust/src/tcp_server.rs:161-179 | Conversely every such head, in front of anything, is cut there and accepted. |
| RequestHead.HeadBoundaryAgreement | c/http_echo_server.c:134-146 | On a head cut at the first CRLFCRLF the head machine always decides, accepts exactly the heads that do not begin with CRLF and have no bare CR or LF, and no earlier byte could have completed it. |
| RequestHead.HeaderHandOff | c/http_echo_server.c:147-157 | In an accepted head the first CRLF ends a non-empty line, and the header machine fed the rest decides, completing (if it does) exactly on the last byte. |
| RequestHead.RequestParser.Feed | rust/src/request.rs:48-82 | The four-field object's feed is a run of the head machine, from every state; C has the same statements (c/request_parser.c:7-53). |
| Body.BulkIsRun | c/body_parser.c:78-103 | The bulk feed (fill up to the length, keep the rest) equals feeding the bytes one at a time. |
| Body.BodyExact | c/body_parser.c:60-103 | For every cut into feeds: exactly the declared number of bytes becomes the body and everything after it stays in `remaining`. |
| Body.BodyCompleteIff | c/body_parser.c:60-103 | Complete if and only if the length is representable and that many bytes have come; then body and remaining are the two parts of the stream. |
| Body.NoLengthNoBody | rust/src/body.rs:24-29 | Without a Content-Length the parser is Complete with an empty body, and every byte fed stays in what is left over. |
| Body.ContentLengthIsExact | rust/src/body.rs:86-95 | The checked fold returns the mathematical value of a non-empty digit string within the bound and refuses everything else. |
| Body.RustBodyParser.constructor | rust/src/body.rs:22-49 | The initial state for an absent, a bad, a zero and a positive length. |
| Body.RustBodyParser.Feed | rust/src/body.rs:64-84 | One bulk feed is a run of the body machine over the chunk. |
| Body.BodyParser.constructor | c/body_parser.c:60-76 | The initial state for an absent, a bad, a zero and a positive length, over fresh buffers. |
| Body.BodyParser.Feed | c/body_parser.c:78-103 | One bulk feed into two growable arrays is a run of the body machine, or changes nothing when the kept bytes no longer fit a size. |
| Buffers.ByteBuffer.GrownCapacity | c/chunked_parser.c:37-45 | The doubling loop ends with a capacity at least the request and at most SIZE_MAX, at least double the old one unless the escape was needed. |
| Buffers.ByteBuffer.Reserve | c/chunked_parser.c:32-51 | Growing keeps the contents and the length. |
| Buffers.ByteBuffer.Append | c/body_parser.c:27-39 | Appends all of the source, or changes nothing exactly when the length would exceed SIZE_MAX; also c/http_echo_server.c:17-40. |
| Buffers.ByteBuffer.AppendByte | c/chunked_parser.c:53-60 | Appends one byte, or changes nothing exactly when the length is SIZE_MAX; the regrowth account in `Valid` is kept. |
| Buffers.ByteBuffer.GrowthIsLinear | c/chunked_parser.c:32-60 | Over any run of appends, clears and drops totalling n bytes, n at most SIZE_MAX / 2, regrowth has copied at most 2n bytes. |
| Buffers.ByteBuffer.DropFront | c/line_reader.c:73-75 | The in-place move leaves exactly the old contents without their first bytes. |
| Framing.FramingIsOrderFree | c/http_echo_server.c:89-115 | Framing selection is invariant under permuting the header fields. |
| Framing.FramingRule | c/http_echo_server.c:89-115 | By position and without counting: a length is selected if and only if the one framing field in the list is a Content-Length, and it is that field's value; chunked if and only if the one framing field is a Transfer-Encoding that is chunked up to case; everything else is refused. |
| Framing.GoFramingRule | go/internal/tcpserver/server.go:226-255 | The same rule for Go with Unicode folding of the coding. |
| Framing.AmbiguousIsRefused | c/http_echo_server.c:114 | Two framing fields anywhere, one of each kind or one kind twice, are refused by all three. |
| Framing.CodingLineText | c/http_echo_server.c:104-110 | A Transfer-Encoding line as text, with capitals and surrounding whitespace, parses to the lower-case name and bare value and selects chunked framing. |
| Framing.EqualsAsciiCase | c/http_echo_server.c:63-74 | The comparison loop holds exactly when the text is the literal up to ASCII case. |
| Framing.SelectFramingC | c/http_echo_server.c:89-115 | The C fold with its early refusals computes the counting rule: exactly one of the two fields in total, and a coding equal to chunked up to case. |
| Framing.SelectFramingRust | rust/src/tcp_server.rs:186-208 | The Rust fold over two options computes the same rule. |
| Framing.SelectFramingGo | go/internal/tcpserver/server.go:226-255 | The Go fold over a pointer, a count and a last value computes the counting rule with Unicode case folding, read byte by byte from the UTF-8 text, on the coding. |
| Framing.GoFramingAgrees | go/internal/tcpserver/server.go:251 | With folding defined letter by letter, Go decides as the other two if and only if the only framing field is not one Transfer-Encoding that spells chunked with a Kelvin sign. |
| Framing.EqualFoldChunked | go/internal/tcpserver/server.go:251 | What folds to the literal chunked is exactly its ASCII spellings in any case and those whose k is a Kelvin sign. |
| Framing.EqualFoldIsAscii | go/internal/httpresponse/response.go:54-57 | For a literal without k and s, as both header names are, Unicode folding accepts exactly the ASCII spellings. |
| Framing.KelvinExample | go/internal/tcpserver/server.go:251 | A concrete header list that Go accepts as chunked and the other two refuse. |
| Framing.FoldedLetters | go/internal/tcpserver/server.go:251 | The two folded letters outside ASCII are the UTF-8 forms of U+212A for k and U+017F for s. |
| RequestLine.RequestLineGrammar | rust/src/request_line.rs:16-41 | A line parses to a method and target if and only if it is method SP target SP HTTP/1.1 with both non-empty and free of SP, HTAB, CR and LF. |
| RequestLine.LineFieldIsThese | rust/src/request_line.rs:17-37 | A field of the line is not empty and holds no space, tab, CR or LF. |
| RequestLine.EchoLineIsLiteral | rust/src/tcp_server.rs:147-150 | The served line is exactly one literal. |
| RequestLine.EchoLineText | rust/src/tcp_server.rs:148 | That literal is the text POST /echo HTTP/1.1. |
| Echo.AcceptHeadIffGrammar | rust/src/tcp_server.rs:141-179 | All head stages together accept exactly the echo line, header lines that parse and select one framing, and a blank line; the body bytes start right after it. |
| Echo.AmbiguousHeadIsRefused | rust/tests/binary_acceptance.rs:37-45 | A head that carries two framing fields, of either kind and in any place, is refused whatever follows it. |
| Echo.TakeBodyIffPayload | rust/src/tcp_server.rs:210-247 | A body is returned exactly when the bytes after the head begin with a payload for the selected framing, and it is that payload's body. |
| Echo.RustEchoIffRequest | rust/src/tcp_server.rs:141-247 | The server echoes a body if and only if the stream begins with a well-formed echo request with that body. |
| Echo.RequestIsUnique | rust/src/tcp_server.rs:141-247 | No stream can be read as two different requests or as one request ending at two places. |
| Echo.TrailingBytesAreIgnored | rust/src/tcp_server.rs:210-247 | Bytes after a complete request never change the echoed body. |
| Connections.Connection.Read | rust/src/tcp_server.rs:173-177 | A read takes a piece off the front of the stream, and is empty only at end of file. |
| EchoServerRust.ReadRequestHead | rust/src/tcp_server.rs:161-179 | For every cut into reads: the head up to the stream's first CRLFCRLF if the head machine accepts it, with nothing of what follows lost, otherwise a refusal; and no read is asked for once the head is there. |
| EchoServerRust.ParseHead | rust/src/tcp_server.rs:143-155 | Line, header section and framing of a head, in agreement with the one-pass judgement. |
| EchoServerRust.ReadContentLengthBody | rust/src/tcp_server.rs:210-230 | For every cut into reads the result is that of the whole remaining stream; a stream that ends early is refused; and no read is asked for once the parser has decided. |
| EchoServerRust.ReadChunkedBody | rust/src/tcp_server.rs:232-247 | For every cut into reads the result is that of the whole remaining stream; a stream that ends early is refused; and no read is asked for once the parser has decided. |
| EchoServerRust.ReadEchoRequest | rust/src/tcp_server.rs:141-159 | Terminates on every finite stream, with a result that is a function of the byte stream alone, after exactly the reads needed to settle it. |
| Echo.ReadsNeededIsLeast | rust/src/tcp_server.rs:141-247 | The number of reads the server asks for is the least after which the head has ended and is refused or its body is decided. |
| Echo.AnsweredBeforeEndOfFile | rust/src/tcp_server.rs:141-247 | When some reads carry a whole request, the server asks for no read after them: the client need not close first. |
| Echo.SettledIsFinal | rust/src/tcp_server.rs:141-247 | Once settled, no later byte can change the answer, so stopping there loses nothing. |
| EchoServerRust.ServeEchoOnce | rust/src/tcp_server.rs:128-139 | The bytes written are a function of the byte stream alone: the image/bmp 200 with the body, or the empty 400. |
| EchoServerRust.EchoRoundTrip | rust/src/tcp_server.rs:128-159 | A client that sends a well-formed request, and anything after it, reads back the status line HTTP/1.1 200 OK, type image/bmp, exactly its body, and nothing left over. |
| EchoServerRust.EverythingElseIsRefused | rust/src/tcp_server.rs:128-159 | A stream that begins with no well-formed request is answered with one fixed text, which reads back as HTTP/1.1 400 Bad Request, type text/plain, no body and nothing left over. |
| EchoServerRust.ExampleReply | rust/src/tcp_server.rs:128-159 | The whole pipeline on text: a chunked request with mixed case, an upper-case size and a trailer, followed by anything, is answered with the 200 text and its ten bytes. |
| EchoServerC.ServeOnce | c/http_echo_server.c:76-196 | For every cut into reads, the bytes written are a function of the stream alone; only a stream of SIZE_MAX bytes or more may instead be answered without a body. |
| EchoServerC.RepliesAsText | c/http_echo_server.c:180-187 | What C writes for each reply, as text: nothing, the 400, or the 200 with its body when that fits below SIZE_MAX. |
| EchoServerC.Answer | c/http_echo_server.c:117-184 | The decision behind them, silence, a 400, or a 200 with a body, is a function of the stream alone under the same proviso. |
| EchoServerC.HttpResponseBuild | c/http_response.c:22-46 | The guard builds the response exactly when its whole length is below SIZE_MAX, and then builds the same bytes as the Rust format string. |
| EchoServerC.ReadHead | c/http_echo_server.c:134-142 | Nothing read is lost, and the search result is that of the whole stream, unless none is found in a stream longer than SIZE_MAX. |
| EchoServerC.JudgeRequestHead | c/http_echo_server.c:147-159 | Line, header section and framing agree with the same one-pass judgement as in Rust, unless a head of SIZE_MAX bytes or more is refused because it cannot be held. |
| EchoServerC.ServeChunked | c/http_echo_server.c:160-169 | The chunked branch: 200 with the payload, 400 when refused, 200 without a body at end of file, or when a stream of SIZE_MAX bytes or more fills a buffer. |
| EchoServerC.ServeByLength | c/http_echo_server.c:170-179 | The Content-Length branch: 200 with the body, 400 when refused or at end of file; a read that cannot fit is answered without a body. |
| EchoServerC.CAgreesWithRustIff | c/http_echo_server.c:117-196 | C and Rust give the same reply on exactly the streams that contain a whole head, whose chunked body, if that is the framing, is not cut off, and has no plus-sign size; both conditions speak of the bytes only. |
| EchoServerC.CPartsAs | c/http_echo_server.c:134-182 | How they part: without a whole head C is silent and Rust refuses; a cut chunked body is an empty 200 in C; a plus-sign size is refused by C and echoed by Rust. |
| EchoServerC.UnfinishedIff | c/chunked_parser.c:122-193 | A chunked body is undecided if and only if no prefix of it is a message and it is not complete chunks followed by a fault. |
| EchoServerC.CBytesAgreeWithRustIff | c/http_response.c:22-31 | The bytes written agree under the same conditions and one more: the response is shorter than SIZE_MAX. |
| EchoServerC.RepliesDiffer | c/http_echo_server.c:180-184 | Different replies are different bytes on the wire. |
| EchoServerC.CutExample | c/http_echo_server.c:164-167 | A concrete request head with chunked framing and then end of file: C answers 200 with an empty body, Rust 400. |
| EchoServerC.SilentExample | c/http_echo_server.c:137-140 | The empty stream: C writes nothing, Rust answers 400. |
| EchoServerC.HeldBound | c/http_echo_server.c:160-169 | The decoder never holds more bytes than were fed to it, so its buffers cannot fill on a stream shorter than SIZE_MAX. |
| Response.AssembledReadsBack | go/internal/httpresponse/response.go:44-72 | Any status line, printable fields that declare the body length, and body read back whole with the repository's own parsers, fields in normal form and nothing left over, if and only if the reader can hold that length. |
| Response.StatusLineSays | rust/src/response.rs:40-46 | For every code and reason the status line is the version up to its first space, then decimal digits of exactly that code up to the next, then the reason. |
| Response.BadRequestText | rust/src/response.rs:29-51 | The refusal, byte for byte. |
| Response.ImageBmpOkText | rust/src/response.rs:39-51 | The echo reply, byte for byte, with its printed length and the body. |
| Response.RefusalReadsBack | rust/src/response.rs:29-36 | The refusal reads back as HTTP/1.1 400 Bad Request, type text/plain, no body, nothing left over. |
| Response.EchoReadsBack | rust/src/response.rs:39-51 | The echo reply reads back as HTTP/1.1 200 OK, type image/bmp, exactly the body, nothing left over. |
| Response.FormatIsAssembly | rust/src/response.rs:39-51 | The Rust format string is a status line, three well-formed field lines, a blank line and the body. |
| Response.RustResponseRoundTrip | rust/src/response.rs:39-51 | A Rust response reads back with a status line that says its code and reason, its fields and exactly its body, if and only if the reader can hold the body's length. |
| Response.AppendHeader | go/internal/httpresponse/response.go:74-79 | Appends one printed field and its CRLF. |
| Response.AppendOthers | go/internal/httpresponse/response.go:52-62 | The header loop writes the other headers in order, drops caller lengths, and defers the Connection headers in order. |
| Response.GoResponseBytes | go/internal/httpresponse/response.go:44-72 | The Go serialiser writes the other headers in order, one generated length, the Connection headers in order, a blank line and the body. |
| Response.GoOrder | go/internal/httpresponse/response.go:52-69 | By position: the generated length stands after all other caller headers and before all Connection headers, each group in the caller's order with none missing. |
| Response.GoOneContentLength | go/internal/httpresponse/response.go:52-66 | Whatever lengths the caller passed, exactly one Content-Length is written and it is the body's. |
| Response.GoResponseRoundTrip | go/internal/httpresponse/response.go:44-72 | A Go response for any printable headers reads back whole, with a status line that says its code and reason and with exactly its body, if and only if the caller passed no Transfer-Encoding header and the reader can hold the body's length; otherwise it is refused. |
| Response.GoResponseReadsBack | go/internal/httpresponse/response.go:44-72 | Whatever headers the caller passed, the head reads back in normal form, it declares one length, and a body parser started on that length takes exactly the body. |
| Response.GoFieldsCodings | go/internal/httpresponse/response.go:53-62 | The serialiser neither adds nor drops a Transfer-Encoding header. |
| Response.Writer.Write | go/internal/httpresponse/response.go:85-86 | A writer takes a prefix of what it is offered, and may report an error whether or not it took anything. |
| Response.WriteAll | go/internal/httpresponse/response.go:82-95 | The write loop ends with all bytes written in order and no error reported, or stops after a prefix of them; stopping after all of them means that the writer reported an error. |
| LineReader.ReadingIsUnique | c/line_reader.c:63-77 | A stream has exactly one reading as CRLF-free lines and a CRLF-free remainder, and it is the one the reader finds. |
| LineReader.SplitIsAnAction | rust/src/line_reader.rs:13-31 | Feeding a then b emits the lines of a + b in order and leaves the same remainder. |
| LineReader.FeedsReadTheStream | c/line_reader.c:42-80 | Over any run of feeds the emitted lines, each with its CRLF, and then the remainder spell exactly the bytes fed, and none contains CRLF. |
| LineReader.RustLineReader.Feed | rust/src/line_reader.rs:13-31 | The offset-then-drain loop emits and keeps exactly that reading. |
| LineReader.LineReader.Scan | c/line_reader.c:63-69 | The index loop over the array finds the first CRLF, or none. |
| LineReader.LineReader.EmitLine | c/line_reader.c:70-76 | The line goes to the callback first; only if that succeeds is the tail moved over it. |
| LineReader.LineReader.Feed | c/line_reader.c:42-80 | The in-place loop emits and keeps the same reading; if the callback refuses a line, exactly the lines before it have been emitted and it and all that follows are still pending; input that does not fit changes nothing. |

## Left out

- Sockets, `accept`, timeouts, threads, `errno` and read errors: a connection is a sequence of non-empty reads followed by end of file.
- Allocation failure and freeing in C: allocation is assumed to succeed; capacity and length arithmetic are kept.
- EchoServerC.ServeOnce: for a stream of SIZE_MAX bytes or more it says only that no body is echoed unless it is the right one, because which buffer fills up first then depends on how the stream was cut into reads.
- The number of reads the C server asks for; it is stated for the Rust server.
- The capacity of the C field array (`reserve_fields`): the fields are a sequence that only grows; the line buffer is an array.
- `SIZE_MAX` as a line length in the C header parser: the source would wrap to zero there; the model refuses the byte, as it does for the other buffers.
- `std::str::from_utf8` in the Rust size and length parsers: text that is not UTF-8 contains a byte above 127, which the digit tests refuse with the same outcome.
- `snprintf`, `format!`, `strconv` and `from_str_radix` internals: replaced by printing and parsing functions with their documented results.
- The Go server read path, where a read may return data together with end of file, and Go's body, request-head and line parsers, which repeat the C and Rust machines statement for statement.
- `c/request_line.c` as its own loop: the C pipeline uses the Rust split into three fields, which accepts the same lines.
- `Display` and `String` forms used by fixtures, and the fixture loaders.
- Chunk extensions, keep-alive, routing and field semantics, which the course excludes.
