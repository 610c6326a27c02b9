# cipc: frames, codec and interface compiler, modelled in Dafny

cipc is a small C++ inter-process-call library with a Python interface
compiler (`cipcc`). This project models its core in Dafny 4 and proves what
the code promises:

- **Integer codec** (`cipc/serialize.cc`, `cipc/serialize.h`). The eight
  fixed-width integer types and `bool` are written little-endian into a
  caller's bounded buffer, with 0 as the "too small" result. `byte_swap`,
  `host_to_le` and `le_to_host` are modelled in all three build branches:
  the little-endian cast, the big-endian swap and the portable byte loop.
  The host byte order and the build macros are parameters (`Endian.Config`),
  and the memory image of a word is `Endian.HostImage`.
- **Message frame** (`cipc/msg.cc`, `cipc/msg.h`). The `Msg` class holds
  its frame in an `array<byte>`. A request is a 16-byte header (preamble
  `'C'`, type 1, call id, method id and object id, all little-endian)
  followed by the arguments. A response is a 4-byte header followed by the
  return value.
- **Argument builder** (`cipc/msg.h`). `MsgBuilder` is a growable argument
  buffer with `args_size_` and `args_capacity_`.
- **Interface compiler algorithms** (`cipcc/parser.py`, `cipcc/interface.py`):
  - `split_params`;
  - `find_parse_order`, generic over the header type;
  - `resolve_type`;
  - the overload expansion of `parse_methods`;
  - `parse_tokens`;
  - `_paired_brace`;
  - the brace, quote, comment and line bookkeeping of `code_walk`, as a
    `CodeState` class whose methods update its fields.

Integers are unbounded `int`, and each C++ width is written out as an
`IntKind` with explicit wrap-around (`Ints.Wrap`). Python strings are
`seq<char>`. A Python exception is the `Failure` side of a `Result`, or, for
`code_walk`'s `ParsingError`, the `Some` side of an `Option<WalkError>`.

The files:

- `wrappers.dfy`: `Result` and `Option`.
- `bytes.dfy`: base-256 digits, reversal and `|`.
- `ints.dfy`: the integer kinds.
- `byteswap.dfy`, `endian.dfy`: the byte-order helpers.
- `serialize.dfy`: the codec.
- `msg.dfy`: the frame.
- `builder.dfy`: the builder.
- `interface.dfy`: the compiler's data classes.
- `braces.dfy`, `params.dfy`, `includes.dfy`, `resolve.dfy`,
  `overloads.dfy`, `modifiers.dfy`, `codewalk.dfy`: the compiler's algorithms.

## Model

| member | source | states |
|---|---|---|
| Bytes.LeValueOfLeBytes | cipc/serialize.h:117-122 | the value spelled by the n low base-256 digits of v < 256^n is v |
| Bytes.LeBytesOfLeValue | cipc/serialize.h:133-139 | the digits of the value spelled by a byte string are that byte string |
| Bytes.ReverseReverse | cipc/serialize.h:69-106 | reversing a byte order twice gives it back |
| Ints.ToUnsignedFromUnsigned | cipc/serialize.cc:38 | converting to the unsigned type and back is the identity on the unsigned range |
| Ints.FromUnsignedToUnsigned | cipc/serialize.cc:51 | `static_cast<T>` of the unsigned conversion of x is x, for every in-range x, negative ones included |
| Ints.WrapInRange | cipc/serialize.h:134-139 | truncation to the type leaves in-range values alone |
| Ints.LeBytesOfToUnsigned | cipc/serialize.h:117-122 | a negative value's bytes are those of its two's-complement unsigned value |
| ByteSwaps.ByteSwap16Exchanges | cipc/serialize.h:93-96 | portable `byte_swap<uint16_t>` puts the low byte high and the high byte low |
| ByteSwaps.ByteSwap16Reverses | cipc/serialize.h:93-96 | the digits of the 16-bit swap are the reversed digits of x |
| ByteSwaps.ByteSwap32Halves | cipc/serialize.h:98-101 | the 32-bit swap is the swapped high half plus 2^16 times the swapped low half |
| ByteSwaps.ByteSwap32Reverses | cipc/serialize.h:98-101 | the digits of the 32-bit swap are the reversed digits of x |
| ByteSwaps.ByteSwap64Halves | cipc/serialize.h:103-106 | the 64-bit swap, with the shift done in 64 bits, is built from the two swapped words |
| ByteSwaps.ByteSwap64Reverses | cipc/serialize.h:103-106 | the digits of the 64-bit swap are the reversed digits of x |
| ByteSwaps.ByteSwapReverses | cipc/serialize.h:69-106 | every width in both builds reverses the bytes, stays below 256^n, and matches `__builtin_bswapN` (the portable 64-bit swap corrected, see Findings cipc/serialize.h:105) |
| ByteSwaps.ByteSwapInvolution | cipc/serialize.h:69-106 | `byte_swap` applied twice is the identity, for every width and build (the portable 64-bit swap corrected, see Findings cipc/serialize.h:105) |
| ByteSwaps.ByteSwap32Zero | cipc/serialize.h:98-101 | the 32-bit swap is zero exactly when x is zero |
| ByteSwaps.ByteSwap64AsWrittenFits | cipc/serialize.h:103-106 | the 64-bit swap as written, which shifts a 32-bit value by 32, never exceeds 32 bits |
| ByteSwaps.ByteSwap64AsWrittenLosesHighWord | cipc/serialize.h:103-106 | when x has a non-zero low word, the swap as written differs from the byte reversal, whatever the undefined shift yields |
| Endian.DefaultConfig | cipc/serialize.h:32-54 | a default build is consistent with the host, and an unrecognised byte order selects the portable branch |
| Endian.ImageOfImageValue | cipc/serialize.h:122 | reading a word from memory and writing it back gives the same bytes |
| Endian.ImageValueOfImage | cipc/serialize.h:133 | writing a word to memory and reading it back gives the same word |
| Endian.FromWireOfWireBytes | cipc/serialize.cc:38-51 | decoding the little-endian bytes of x gives x, for every kind |
| Endian.WireBytesOfFromWire | cipc/serialize.cc:38-51 | encoding the decoded value of any byte string of the right width gives that byte string |
| Endian.WireBytesAreDigits | cipc/serialize.h:117-122 | the wire bytes are the low base-256 digits of x |
| Endian.HostToLePortable | cipc/serialize.h:117-122 | the portable loop puts byte `(x >> 8i) & 0xFF` at memory position i, on either host, negative x included |
| Endian.SwappedImageIsWire | cipc/serialize.h:114-115 | on a big-endian host the swapped word's memory image is the little-endian bytes |
| Endian.HostToLe | cipc/serialize.h:110-124 | all three branches give a word whose memory image is the same little-endian bytes, when the build matches the host |
| Endian.LeToHostPortable | cipc/serialize.h:133-139 | the portable loop decodes the word's memory image as little-endian |
| Endian.ShiftInBytes | cipc/serialize.h:134-139 | the shift-and-or accumulator loop yields the two's-complement value of the bytes |
| Endian.SwappedWordIsWire | cipc/serialize.h:130-131 | on a big-endian host the swapped word converted to T is the little-endian value of its image |
| Endian.LeToHost | cipc/serialize.h:126-141 | all three branches decode the memory image of the word as little-endian |
| Endian.HostRoundTrip | cipc/serialize.h:110-141 | `le_to_host(host_to_le(x)) == x` for every kind and branch |
| Serialization.Serialize | cipc/serialize.cc:31-41 | returns 0 and writes nothing when the room is too small; otherwise writes exactly the sizeof(T) little-endian bytes, touches nothing else and returns sizeof(T) |
| Serialization.Deserialize | cipc/serialize.cc:43-53 | returns 0 and leaves the value unchanged when the room is too small; otherwise decodes exactly the first sizeof(T) bytes |
| Serialization.SerializeBool | cipc/serialize.cc:66-69 | `bool` goes through the `uint8_t` path as one byte, 1 or 0 |
| Serialization.DeserializeBool | cipc/serialize.cc:71-75 | `bool` is read back through the `uint8_t` path, as whether the byte is non-zero |
| Serialization.RoundTrip | cipc/serialize_test.cc:74-111 | serialize then deserialize gives x back, both calls returning sizeof(T) |
| Serialization.RoundTripBool | cipc/serialize_test.cc:113-116 | true and false round-trip, in one byte |
| Messages.RequestHeader | cipc/msg.cc:32-38 | a request header is 16 bytes, so the arguments start at offset 16 |
| Messages.ResponseHeader | cipc/msg.cc:32-39 | a response header is 4 bytes, so the return value starts at offset 4 |
| Messages.RequestHeaderFields | cipc/msg.cc:55-66 | preamble, type 1, call id, method id and object id are found at their offsets |
| Messages.ResponseHeaderFields | cipc/msg.cc:68-75 | preamble, type 2 and call id are found at their offsets |
| Messages.RequestHeaderInjective | cipc/msg.cc:55-66 | requests with equal header bytes have equal call, method and object ids |
| Messages.EncodeArgs | cipc/msg_test.cc:38-39 | the serialized arguments take the sum of their sizes |
| Messages.SerializeArgAt | cipc/msg_test.cc:38-39 | one more argument serialized after the ones already written, leaving everything outside the argument room unchanged |
| Messages.SerializeArgs | cipc/msg_test.cc:38-39 | the arguments are serialized one after another from the offset, with nothing outside their room changed |
| Messages.Msg.constructor | cipc/msg.h:68 | the empty frame |
| Messages.Msg.FromBytes | cipc/msg.cc:52-53 | the frame is a byte-for-byte copy of the size input bytes |
| Messages.Msg.Resize | cipc/msg.cc:58-59 | kept bytes are unchanged and new bytes are zero |
| Messages.Msg.Write | cipc/msg.cc:111-119 | the bytes replace the frame's bytes at the offset, the rest is unchanged |
| Messages.Msg.ReadValue | cipc/msg.cc:121-127 | the word read is the one whose memory image is the frame's bytes at the offset |
| Messages.Msg.CallId | cipc/msg.cc:85-87 | the call id read back is the little-endian value of bytes 2-3 (corrected, see Findings) |
| Messages.Msg.MethodId | cipc/msg.cc:89-92 | only for requests; the little-endian value of bytes 4-7 (corrected, see Findings) |
| Messages.Msg.ObjectId | cipc/msg.cc:94-97 | only for requests; the little-endian value of bytes 8-15 (corrected, see Findings) |
| Messages.Msg.ArgsData | cipc/msg.cc:99-102 | only for requests; the bytes from offset 16 to the end, size - 16 of them |
| Messages.Msg.ReturnValue | cipc/msg.cc:104-107 | only for responses; the bytes from offset 4 to the end, size - 4 of them |
| Messages.Msg.PrepareRequestPrefix | cipc/msg.cc:55-66 | a frame of 16 + args_size bytes whose preamble and one-byte type 1 read back on every build, holding the request header on a consistent build, with zero argument bytes (type write corrected, see Findings cipc/msg.cc:61) |
| Messages.Msg.BuildRequest | cipc/msg_test.cc:38-39 | a request frame is its header followed by the serialized arguments |
| Messages.Msg.PrepareResponsePrefix | cipc/msg.cc:68-75 | a frame of 4 + rv_size bytes whose preamble and one-byte type 2 read back on every build, holding the response header on a consistent build, with zero return-value bytes (type write corrected, see Findings cipc/msg.cc:72) |
| Messages.Msg.BuildResponse | cipc/msg_test.cc:60 | a response frame is its header followed by the serialized value |
| Messages.SimpleRequestCreation | cipc/msg_test.cc:31-55 | the test request is the expected 30 bytes and reads back preamble, type 1 and call id 0xABCD |
| Messages.SimpleResponseCreation | cipc/msg_test.cc:57-70 | the test response is the expected 8 bytes and reads back preamble, type 2 and call id 0xABCD |
| Messages.ExpectedRequestHeader | cipc/msg_test.cc:40-54 | the expected request bytes are 30 long and hold preamble, type 1 and call id 0xABCD |
| Messages.ExpectedResponseHeader | cipc/msg_test.cc:61-69 | the expected response bytes are 8 long and hold preamble, type 2 and call id 0xABCD |
| Messages.TestRequestBytes | cipc/msg_test.cc:45-54 | the test's header and arguments spell exactly the listed bytes |
| Messages.ThreeArgFrame | cipc/msg_test.cc:45-53 | a request with three arguments is its header fields and arguments in order |
| Messages.TestResponseBytes | cipc/msg_test.cc:66-68 | the test's response header and value spell exactly the listed bytes |
| Messages.AccessCheckAsWrittenRejectsLastField | cipc/msg.cc:111-127 | the strict `<` check refuses the object id write of a request without arguments and the call id access of a response without a value |
| Messages.RequestTypeImageAsWrittenMisplaced | cipc/msg.cc:61 | the request type written as a raw 4-byte int fits the header, but leaves a zero byte at the type offset on a big-endian host |
| Messages.ResponseTypeImageAsWritten | cipc/msg.cc:72 | the response type written through `host_to_le` as a 4-byte word has the right bytes, type code first, but runs one byte past an empty response, and the strict bounds check refuses it unless the return value has at least two bytes |
| Messages.ObjectIdAsWrittenTruncates | cipc/msg.cc:94-97 | the object id as written returns only the low 32 bits of the id the prefix wrote on a little-endian host, and those bits byte-swapped on a big-endian one |
| Messages.ObjectIdReadsWholeField | cipc/msg.cc:94-97 | all eight object id bytes read back give the id written |
| Messages.CallIdAsWrittenSwapsOnBigEndian | cipc/msg.cc:85-87 | the raw call id read matches on a little-endian host and is byte-swapped on a big-endian one |
| Messages.MethodIdAsWrittenSwapsOnBigEndian | cipc/msg.cc:89-92 | the raw method id read matches on a little-endian host and has its four bytes reversed on a big-endian one: 0x11223344 reads 0x44332211 |
| Builder.MsgBuilder.constructor | cipc/msg.h:95-97 | an empty builder |
| Builder.MsgBuilder.ArgsSpace | cipc/msg.h:110 | `args_space()` is capacity less size, which the invariant keeps non-negative |
| Builder.MsgBuilder.ArgsEnd | cipc/msg.h:112 | `args_end()` is the position just after the appended bytes |
| Builder.MsgBuilder.EnsureArgSpace | cipc/msg.h:99-103 | afterwards at least `space` bytes are unused and the appended bytes are unchanged |
| Builder.MsgBuilder.AddArg | cipc/msg.h:118-125 | the argument's serialization is appended at `args_end()`, the size grows by sizeof(T), earlier bytes are unchanged |
| Builder.MsgBuilder.AddArgAt | cipc/msg.h:118-125 | one more `add_arg` call extends the appended arguments by the next one |
| Builder.MsgBuilder.AddArgs | cipc/msg.h:118-125 | successive `add_arg` calls leave the arguments contiguous in call order after the old bytes |
| Builder.MsgBuilder.AddArgAsWritten | cipc/msg.h:118-125 | the same append as `add_arg`; its strict assert holds exactly when the free space before the call exceeded the argument's size, so it fails whenever the buffer had to grow |
| Braces.IndexOf | cipcc/parser.py:1411 | `list.index`: the first position of c, and nothing exactly when c is absent |
| Braces.PairedBrace | cipcc/parser.py:1409-1416 | a brace gets its partner (opening to closing and back); any other character is the error |
| Braces.PairedBraceByPosition | cipcc/parser.py:1404-1416 | the pairing is the lookup by position in `BRACE_START_CHARS` and `BRACE_END_CHARS` |
| Braces.PairedBraceInvolution | cipcc/parser.py:1409-1416 | `_paired_brace` is an involution on the six braces |
| ParamSplit.StripLeft | cipcc/parser.py:1216 | the result is a suffix, only whitespace is removed, and it does not start with whitespace |
| ParamSplit.StripRight | cipcc/parser.py:1216 | the result is a prefix, only whitespace is removed, and it does not end with whitespace |
| ParamSplit.Strip | cipcc/parser.py:1216 | the stripped piece neither starts nor ends with whitespace |
| ParamSplit.StripIsSlice | cipcc/parser.py:1216 | the stripped piece is a slice of the text with only whitespace around it |
| ParamSplit.DepthConcat | cipcc/parser.py:1219-1226 | the angle-bracket depth adds up over concatenation |
| ParamSplit.LastTopComma | cipcc/parser.py:1215 | the last comma at depth 0 before a position, or none |
| ParamSplit.RawPiecesSnoc | cipcc/parser.py:1214-1227 | a comma at depth 0 starts a new piece; any other character joins the current one |
| ParamSplit.JoinRawPieces | cipcc/parser.py:1214-1227 | the pieces joined with commas are the text: split only removes the splitting commas |
| ParamSplit.RawPiecesHaveNoTopComma | cipcc/parser.py:1215 | no piece has a comma at its own depth 0 |
| ParamSplit.StripAll | cipcc/parser.py:1216 | each piece stripped, in order |
| ParamSplit.SplitOfEmpty | cipcc/parser.py:1232-1234 | the empty text gives no parameters |
| ParamSplit.ScanChar | cipcc/parser.py:1214-1227 | one character of the scan keeps the loop state, or shows a `>` at depth 0 |
| ParamSplit.SplitParams | cipcc/parser.py:1195-1234 | succeeds exactly when the angle brackets balance, with the stripped pieces (dropping an empty last one); otherwise the mismatched-brackets error |
| ParseOrder.AppendSorted | cipcc/parser.py:963-966 | adding a header whose includes are all sorted keeps the ordering repeat-free and in include order |
| ParseOrder.CircularHasNoParseOrder | cipcc/parser.py:967-971 | headers that each include one of themselves have no parse order |
| ParseOrder.Pass | cipcc/parser.py:959-966 | one pass adds headers whose includes are sorted, and makes no progress only when no unsorted header is ready |
| ParseOrder.FindParseOrder | cipcc/parser.py:943-975 | success lists every header once, each after its includes; failure gives a circular set of headers |
| ParseOrder.FailureIsUnavoidable | cipcc/parser.py:967-971 | when it fails, no ordering at all would have worked |
| TypeResolution.FindSep | cipcc/parser.py:1353 | the first `::` at or after a position, or none |
| TypeResolution.JoinSplit | cipcc/parser.py:1353-1358 | `'::'.join(ns.split('::')) == ns` |
| TypeResolution.JoinAppend | cipcc/parser.py:1358 | joining two lists puts `::` between their joins |
| TypeResolution.ScopedEnds | cipcc/parser.py:1357-1381 | the first name tried is `ns::name` and the last the bare name |
| TypeResolution.BuiltinType | cipcc/parser.py:151-170 | every built-in name is a built-in serializable type |
| TypeResolution.Lookup | cipcc/parser.py:1359-1363 | the built-ins win over the profile's serializable types, which win over its interfaces |
| TypeResolution.ResolveType | cipcc/parser.py:1340-1381 | success is the lookup of the innermost scope that knows the name; failure means no scope does, with the unsupported-int, unimplemented-collection or unresolved error |
| TypeResolution.RootNameSearchesRootOnly | cipcc/parser.py:1354-1356 | a leading `::` limits the search to the root scope |
| TypeResolution.BuiltinsAtRoot | cipcc/parser.py:1359-1363 | a built-in name tried at the root resolves to the built-in |
| TypeResolution.FixedWidthAliases | cipcc/parser.py:151-163 | `int32_t` and `std::int32_t` both stand for `std::int32_t` |
| Overloads.SignatureName | cipcc/parser.py:1172-1175 | the signature name is `name(types joined by ',')cv` |
| Overloads.ToParameters | cipcc/parser.py:1186 | one `Parameter` per parsed parameter, with its name and type |
| Overloads.OptionalPositions | cipcc/parser.py:1179-1186 | the positions of the defaulted parameters, all of them, in increasing order |
| Overloads.ExpandOverloads | cipcc/parser.py:1177-1192 | one signature per defaulted parameter, holding the parameters before it, then the full signature |
| Overloads.SignaturesGrow | cipcc/parser.py:1177-1192 | each signature's parameters are a prefix of the full list, longer than the previous one's |
| Overloads.NoDefaultsOneSignature | cipcc/parser.py:1177-1192 | a declaration without defaults has only the full signature |
| Overloads.OneDefaultExample | cipcc/parser.py:1172-1192 | `f(int a, int b = 1)` gives `f(int)` and `f(int,int)` |
| TypeModifiers.NextRef | cipcc/parser.py:1326-1333 | the next `*` or `&` at or after a position, none being skipped |
| TypeModifiers.RefsFrom | cipcc/parser.py:1325 | the positions of the `*` and `&` tokens, last first |
| TypeModifiers.ParseTokens | cipcc/parser.py:1322-1335 | one entry per `*`/`&` from the last, each with the qualifiers written after it, then the base entry with those written before the first |
| TypeModifiers.QualifierAfterRef | cipcc/parser.py:1326-1333 | a `const` after a `*` or `&` belongs to it |
| TypeModifiers.QualifierBeforeRefs | cipcc/parser.py:1334 | a qualifier before every `*` and `&` belongs to the base type |
| TypeModifiers.ConstPointerToConst | cipcc/parser.py:1322-1335 | `const * const` gives a const pointer to a const base |
| CodeWalk.MatchBracesOpens | cipcc/parser.py:376-398 | the matched stack holds opening braces only |
| CodeWalk.MatchBracesCounts | cipcc/parser.py:376-398 | each opening brace is on the stack as often as it occurs less its closing brace's occurrences |
| CodeWalk.StackStepCounts | cipcc/parser.py:376-398 | one matching step adds one for an opening brace and takes one off for its closing brace |
| CodeWalk.MatchBracesFailureIsFinal | cipcc/parser.py:381-394 | once a closing brace fails to match, no further text repairs it |
| CodeWalk.MatchBracesPair | cipcc/parser.py:376-398 | a brace followed by its closing brace leaves the stack as it was |
| CodeWalk.MatchBracesOfStack | cipcc/parser.py:376-380 | a list of opening braces matches to itself |
| CodeWalk.CodeState.constructor | cipcc/parser.py:313-329 | the walk starts at index 0, line 1, column 1, with nothing open, quoted or commented and one empty scope |
| CodeWalk.CodeState.SkipComment | cipcc/parser.py:336-350 | outside quotes a `/` or `*` after a `/` opens that comment and drops the `/` from the line and the scope; a `/` after `*` closes a block comment; any character but a line end joins `commented_line`; nothing else changes |
| CodeWalk.CodeState.EndLine | cipcc/parser.py:353-360 | a line end empties both line texts, counts a line, sets the column to 0 and ends only a `//` comment |
| CodeWalk.CodeState.QuotedChar | cipcc/parser.py:361-370 | inside a quote, an escaped character only clears the escape, a backslash sets it, and an unescaped quote of the open kind closes the quote and pops its scope |
| CodeWalk.CodeState.OpenQuote | cipcc/parser.py:372-375 | a quote read as code sets its flag and opens an empty scope |
| CodeWalk.CodeState.OpenBrace | cipcc/parser.py:376-380 | an opening brace is pushed, its depth counted and an empty scope opened |
| CodeWalk.CodeState.CloseBrace | cipcc/parser.py:381-398 | a closing brace pops its partner and the scope, or raises on an empty stack or a different top, naming the expected brace |
| CodeWalk.CodeState.HandleConstruct | cipcc/parser.py:353-403 | the lexical state takes `ConstructStep`; only a brace read as code changes the stack, pushing or popping as the matching step says or raising; the line, column and `commented_line` restart at a line end |
| CodeWalk.CodeState.Bookkeeping | cipcc/parser.py:405-411 | the index moves on; unless commented, the character joins the scope at `min(initial_scope, scope_index)`; on the same line it joins the line and the column counts it |
| CodeWalk.CodeState.Advance | cipcc/parser.py:330-411 | one turn: the lexical state takes `LexStep`; a code brace is matched against the stack, anything else leaves it alone; line, column and line text follow the line ends |
| CodeWalk.LexSnoc | cipcc/parser.py:330-411 | reading one more character takes one lexical step |
| CodeWalk.CodeBracesSnoc | cipcc/parser.py:376-398 | one more character adds itself to the code braces exactly when it is a brace read as code |
| CodeWalk.ColumnSnoc | cipcc/parser.py:353-410 | the column restarts at 0 after a line end and counts on otherwise |
| CodeWalk.CodePositionsInOrder | cipcc/parser.py:376-398 | the code brace positions are strictly increasing positions of the text, and the k-th code brace is the text's character at the k-th position |
| CodeWalk.CodePositionsComplete | cipcc/parser.py:336-375 | a position is a code brace position exactly when a brace is read there neither quoted nor commented |
| CodeWalk.CodeBracesAtPositions | cipcc/parser.py:336-398 | the code braces are exactly the text's braces read outside quotes and comments, in text order; every other brace was quoted or commented |
| CodeWalk.CodeBracesPrefix | cipcc/parser.py:330-411 | the code braces of a prefix start the code braces of the whole text |
| CodeWalk.CommentOpensFromCode | cipcc/parser.py:336-342 | outside quotes and comments, `/` followed by `/` or `*` opens that comment, and neither character is a code brace |
| CodeWalk.PlainTextIsCode | cipcc/parser.py:336-375 | text with no `/` and no quote is all code: every brace in it counts |
| CodeWalk.LineCommentHides | cipcc/parser.py:336-360 | inside a `//` comment no brace counts until the line end, which ends the comment |
| CodeWalk.BlockCommentHides | cipcc/parser.py:336-350 | inside a block comment no brace counts until a `/` after `*` ends it, line ends included |
| CodeWalk.QuoteHides | cipcc/parser.py:361-370 | inside a quote, characters other than backslash and quotes add no code brace and keep the quote open |
| CodeWalk.LexInvariant | cipcc/parser.py:336-375 | at most one quote is open, no comment starts while quoted, and an escape is pending only inside a quote |
| CodeWalk.QuoteOpensAndCloses | cipcc/parser.py:361-375 | a quote read as code opens a quote that hides its contents and that the next quote of its kind closes |
| CodeWalk.EscapeKeepsQuote | cipcc/parser.py:361-368 | a backslash and the next character keep the quote open and add no brace; a line end after the backslash leaves the escape pending |
| CodeWalk.LineCommentInsideBlockComment | cipcc/parser.py:336-360 | as written, `//` inside a block comment turns it into a line comment that the next line end closes |
| CodeWalk.BlockCommentInsideLineComment | cipcc/parser.py:336-360 | as written, a block comment opener inside a `//` comment makes a block comment that outlives the line end |
| CodeWalk.ColumnAfterLastLineEnd | cipcc/parser.py:316-410 | the column is the count of characters since the last line end, plus 1 on the first line |
| CodeWalk.MatchBracesSnoc | cipcc/parser.py:376-398 | matching one more brace is one stack step on the stack matched so far |
| CodeWalk.CodeBracesFailureIsFinal | cipcc/parser.py:381-394 | once the code braces of a prefix fail to match, no continuation of the text matches |
| CodeWalk.WalkStep | cipcc/parser.py:330-411 | one turn keeps the state equal to that of the text read one character further, or raises at a code brace whose matching fails, with the line and column before it |
| CodeWalk.Walk | cipcc/parser.py:290-414 | raises exactly when the code braces of the text do not match, at the first code brace the matching rejects, with its line and column; otherwise ends with the lexical state, line, column and stack of the whole text |

## Left out

- The socket channels (`cipc/channel.h`, `cipc/unix_channel.h`): I/O. `cipc/platform.h` is not part of this model; the host byte order and build macros are parameters.
- Floating-point, string and container codecs, and `serialized_size`: no implementation of them is among the source files. The model uses sizeof(T) for integers.
- `Msg::size()`, `data()` and `set_type`: these are the `data` array itself. The other `MsgBuilder` fields and setters (type, ids, extended method id) are not modelled.
- Messages.Msg.BuildRequest: `BuildRequest` and `BuildResponse` are used by the tests but their bodies are not in the source. They are modelled as the prefix followed by the serialized arguments.
- Builder.MsgBuilder.EnsureArgSpace: its body is not in the source. The new size is exactly what is asked for; only `args_space() >= space` is the source's promise.
- `add_arg` lacks `return *this`; the model returns nothing.
- Serialization.DeserializeBool: a byte other than 0 or 1 read into a `bool` is undefined behaviour in C++; the model reads it as "non-zero".
- Messages.Msg.PrepareResponsePrefix: its `host_to_le(Msg::Type::Response)` converts the enum to a 4-byte `unsigned int` on the cast and builtin-swap branches, and does not compile on the portable branch, where `x & 0xFF` is applied to a scoped enum. The model writes the one-byte type field the tests expect (see Findings).
- Messages.ResponseTypeImageAsWritten: its requires leaves out the portable branch, because that branch does not compile for an enum.
- Messages.Msg.ArgsData and Messages.Msg.ReturnValue: their requires exclude frames shorter than the header whose type byte says request or response. For those the source computes `data_.size() - kArgsOffset` (or `kRvOffset`) in `size_t`, which wraps, and returns an out-of-bounds span; the model does not describe that span.
- Builder.MsgBuilder.constructor: `cipc/msg.h` declares no constructor and gives `args_size_`, `args_capacity_` and `arg_buffer_` no initialisers, so a default-initialised builder's fields are indeterminate. The model's constructor is the value-initialised builder, `MsgBuilder{}`, with no buffer and both counts 0.
- Endian.ShiftInBytes and Endian.HostToLePortable: signed `<<=` and `>>=` have the C++20 meaning, a two's-complement wrap and an arithmetic shift. Before C++20 an overflowing signed left shift is undefined and a right shift of a negative value is implementation-defined; the model does not cover those standards.
- Messages.Msg.PreambleByte and Messages.Msg.TypeByte have no contract of their own: they are single-byte reads used in the requires of the accessors.
- ParamSplit.IsSpace: the whitespace set of `str.isspace()` is listed by code point, with no Unicode database.
- `cipcc/interface.py` declares neither `Parameter` nor `Serializable.Type.BUILTIN`, and its `Method` has only a name. The parser uses all three; the model gives `Interfaces.Method` the name, return type and parameters the parser passes.
- Overloads.ExpandOverloads: a parameter's type is the resolved type's text, as `str(param.type)` prints it; `parse_param` and the `COLLAPSED_PARAM_PATTERNS` substitution are left out (regular expressions).
- TypeModifiers.ParseTokens: `tokenize` (a regular-expression search) is left out; the tokens are its result.
- ParseOrder.FindParseOrder: the headers are a type parameter; the include map's closedness is a precondition, as the source asserts it. Set iteration order is arbitrary, so each pass picks headers in an unspecified order.
- CodeWalk.CodeState: the observers, `notify`, the deferred events, `statement_braces`, `source_name`, `scope_prefix` and `scope_statement` are left out. `comment_start` only ever holds `''`, `'//'` or `'/*'`, and it is an enumeration (`CommentStart`). The column is kept as written: 1-based on the first line and 0-based after each line end. The comment quirks are kept as written too (see CodeWalk.LineCommentInsideBlockComment and CodeWalk.BlockCommentInsideLineComment).
- CodeWalk.Lexical: of `commented_line` it keeps only the last character, the only part the walk reads; `CodeState` keeps the whole field.
- CodeWalk.CodeState.HandleConstruct: says only that `scope_text` is unchanged, gains one empty scope or loses its last one. Which of the three happens is stated by OpenQuote, OpenBrace, CloseBrace and QuotedChar.
- CodeWalk.CodeState.Advance: its ensures do not state the new `scope_text`. That is given step by step by SkipComment, HandleConstruct and Bookkeeping, and neither WalkStep nor Walk promises anything about scope texts.
- CodeWalk.Walk: `ParsingError` carries the line and column rather than the whole state.
- The regular-expression and filesystem parts of the compiler (`parse`, `parse_fields`, `parse_param`, `parse_annotations`, `explore_includes`, include reading) are not modelled.

## Findings

| source | as written | input that shows it | evidently intended | confidence | as-written member | corrected member |
|---|---|---|---|---|---|---|
| cipc/msg.cc:96 | `object_id()` reads `Read<MethodId>`, 4 bytes, and returns it without `le_to_host` | object id 0x1122334455667788 reads back as 0x55667788 | read all 8 bytes as `ObjectId` | high, not executed | Messages.ObjectIdAsWrittenTruncates | Messages.ObjectIdReadsWholeField |
| cipc/msg.cc:112 | `Write`/`Read` assert `offset + size < data_.size()` | the object id write of a request with no arguments (8 + 8 == 16) | `<=` | high, not executed | Messages.AccessCheckAsWrittenRejectsLastField | Messages.Msg.Write |
| cipc/msg.h:123 | `assert(written_size < args_space())` | any argument after `EnsureArgSpace` grew the buffer to exactly fit it | `<=` | high, not executed | Builder.MsgBuilder.AddArgAsWritten | Builder.MsgBuilder.AddArg |
| cipc/msg.cc:86 | `call_id()` returns the raw memory value without `le_to_host` | call id 0xABCD on a big-endian host reads back as 0xCDAB | decode with `le_to_host` | medium, not executed | Messages.CallIdAsWrittenSwapsOnBigEndian | Messages.Msg.CallId |
| cipc/msg.cc:91 | `method_id()` returns the raw memory value without `le_to_host` | method id 0x11223344 on a big-endian host reads back as 0x44332211 | decode with `le_to_host` | medium, not executed | Messages.MethodIdAsWrittenSwapsOnBigEndian | Messages.Msg.MethodId |
| cipc/serialize.h:105 | `byte_swap<uint32_t>(x) << 32` shifts a 32-bit value by its width; `host_to_le` and `le_to_host` never reach it, since they swap only with the builtins, so only direct callers of `byte_swap<uint64_t>` in a build without them are affected | any x with a non-zero low word, e.g. 1 | widen to `uint64_t` before the shift | high, not executed | ByteSwaps.ByteSwap64AsWrittenLosesHighWord | ByteSwaps.ByteSwap64Reverses |
| cipc/msg.cc:61 | `Write(kTypeOffset, Msg::Type::Request)` writes the raw 4-byte int | any request on a big-endian host: byte 1 holds 0, not 1 | write the one-byte type field | high, not executed | Messages.RequestTypeImageAsWrittenMisplaced | Messages.Msg.PrepareRequestPrefix |
| cipc/msg.cc:72 | `Write(kTypeOffset, host_to_le(Msg::Type::Response))` writes a 4-byte word | a response with no return value: bytes 1-4 of a 4-byte frame | write the one-byte type field | high, not executed | Messages.ResponseTypeImageAsWritten | Messages.Msg.PrepareResponsePrefix |
