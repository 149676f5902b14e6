# A verified model of ssgx

ssgx is a C++ library for SGX enclaves. This Dafny project models five of its parts and proves what they promise:

- **The HTTP response parser** (`HttpParser`, `HttpRuns`, `HttpGrammar`, `HttpWalk`, `HttpChunked`, `HttpRefused`,
  `HttpHeads`, `HttpMessages`, `HttpRoundTrip`, with `Text` for numbers and character classes). The 33-state machine
  is a class whose loop is proved to be a pure step function iterated. Around that function: streaming, the invariant
  of every run, conservation of body bytes, and the theorem that the language of the parser is a grammar of messages,
  with the response as its meaning. From it follow the round trips. The grammar keeps what the code does: the byte
  after the carriage return of the blank line is free when a body follows, the first byte after the status code
  belongs to the reason whatever it is, exactly one space precedes a header value, a size token is any alphanumeric
  string whose `strtol` value counts, and trailers are skipped. `HttpHeads` and `HttpRefused` say which legal heads
  and chunked bodies are in it.
- **Protected files** (`HostFiles`, `MetaData`, `ProtectedFile`, `ProtectedRuns`, `ProtectedKeys`). Host files, the
  `.pfsmeta` codec, and the writer and reader classes over them. A file of the SGX protected file system is a key and
  a content; a key is the automatic key or a key request. Runs of sessions and removals keep writer and reader in
  agreement about the key, and what is read back is what was written.
- **Decimals** (`Rounding`, `BigDecimal`, `DecimalRounding`, `DecimalTheorems`, `DecimalLimits`). The `mpd_*` layer is
  what the General Decimal Arithmetic Specification says; the theorems are about how the operations compose it:
  unscaled operations are exact or throw, scaled ones round twice, and it is proved exactly when that differs from
  rounding once.
- **Attestation and the arbiter** (`Attestation`, `Arbiter`, `ArbiterRuns`, `ArbiterSources`, `ArbiterExamples`). What
  a report is bound to and for how long it is accepted; then the millionaires' protocol as a state machine of enclave,
  two people and an arbitrary host, with each call into the enclave one atomic step and with ideal signatures,
  encryption and quotes.
- **Response headers** (`Headers`). The case-insensitive map and its crossing to the host as JSON.

Exceptions are results: `None`, `Thrown` or `Threw`. What the outside answers (clock, randomness, file system, quote
verification, key derivation) is a parameter of each call, so every theorem holds for all answers. Functions the code
calls but does not contain (SHA-256, key derivation, curve arithmetic) are parameters or constructors.

## Results that differ from what one might expect

For each there is a lemma at an input where the property fails and one that says exactly when it holds.

- A response with a body of 2^31 bytes or more is not parsed back, because `atoi` reads its length
  (`HttpRoundTrip.LongBodyIsLost`, `HttpRoundTrip.CountedRoundTrip`), and then the content is not as long as announced
  (`HttpRuns.Conservation`).
- A response with an empty reason, which RFC 9112 allows, loses its first header to the reason
  (`HttpRoundTrip.LengthIsSwallowed`, `HttpRoundTrip.FirstHeaderIsSwallowed`, `HttpRoundTrip.CountedRoundTrip`).
- Of a status code only the low 32 bits count, so that 4294967496 reads as 200 (`HttpHeads.LongCode`,
  `HttpRoundTrip.NumbersKeepBits`).
- Legal heads are refused when a value has a tab or no space before it, or a reason has a byte from 128 up
  (`HttpHeads.TabIsRefused`, `HttpHeads.LegalHead`); further blanks around a value stay in it (`HttpHeads.ValueKept`).
- Only a Transfer-Encoding that is exactly "chunked" is seen. Where RFC 9112, section 6.3, sees a chunked body, or one
  that ends with the connection, the parser completes without a body (`HttpHeads.CodingNotSeen`,
  `HttpHeads.CodingSeen`, `HttpRoundTrip.UnframedIsEmpty`).
- Chunk extensions and trailers that RFC 9112 allows are refused unless they are made of letters, digits and spaces,
  and so is a second extension (`HttpRefused.HyphenIsRefused`, `HttpRefused.QuotedIsRefused`,
  `HttpRefused.LegalChunked`).
- A half-way rounding mode with a `Precision` does not always give the exact result rounded once
  (`DecimalTheorems.DoubleRoundingCanBeWrong`, `DecimalTheorems.HalfScaledRoundsOnce`).
- The comments in `ssgx_decimal_t.h` say that unscaled operations round automatically beyond 99 digits; the code
  throws (`DecimalTheorems.LongProductThrows`, `DecimalLimits.UnscaledReturns`), and the model follows the code.
- An `OpenOrCreate` whose side file cannot be opened for writing has already truncated the file under a new key, and
  an old side file stays (`ProtectedRuns.StaleExample`); that is the only way agreement on the key is lost
  (`ProtectedRuns.AgreementStep`), and the file can then not be opened at all (`ProtectedRuns.StaleIsUnreadable`). A
  side file that is opened but not completely written leaves the file emptied too (`ProtectedRuns.HalfOpened`).
- `OpenFileForAppend` compares only the first two bytes of the CPU security version, because the size of another type
  is used (`ProtectedRuns.OtherCpuMayAppend`, `ProtectedRuns.AppendToExisting`).
- `RemoveProtectedFile` also answers `false` after it has removed a file that had no side file, while its comment says
  that `false` means the file did not exist (`ProtectedRuns.RemovedButFalse`,
  `ProtectedRuns.RemoveProtectedFileAnswers`).
- The key part of the quote that announces a token also passes as a result for it
  (`ArbiterExamples.AgreementExample`), so people agree on results exactly when they look at the two possible results
  only (`ArbiterRuns.Agreement`).
- `Prepare` stores each field as soon as it is known. A `Prepare` that fails late while the arbiter is ready leaves it
  ready with keys that were not announced, and then both people accept a result over someone else's amount
  (`ArbiterExamples.SpoiledExample`); a result is over texts signed under the announced keys exactly when the arbiter
  still holds them (`ArbiterSources.CompareSource`, `ArbiterSources.SourcedRun`).
- A clock value and a timestamp from 2^63 on can pass the freshness test around the end of the 64-bit range
  (`Attestation.InTimeWraps`, `Attestation.InTimeExact`).

## Model

| member | source | states |
|---|---|---|
| HttpParser.Response.constructor | ssgx/http/t/client/httpparser/response.h:18-20 | a new response has version 0.0, status code 0, no headers, no content and keepAlive false |
| HttpParser.HttpResponseParser.constructor | ssgx/http/t/client/httpparser/httpresponseparser.h:28-34 | a new parser is in its first state with both counters zero and no chunked body |
| HttpParser.HttpResponseParser.Parse | ssgx/http/t/client/httpparser/httpresponseparser.h:42-59 | one call leaves the result, the parser fields and the response that consuming the bytes one at a time by the step function leaves |
| HttpParser.HttpResponseParser.ConsumeInStatusLine | ssgx/http/t/client/httpparser/httpresponseparser.h:61-230 | one byte in the states of the status line: exact new fields, error exactly on a byte the state does not take |
| HttpParser.HttpResponseParser.ConsumeInHeader | ssgx/http/t/client/httpparser/httpresponseparser.h:231-370 | one byte in the header states, with folding, framing fields and the keep-alive decision at the blank line |
| HttpParser.HttpResponseParser.EvaluateLastHeader | ssgx/http/t/client/httpparser/httpresponseparser.h:298-309 | the end of a header line: Content-Length through atoi and size_t, chunked, or length_error when the size cannot be reserved |
| HttpParser.HttpResponseParser.ConsumeInBody | ssgx/http/t/client/httpparser/httpresponseparser.h:371-526 | one byte in the body states, sized or chunked |
| HttpParser.Evaluate | ssgx/http/t/client/httpparser/httpresponseparser.h:298-309 | the end of a header line changes only the framing fields, and an accepted length is one the vector can hold |
| HttpParser.FindConnection | ssgx/http/t/client/httpparser/httpresponseparser.h:332-334 | the first header named Connection in any case, or none |
| HttpParser.Step | ssgx/http/t/client/httpparser/httpresponseparser.h:53-59 | whatever the byte and whatever the result, the header that `headers.back()` needs stays there |
| HttpParser.Run | ssgx/http/t/client/httpparser/httpresponseparser.h:53-59 | an incomplete call has looked at every byte, and leaves the headers its state needs |
| HttpRuns.RunAppend | ssgx/http/t/client/httpparser/httpresponseparser.h:53-59 | one call on two strings is a call on the first and, while incomplete, a call on the second |
| HttpRuns.Streaming | ssgx/http/t/client/httpparser/httpresponseparser.h:42-59 | for every byte string and every split into fragments: same result, response, parser state and unread bytes as one call on the whole |
| HttpRuns.ParseFragments | ssgx/http/t/client/httpparser/httpresponseparser.h:42-59 | the same through the two classes, fragment after fragment on one parser and one response |
| HttpRuns.ReadResponse | ssgx/http/t/client/httpparser/httpresponseparser.h:28-59 | a new parser and a new response, given the fragments of a connection, end as the run from the initial state does on the whole |
| HttpRuns.StepConsistent | ssgx/http/t/client/httpparser/httpresponseparser.h:53-59 | one incomplete step keeps the invariant of the parser |
| HttpRuns.ReachableConsistent | ssgx/http/t/client/httpparser/httpresponseparser.h:175-195 | after any incomplete input: a header where `headers.back()` is used, contentSize >= 1 in Post, chunkSize >= 1 in ChunkData, an empty size string outside the size line, a status code of 100..999 from the status text on, and counters no larger than a vector |
| HttpRuns.RunConsistent | ssgx/http/t/client/httpparser/httpresponseparser.h:231-320 | the invariant is kept from any consistent state |
| HttpRuns.ChunkSizeInRange | ssgx/http/t/client/httpparser/httpresponseparser.h:430-440 | the token of a size line has no sign, so the chunk size is strtol itself and never negative |
| HttpRuns.StepConserves | ssgx/http/t/client/httpparser/httpresponseparser.h:371-379 | one step: body bytes received plus bytes owed grow by what the byte announces, and by nothing else |
| HttpRuns.CountedConservation | ssgx/http/t/client/httpparser/httpresponseparser.h:371-379 | over a whole run, bytes received plus bytes owed grow by exactly what the counters were set to |
| HttpRuns.StepKeepsCounter | ssgx/http/t/client/httpparser/httpresponseparser.h:295-309 | up to the blank line the counter is what atoi reads from the last Content-Length header, through folding and headers that are not finished |
| HttpRuns.LengthCounted | ssgx/http/t/client/httpparser/httpresponseparser.h:300-304 | the counter at the blank line is the number in the last Content-Length header if and only if that is at least 0 and below 2^31 |
| HttpRuns.ChunkCounted | ssgx/http/t/client/httpparser/httpresponseparser.h:430-440 | the chunk size is the number in the size line if and only if that is below 2^63, and never larger |
| HttpRuns.Conservation | ssgx/http/t/client/httpparser/httpresponseparser.h:499-506 | over a whole run, bytes received plus bytes owed grow by exactly the numbers in the Content-Length header or the size lines, if and only if the code can hold each of them |
| HttpRuns.CompletedContentLength | ssgx/http/t/client/httpparser/httpresponseparser.h:375-378 | the content of a completed response is as long as the numbers in the message say, if and only if the code can hold each of them |
| HttpRuns.NotReusable | ssgx/http/t/client/httpparser/httpresponseparser.h:371-379 | after a sized body has completed, the next byte wraps the counter instead of starting a new response |
| HttpRuns.ThrowsExactly | ssgx/http/t/client/httpparser/httpresponseparser.h:295-309 | the parser throws exactly where it asks for room: at the end of a Content-Length header that atoi makes negative, and at the end of a size line whose chunk does not fit beside the content |
| HttpChunked.ChunkedComplete | ssgx/http/t/client/httpparser/httpresponseparser.h:380-526 | every chunked body of the grammar `HttpGrammar.ChunkedOk` (extensions and trailers of letters, digits and spaces) is accepted on its last byte, and the content grows by the data of its chunks in order |
| HttpChunked.ChunkedSound | ssgx/http/t/client/httpparser/httpresponseparser.h:380-526 | whenever a parser completes in chunked mode the bytes are size lines with exactly that many data bytes and CRLF, a zero-size line, trailers and CRLF, and the content is the data in order |
| HttpRefused.LegalChunked | ssgx/http/t/client/httpparser/httpresponseparser.h:380-526 | a chunked body in the syntax of RFC 9112, section 7.1 (hexadecimal sizes, lists of extensions with blanks, token or quoted values, field lines as trailers), is accepted on its last byte with its data if and only if each size line has at most one extension, without quotes, tabs, blanks before the semicolon or token characters but letters and digits, and trailers are of letters, digits and spaces; it is an error otherwise |
| HttpRefused.HyphenIsRefused | ssgx/http/t/client/httpparser/httpresponseparser.h:471-484 | an empty chunked body with the trailer "X-Sum: 1", legal and refused |
| HttpRefused.QuotedIsRefused | ssgx/http/t/client/httpparser/httpresponseparser.h:416-429 | an empty chunked body with a quoted extension value, legal and refused |
| HttpHeads.LegalHead | ssgx/http/t/client/httpparser/httpresponseparser.h:61-370 | a head in the syntax of RFC 9112, sections 4 and 5, with a reason, is read up to its last byte if and only if the reason is ASCII and each field has a space after the colon, no tab and no length that atoi makes negative; it is refused otherwise |
| HttpHeads.EmptyReason | ssgx/http/t/client/httpparser/httpresponseparser.h:196-221 | a legal head with an empty reason is read with the line break and its first field as reason, if that field is ASCII and the others can be read, and is refused otherwise |
| HttpHeads.TabIsRefused | ssgx/http/t/client/httpparser/httpresponseparser.h:310-313 | two legal heads that are refused: a tab inside a value, and a byte above 127 as the reason |
| HttpHeads.ValueKept | ssgx/http/t/client/httpparser/httpresponseparser.h:285-317 | a field that is taken keeps the value of the standard, its text without the blanks around it, if and only if nothing but the one space stands before or after that value |
| HttpHeads.CodingSeen | ssgx/http/t/client/httpparser/httpresponseparser.h:305-308 | a Transfer-Encoding whose last coding is chunked is seen as chunked if and only if its value has no comma and no blank; and nothing else is seen as chunked |
| HttpHeads.CodingNotSeen | ssgx/http/t/client/httpparser/httpresponseparser.h:305-308 | with "gzip, chunked" or a blank after "chunked" the response completes at the blank line without a body |
| HttpHeads.FoldIsJoined | ssgx/http/t/client/httpparser/httpresponseparser.h:249-283 | a value continued on a second line is joined with its text after the blanks, with nothing between |
| HttpHeads.CompletedIsLegal | ssgx/http/t/client/httpparser/httpresponseparser.h:61-370 | whatever makes the parser complete, header names are tokens, values have no control characters, and the reason is ASCII without a carriage return after its first character |
| HttpHeads.LongCode | ssgx/http/t/client/httpparser/httpresponseparser.h:165-190 | a status code of any length is taken if its low 32 bits are from 100 to 999, and reads as those |
| HttpMessages.Complete | ssgx/http/t/client/httpparser/httpresponseparser.h:53-526 | every message of the grammar is accepted up to its last byte and leaves its meaning |
| HttpMessages.Sound | ssgx/http/t/client/httpparser/httpresponseparser.h:53-526 | whatever makes a new parser complete is a message of the grammar followed by the bytes not looked at, and the fields are its meaning |
| HttpMessages.AcceptsExactlyMessages | ssgx/http/t/client/httpparser/httpresponseparser.h:53-526 | the language of the parser is the grammar: it completes exactly on the last byte with given fields if and only if the bytes are a message that means them |
| HttpRoundTrip.NumbersRoundTrip | ssgx/http/t/client/httpparser/httpresponseparser.h:131-178 | printed version numbers and status codes are read back |
| HttpRoundTrip.CountedOutcome | ssgx/http/t/client/httpparser/httpresponseparser.h:300-379 | what becomes of a printed response with a body of any length: length_error when atoi of the length is negative, otherwise completion after that many bytes of the body; with an empty reason, never completion with that reason |
| HttpRoundTrip.CountedRoundTrip | ssgx/http/t/client/httpparser/httpresponseparser.h:61-379 | printing a response with a counted or empty body and parsing it restores version, status, reason, headers, body and the keep-alive decision, completing on the last byte, if and only if the body is shorter than 2^31 bytes and the reason is not empty |
| HttpRoundTrip.FirstHeaderIsSwallowed | ssgx/http/t/client/httpparser/httpresponseparser.h:196-221 | a printed response with an empty reason is byte for byte one whose reason is the line break and the first header; it is an error if that header is not ASCII |
| HttpRoundTrip.LengthIsSwallowed | ssgx/http/t/client/httpparser/httpresponseparser.h:196-221 | a response with a Content-Length, an empty reason and a body of any length: it completes with the length in its reason, no headers, no content and all of the body unread |
| HttpRoundTrip.UnframedIsEmpty | ssgx/http/t/client/httpparser/httpresponseparser.h:340-352 | without a length and without "chunked" the response completes at the blank line, with everything else restored and no content |
| HttpRoundTrip.LengthInAnyCase | ssgx/http/t/client/httpparser/httpresponseparser.h:300-304 | a length header whose name is spelled with letters of either case: the response completes after that many bytes, with them as content |
| HttpRoundTrip.ConnectionInAnyCase | ssgx/http/t/client/httpparser/httpresponseparser.h:331-352 | a Connection header in any spelling decides whether the connection stays open, by whether its value is keep-alive in any spelling |
| HttpRoundTrip.ChunkedInAnyCase | ssgx/http/t/client/httpparser/httpresponseparser.h:305-308 | a Transfer-Encoding header in any spelling, with "chunked" in any spelling: every partition of every body is restored |
| HttpRoundTrip.NumbersKeepBits | ssgx/http/t/client/httpparser/httpresponseparser.h:131-190 | of a status code and of a version number of any length exactly the low 32 bits are kept |
| HttpRoundTrip.LongBodyIsLost | ssgx/http/t/client/httpparser/httpresponseparser.h:300-304 | a body of 2^32 bytes: the response completes with no content and all of the body unread |
| HttpRoundTrip.HeadThrows | ssgx/http/t/client/httpparser/httpresponseparser.h:300-304 | a Content-Length that atoi makes negative ends the run with length_error, wherever it stands |
| HttpRoundTrip.ChunkedRoundTrip | ssgx/http/t/client/httpparser/httpresponseparser.h:353-526 | for every body, every partition into non-empty chunks and any extensions and trailers of the grammar: completion on the last byte with the head restored and the body as content, beside any Content-Length, if and only if none is negative to atoi and the reason is not empty |
| Text.AtoiExact | ssgx/http/t/client/httpparser/httpresponseparser.h:302 | atoi gives the number at the front of a string if and only if an int holds it |
| Text.AtoiOfDecimal | ssgx/http/t/client/httpparser/httpresponseparser.h:302 | atoi undoes decimal printing on a natural number if and only if it is below 2^31, and its value beyond |
| Text.StrtolOfHex | ssgx/http/t/client/httpparser/httpresponseparser.h:433 | strtol in base 16 undoes hexadecimal printing on every non-negative long |
| Text.Strtol | ssgx/http/t/client/httpparser/httpresponseparser.h:433 | the value is always a 64-bit long, and is the number at the front of the string if and only if a long holds that |
| Text.EqualIgnoringCaseExact | ssgx/http/t/client/httpparser/httpresponseparser.h:300-308 | strcasecmp is zero exactly for strings of one length whose characters are the same or the two cases of one ASCII letter, with codes 32 apart |
| Text.NumberRead | ssgx/http/t/client/httpparser/httpresponseparser.h:302 | strtol skips white space, takes a sign, and reads digits by their positional value up to the first that is none |
| Text.AtoiBits | ssgx/http/t/client/httpparser/httpresponseparser.h:302 | atoi keeps the low 32 bits of a number that a long holds, and gives -1 or 0 beyond |
| Text.StrtolOfAnyHex | ssgx/http/t/client/httpparser/httpresponseparser.h:433 | strtol in base 16 reads a number in hexadecimal digits of either case |
| Text.HexPrefixSkipped | ssgx/http/t/client/httpparser/httpresponseparser.h:433 | strtol in base 16 skips the prefix 0x |
| Rounding.RoundIsRounding | common/include/ssgx_decimal_t.h:39-49 | each of the nine modes picks the neighbour the General Decimal Arithmetic Specification promises, and no other integer meets the promise |
| Rounding.DirectedTwice | ssgx/decimal/t/ssgx_decimal_t.cpp:299-313 | in the directed modes and 05up, rounding to a small unit and then to a large one is rounding once to the large one |
| Rounding.HalfTwice | ssgx/decimal/t/ssgx_decimal_t.cpp:299-313 | in the half modes it is, if and only if the first rounding did not move the number onto a tie that is then broken away from it |
| DecimalTheorems.UnscaledIsExact | ssgx/decimal/t/ssgx_decimal_t.cpp:283-297 | Add, Sub, Multiply and Div without a Precision return the exact mathematical result in at most 99 digits, or throw |
| DecimalLimits.UnscaledReturns | ssgx/decimal/t/ssgx_decimal_t.cpp:315-330 | Add, Sub and Multiply return the exact result at its exponent, unrounded, exactly when its coefficient has at most 99 digits and its first digit stands at an exponent of the range, or it is a zero at an exponent down to 98 below the range; they throw otherwise |
| DecimalLimits.MinusItself | ssgx/decimal/t/ssgx_decimal_t.cpp:332-346 | a number minus itself is zero at its own exponent |
| DecimalLimits.DivReturns | ssgx/decimal/t/ssgx_decimal_t.cpp:381-396 | Div throws for a zero divisor, returns a zero dividend as zero at the difference of the exponents if there is room, and returns any other quotient exactly when a number of at most 99 digits is equal to it and its first digit is in range |
| DecimalTheorems.DirectedScaledRoundsOnce | ssgx/decimal/t/ssgx_decimal_t.cpp:332-346 | with a directed mode or 05up, the operations with a Precision return the exact result rounded once to the scale, although they round twice |
| DecimalLimits.SetScaleReturns | ssgx/decimal/t/ssgx_decimal_t.cpp:438-481 | SetScale returns the number rounded once exactly when the scale is one that it takes and the rounded coefficient is zero, or has at most 99 digits and a first digit in range |
| DecimalLimits.DirectedScaledReturns | ssgx/decimal/t/ssgx_decimal_t.cpp:332-346 | with a directed mode or 05up, the operations with a Precision return exactly the exact result rounded once, if there is room for it, and throw otherwise, once nothing but rounding was signalled; a result that rounds to zero always returns |
| DecimalLimits.NothingElseSignalled | ssgx/decimal/t/ssgx_decimal_t.cpp:299-313 | nothing but rounding is signalled exactly when the operation is defined and there is room for what the context rounds the exact result to |
| DecimalTheorems.LongProductThrows | ssgx/decimal/t/ssgx_decimal_t.cpp:348-363 | two numbers of 50 and 51 digits whose product without a Precision throws |
| DecimalLimits.HalfScaledReturns | ssgx/decimal/t/ssgx_decimal_t.cpp:332-346 | with a half mode the operations with a Precision do the same, except that after a wrong tie the first rounding counts instead of the exact result |
| DecimalTheorems.HalfScaledRoundsOnce | ssgx/decimal/t/ssgx_decimal_t.cpp:365-379 | with a half mode they return the exact result rounded once if and only if the first rounding did not move the exact result onto a tie that the mode breaks the other way |
| DecimalTheorems.HalfScaledWithinHalfUnit | ssgx/decimal/t/ssgx_decimal_t.cpp:398-412 | with a half mode, an exact result of at most 99 digits is rounded once and missed by at most half a unit of the last place |
| DecimalTheorems.DoubleRoundingCanBeWrong | ssgx/decimal/t/ssgx_decimal_t.cpp:299-313 | two numbers whose half-up sum with scale 0 comes out as 1 although the exact sum rounds to 0 |
| DecimalTheorems.RepresentableIsKept | ssgx/decimal/t/ssgx_decimal_t.cpp:283-297 | a number of at most 99 digits is not changed by the first rounding, in any mode |
| DecimalRounding.RescaledValue | ssgx/decimal/t/ssgx_decimal_t.cpp:438-481 | SetScale rounds once to a multiple of 10^-scale, with that exponent and at most 99 digits |
| DecimalTheorems.NegIsExact | ssgx/decimal/t/ssgx_decimal_t.cpp:483-498 | Neg ignores rounding and yet is exact |
| DecimalLimits.NegReturns | ssgx/decimal/t/ssgx_decimal_t.cpp:483-498 | Neg of a number of at most 99 digits returns exactly when there is room for the number itself |
| DecimalTheorems.CompareOrdersValues | ssgx/decimal/t/ssgx_decimal_t.cpp:550-576 | Compare orders numbers by value, whatever their exponents |
| HostFiles.Host.WriteFile | ssgx/filesystem/u/ocall_filesystem.cpp:305-349 | the block loop of ssgx_ocall_write_file: exact return code and disk for every failure of open, lock and fwrite, and of the removal after a short write |
| HostFiles.Host.ReadFile | ssgx/filesystem/u/ocall_filesystem.cpp:219-300 | the block loop of ssgx_ocall_read_file: exact return code and bytes |
| HostFiles.WriteThenRead | ssgx/filesystem/u/ocall_filesystem.cpp:219-349 | a successful write followed by a successful read returns the same bytes, for every string of at most 102400 bytes; a short write leaves no file, or a proper prefix if the file cannot be removed; a write succeeds exactly when nothing fails; other files stay |
| HostFiles.ReadSucceeds | ssgx/filesystem/u/ocall_filesystem.cpp:219-300 | a read succeeds exactly when nothing fails and no block comes short, and yields what is in the file; every failure has its return code |
| HostFiles.WriteCodes | ssgx/filesystem/u/ocall_filesystem.cpp:305-349 | which return code of a write stands for which failure |
| HostFiles.ShortWrite | ssgx/filesystem/u/ocall_filesystem.cpp:335-345 | a short write whose file cannot be removed leaves the blocks that were taken and the part of the next one |
| MetaData.Serialize | ssgx/filesystem/t/FileMetaData.cpp:77-123 | the writer cursor fills the buffer with the 94 bytes of the layout |
| MetaData.ToFile | ssgx/filesystem/t/FileMetaData.cpp:53-130 | the side file after a call, and whether it was saved, refused or an exception thrown |
| MetaData.Parse | ssgx/filesystem/t/FileMetaData.cpp:146-209 | the walker cursor reads the fields and accepts exactly by tag, version and digest |
| MetaData.FromFile | ssgx/filesystem/t/FileMetaData.cpp:132-210 | the metadata of a side file, or none when it cannot be read or is not accepted |
| MetaData.DecodeOfEncode | ssgx/filesystem/t/FileMetaData.cpp:53-210 | reading what was written gives back legacy mode, policy, key id and security versions, for all values |
| MetaData.EncodeOfDecode | ssgx/filesystem/t/FileMetaData.cpp:146-209 | an accepted file of exactly 94 bytes is byte for byte what ToFile writes for the value read from it |
| MetaData.Layout | ssgx/filesystem/t/FileMetaData.cpp:77-123 | the 94 bytes one by one: tag, version, legacy mode, policy and ISV version with the low byte first, key id, CPU version, and the digest of the 62 bytes before it |
| MetaData.AppendedBytes | ssgx/filesystem/t/FileMetaData.cpp:195-207 | a longer file is accepted exactly when the digest over all but its last 32 bytes collides with that over the 62 bytes of the fields |
| MetaData.SaveThenLoad | ssgx/filesystem/t/FileMetaData.cpp:53-210 | a successful save is what every later successful read loads |
| ProtectedFile.CallExists | ssgx/filesystem/t/ssgx_filesystem_t.cpp:46-52 | whether a path exists, or an exception when the status cannot be had |
| ProtectedFile.CallRemove | ssgx/filesystem/t/ssgx_filesystem_t.cpp:54-74 | false without a file, an exception when the removal fails, and the disk in each case |
| ProtectedFile.CallRemoveProtectedFile | ssgx/filesystem/t/ssgx_filesystem_t.cpp:76-80 | the file first, then its side file, and the disk after each failure |
| ProtectedKeys.RemoveAnswers | ssgx/filesystem/t/ssgx_filesystem_t.cpp:54-74 | the answers of Remove, each exactly when it is given, and the disk |
| ProtectedKeys.RemoveProtectedFileThrows | ssgx/filesystem/t/ssgx_filesystem_t.cpp:76-80 | when RemoveProtectedFile throws and when it answers false, and the disk after an exception |
| ProtectedFile.OpenFileForWrite | ssgx/filesystem/t/ProtectedFileWriter.cpp:30-85 | the handle and the disk for every outcome of report, randomness, key derivation, open and side file |
| ProtectedFile.OpenFileForAppend | ssgx/filesystem/t/ProtectedFileWriter.cpp:100-188 | the handle and the disk, with the checks of an existing side file |
| ProtectedFile.OpenWriter | ssgx/filesystem/t/ProtectedFileWriter.cpp:191-225 | an open writer has the file on the disk, sealed under the key of its handle |
| ProtectedKeys.NewKey | ssgx/filesystem/t/ProtectedFileWriter.cpp:30-85 | a writer that makes up new metadata opens exactly when policy, report, randomness, derivation, open and side file all go well; the file is then sealed under the automatic key for MRSIGNER, and else under the request of the policy, the drawn key id and the reported CPU and ISV versions; and the side file says so |
| ProtectedKeys.PolicyRefused | ssgx/filesystem/t/ProtectedFileWriter.cpp:191-207 | a policy with an unknown bit, or with neither MRENCLAVE nor MRSIGNER, is refused in every mode and changes nothing |
| ProtectedKeys.SameKeyExactly | ssgx/filesystem/t/FileMetaData.cpp:26-52 | two files are under one key exactly when both are for MRSIGNER, or neither is and policy, drawn key id and both versions agree |
| ProtectedKeys.OtherSideFile | ssgx/filesystem/t/ProtectedFileReader.cpp:24-63 | a reader that finds the side file of one file beside another under a different key opens nothing |
| ProtectedKeys.ReadersKey | ssgx/filesystem/t/ProtectedFileReader.cpp:24-63 | a reader opens under the automatic key without a side file or with legacy mode 1 in its bytes, and otherwise under the request that the bytes spell |
| ProtectedKeys.AppendOpens | ssgx/filesystem/t/ProtectedFileWriter.cpp:100-188 | a writer that appends beside a side file opens exactly when the side file can be read, agrees with policy, ISV version and two bytes of the CPU version, marks legacy mode for MRSIGNER, and names the key of the file; and the disk in either case |
| ProtectedKeys.AppendersKey | ssgx/filesystem/t/ProtectedFileWriter.cpp:107-145 | a writer that appends beside a side file opens under the key that its bytes call for |
| ProtectedFile.ProtectedFileWriter.Open | ssgx/filesystem/t/ProtectedFileWriter.cpp:191-225 | the constructor: key policy, mode dispatch, and no open file after an exception |
| ProtectedFile.ProtectedFileWriter.Write | ssgx/filesystem/t/ProtectedFileWriter.cpp:233-240 | a call returns normally exactly when there are bytes and all are taken, and then all are appended; otherwise it throws and those that were taken are appended |
| ProtectedFile.ProtectedFileWriter.Close | ssgx/filesystem/t/ProtectedFileWriter.cpp:251-258 | a failed close throws and keeps the handle |
| ProtectedFile.ProtectedFileReader.Open | ssgx/filesystem/t/ProtectedFileReader.cpp:17-64 | the key selection: invalid side file throws, none or legacy mode 1 means the automatic key, else the derived key |
| ProtectedFile.ProtectedFileReader.Read | ssgx/filesystem/t/ProtectedFileReader.cpp:72-81 | the next bytes up to the size asked for, the end of the file or an error; an error throws only when there are no bytes |
| ProtectedRuns.WriteEach | ssgx/filesystem/t/ProtectedFileWriter.cpp:233-240 | a run of writes appends all data up to the first exception |
| ProtectedRuns.AllOrPrefix | ssgx/filesystem/t/ProtectedFileWriter.cpp:233-240 | all writes of a list return normally exactly when none is empty and all bytes are taken, and then nothing of their concatenation is missing; otherwise a beginning of it is taken |
| ProtectedRuns.LastSession | ssgx/filesystem/t/ProtectedFileWriter.cpp:191-258 | after any run, a session in which all goes well leaves in the file exactly the concatenation of its writes, after the old content if it appends |
| ProtectedRuns.RunSession | ssgx/filesystem/t/ProtectedFileWriter.cpp:191-258 | open, write and close through the class leave the disk of one step of the protocol |
| ProtectedRuns.AgreementStep | ssgx/filesystem/t/ProtectedFileWriter.cpp:30-85 | one step keeps agreement between writer and reader key if and only if it does not leave a stale side file; a step that returns normally never does |
| ProtectedRuns.KeyAgreement | ssgx/filesystem/t/ProtectedFileWriter.cpp:30-188 | over whole runs with any exceptions: every file with readable metadata stays sealed under the key the reader will choose, and legacy mode is 1 iff the policy is MRSIGNER, exactly as long as no step leaves a stale side file |
| ProtectedRuns.ReaderFindsTheKey | ssgx/filesystem/t/ProtectedFileReader.cpp:24-63 | under agreement the reader opens the file under the key it is sealed with, unless something outside fails |
| ProtectedRuns.StaleExample | ssgx/filesystem/t/ProtectedFileWriter.cpp:30-85 | a run of two sessions in which the side file cannot be opened: keys disagree |
| ProtectedRuns.StaleIsUnreadable | ssgx/filesystem/t/ProtectedFileReader.cpp:24-63 | after a stale step no reader opens the file, whatever happens outside |
| ProtectedRuns.ReadBack | ssgx/filesystem/t/ProtectedFileWriter.cpp:30-240 | after any run, whatever throws in it, a file exists exactly when it should and holds the beginning of the concatenation of all writes since a writer last opened it anew, up to the first byte that was not taken; the reader opens it if and only if it is told its key, which only a failed write of the side file can prevent, and nothing outside fails |
| ProtectedRuns.HalfOpened | ssgx/filesystem/t/ProtectedFileWriter.cpp:78-82 | what a writer leaves that throws after it has changed the disk: the file under its new key, empty or as it was, and the old side file, none, or one too short to be read |
| ProtectedRuns.NormalIsNamed | ssgx/filesystem/t/ProtectedFileWriter.cpp:30-188 | after any run whose steps return normally the reader is told the key |
| ProtectedRuns.ReadWritten | ssgx/filesystem/t/ProtectedFileReader.cpp:17-81 | opening the reader after any run and reading to the end in pieces of any sizes yields exactly those bytes, if and only if the reader is told the key and nothing outside fails |
| ProtectedRuns.ReadToEnd | ssgx/filesystem/t/ProtectedFileReader.cpp:72-81 | reading to the end in pieces of any sizes yields the whole content |
| ProtectedRuns.CreateNewDiscardsNothing | ssgx/filesystem/t/ProtectedFileWriter.cpp:209-215 | a CreateNew that succeeds found neither file nor side file, and one that finds either changes nothing |
| ProtectedRuns.AppendToExisting | ssgx/filesystem/t/ProtectedFileWriter.cpp:107-126 | appending opens exactly for the same policy, the same ISV version and the same first two bytes of the CPU version, and never changes the disk |
| ProtectedRuns.OtherCpuMayAppend | ssgx/filesystem/t/ProtectedFileWriter.cpp:122-125 | a file made at one CPU version, and a writer that opens it for appending at another one that differs in the third byte |
| ProtectedRuns.RemoveProtectedFileAnswers | ssgx/filesystem/t/ssgx_filesystem_t.cpp:76-80 | true means both files were there and are gone; when nothing fails outside, false means that the file did not exist if and only if the file, in case it is there, has a side file |
| ProtectedRuns.RemovedButFalse | ssgx/filesystem/t/ssgx_filesystem_t.cpp:76-80 | a file without a side file is removed and the answer is false |
| Attestation.RemoteAttestor.constructor | ssgx/attestation/t/RemoteAttestor.cpp:58-60 | error code unknown, no result yet, only Ok accepted |
| Attestation.RemoteAttestor.SetAcceptableResults | ssgx/attestation/t/RemoteAttestor.cpp:62-71 | the accepted results are those of the list, or Ok alone for an empty list |
| Attestation.RemoteAttestor.CreateReportFromData | ssgx/attestation/t/RemoteAttestor.cpp:73-137 | the quote that the host hands back, exactly when nothing fails; the error code of the first failure, unchanged on success |
| Attestation.RemoteAttestor.CreateReport | ssgx/attestation/t/RemoteAttestor.cpp:208-223 | empty user information is refused; otherwise a quote is asked for over its digest padded with zeros |
| Attestation.RemoteAttestor.CreateReportAt | ssgx/attestation/t/RemoteAttestor.cpp:249-261 | the same for the information stamped with a time |
| Attestation.RemoteAttestor.VerifyRawQuote | ssgx/attestation/t/RemoteAttestor.cpp:289-380 | the error code of the first failing check, and a result exactly on success |
| Attestation.RemoteAttestor.VerifyReportFromData | ssgx/attestation/t/RemoteAttestor.cpp:139-206 | accepted exactly when the service vouches for the quote with an accepted result, collateral is valid and all 64 bytes of user data are equal; error code and result in every case |
| Attestation.RemoteAttestor.VerifyReport | ssgx/attestation/t/RemoteAttestor.cpp:225-247 | the same for the digest of the user information |
| Attestation.RemoteAttestor.VerifyReportAt | ssgx/attestation/t/RemoteAttestor.cpp:263-287 | the same for stamped information, and in time; a clock that goes back throws, and is read only after the quote has passed; the measurement is handed out even when the clock then refuses |
| Attestation.StampedInjective | ssgx/attestation/t/RemoteAttestor.cpp:257-259 | no two pairs of user information and time give the same stamped string, for all strings and times |
| Attestation.UserDataExact | ssgx/attestation/t/RemoteAttestor.cpp:216-222 | equal user data means equal digests |
| Attestation.CodesExactly | ssgx/attestation/t/RemoteAttestor.cpp:139-206 | which error code a verification leaves for which failure, each exactly when it is the first, and which quality of the quote |
| Attestation.QuotingCodes | ssgx/attestation/t/RemoteAttestor.cpp:73-137 | which error code making a report leaves for which failure, and when it is made |
| Attestation.AcceptedExactly | ssgx/attestation/t/RemoteAttestor.cpp:263-287 | a report is accepted exactly when every check of the service passes, the enclave is not in debug mode, the result is accepted and collateral valid, the quote carries the digest of the information with "&time=" and the decimal time, then zeros, and the clock does not go back and is in time |
| Attestation.ReportIsBound | ssgx/attestation/t/RemoteAttestor.cpp:249-287 | a report made for (u, t), whatever quote the host hands back, is accepted for (v, s) if and only if the quote carries the user data of (v, s), is vouched for and s <= now <= s + validity; with the user data it was made with, that is u = v and t = s, unless the hash collides on the two strings |
| Attestation.InTimeExact | ssgx/attestation/t/RemoteAttestor.cpp:277-285 | the wrapping 64-bit test, exactly, for all 64-bit values; below 2^63 it is timestamp <= now <= timestamp + validity |
| Attestation.InTimeWraps | ssgx/attestation/t/RemoteAttestor.cpp:277-285 | a timestamp at the end of the 64-bit range passes at clock zero |
| Attestation.TimeVerifier.Verify | ssgx/utils/t/time/TimeVerifier.cpp:12-19 | a reading is refused exactly when it is earlier than the last accepted one |
| Attestation.AcceptedReadingsAscend | ssgx/utils/t/time/TimeVerifier.cpp:12-19 | the readings accepted in a run never decrease |
| Attestation.RefusedReading | ssgx/utils/t/time/TimeVerifier.cpp:12-19 | a reading is refused if and only if some reading accepted before it is later |
| Attestation.CallUtcNow | ssgx/utils/t/time/DateTime.cpp:18-33 | the time, or an exception when it cannot be had or goes back |
| Attestation.RunCalls | ssgx/attestation/t/RemoteAttestor.cpp:263-287 | a run of report verifications and clock calls on one clock, through the classes, gives the answers of the iterated call |
| Attestation.ExpiredStaysExpired | ssgx/attestation/t/RemoteAttestor.cpp:276-283 | in any run of calls on one clock: after a call rejected with VerifyTimeStampFailed at a timestamp not ahead of the clock, no later call for the same time and validity is accepted, whatever its report, information and accepted results |
| Attestation.AheadMayPassLater | ssgx/attestation/t/RemoteAttestor.cpp:276-283 | a call rejected for a timestamp ahead of the clock is accepted when made again at that time |
| Arbiter.TrustedArbiter.constructor | sample/millionaire_problem/enc/TrustedArbiter.h:11 | the arbiter starts not ready |
| Arbiter.TrustedArbiter.Prepare | sample/millionaire_problem/enc/TrustedArbiter.cpp:61-124 | the reply and every field after success and after each failure, in the order in which fields are stored |
| Arbiter.TrustedArbiter.IsReady | sample/millionaire_problem/enc/TrustedArbiter.cpp:127-130 | whether the arbiter is ready |
| Arbiter.TrustedArbiter.Compare | sample/millionaire_problem/enc/TrustedArbiter.cpp:133-187 | not ready afterwards in every case; an answer exactly for the current token and two texts that are signed, decrypt and are numbers |
| ArbiterSources.ComparisonAnswers | sample/millionaire_problem/enc/TrustedArbiter.cpp:133-187 | a ready arbiter given the current token, two texts that open, a clock and a quote answers exactly when both texts are numbers, with the order of their values, a tie being "not richer"; it is not ready afterwards |
| ArbiterSources.NothingToCompare | sample/millionaire_problem/enc/TrustedArbiter.cpp:133-187 | without the token, the clock, a quote or a text that opens there is no answer |
| ArbiterSources.PrepareReplies | sample/millionaire_problem/enc/TrustedArbiter.cpp:61-124 | Prepare replies exactly when both keys decode, the clock answers and a quote is made; the quote has the keys in their order, the arbiter key and the token |
| Arbiter.TrustedArbiter.VerifySignatureAndDecrypt | sample/millionaire_problem/enc/TrustedArbiter.cpp:30-58 | the plaintext of a ciphertext that the key has signed, or none |
| Arbiter.EcallWhoIsRicher | sample/millionaire_problem/enc/Enclave.cpp:39-57 | nothing happens unless the arbiter is ready |
| Arbiter.Millionaire.VerifyQuoteAndSaveArbiterPublicKey | sample/millionaire_problem/host/Millionaire.cpp:27-48 | the arbiter key is saved exactly when the quote says both keys, this key and the token |
| Arbiter.Millionaire.VerifyQuoteAndShowResult | sample/millionaire_problem/host/Millionaire.cpp:50-59 | a result is accepted exactly when the quote says it and the token |
| Arbiter.Millionaire.EncryptAndSignWealth | sample/millionaire_problem/host/Millionaire.cpp:61-93 | a ciphertext of the own wealth under the saved key, and a signature on it, exactly when the saved key is one |
| ArbiterRuns.NextKeeps | sample/millionaire_problem/enc/TrustedArbiter.cpp:60-187 | every step of arbiter, people and host keeps the invariant of the protocol |
| ArbiterRuns.OneComparison | sample/millionaire_problem/enc/Enclave.cpp:43-57 | over every run, calls that reach Compare are no more than successful Prepares, and no token gets two results |
| ArbiterRuns.AcceptedResult | sample/millionaire_problem/host/Millionaire.cpp:50-59 | exactly what can be accepted as a result for a token: what the arbiter computed for it, or the key part of the quote that announced it |
| ArbiterRuns.Agreement | sample/millionaire_problem/host/Millionaire.cpp:50-59 | two results accepted for one token are equal if and only if both or neither is one of the two possible results; such a result was computed by the arbiter for that token |
| ArbiterRuns.AgreementOverRun | sample/millionaire_problem/host/Millionaire.cpp:50-59 | the same over every run, for what is accepted at one time and at any later time |
| ArbiterExamples.HonestExample | sample/millionaire_problem/host/Millionaire.cpp:27-93 | a run from the start in which two people save the arbiter key, send their amounts and accept the result, which is the one of their amounts: the premises of RightResult are met |
| ArbiterExamples.BothAccepted | sample/millionaire_problem/host/Millionaire.cpp:50-59 | whenever a token has been announced and compared, the key part of the announcement and the result are both accepted for it, and differ |
| ArbiterExamples.AgreementExample | sample/millionaire_problem/host/Millionaire.cpp:50-59 | after that run, the key part of the announcement is accepted as a result too |
| ArbiterRuns.AcceptanceLasts | sample/millionaire_problem/host/Millionaire.cpp:50-59 | what could be accepted at some time in a run can be accepted ever after |
| ArbiterRuns.PrepareInfoExact | sample/millionaire_problem/enc/TrustedArbiter.cpp:99-109 | with keys and tokens of fixed length, the user information determines the pair of keys, the arbiter key and the token, but not the order of the pair |
| ArbiterRuns.StringLessTotal | sample/millionaire_problem/enc/TrustedArbiter.cpp:101-107 | the order of the two keys is total and asymmetric |
| ArbiterRuns.StringLessExact | sample/millionaire_problem/enc/TrustedArbiter.cpp:101-107 | one key comes before another exactly when it is smaller at the first place where they differ |
| ArbiterRuns.AcceptedKey | sample/millionaire_problem/host/Millionaire.cpp:27-48 | a person saves an arbiter key if and only if the arbiter announced it for that person and the peer, in either order |
| ArbiterSources.IntactStep | sample/millionaire_problem/enc/TrustedArbiter.cpp:61-124 | a step leaves a ready arbiter with the keys it announced if and only if it is not a Prepare that fails after replacing one |
| ArbiterSources.CompareSource | sample/millionaire_problem/enc/TrustedArbiter.cpp:133-187 | a comparison that goes through is over texts signed under the announced keys if and only if the arbiter still held them |
| ArbiterSources.SourcedRun | sample/millionaire_problem/enc/TrustedArbiter.cpp:60-187 | over every run, all results compare texts signed under the keys their token was announced with, if and only if every comparison that went through found the arbiter holding them |
| ArbiterSources.NeverSpoiledRun | sample/millionaire_problem/enc/TrustedArbiter.cpp:60-187 | that is so on every run without such a failing Prepare |
| ArbiterExamples.SpoiledExample | sample/millionaire_problem/enc/TrustedArbiter.cpp:61-124 | a run with such a Prepare in which both people, who had accepted the announcement, accept a result over the host's amount that is not the one of their own |
| ArbiterSources.RightResult | sample/millionaire_problem/enc/TrustedArbiter.cpp:60-187 | when both people have accepted the announcement of a token, a result they accept for it compares their own amounts, in the order in which the keys were given |
| ArbiterSources.ResultMeans | sample/millionaire_problem/enc/TrustedArbiter.cpp:161-166 | the result is "Alice is richer" exactly when both texts are numbers and the first has the larger value, "Alice is not richer than Bob" exactly when they are and it has not, and there is none exactly when one is not a number |
| Headers.StrictWeakOrder | common/include/ssgx_http_t_structs.h:88-101 | ci is irreflexive and transitive, and its equivalence is transitive and respected by the order |
| Headers.EquivalentIsSameLetters | common/include/ssgx_http_t_structs.h:88-101 | two names are equivalent exactly when they have the same letters, up to the two cases of ASCII letters (section 5.1 of RFC 9110) |
| Headers.CiLessExact | common/include/ssgx_http_t_structs.h:88-101 | one name comes before another exactly when it is smaller at the first place where they differ in more than case |
| Headers.FindAfterEmplace | ssgx/http/t/common/Response.cpp:28-32 | an entry is added under its name exactly when there was none under that name, and no other name is affected |
| Headers.SameFindSameMap | common/include/ssgx_http_t_structs.h:103 | the map is determined by what is found under each name |
| Headers.Response.CallHasCRLF | ssgx/http/t/common/http_utils.h:29-38 | whether a carriage return or line feed stands before the first NUL |
| Headers.Response.SetHeader | ssgx/http/t/common/Response.cpp:28-32 | a clean entry is added if its name is new, and nothing else happens |
| Headers.FirstWriteWins | ssgx/http/t/common/Response.cpp:28-32 | after any run of SetHeader there is one entry per name: the one that was there, or else the first clean one written |
| Headers.SetInTwoSpellings | ssgx/http/t/common/Response.cpp:28-32 | two calls whose names differ in case only leave one entry, the first |
| Headers.NoneHasABreak | ssgx/http/t/common/Response.cpp:28-32 | no run of SetHeader puts a name or value with a line break before its first NUL into the map |
| Headers.SetIsKept | ssgx/http/t/common/Response.cpp:28-32 | an entry without line breaks is kept if its name is new in every spelling |
| Headers.MembersInOrder | ssgx/http/t/common/Response.cpp:74-84 | the members taken over from JSON are those before the first that is not a string, in their order |
| Headers.Response.ToJsonWithoutBody | ssgx/http/t/common/Response.cpp:88-100 | the status as a number, and each header as a string under its own name; no headers member when there are none |
| Headers.Response.FromJsonWithoutBody | ssgx/http/t/common/Response.cpp:66-86 | false and no change for a text that cannot be parsed; a status that is missing or null stays, a number is taken as an unsigned short; every member is set as a header in the order given, up to one that is not a string, which throws |
| Headers.JsonRoundTrip | ssgx/http/t/common/Response.cpp:66-100 | printing and reading into a fresh response keeps exactly the clean headers in whatever order the members come: all of them if and only if none has a line break, and the status if and only if it is an unsigned short |

## Left out

- HttpParser.HttpResponseParser.Parse: signed overflow of the version numbers and unsigned overflow of the status code are taken to wrap, and a failed allocation is not modelled.
- HttpHeads.LegalHead: continuation lines, which RFC 9112 withdraws, are in the parser's grammar only.
- BigDecimal: the sign of zero, the exponent among equal values that an exact quotient gets, infinities and NaN, and reading and printing numbers; the constructors that copy and assign. The exponent range of a `Precision` is a parameter, because `mpd_init` is not part of this model; its constructor, which throws for a scale that `SetScale` refuses too.
- ProtectedFile.ProtectedFileWriter.Write: data counts as on the disk when the library has taken it, so `Flush`, a crash between write and close, and a close that loses data are not modelled; nor is the null pointer that the original refuses.
- ProtectedFile.ProtectedFileReader.Read: `Seek` and `Tell` are not modelled.
- ProtectedFile.OpenFileForWrite: a handle left open by an exception holds no lock in the model; `sgx_fopen` in mode "w" is taken to truncate when it succeeds and to do nothing when it fails.
- ProtectedRuns.ReadBack: A run does not use the side file of the named file as a file of its own, nor the named file as a side file; sessions do not overlap.
- HostFiles.Host.ReadFile: locks between processes and the failure of `malloc` are not modelled; of a protected file a plain reader sees only its fixed first bytes.
- Path normalisation, directories and the other file system calls would only add easy members.
- Attestation.RemoteAttestor.VerifyReportAt: the error texts; the quote verification service is a parameter.
- Arbiter.TrustedArbiter.Prepare: the two timestamp fields, which are never read back, and the copies that the ecalls make outside the enclave; calls that interleave inside the enclave (each call is one atomic step).
- Arbiter.Millionaire.VerifyQuoteAndSaveArbiterPublicKey: acceptance is by a quote of the arbiter's enclave; the sample leaves the comparison of the measurement to its caller.
- ArbiterRuns.Agreement: user information is compared instead of its digest, as with a hash that does not collide.
- Headers.Response.FromJsonWithoutBody: the JSON text itself and its treatment of invalid UTF-8; a JSON object is a map, and its `headers` member is an object, missing or null.
- `SetResp` and the fixed responses, requests, attributes and the JSON crossing of requests would only add easy members.
- SGX, DCAP, mbedtls and nlohmann internals are not part of this model.
- `DateTime` calendar conversion, TOML lookup, filter chains, listeners, thread pools, logging and the object registry.
