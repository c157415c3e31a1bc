# GoToSocial upload codecs and per-call bootstrap, in Dafny

This project models two parts of a GoToSocial fork that runs its media and
status operations as Service Weaver components.

The first part is the binary wire codecs that carry requests across the
component boundary:

- `AttachmentRequest.MarshalBinary` and `UnmarshalBinary`. The file
  sub-record is `MarshalBinaryMultipart` with the `"key: value\n"` header
  dump; description and focus follow.
- `Language.MarshalBinary` and `UnmarshalBinary`, the text form of a
  language, and the language helpers `ParseTag`, `Parse`, `InitLangs` and
  the `Languages` projections.

Bytes are `seq<Byte>` with `Byte = 0..255`. Integers are written as
explicit little-endian `int64`s. Decoding follows the Go readers exactly:

- `binary.Read` of an `int64` fails with EOF when the input is empty and
  with `ErrUnexpectedEOF` when 1 to 7 bytes remain.
- `make([]byte, n)` with a negative `n` panics.
- A single `bytes.Reader.Read` reports EOF at the end of the input, even
  for an empty slice. Otherwise it copies what is there and leaves the rest
  of the slice zero.

Decoders take the receiver and return it as the Go code leaves it, because
the Go code assigns fields one by one before it can fail. Each decoder has
a second version in which every slice is filled with `io.ReadFull`; this is
the corrected reader of the findings below.

The second part is the request path:

- `validateCreateMedia` and the v2 URL rule of `MediaCreatePOSTHandler`.
- The bootstrap run by `mediaRequestHandler.Create` and by both
  `DoOperation` handlers: caches, database, instance account and instance
  rows, storage, workers, the `"@cachesweep"` task, the processor and (for
  statuses) the lane wiring.

Which stages fail is an input. A handler returns the trace of calls it
made, with its `defer`red stops appended last-first, and what it returned.
What the processor would produce is also an input.

Modules:

| module | what it holds |
|---|---|
| `GoStd` | `int64` little-endian, Go reader semantics, `Option`, `Result`, `Reverse` |
| `LengthPrefixed` | `writeString` and `readString` |
| `MimeHeader` | `headerToString` and `stringToHeader` |
| `ApiModel` | the attachment request codec |
| `Language` | the language codec and helpers |
| `Utf8` | rune counting, as `len([]rune(s))` does it |
| `Bootstrap` | stages, events, teardown, and the shared start |
| `WeaverHandlers` | the two `DoOperation` handlers |
| `MediaCreate` | `Create`, validation and the POST handler |

Four behaviours a reader might expect, and what the code does instead:

- A length prefix that exceeds the remaining bytes is not rejected: it is
  zero-filled, unless nothing at all remains.
- Not every request round-trips: a request whose last field is empty fails
  to decode with EOF.
- The handlers discard business errors: the processor's error never
  reaches the caller.
- A failed stage does not tear down what was built: only the caches and the
  workers are ever stopped.

## Model

| member | source | states |
|---|---|---|
| GoStd.Int64RoundTrip | internal/api/model/attachment.go:126 | an `int64` written little-endian in 8 bytes reads back as the same value |
| GoStd.Int64FromLERoundTrip | internal/api/model/attachment.go:90 | every 8 bytes are the encoding of exactly the `int64` they read as |
| GoStd.MinusOneIsAllOnes | internal/api/model/attachment.go:64-68 | `-1` is written as eight `0xFF` bytes, and only those eight bytes read as `-1` |
| GoStd.ReadInt64 | internal/api/model/attachment.go:137-140 | reading an `int64` succeeds iff at least 8 bytes remain and consumes exactly 8; an empty input is EOF, 1 to 7 bytes are an unexpected EOF |
| GoStd.ReadInt64Written | internal/api/model/attachment.go:126 | reading an `int64` from its own encoding gives the value back and leaves exactly the bytes after it |
| GoStd.MakeAndRead | internal/api/model/attachment.go:141-145 | a negative length panics; otherwise the read fails iff nothing remains (EOF); on success the slice has the requested length, starts with the available bytes, is zero after them, and exactly those bytes are consumed |
| GoStd.MakeAndReadFull | internal/api/model/attachment.go:142 | with `io.ReadFull` a negative length panics, the read succeeds iff enough bytes remain, and it then splits the input into the slice and the rest |
| GoStd.Reverse | internal/weaver/media.go:40 | deferred calls run in reverse order: element i of the result is element n-1-i of the input |
| LengthPrefixed.WriteString | internal/api/model/attachment.go:125-133 | the output is 8 + len bytes, its prefix reads as the length, and the bytes follow unchanged |
| LengthPrefixed.ReadString | internal/api/model/attachment.go:136-146 | fewer than 8 bytes is an error other than a panic; on success at least 8 bytes are consumed |
| LengthPrefixed.ReadWriteString | internal/api/model/attachment.go:125-146 | a written string reads back with exactly the following bytes left over, except that an empty string at the very end is EOF |
| LengthPrefixed.ReadStringZeroFills | internal/api/model/attachment.go:141-145 | a prefix longer than a non-empty remainder is accepted, and the string is the remainder padded with zeros |
| LengthPrefixed.ReadStringNegativeLength | internal/api/model/attachment.go:141 | a negative length prefix makes `make` panic |
| LengthPrefixed.ReadFullWriteString | internal/api/model/attachment.go:142 | with `io.ReadFull` every written string reads back, the empty one included |
| LengthPrefixed.ReadStringFullRejectsTruncation | internal/api/model/attachment.go:142 | with `io.ReadFull` a prefix longer than the remainder is an error: EOF when nothing remains, unexpected EOF otherwise |
| LengthPrefixed.WriteTwoLayout | internal/api/model/attachment.go:125-133 | two strings written one after the other: each prefix reads as its string's length and each string sits right after its prefix |
| LengthPrefixed.ReadStringWith | internal/api/model/attachment.go:136-146 | a successful read consumed the 8-byte prefix, and the single read needs at least one byte after it |
| MimeHeader.HeaderToString | internal/api/model/attachment.go:205-213 | the text is one `key: value\n` line per (key, value) pair, in field order and then value order |
| MimeHeader.PairsCount | internal/api/model/attachment.go:207-211 | a header has as many (key, value) pairs, and so as many written lines, as it has values |
| MimeHeader.LineCount | internal/api/model/attachment.go:205-213 | when keys and values hold no newline, the dump has exactly as many newlines as the header has values |
| MimeHeader.HeaderToStringEmpty | internal/api/model/attachment.go:205-213 | the dump is empty iff the header has no values |
| MimeHeader.Split | internal/api/model/attachment.go:218 | one more piece than there are newlines, no piece holds a newline, and joining the pieces with newlines gives back the input |
| MimeHeader.SplitLine | internal/api/model/attachment.go:218 | a newline-free line followed by a newline splits off as the first piece |
| MimeHeader.Cut | internal/api/model/attachment.go:223-224 | a line is cut iff it contains `": "`; the key holds no `": "`, so the cut is at the first occurrence; key, separator and value give the line back |
| MimeHeader.CutBody | internal/api/model/attachment.go:223-226 | a `key: value` line whose key holds no `": "` cuts back into that key and value |
| MimeHeader.Add | internal/api/model/attachment.go:225 | adding a value grows the header's pairs by exactly that one pair |
| MimeHeader.AddLinesPairs | internal/api/model/attachment.go:219-227 | parsing lines adds exactly the pairs of the non-empty lines that have a separator |
| MimeHeader.StringToHeader | internal/api/model/attachment.go:216-229 | the parsed header holds exactly the pairs of the split lines that survive the filter (non-empty, holding `": "`), as a multiset |
| MimeHeader.SplitDump | internal/api/model/attachment.go:216-229 | the lines of a dump of well-formed pairs parse back to those pairs, in order |
| MimeHeader.HeaderRoundTrip | internal/api/model/attachment.go:205-229 | parsing the dump of a header whose keys hold no `": "` or newline, and whose values hold no newline, gives the same multiset of (key, value) pairs |
| ApiModel.MarshalBinaryMultipart | internal/api/model/attachment.go:149-172 | the file sub-record is 16 bytes plus the filename plus the header dump |
| ApiModel.MultipartLayout | internal/api/model/attachment.go:149-172 | the file sub-record is the filename after a prefix that reads as its length, then the header dump after a prefix that reads as the dump's length |
| ApiModel.UnmarshalMultipartWith | internal/api/model/attachment.go:175-202 | a decoded file header has size 0, and decoding it took the two 8-byte prefixes (and, with the single read, at least one byte more) |
| ApiModel.UnmarshalBinaryMultipart | internal/api/model/attachment.go:175-202 | as written, a decoded file header has size 0 and came from at least 17 bytes: the single read fails when nothing follows the header prefix |
| ApiModel.MultipartRoundTripWith | internal/api/model/attachment.go:149-202 | the sub-record decodes to the filename and the parsed dump; with single reads an empty dump fails with EOF |
| ApiModel.FileSection | internal/api/model/attachment.go:52-69 | the file section is 8 bytes plus the sub-record's length (nothing when there is no file) |
| ApiModel.MarshalBinary | internal/api/model/attachment.go:48-82 | the encoding is 24 bytes plus the file data plus description and focus; without a file the first 8 bytes are all `0xFF` |
| ApiModel.MarshalBinaryLayout | internal/api/model/attachment.go:48-82 | the encoding opens with the file section, then the description and the focus, each after an 8-byte prefix that reads as its length, at the offsets those lengths give |
| ApiModel.FileLengthWritten | internal/api/model/attachment.go:52-69 | the first 8 bytes read as `-1` without a file and as the sub-record's length with one |
| ApiModel.ReadText | internal/api/model/attachment.go:107-119 | reading description and focus never changes the receiver's file |
| ApiModel.UnmarshalWith | internal/api/model/attachment.go:85-122 | fewer than 8 bytes is EOF or unexpected EOF with the receiver untouched; a success took at least 24 bytes (25 with the single read); on success the file is nil iff the file length read is `-1` |
| ApiModel.UnmarshalBinary | internal/api/model/attachment.go:85-122 | as written, no input shorter than 25 bytes decodes, so the 24-byte encoding of an empty request does not |
| ApiModel.UnmarshalBinaryFixed | internal/api/model/attachment.go:85-122 | with `io.ReadFull`, a success took at least 24 bytes, and a non-negative file length never exceeds the bytes left for the file: nothing is zero-filled |
| ApiModel.TextRoundTrip | internal/api/model/attachment.go:107-119 | description and focus read back; with single reads an empty focus at the end fails with EOF after the description is assigned |
| ApiModel.FileSectionRoundTrip | internal/api/model/attachment.go:88-105 | the file section decodes to no file or to the decoded sub-record; with single reads an empty header dump fails with EOF and leaves the receiver as it was |
| ApiModel.RoundTripWith | internal/api/model/attachment.go:85-122 | decoding an encoding, for either reader: which error, if any, and exactly which receiver fields are set |
| ApiModel.RoundTrip | internal/api/model/attachment.go:85-122 | as written, the round trip succeeds iff the focus (or trailing input) and any header dump are non-empty, and then gives back description, focus, file presence and filename |
| ApiModel.RoundTripHeader | internal/api/model/attachment.go:199 | on a successful round trip a well-formed header comes back as the same multiset of pairs |
| ApiModel.EmptyFocusFails | internal/api/model/attachment.go:115-118 | as written, a request with an empty focus does not decode: EOF, with file and description already assigned |
| ApiModel.FixedRoundTrip | internal/api/model/attachment.go:85-122 | with `io.ReadFull` every encodable request decodes back completely, and no field of the receiver survives |
| ApiModel.ShortInput | internal/api/model/attachment.go:89-92 | fewer than 8 bytes is an error and the receiver is untouched |
| ApiModel.FileLength | internal/api/model/attachment.go:89-117 | a file length of `-1` means no file and the text fields follow at once; below `-1` it panics; a non-negative length with nothing left is EOF; otherwise the sub-record is the next `min(n, remaining)` bytes padded with zeros, a failure to decode it leaves the receiver untouched, and on success the description and focus are read from the bytes after it |
| ApiModel.FocusZeroFilled | internal/api/model/attachment.go:114-119 | an over-long focus prefix is accepted, with the focus padded with zero bytes |
| ApiModel.FixedRejectsTruncatedFile | internal/api/model/attachment.go:93-97 | with `io.ReadFull` a file length beyond the input is an error and the receiver is untouched |
| ApiModel.FixedRejectsTruncatedFocus | internal/api/model/attachment.go:114-118 | with `io.ReadFull` an over-long focus prefix is an error |
| Language.ParseTag | internal/language/language.go:216-255 | sets the tag and its string; the display string is the language's own name iff we have no name or the same name; it starts with our name, and is `name (selfName)` when the names differ |
| Language.Parse | internal/language/language.go:259-266 | yields a language iff the string parses, and then it is `ParseTag` of the parsed tag |
| Language.InitLangs | internal/language/language.go:36-74 | fails with no languages and a nil namer iff some string does not parse; otherwise element i is `ParseTag` of the i-th parsed tag, under the namer `ChooseNamer` picks: the first tag's language, or else English |
| Language.Tags | internal/language/language.go:187-194 | same length, and element i is the tag of language i |
| Language.TagStrs | internal/language/language.go:196-203 | same length, and element i is the tag string of language i |
| Language.DisplayStrs | internal/language/language.go:205-212 | same length, and element i is the display string of language i |
| Language.UnmarshalText | internal/language/language.go:175-183 | succeeds iff the text parses; on failure the receiver is unchanged; on success it becomes `ParseTag` of the parsed tag, whose text form is the tag's canonical string |
| Language.MarshalText | internal/language/language.go:169-172 | the text form is `TagStr`; it carries no contract of its own, and `TextRoundTrip` states what reading it back gives |
| Language.TextRoundTrip | internal/language/language.go:169-183 | when the tag library reads a tag's string back as that tag, the text form of a parsed language reads back as the same language |
| Language.MarshalBinary | internal/language/language.go:89-124 | the tag's string, `TagStr` and `DisplayStr`, each after an 8-byte prefix that reads as its length, at the offsets those lengths give |
| Language.UnmarshalWith | internal/language/language.go:126-167 | fewer than 8 bytes is a read error with the receiver untouched; an unparsable tag changes only the tag; a success took at least 24 bytes (25 with the single read) |
| Language.UnmarshalBinary | internal/language/language.go:126-167 | as written, no input shorter than 25 bytes decodes |
| Language.UnmarshalBinaryFixed | internal/language/language.go:126-167 | with `io.ReadFull`, a success took at least 24 bytes |
| Language.RoundTripWith | internal/language/language.go:126-167 | decoding an encoding, for either reader: which error, if any, and exactly which fields are set |
| Language.RoundTrip | internal/language/language.go:126-167 | as written, the round trip succeeds iff the tag's string parses and the display string (or trailing input) is non-empty, and then restores both strings and sets the parsed tag |
| Language.EmptyDisplayFails | internal/language/language.go:155-163 | as written, an empty display string at the end does not decode: EOF |
| Language.TagParseFailure | internal/language/language.go:138-143 | an unparsable first field is an error; the receiver gets the returned tag and nothing else |
| Language.FixedRoundTrip | internal/language/language.go:126-167 | with `io.ReadFull` a language whose tag string parses always decodes back, even with an empty display string |
| Utf8.RuneWidth | internal/api/client/media/mediacreate.go:264 | each step of decoding consumes 1 to 4 bytes, one for ASCII; it takes 2, 3 or 4 bytes exactly when they form a well-formed two-, three- or four-byte sequence of Table 3-7 of the Unicode Standard (section 3.9), and a single byte for anything ill-formed |
| Utf8.RuneWidthPrefix | internal/api/client/media/mediacreate.go:264 | a well-formed encoding of one rune is consumed whole, whatever follows it |
| Utf8.RuneCount | internal/api/client/media/mediacreate.go:264 | there are never more runes than bytes, nor more than four bytes per rune |
| Utf8.RuneCountConcat | internal/api/client/media/mediacreate.go:264 | text made of k well-formed rune encodings counts exactly k runes, however many bytes each takes |
| Utf8.AsciiRuneCount | internal/api/client/media/mediacreate.go:264 | ASCII text has one rune per byte |
| Bootstrap.FirstFailure | internal/weaver/media.go:42-63 | the index of the first failing stage: none before it fails, and it fails (or all stages pass) |
| Bootstrap.NoFailure | internal/weaver/media.go:42-63 | every stage passes iff no stage fails |
| Bootstrap.Attempted | internal/weaver/media.go:42-63 | the stages attempted are those up to and including the first failure, in source order |
| Bootstrap.StartStorage | internal/weaver/media.go:37-66 | caches start with their stop deferred, then stages run in order until one fails; the failed stage is the first failing one |
| Bootstrap.FinishTornDown | internal/weaver/media.go:38-40 | a stop-free body finished with its defers ends with the workers' stop (iff they started) and then the caches' stop |
| Bootstrap.AbortTrace | internal/weaver/media.go:43-63 | a failing stage ends the run: the stages up to it, then only the caches' stop |
| Bootstrap.AttemptedLocks | internal/weaver/media.go:59-63 | a run cut short by a failing stage opens storage, if at all, only under its own lock name |
| Bootstrap.FinishBoth | internal/weaver/media.go:69-70 | with both stops deferred, the workers stop before the caches |
| Bootstrap.BootedTornDown | internal/weaver/media.go:68-82 | a booted run is torn down with both stops, and opens storage under its own lock only |
| Bootstrap.MediaCalled | internal/weaver/media.go:84-102 | a booted media handler's trace is the full bootstrap, the one processor call, then both stops |
| Bootstrap.Kept | internal/weaver/media.go:93 | discarding the error keeps the value, or nil when the call failed |
| WeaverHandlers.LockName | internal/weaver/media.go:60 | the lock is the 5-rune token followed by `.lock` |
| WeaverHandlers.Dispatch | internal/weaver/media.go:91-97 | op 0, 1 and 2 call create, update and get |
| WeaverHandlers.MediaDoOperation | internal/weaver/media.go:34-103 | torn down on every path; no error iff no stage fails and the op is valid, and then the processor's value is returned whatever its error; every error comes with a nil value; fail-fast trace on a failing stage; an invalid op is reported after the full bootstrap (`StartStorage`, then `StartWorkers` starting the workers and registering the cache sweep, then the processor: the `Booted` trace) |
| WeaverHandlers.Dispatched | internal/weaver/media.go:84-102 | after storage and `StartWorkers`: an invalid op is an error with a nil value and no processor call; a valid op calls the processor once |
| WeaverHandlers.InvalidOpAfterBootstrap | internal/weaver/media.go:98-100 | an invalid op comes after the cache sweep is registered, and no media call is made |
| WeaverHandlers.StatusDoOperation | internal/weaver/status.go:44-151 | torn down on every path; no error iff no stage fails, and then `Status().Create`'s value is returned whatever its error; fail-fast trace on a failing stage |
| WeaverHandlers.Served | internal/weaver/status.go:87-150 | after storage: HTTP client, workers, sweep, processor, lane wiring, the call, then both stops |
| WeaverHandlers.StatusWiring | internal/weaver/status.go:79-143 | the HTTP client is built after storage and before workers; every lane slot gets the processor function of its own kind and lane, after workers start and before `Status().Create` |
| WeaverHandlers.BootOrder | internal/weaver/status.go:79-96 | storage is opened, then the HTTP client is built, then the workers start, each at its first position in the trace |
| WeaverHandlers.CallOrder | internal/weaver/status.go:143 | `Status().Create` is called once, after the lanes are wired |
| WeaverHandlers.LaneOrder | internal/weaver/status.go:136-141 | each lane slot is set between the workers' start and the call |
| MediaCreate.Create | internal/api/client/media/mediacreate.go:57-115 | the bootstrap under `hello.lock`, torn down on every path; no error iff no stage fails, and then the processor's value whatever its error |
| MediaCreate.CreateLosesProcessorError | internal/api/client/media/mediacreate.go:112-114 | a failed processor call after a good bootstrap returns neither an attachment nor an error |
| MediaCreate.CreateFixed | internal/api/client/media/mediacreate.go:112-114 | with the processor's error passed back there is an attachment iff there is no error |
| MediaCreate.SizeLimit | internal/api/client/media/mediacreate.go:255-258 | the larger of the video and image limits |
| MediaCreate.ValidateCreateMedia | internal/api/client/media/mediacreate.go:242-269 | accepts iff a file is present, its size is at most the larger limit, and the description has at most the maximum number of runes; otherwise the first failing check's error |
| MediaCreate.AsciiDescription | internal/api/client/media/mediacreate.go:264 | for ASCII descriptions the limit is on bytes |
| MediaCreate.DescriptionRuneLimit | internal/api/client/media/mediacreate.go:264 | for a file within the size limit, a description made of k well-formed runes passes validation exactly when k is at most the configured maximum, not when its byte length is |
| MediaCreate.MinimumNotEnforced | internal/api/client/media/mediacreate.go:250-268 | a description shorter than the configured minimum is accepted: the minimum only appears in the error message |
| MediaCreate.Respond | internal/api/client/media/mediacreate.go:219-239 | an error from `Create` is a bad request; an attachment is answered 200 with the attachment, its URL cleared under v2; a nil attachment is answered 200 with `null` under v1 and dereferences nil under v2 |
| MediaCreate.PostMediaWith | internal/api/client/media/mediacreate.go:188-239 | any failed check is an error answer; a bootstrap failure is a bad request; an admitted upload that boots and is processed is answered 200 with the attachment, its URL cleared under v2; the handler dereferences nil iff, as written, an admitted v2 upload's processing fails |
| MediaCreate.PostMedia | internal/api/client/media/mediacreate.go:188-239 | as written, the handler dereferences nil exactly for an admitted v2 upload whose bootstrap succeeds and whose processing fails; the same failure under v1 is answered 200 with `null`; a processed upload is answered 200 with the attachment, its URL cleared under v2 |
| MediaCreate.PostMediaFixed | internal/api/client/media/mediacreate.go:188-239 | with the processor's error passed back, the handler never dereferences nil |
| MediaCreate.PostMediaNilAttachment | internal/api/client/media/mediacreate.go:230-237 | as written, a failed upload panics under v2 and answers 200 with `null` under v1 |
| MediaCreate.PostMediaFixedAnswers | internal/api/client/media/mediacreate.go:219-239 | with the error passed back, an admitted upload never dereferences nil, and is answered with the attachment exactly when it was created |

## Left out

- Service Weaver registration, `weaver.Run` and the listener (internal/weaver/weaver.go, and the `weaver.Run` call at the top of the POST handler): runtime wiring with no logic of its own.
- `processing/media.Create` (internal/processing/media/create.go): it reads files under `/tmp`, rebuilds multipart forms, calls `log.Fatal`, and calls the media manager and `parseFocus`, which is not part of this model. Its result is the input `created`.
- The internals of bundb, storage `AutoConfig`, the caches, the workers and the scheduler. Each stage's success is an input; `AddRecurring` and the processor's construction are recorded events.
- The result of `AddRecurring`: it is discarded, so it is not an input.
- Timer firing, cache sweep eviction and lane concurrency.
- The `fmt.Printf` of the state in the status handler: output only.
- Tag parsing and naming from golang.org/x/text. These are the function fields of `Language.TextLib`, and nothing is assumed about them.
- The namer global. It is passed to `ParseTag` and returned by `InitLangs` rather than shared.
- `Languages` holds pointers; the projections assume none is nil.
- textproto key canonicalisation and Go map iteration order. A header is a sequence of (key, values), and its round trip is stated as multiset equality of pairs.
- Float focus values and the API's other attachment fields. `Attachment` carries only its id and URL.
- Gin, OAuth and content negotiation. Their outcomes are the fields of `MediaCreate.Request`, and error answers carry only their kind.
- The random 5-rune token is an input. `WeaverHandlers.LockName` requires exactly five characters, which is what `RandStringRunes(5)` returns.
- `make` of a slice too large to allocate: lengths are unbounded.
- Writes to a `bytes.Buffer` cannot fail, so the encoders have no error result.
- ApiModel.MarshalBinary: requires every length to fit an `int64`, which Go slice lengths always do.
- WeaverHandlers.StatusDoOperation: building the HTTP client is treated as infallible. `config.MustParseIPPrefixes` (internal/weaver/status.go:88-93) panics on a malformed allow or block prefix in the configuration. The configuration is not an input here and a panic is not a returned error, so "no error iff no stage fails" is promised only for a well-formed configuration.

## Findings

| source | as written | input that shows it | evidently intended | confidence | as-written member | corrected member |
|---|---|---|---|---|---|---|
| internal/api/model/attachment.go:115-118 | the focus is read with one `bytes.Reader.Read`, which returns EOF at the end of the input even for a zero-length slice | an `AttachmentRequest` with no file, description `"a"` and empty focus: its own encoding fails to decode with EOF (the same happens to a file whose header dump is empty, at lines 195-198) | every encoded request decodes back: `io.ReadFull` | not executed; high | ApiModel.EmptyFocusFails | ApiModel.FixedRoundTrip |
| internal/language/language.go:160-163 | the display string is read with one `bytes.Reader.Read`, which returns EOF at the end of the input for an empty display string | a `Language` with a parsable tag and empty `DisplayStr`: its own encoding fails to decode with EOF | every encoded language with a parsable tag decodes back: `io.ReadFull` | not executed; high | Language.EmptyDisplayFails | Language.FixedRoundTrip |
| internal/api/client/media/mediacreate.go:230-237 | `Create` discards the processor's error (line 112) and returns nil, nil; the handler then sets `URL` on the nil attachment under v2 | an admitted v2 upload whose processing fails, for example an unparsable focus | the processor's error reaches the handler, which answers with an error | not executed; high | MediaCreate.PostMediaNilAttachment | MediaCreate.PostMediaFixedAnswers |
