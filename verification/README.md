# Verification model of id-core

This project models the parts of the id-core service that carry state, recursion or arithmetic, and
proves what they promise for all inputs and all runs. `dafny verify dfyconfig.toml` checks it.

| part of the service | files |
|---|---|
| response path: status recorders, access log, panic recovery, request id, in the order `server.New` builds | `HttpHeader.dfy`, `PanicValues.dfy`, `ResponseModel.dfy`, `ResponseChain.dfy`, `Middleware.dfy` |
| request identifiers: validation, sanitising, generation, concurrent fallback generation | `Utf8.dfy`, `RequestId.dfy`, `FallbackIds.dfy` |
| error details, log fields and headers: deep copy and redaction, as trees and on the heap; immutability of `CodedError` | `DenyList.dfy`, `HeaderRedaction.dfy`, `JsonTree.dfy`, `JsonHeap.dfy`, `AppError.dfy` |
| redaction of the logged query string | `QueryRedaction.dfy` |
| log writer with a fallback sink, one call and concurrent calls | `FallbackWriter.dfy`, `FallbackRace.dfy` |
| entity tags and revalidation of the discovery and JWKS documents | `Base64Url.dfy`, `Revalidation.dfy` |
| the PostgreSQL connection URL | `Dsn.dfy` |
| shared text, counter and result types | `Text.dfy`, `Counter64.dfy`, `ErrorCodes.dfy`, `Wrappers.dfy` |

How to read it:

* A handler is the trace of what it does to its writer (Set, Add and Del of headers, WriteHeader with any
  code, Write, Flush), ending in a return, a panic or `runtime.Goexit`. Interim (1xx), invalid and repeated
  codes and early flushes are part of the traces, so the main theorem says exactly when the logged status is
  the one the client saw.
* A panic value prints itself, or has an `Error` or `String` method that panics in turn, with a value of the
  same kind. Recover logs `Error()` of an error and `%v` of anything else, where fmt catches one panic
  but not a second one on the way (`PanicValues`). When a panic or Goexit leaves the chain, the server drops
  the connection and the client sees no status (`ResponseChain.FinishedStatus`).
* Go maps and slices are heap objects. `JsonHeap.Rep` ties a heap value to the tree it spells out, and one
  object may be reached twice. A value has such a tree exactly if no path through its maps and slices leads
  back to something it has passed (`JsonHeap.TreeExistsIffAcyclic`), so what is proved of every value with
  a tree is proved of every acyclic value.
* Header names are canonicalised as net/http does on Set, Add and Del, so "ETag" is kept as "Etag".
* Concurrent code is a state machine over atomic steps; the theorems hold for every sequence of steps.
* Octet strings are Dafny strings whose characters are below 256.
* Parameters stand for what the code calls but this project does not define: Unicode lower-casing
  (`lower`, assumed only to lower-case ASCII text as usual, and only where letter case is the subject),
  SHA-256 (any function to 32 octets), the UUID generator, the clock, the sinks, and the outcome of
  writing a panic response.

Where the code and its comments differ, or a promise fails, the model follows the code:

* `core/internal/middleware/recover.go:27` says that the reversed middleware order logs status 0; the code logs
  200, the initial value of the recorder (`ReversedChainMisreportsPanics`; `ReversedChainAtAPanic` is a
  handler that panics at once: logged 200, sent 500).
* `core/internal/middleware/recover.go:15-27` promises a 500 for every panic. Recover first gets the text of
  the value for the log (`core/internal/logger/logger.go:87` calls `Error()`); if that panics, nothing is answered, the
  panic leaves the chain and the access log says 200 or the first code. `ChainLogsWhatTheClientSaw` has
  the exact condition; inputs: a nil `*apperror.CodedError` (`CodedErrorEscapesIff`), before anything
  was sent (`UnprintablePanicEscapes`).
* The log and the client disagree exactly if the chain does not return (such a panic, or Goexit), the
  earned status cannot be a final one (an interim or invalid code first), or the handler flushes before
  a first code, or a panic, other than 200 (`ChainLogsWhatTheClientSaw`). Inputs: flush then 404
  (`FlushThenErrorIsMisreported`), flush then panic (`FlushThenPanicIsMisreported`), 103 then 200 (`InterimCodeIsMisreported`), a code of 0 whose panic is
  recovered (`InvalidCodeIsMisreported`).
* The response can carry another id than the log if the handler edits that header, in whatever spelling
  (`ResponseCarriesLoggedRequestId` has the exact condition; input: `OtherSpellingReplacesRequestId`).
* `core/internal/apperror/apperror.go:45-47` promises isolation for every map; a pointer or a map or slice of another
  type inside the details is shared by every copy, and isolation holds exactly if there is none
  (`IsolatedIffNoShared`, `CloneKeepsShared`; `World.Run` has it over every program).
* The deep copy and the redaction turn a nil `[]any` into an empty one (`NilSliceIsLost`), so a copy equals
  its original exactly when no nil slice is inside (`CloneIsExact`).
* The drop counter counts a record whose fallback sink took everything and still reported an error; a
  record can be counted and yet be complete (`RecordIsConserved`; input: `CountedYetComplete`).
* The writer reports a short count if the primary claims success with one (`FullLengthReported`; input:
  `FalseSuccessIsReported`).
* A fallback id fails the service's own validation if the host name is too long or not printable
  (`FallbackIdValidity`), and then a later server does not adopt it (`EmittedIdIsAdopted`).
* A bare IPv6 host is printed without brackets, and then the connection URL cannot be read
  (`DsnIsReadBack`; input: `BareIPv6IsNotRead`).

## Model

| member | source | states |
|---|---|---|
| ResponseChain.ChainLogsWhatTheClientSaw | core/internal/server/server.go:102-106 | for every handler trace a panic leaves the chain if and only if the text of its value cannot be had; exactly one access record is written, last, with the first code, or 500 for a caught panic before it, or 200, and the level of that status; if the chain returns, the client sees that status unless it cannot be final or was flushed past, and then 200; and the record names the status the client saw if and only if the chain returns, that code can be final and no other status was flushed out first; that record has the method of the request, its path up to the first '?' and its query with exactly the denied values hidden, and the sanitised client id exactly if the client sent one that was rejected; before it stand, only for a caught panic, its text with the status already written, and a record if the response to it was refused |
| ResponseChain.UnprintablePanicEscapes | core/internal/middleware/recover.go:52-65 | a panic whose text cannot be had, before anything was sent: it leaves the chain, the only record is an access record with 200 at level Info, and nothing is sent |
| ResponseChain.CodedErrorEscapesIff | core/internal/apperror/apperror.go:76-81 | for every trace that ends in a panic with a *CodedError the panic leaves the chain if and only if the pointer is nil or it wraps a cause that fmt itself panics on, and then a trace without a code is logged as 200 instead of 500; any other is logged with its code and message |
| PanicValues.LoggedText | core/internal/middleware/recover.go:51-57 | which text the log has for each kind of panic value, and exactly when it has none |
| ResponseChain.FlushThenErrorIsMisreported | core/internal/middleware/access_log.go:99-103 | a flush followed by 404 is logged as 404 and seen as 200 |
| ResponseChain.FlushThenPanicIsMisreported | core/internal/middleware/recover.go:59-77 | a flush followed by a panic is logged as 500 and seen as 200 |
| ResponseChain.InterimCodeIsMisreported | core/internal/middleware/access_log.go:81-88 | 103 followed by 200 is logged as 103 and seen as 200 |
| ResponseChain.InvalidCodeIsMisreported | core/internal/middleware/access_log.go:81-88 | a code of 0, whose panic is recovered, is logged as 0 and seen as 200 |
| ResponseChain.ReversedChainMisreportsPanics | core/internal/middleware/recover.go:21-27 | with recover outside the access log the client sees the same, but every trace without a code is logged as 200, a caught panic too; such a record is right only if the handler had already flushed, and all other traces behave as in the right order |
| ResponseChain.ReversedChainAtAPanic | core/internal/middleware/recover.go:26-27 | the reversed order at a handler that panics at once: logged 200, sent 500 |
| ResponseChain.ChainRunsFullTrace | core/internal/middleware/recover.go:34-85 | two recorders over the server's writer run the handler's trace followed, only for a caught panic before any write, by the panic response; the log holds, for a caught panic, the panic record with the status already written and a record if the panic response could not be written, and the access record; if the text of the panic value cannot be had, the panic of getting it is raised instead |
| ResponseChain.StackActsAsOne | core/internal/middleware/access_log.go:75-96 | a stack of recorders of any depth is after every trace in the state of a single recorder: all layers agree and the bottom writer is where one recorder would leave it |
| ResponseChain.StackDeliversInOrder | core/internal/middleware/access_log.go:81-96 | below any number of recorders the bottom writer receives at most one WriteHeader, with the recorded status, before any body, and the body unchanged and in order |
| ResponseChain.OneRecorder | core/internal/middleware/access_log.go:81-96 | a recorder keeps the first code of a trace, and the client sees it unless it was flushed past or cannot be final |
| ResponseChain.EveryAccessLogWritesOnce | core/internal/middleware/access_log.go:35-66 | in every order and nesting of the middlewares each access log writes one record, also while a panic passes through it, and the composition ends as its handler does after each recover has taken one panic: one whose text can be had ends there, any other raises the next |
| ResponseChain.PanicValueStaysInside | core/internal/middleware/recover.go:15-19 | what the client receives is the same for two panic values if and only if the text of both can be had, or of neither, or something was written before |
| ResponseChain.LogRevealsExactlyTheVisibleQuery | core/internal/middleware/access_log.go:35-66 | for every handler trace, two requests that differ in the query only leave equal records if and only if the queries agree on everything but denied values, and get the same response in any case |
| ResponseChain.PanicBeforeWritingSendsFixedResponse | core/internal/middleware/recover.go:74-77 | a panic whose text can be had, before anything was sent, hands a 500 with the JSON content type and a body of fixed code, fixed message and request id to the server; every other header is as the handler left it, Content-Length included, by which the server may refuse the body |
| ResponseChain.PanicResponseOnFreshRecorder | core/internal/apperror/response.go:50-54 | the exact header and body calls of WriteJSON on an unused recorder |
| ResponseChain.ResponseCarriesLoggedRequestId | core/internal/middleware/request_id.go:60-66 | whatever the status and the ending, the X-Request-Id sent has the values that header has when the trace commits the response, under any spelling of the handler's own Set, Add and Del; so it is the id of the access record alone if and only if those edits leave it so, and always if there are none |
| ResponseChain.OtherSpellingReplacesRequestId | core/internal/middleware/request_id.go:60-66 | a handler that sets "x-request-id" replaces the id on the response |
| HttpHeader.SameHeaderIffSameLetters | core/internal/middleware/request_id.go:64 | two tokens name the same header if and only if they differ in letter case only |
| Middleware.StatusRecorder.WriteHeader | core/internal/middleware/access_log.go:81-88 | the recorder and everything below it reach the modelled state, and the call panics exactly when the code reaches a writer that refuses it |
| Middleware.StatusRecorder.Write | core/internal/middleware/access_log.go:90-96 | an implicit 200 is latched before the body goes down |
| Middleware.StatusRecorder.Flush | core/internal/middleware/access_log.go:99-103 | a flush reaches the server's writer and leaves every recorder as it was |
| Middleware.AfterPanic | core/internal/middleware/recover.go:41-82 | the deferred handler logs the panic and answers 500 only if no header was written; if the log call panics, it neither logs nor answers |
| Middleware.Serve | core/internal/middleware/access_log.go:35-66 | the imperative middlewares, with their deferred parts, do what the chain model says to writer, log and ending, over any writer |
| Middleware.HandleRequest | core/internal/server/server.go:99-106 | one request through the imperative chain: the promises of the chain theorem about the objects themselves, a panic that leaves the chain included; an id is drawn only for a request without a valid one, the logged id is the drawn or the client's one and is valid exactly if the client's was, or a UUID was made, or the fallback parts fit, and the response carries it exactly if the handler's own edits of that header leave it so; the access record describes the request and a caught panic is logged with its text |
| QueryRedaction.RedactQueryString | core/internal/middleware/access_log.go:144-171 | the split, in-place loop and join compute the redacted query of the specification |
| QueryRedaction.RedactPairs | core/internal/middleware/access_log.go:146-169 | the loop overwrites each piece of the array with its redacted form |
| QueryRedaction.PieceTakesApart | core/internal/middleware/access_log.go:146-153 | the first '=' of a piece separates its key from its value, and nothing is lost |
| QueryRedaction.DeniedByDecodedKey | core/internal/middleware/access_log.go:155-160 | a key is judged by its decoded text, and by its raw text if it does not decode, by the redaction and by the reference decoder alike |
| QueryRedaction.QueryKeepsKeys | core/internal/middleware/access_log.go:144-171 | number and order of pieces, raw keys and presence of '=' survive for every raw query; a value changes only below a denied key, and then to the marker |
| QueryRedaction.RedactionCommutesWithDecoding | core/internal/middleware/access_log.go:155-168 | decoding the redacted text gives the decoded parameters of the original with exactly the denied values replaced by the marker, however a key is percent-encoded |
| QueryRedaction.RedactionHidesExactlyDeniedValues | core/internal/middleware/access_log.go:144-171 | two queries look the same in the log if and only if they agree on everything but denied values |
| QueryRedaction.RedactionIsIdempotent | core/internal/middleware/access_log.go:144-171 | redacting twice is redacting once |
| QueryRedaction.LoggedPathTakesApart | core/internal/middleware/access_log.go:133-142 | the logged path splits at its first '?' into the request path and the redacted query, and has no '?' without a query |
| QueryRedaction.LoggedPathHidesExactlyDeniedValues | core/internal/middleware/access_log.go:133-142 | two requests to one path have equal logged paths if and only if their queries agree on everything but denied values; an empty query looks like no other |
| DenyList.BuildLowerSet | core/internal/logger/redact.go:56-62 | the loop builds exactly the lower-cased keys; for ASCII keys a lower-cased name is in the set if and only if the list has it in some letter case |
| DenyList.DenyListIgnoresCase | core/internal/logger/redact.go:72-75 | an ASCII key is denied if and only if its lower-case form is a whole entry of the list |
| HeaderRedaction.RedactHeaders | core/internal/logger/redact.go:77-98 | the copy has the same headers with as many values, shares no value slice with the original, and holds the marker for every value of a denied header and the same values otherwise; nil gives nil |
| HeaderRedaction.HeadersIgnoreCase | core/internal/logger/redact.go:24-31 | an ASCII header name is denied if and only if it is one of the listed names in any letter case |
| JsonTree.RedactRevealsExactlyTheVisible | core/internal/logger/redact.go:111-139 | two trees have equal redactions if and only if they show the same leaf, key set or length at every path without a denied key |
| JsonTree.RedactKeepsVisibleShape | core/internal/logger/redact.go:111-139 | at every path without a denied key the redaction shows the same leaf, key set or length, and every denied key there holds the marker |
| JsonTree.AnyLetterCaseIsHidden | core/internal/logger/redact.go:100-104 | a key on the list in any letter case hides its value at any depth, through maps and arrays |
| JsonTree.RedactIsIdempotent | core/internal/logger/redact.go:111-139 | redacting twice is redacting once |
| JsonTree.CloneIsExact | core/internal/apperror/apperror.go:89-113 | a deep copy equals its original if and only if the original holds no nil slice |
| JsonTree.CloneAlongPath | core/internal/apperror/apperror.go:89-113 | at every path a deep copy has the leaf, key set or length of the original |
| JsonTree.NilSliceIsLost | core/internal/apperror/apperror.go:104-109 | a nil slice becomes an empty one in a copy and in a redaction |
| JsonTree.CloneIsIdempotent | core/internal/apperror/apperror.go:71 | every later copy of the details equals the first one |
| JsonTree.IsolatedIffNoShared | core/internal/apperror/apperror.go:110-112 | a tree goes on looking the same to a reader who follows pointers and maps and slices of other types, whatever is written there, if and only if it has none inside |
| JsonTree.CloneKeepsShared | core/internal/apperror/apperror.go:100-113 | a deep copy has such a shared value inside if and only if the original has |
| JsonHeap.TreeExistsIffAcyclic | core/internal/apperror/apperror.go:76-113 | a value whose objects lie in a set closed under references spells out a tree if and only if no path through maps and slices leads back to a value it has passed |
| JsonHeap.CloneDetails | core/internal/apperror/apperror.go:89-98 | for every heap map that spells out a tree, which by TreeExistsIffAcyclic is every acyclic one, the copy consists of new objects only and spells out the copied tree; nothing existing is written |
| JsonHeap.CloneValue | core/internal/apperror/apperror.go:100-113 | the same for any value, slices included |
| JsonHeap.RedactMap | core/internal/logger/redact.go:111-124 | for every heap map that spells out a tree, which by TreeExistsIffAcyclic is every acyclic one, the result consists of new objects only and spells out the redacted tree; nothing existing is written |
| JsonHeap.RedactValue | core/internal/logger/redact.go:126-139 | the same for any value, slices included |
| JsonHeap.RepIsUnique | core/internal/apperror/apperror.go:100-113 | a heap value spells out one tree only |
| AppError.CodedError.WithDetails | core/internal/apperror/apperror.go:48-52 | a new error that holds its own copy of the given map, other fields kept |
| AppError.CodedError.Wrap | core/internal/apperror/apperror.go:55-59 | a new error with the cause, sharing the details objects of the old one |
| AppError.CodedError.Details | core/internal/apperror/apperror.go:67-71 | a fresh copy that spells out exactly what the error has held from the start |
| AppError.CodedError.Error | core/internal/apperror/apperror.go:76-81 | the text starts with code and message and ends with the text of the cause if there is one |
| AppError.ToResponse | core/internal/apperror/response.go:26-40 | code, message and request id with a fresh copy of the details; the fixed internal error for nil |
| AppError.World.Derive | core/internal/apperror/apperror.go:36-59 | an error made from a map holds a copy of what the map spells out at that moment; a wrapped error shares the details, and the isolation invariant survives |
| AppError.World.AcyclicMapsCanBePassed | core/internal/apperror/apperror.go:46-52 | in every reachable state the values of the program that a step can pass on to an error or a log field are exactly the acyclic ones |
| AppError.World.Read | core/internal/apperror/response.go:34-39 | what Details and ToResponse hand out shows the error's own tree and is new to the program |
| AppError.World.Redacting | core/internal/logger/redact.go:111-139 | a map redacted into the log spells out the redacted tree in new objects, and so does a log field redacted into a new value; the invariant that keeps both sides apart survives |
| AppError.World.Tamper | core/internal/apperror/apperror.go:46-47 | any write to any map or slice that was passed in or handed out takes effect there and leaves every error intact |
| AppError.World.Perform | core/internal/apperror/apperror.go:33-71 | every step of a program takes the effect of its kind on errors, log fields, values, maps and slices, and a step whose operands do not fit does nothing |
| AppError.World.Run | core/internal/apperror/apperror.go:21-31 | over every program of error operations, redactions and writes, every existing error and every log field goes on showing exactly the tree it showed before, so no write on either side of a copy or of a redaction shows through the other; followed through pointers and values of other types too, if there is none inside |
| RequestId.IsValidRequestId | core/internal/middleware/request_id.go:90-104 | the index loop accepts exactly the strings of 1 to 128 octets that all lie between 0x21 and 0x7E |
| RequestId.SanitizeClientRequestId | core/internal/middleware/request_id.go:112-128 | the builder loop over UTF-8 runes gives the runes in order, each as itself or as backslash, u and its code point in lower-case hexadecimal, up to the first one that does not fit into 128 octets |
| RequestId.SanitizeTakesLongestPrefix | core/internal/middleware/request_id.go:109-111 | the result is the text of the longest prefix of whole tokens that fits into 128 octets |
| RequestId.TruncatedLength | core/internal/middleware/request_id.go:122-124 | never more than 128 octets, and at least 121 when anything was cut off |
| RequestId.SanitizedIsValid | core/internal/middleware/request_id.go:106-128 | every non-empty value becomes one that validation accepts |
| RequestId.SanitizeFixesExactlyTheInvalid | core/internal/middleware/request_id.go:112-128 | a non-empty value is left unchanged if and only if validation accepts it |
| RequestId.SanitizeIsIdempotent | core/internal/middleware/request_id.go:112-128 | sanitising twice is sanitising once |
| RequestId.TokenIsInjective | core/internal/middleware/request_id.go:115-121 | different runes give different tokens, so an escape still names its code point |
| RequestId.TokenStandsForRune | core/internal/middleware/request_id.go:115-121 | a rune outside 0x21 to 0x7E is written as backslash, u and its code point in lower-case hexadecimal, with four digits or as many more as it needs; any other as itself |
| RequestId.ClientValueLoggedIffRejected | core/internal/middleware/request_id.go:49-63 | the context names a client value if and only if the header was non-empty and rejected, and then a valid one |
| RequestId.LaterHopsAdopt | core/internal/middleware/request_id.go:47-58 | along any line of servers the id emitted by the first one is adopted by all later ones, if the client's value or the first generated id is valid (EmittedIdIsAdopted says when that is) |
| RequestId.EmittedIdIsAdopted | core/internal/middleware/request_id.go:47-58 | for any client value, outcome of the UUID generator, host, process, clock and counter: the emitted id passes unchanged through every line of later servers if and only if the client's value is valid, or a UUID was made, or host and numbers fit |
| RequestId.AdoptedIffValid | core/internal/middleware/request_id.go:51-54 | an id survives every next hop if and only if validation accepts it |
| RequestId.UuidText | core/internal/middleware/request_id.go:141-143 | the UUID text form has 36 octets and passes validation |
| RequestId.UuidReadsBack | core/internal/middleware/request_id.go:141-143 | dashes stand at 8, 13, 18 and 23, and the i-th pair of lower-case digits has the value of the i-th octet |
| RequestId.UuidTextInjective | core/internal/middleware/request_id.go:135-143 | two UUIDs have the same text if and only if they are equal |
| RequestId.FallbackIdValidity | core/internal/middleware/request_id.go:145 | validation accepts a fallback id if and only if the host is printable and host and numbers fit into 116 octets |
| RequestId.FallbackIdFits | core/internal/middleware/request_id.go:140-160 | a host gives a valid fallback id for every 64-bit clock and counter if and only if it is printable and takes at most 76 octets with the process number; at most 78 if clock and counter are not negative |
| RequestId.FallbackIdInjective | core/internal/middleware/request_id.go:135-145 | two fallback ids of one process are equal if and only if clock and counter were |
| RequestId.FallbackIdReadsBack | core/internal/middleware/request_id.go:145 | host, process, clock and counter stand in this order and can be read back from the id, whatever the host name is, the process number being one of os.Getpid (not negative) |
| RequestId.UuidIsNoFallback | core/internal/middleware/request_id.go:140-146 | a UUID is never equal to a fallback id |
| RequestId.IdSource.NewRequestId | core/internal/middleware/request_id.go:140-146 | the id is valid exactly if a UUID was made or the fallback parts fit; up to a full turn of the counter it repeats an id that this source issued before if and only if the UUID generator repeats a UUID; a failed UUID moves the counter by one |
| Utf8.DecodeRune | core/internal/middleware/request_id.go:114 | a rune takes one to four octets, and is ASCII exactly when its first octet is |
| Utf8.DecodeReadsEncoded | core/internal/middleware/request_id.go:114 | every UTF-8 encoded scalar value is read back whole, whatever follows it |
| Utf8.DecodedIsEncodedOrMalformed | core/internal/middleware/request_id.go:114 | every decoded rune stands for exactly its UTF-8 octets, or for one malformed octet |
| FallbackIds.FallbackIdsAreDistinct | core/internal/middleware/request_id.go:144-145 | over every interleaving of up to 2^64 callers all ids issued by one process differ, whatever the clock returns |
| FallbackIds.IdsCoincideIff | core/internal/middleware/request_id.go:144-145 | two increments give the same id if and only if the clock read the same and the counter made a full turn of 2^64 |
| FallbackIds.RunKeepsInv | core/internal/middleware/request_id.go:144 | every run keeps: no two callers hold the same increment and each id prints its own |
| FallbackIds.UninterruptedCaller | core/internal/middleware/request_id.go:144-145 | a caller whose two atomic steps are not interleaved moves the counter and gets its id exactly as NewRequestId does without a UUID |
| FallbackWriter.LogWriter.Write | core/internal/logger/fallback.go:44-67 | with arbitrary sinks, also one sink in both roles: octets given to each sink in order; the reported count; and the counter stays as it was if and only if the primary succeeds, or the fallback succeeds with all that the primary left by its own account |
| FallbackWriter.CountedUnlessTaken | core/internal/logger/fallback.go:44-67 | a record is counted as dropped exactly unless the primary succeeds or the fallback succeeds with all that the clamped count of the primary leaves; with honest sinks, unless the two took it all |
| FallbackWriter.ReportedCount | core/internal/logger/fallback.go:44-67 | the caller is told what the primary claims if that succeeds, and the full length otherwise |
| FallbackWriter.RecordIsConserved | core/internal/logger/fallback.go:34-43 | with sinks that keep the io.Writer contract the octets sent form a prefix of the record, the full length is reported, and the record is incomplete if and only if it was counted and the fallback fell short |
| FallbackWriter.CountedYetComplete | core/internal/logger/fallback.go:60-66 | sinks that keep the io.Writer contract and leave a record complete and yet counted as dropped |
| FallbackWriter.FullLengthReported | core/internal/logger/fallback.go:39-43 | with arbitrary sinks the full length is reported if and only if the primary does not claim success with another count |
| FallbackWriter.FalseSuccessIsReported | core/internal/logger/fallback.go:44-48 | a primary that claims success with a short count: the caller is told that count |
| FallbackRace.NoOctetTwice | core/internal/logger/fallback.go:44-67 | at every moment of every interleaving what one call put into the two sinks is a prefix of its record, complete once it returned without a loss |
| FallbackRace.DropsCountTheLosses | core/internal/logger/fallback.go:65-73 | at every moment of every interleaving the counter is, as an int64, the number of returned writes whose primary failed and whose fallback failed or did not take all that the primary left by its own account |
| FallbackRace.UninterruptedCall | core/internal/logger/fallback.go:44-67 | a call whose steps are not interleaved sends and counts exactly what the sequential Write does |
| FallbackRace.OwnStepTakesEffect | core/internal/logger/fallback.go:44-67 | a step that a call can take takes effect on its phase, its pieces in the sinks and the counter whatever steps of other calls came in between |
| Base64Url.DecodeEncode | core/internal/oidc/discovery/serialize.go:38-41 | decoding gives back any octet sequence from its unpadded base64url text |
| Base64Url.EncodeShape | core/internal/oidc/discovery/serialize.go:28-30 | exact length, and only characters of the URL-safe alphabet |
| Base64Url.AlphabetOrder | core/internal/oidc/discovery/serialize.go:38-41 | the digits are those of the URL-safe alphabet in its order |
| Base64Url.QuadIsBigEndian | core/internal/oidc/discovery/serialize.go:38-41 | three octets and their four digits are the same number, highest part first |
| Revalidation.ETagForm | core/internal/oidc/discovery/serialize.go:28-32 | always 24 characters, quoted, no padding, no weak prefix |
| Revalidation.ETagIsDigestPrefix | core/internal/oidc/discovery/serialize.go:34-41 | the text between the quotes decodes to the first 16 octets of the digest, in order |
| Revalidation.ETagIdentifiesDigestPrefix | core/internal/oidc/jwks/serialize.go:58-61 | two bodies share their tag if and only if their digests share 16 octets |
| Revalidation.CacheControlNamesTheAge | core/internal/oidc/jwks/handler.go:94-99 | two header values are equal if and only if the ages are equal or both are not positive |
| Revalidation.CacheControlDirectives | core/internal/oidc/jwks/handler.go:94-99 | public, a max-age that reads back as the age, and must-revalidate for a positive age; no-cache and must-revalidate for any other |
| Revalidation.ServeHttp | core/internal/oidc/jwks/handler.go:72-86 | the handler makes exactly the writer calls of its specification, over any stack of recorders |
| Revalidation.ExchangeAnswers | core/internal/oidc/discovery/handler.go:52-68 | through the mux and the whole chain, for every method: GET and HEAD get 304 without body, Content-Type and Cache-Control exactly on an equal tag, otherwise 200 as JSON with, for GET, exactly the pod's body, and both carry the tag; any other method gets 405 and the allowed methods |
| Revalidation.PodAnnouncesItsAge | core/internal/oidc/jwks/handler.go:47-63 | through the whole chain a full answer carries the directives of the age that its pod was built with |
| Revalidation.ClientAgreesIffCollisionFree | core/internal/oidc/discovery/handler.go:45-50 | over every run of GET requests against any mix of pods a client's stored body is the body of the pod that answered, if and only if the digest prefixes of the served bodies do not collide |
| Revalidation.EqualPodsNeverMislead | core/internal/oidc/jwks/handler.go:23-24 | over every run against pods built from equal keys, with any ages of caching, a client holds the body of the pod that answered, with nothing assumed of the digests |
| Revalidation.BuildSet | core/internal/oidc/jwks/serialize.go:24-36 | the set holds the converted keys in order; the first key that cannot be converted or added is the one reported |
| Revalidation.BuildSetIsDetermined | core/internal/oidc/jwks/handler.go:23-24 | equal key lists give equal sets in equal order, or the same error |
| Dsn.DsnIsReadBack | core/internal/db/dsn.go:26-37 | reading the printed URL gives back all fields for all octets in user, password, database and mode, if and only if the port is not negative and the host can stand in a URL; otherwise nothing is read, never something else |
| Dsn.BareIPv6IsNotRead | core/internal/db/dsn.go:26-37 | the URL printed for the host "::1" cannot be read |
| Dsn.UnescapeEscape | core/internal/db/dsn.go:17-19 | percent-decoding undoes the escaping of every URL part |
| Dsn.EscapedExactly | core/internal/db/dsn.go:26-37 | which characters stay as they are in each part of the URL, and that all others become '%' and two capital digits, or '+' for a space in the query |
| Dsn.PrintedUrl | core/internal/db/dsn.go:26-37 | one printed URL in full |
| Text.SplitJoin | core/internal/middleware/access_log.go:145-170 | splitting undoes joining for separator-free pieces |
| Text.JoinSplit | core/internal/middleware/access_log.go:145-170 | joining undoes splitting |

## Left out

- Hijack, timers, sockets, HTTP/2, how much of a committed response still gets out when a panic makes the server drop the connection, and the suppression of bodies for 204 and 304 by net/http; the server's writer is taken to support Flush.
- What a handler does with the error results of its writes; the octets are recorded as handed to the server's writer.
- JSON text encoding: an error body is the record of its fields, and a details tree is not printed.
- Cyclic maps, on which both walks of the code do not end; sub-slices sharing one array. Pointers and maps and slices of other types are single memory cells, which a write replaces as a whole.
- Error and String methods that panic with themselves without end, and ones that do not return; Format methods of panic values.
- DenyList.DenyListIgnoresCase: speaks about ASCII keys only, because what strings.ToLower does elsewhere is a parameter.
- Middleware.Serve: the id that newRequestID would return is part of the handler term; Middleware.HandleRequest draws it from the generator.
- Assignments to the header map that go around Set, Add and Del, and the clean-up of line breaks in header values by net/http.
- Path matching of the mux; its method check is modelled for the two document endpoints only.
- Revalidation.BuildSet: key conversion and the set's own acceptance test are parameters; the remaining error returns of jwks.New are single branches.
- Dsn.DsnIsReadBack: the reader follows RFC 3986; net/url as a reader differs for hosts only: it refuses percent-encoded ASCII octets in them, and it does read back a host with '<', '>' or '"' and an IPv6 address with a zone, such as "[fe80::1%eth0]", which is printed with %25.
- SafeRepr, configuration, key store, health endpoints, database pool and migrations, logger formatting, process start: straight-line code or library calls.
