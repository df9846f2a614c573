# Money-muling detection API: request boundary layer

This project is a Dafny model of `api/detect.py` of the money-muling detection
engine's serverless entry point. It covers two pieces of the file, with proofs.

- **`parse_multipart_body`** is the byte-level multipart extractor. It splits
  the raw body on `--` + boundary and picks the first piece that declares
  `Content-Type: text/csv` or carries `filename=` and in which the pattern
  `\r\n\r\n(.+?)(?=\r\n--|$)` (DOTALL) matches; a file piece with nothing after
  its blank line is skipped (`Multipart.FirstMatchWins`). It decodes that
  piece's group as UTF-8. Here the
  regular expression is an explicit left-to-right scan with cursor positions
  (`Seqs.IndexFrom`, `Multipart.SpanEnd`). A lemma proves that the scan finds
  exactly what a backtracking `re.search` finds (`Multipart.ContentSpanIsLeftmostLazyMatch`). The
  loop with its `break` is the method `Multipart.ParseMultipartBody`. That method
  is proved equal to the specification function `Multipart.Extract`, and the
  handler uses that function.
- **`handler`** is a pure decision tree. It maps the backend-available flag,
  the request and the outcomes of the two collaborators to exactly one response
  envelope (`Handler.Handle`).

Modules:
- `Wrappers`: `Option`.
- `Seqs`: binary-safe search, Python's `in`, `split` and `join`.
- `Utf8`: `str.encode()` and the strict `bytes.decode('utf-8')`.
- `Multipart`: `parse_multipart_body`.
- `Handler`: `handler`.

Inputs that the source takes from its environment are parameters:
- `BACKEND_AVAILABLE` is the flag `backendAvailable`.
- `parse_csv` is a function argument returning `Records(records)`, `ValueError(msg)` or `OtherError(msg)`.
- `run_detection`, together with the serialisation of its result, is a function argument returning `Detected(result)` or `DetectionFailed(msg)`.

The response is `Response(statusCode, headers, body)`. The body is a datatype:
a `Detail(message)`, the `Health(status, message)` payload, or the opaque `Report(result)`.
Envelopes that have no `headers` key in the source have the empty map.

Five behaviours of the code that are easy to miss:
- **Trailing CR.** The split has already removed `--boundary`, so the lookahead `\r\n--` never fires at the CRLF that ends a normal part. Python's `$` matches just before the final LF instead. The extracted content therefore ends with the CR of that CRLF (`Multipart.SpanKeepsCarriageReturn`).
- **Bad UTF-8.** Content that is not valid UTF-8 makes the decode raise. The outer `except` catches it, and the reply is 500 "Unexpected error: …", never "no file" (`Handler.UndecodableIsUnexpectedError`, `Handler.NoFileIffMissing`).
- **No trimming.** The boundary is the raw text after the last `boundary=`: it is neither trimmed nor unquoted (`Handler.BoundaryFollowsLastKey`).
- **Backend check first.** The backend check comes before method dispatch, so `GET` also gets the 500 when the backend is missing (`Handler.BackendMissingAlwaysFails`).
- **JSON header only on 200.** Only the two 200 envelopes carry the JSON content-type header; every error envelope has no `headers` key (`Handler.Handle`).

All functions are deterministic, so repeating a request with the same bytes and
the same collaborator outcomes gives the same envelope.

## Model

| member | source | states |
|---|---|---|
| `Seqs.IndexFrom` | api/detect.py:30-32 | the result is the first occurrence of the pattern at or after the cursor, and None exactly when there is none |
| `Seqs.Contains` | api/detect.py:30 | Python's `pat in s` holds exactly when the pattern occurs somewhere in `s` |
| `Seqs.Split` | api/detect.py:26 | `split` yields at least one piece, and no piece contains the separator |
| `Seqs.SplitCutsAtFirstOccurrence` | api/detect.py:26 | every cut is at the leftmost occurrence: each piece but the last, followed by the separator, first contains the separator at its end, so the pieces are those of Python's left-to-right `split` even for a separator that overlaps itself |
| `Seqs.JoinSplit` | api/detect.py:26 | splitting loses nothing: joining the pieces with the separator gives the body back |
| `Seqs.LastPieceAfterLastOccurrence` | api/detect.py:59 | for a separator whose first character occurs nowhere else in it, `split(sep)[-1]` is exactly what follows the last occurrence |
| `Seqs.LastPiece` | api/detect.py:59 | `split(sep)[-1]`; `Seqs.LastPieceIsSuffix`, `Seqs.LastPieceWithoutSeparator` and `Seqs.LastPieceAfterLastOccurrence` state what it is |
| `Seqs.LastPieceIsSuffix` | api/detect.py:59 | `split(sep)[-1]` is a suffix of the input |
| `Seqs.LastPieceWithoutSeparator` | api/detect.py:59 | when the separator does not occur, `split(sep)[-1]` is the whole input |
| `Utf8.Encode` | api/detect.py:26 | `boundary.encode()` yields between one and four bytes per character |
| `Utf8.Decode` | api/detect.py:34 | a successful decode of a non-empty span is a non-empty string no longer than the span; a failure reports the offset where an ill-formed sequence starts |
| `Utf8.DecodeEncode` | api/detect.py:26 | decoding undoes encoding for every string |
| `Utf8.EncodeDecoded` | api/detect.py:34 | only well-formed input decodes: a successful decode's text encodes back to exactly the input bytes |
| `Utf8.DecodeBeforeOffset` | api/detect.py:34 | the reported offset is the first ill-formed sequence: the bytes before it decode |
| `Multipart.Delimiter` | api/detect.py:26 | the split delimiter `b'--' + boundary.encode()` starts with two dashes, so it is never empty |
| `Multipart.IsFilePart` | api/detect.py:30 | the attribute test; `Multipart.FirstSelectable` proves that a chosen piece passes it, `Multipart.FoundContentBounds` that returned text comes from a piece passing it, and `Multipart.MissingWithoutFilePart` that the result is None when no piece passes it |
| `Multipart.LookaheadAt` | api/detect.py:32 | where `(?=\r\n--\|$)` succeeds under DOTALL; `Multipart.SpanEnd` ends the group at its first such position and `Multipart.ContentSpanIsLeftmostLazyMatch` relates it to the regular expression's match |
| `Multipart.SpanEnd` | api/detect.py:32 | the lazy `.+?` ends at the first position at or after the cursor where `\r\n--` follows, or at the end of the piece, or just before a final LF |
| `Multipart.ContentSpan` | api/detect.py:32 | when the pattern matches, the group is non-empty and lies inside the piece |
| `Multipart.ContentSpanIsLeftmostLazyMatch` | api/detect.py:32 | the scan returns the match with the leftmost start and the shortest group, as `re.search` does, and None exactly when the pattern matches nowhere; the matches are those of `Multipart.RegexMatch`, an independent definition of what the pattern matches |
| `Multipart.FirstSelectable` | api/detect.py:29-35 | the chosen index is the first piece that passes the attribute test and has a match; None means no piece does |
| `Multipart.DecodeSpan` | api/detect.py:34 | decoding the group of a selected piece yields its text or raises; it never yields None |
| `Multipart.Parts` | api/detect.py:26 | the pieces scanned are the split of the body on the delimiter, and they join back into the body |
| `Multipart.Extract` | api/detect.py:21-37 | the specification of the extractor; `Multipart.MissingIffNothingSelectable`, `Multipart.FirstMatchWins`, `Multipart.FoundContentBounds` and `Multipart.FoundIsNonEmpty` state its result, and `Multipart.ParseMultipartBody` is proved to compute it |
| `Multipart.ParseMultipartBody` | api/detect.py:21-37 | the loop with its early exit returns exactly the first-match result `Extract` specifies (text, None, or the decode failure) |
| `Multipart.MissingIffNothingSelectable` | api/detect.py:27-37 | the result is None exactly when no piece passes the attribute test with a match |
| `Multipart.MissingWithoutFilePart` | api/detect.py:29-30 | with no piece holding `Content-Type: text/csv` or `filename=`, the result is None |
| `Multipart.FirstMatchWins` | api/detect.py:29-35 | the earliest selectable piece decides the result, even when earlier file pieces lacked content |
| `Multipart.FoundContentBounds` | api/detect.py:32-34 | returned text comes from a file piece with no selectable piece before it; it is the decoding of a non-empty span that starts right after the piece's first `\r\n\r\n` and ends at the first lookahead position after its first byte |
| `Multipart.FoundIsNonEmpty` | api/detect.py:32-34 | returned text is never empty |
| `Multipart.SpanKeepsCarriageReturn` | api/detect.py:26-32 | for a piece of the form headers, blank line, content, CRLF, the span is the content followed by the CR |
| `Handler.ContentType` | api/detect.py:55 | the `content-type` header, defaulting to the empty string; `Handler.MissingContentTypeRejected` proves a missing header is handled as a non-multipart request |
| `Handler.Boundary` | api/detect.py:59 | the boundary is a tail of the content type that contains no `boundary=` |
| `Handler.BoundaryFollowsLastKey` | api/detect.py:59 | the boundary is the untrimmed text after the last `boundary=`, or the whole content type when `boundary=` does not occur |
| `Handler.BackendMissingAlwaysFails` | api/detect.py:43-47 | without the backend, every request of any method gets 500 with the "Backend modules not available…" detail |
| `Handler.GetIsHealthCheck` | api/detect.py:108-113 | `GET` gets 200, the JSON header and the fixed health payload, whatever the headers and body |
| `Handler.OtherVerbsNotAllowed` | api/detect.py:115-119 | any method other than `GET` and `POST` gets 405 "Method not allowed" |
| `Handler.NonMultipartPostRejected` | api/detect.py:55-100 | a `POST` whose content type does not contain `multipart/form-data` gets 400 "Content-Type must be multipart/form-data" |
| `Handler.MissingContentTypeRejected` | api/detect.py:55 | a `POST` without a content-type header uses the default `''` and gets the same 400 |
| `Handler.NoFileIffMissing` | api/detect.py:60-66 | on a multipart `POST`, the reply is 400 "No file found in request" exactly when the extractor returns None |
| `Handler.UndecodableIsUnexpectedError` | api/detect.py:102-106 | a UTF-8 decode failure surfaces as 500 "Unexpected error", exactly when the extractor raises, and never as "no file" |
| `Handler.MultipartPostHandlesExtraction` | api/detect.py:57-62 | a multipart `POST` is answered from the extractor's outcome on the boundary taken from its content type, and extracted text is never empty, so only None reaches the no-file reply |
| `Handler.CsvValueErrorIsBadRequest` | api/detect.py:69-75 | a `ValueError` from the parser gets 400 carrying "CSV parsing error: " and its message |
| `Handler.CsvOtherErrorIsUnexpected` | api/detect.py:69-106 | any other `Exception` from the parser escapes to the outer `except Exception` and gets 500 "Unexpected error: " with its message |
| `Handler.NoRecordsIsBadRequest` | api/detect.py:77-81 | an empty record list gets 400 "No transactions found in CSV" |
| `Handler.DetectionOutcomeIsReported` | api/detect.py:83-95 | an `Exception` from detection or serialisation gets 500 "Detection error: " with its message; a success gets 200 with the JSON header and the result |
| `Handler.ReportIffSuccess` | api/detect.py:49-95 | a result is returned exactly when the backend is there, the request is a multipart `POST`, a file was extracted, it parsed to at least one record and detection succeeded |
| `Handler.Handle` | api/detect.py:40-119 | every request gets one envelope: status 200 exactly for a non-detail body, the JSON header there, and otherwise no headers and the status `Handler.StatusOf` gives the detail's kind (400, 405 or 500, as at lines 44-118); the health payload exactly for `GET` with the backend present |
| `Handler.HandlePost` | api/detect.py:49-106 | the `POST` branch answers 200, 400 or 500 in the same uniform shape, never the health payload, and a result only for a multipart content type |
| `Handler.HandleExtraction` | api/detect.py:60-106 | after extraction the same uniform shape with status 200, 400 or 500, never the health payload, and a result only when a file was extracted |
| `Handler.Text` | api/detect.py:46-118 | the definition of the detail texts; the lemmas that tie each message to its envelope state them: `Handler.BackendMissingAlwaysFails`, `Handler.OtherVerbsNotAllowed`, `Handler.NonMultipartPostRejected`, `Handler.NoFileIffMissing`, `Handler.CsvValueErrorIsBadRequest`, `Handler.CsvOtherErrorIsUnexpected`, `Handler.NoRecordsIsBadRequest` and `Handler.DetectionOutcomeIsReported` |

## Left out

- The import wiring (`sys.path` and the conditional imports, lines 5-18) is not modelled. `BACKEND_AVAILABLE` is the parameter `backendAvailable`.
- The unused `parse_qs` import is not modelled.
- The internals of `parse_csv` and `run_detection` are not part of this model. They are function parameters that return a typed outcome.
- `json.dumps` and `result.model_dump()` are not modelled. The body is a datatype, and a failure to serialise the result counts as a detection failure, since it is caught by the same `except` (lines 91-95).
- Handler.Text: for a UTF-8 decode failure the model keeps only the fixed opening words of CPython's exception text. The byte, position and reason that CPython adds are not modelled. The offset is kept in the `DecodeFault` value instead.
- `request.headers` is a plain map with an exact, case-sensitive `content-type` key. A header dictionary that ignores case is not modelled.
- `request.body` is always bytes. A request with no `body` attribute fails at line 52, and a `None` or `str` body fails at line 26 on the multipart path. Both give the 500. Neither case is modelled, and neither are other bytes-like bodies.
- Python strings holding lone surrogates, for which `boundary.encode()` would raise, cannot occur: a Dafny `char` is a Unicode scalar value.
- The Vercel runtime, the HTTP transport and concurrency are not modelled.
