# Document OCR handler: verified model of its string and buffer logic

The handler runs once for each document stored in a bucket. It reads the
object and sends its bytes to a remote document processor, which extracts
the text. It then writes that text back to the same bucket under a key
derived from the source key. Almost everything it does is I/O. This project
models, in Dafny, the few pure decisions it makes:

- **MIME-type resolution** (`determineMimeType`). The handler takes the
  text after the last `.` of the object key, or the whole key when there is
  no dot. It lower-cases that text and looks it up in a fixed table:
  pdf, tiff/tif, jpg/jpeg, png, bmp and gif. Anything else gives
  `application/octet-stream`.
- **Output-key derivation**. The handler removes a final extension matched
  by the regular expression `/\.[^/.]+$/`. It then writes the text to
  `processed_text/` + stem + `.txt`.
- **Processor name**. The template
  `projects/{projectId}/locations/{location}/processors/{processorId}`
  is filled from three configuration values. A value that is not set is
  rendered as the text `undefined`.
- **Chunk concatenation** (`streamToBuffer`). The chunks of the object body
  are joined, in arrival order, into one buffer.
- **The handler's sequence** (`Handle`). It covers fetch, request
  construction, extraction and write. Storage and the extraction service
  are parameters, and the first failure aborts the invocation.

Modules: `Wrappers` (Option and Result), `Text` (one-character split and
join, last segment, ASCII lower-casing), `MimeType`, `OutputKey`,
`Processor`, `Chunks` and `Handler`. Each operation is paired with an
independent statement of what it computes:

- `Split` is paired with `Join`, with round trips both ways.
- `LastSegment` is paired with the suffix predicate `IsLastSegment`, which
  has at most one solution.
- The `if` chain of the resolver is paired with the map `Table`.
- `StripExtension` is paired with the regex predicate `MatchAt`, which
  matches in at most one place.
- `ProcessorName` is paired with the parser `ParseProcessorName`.
- `Concat` is paired with the layout predicate `PlacesChunks`, which only
  the concatenation satisfies.
- `BuildRequest`'s content is stated through that same layout predicate.
  Its name is stated through the processor-name template, and its type
  through the resolver.

## Model

| member | source | states |
|---|---|---|
| Text.Split | index.js:64 | `split` always yields at least one piece, and no piece contains the separator |
| Text.JoinSplit | index.js:64 | Splitting a key at `.` loses nothing: joining the pieces with `.` gives back the key |
| Text.SplitJoin | index.js:64 | Splitting a join of separator-free pieces gives back exactly those pieces |
| Text.SplitFree | index.js:64 | A key without a dot splits into the single piece that is the whole key |
| Text.SplitAppend | index.js:64 | A separator followed by a separator-free tail adds exactly that tail as the last piece |
| Text.LastSegment | index.js:64 | `split('.').pop()` is the dot-free suffix that starts the key or follows its last dot |
| Text.LastPieceIsLastSegment | index.js:64 | The last piece of the split satisfies the last-segment predicate |
| Text.LastSegmentUnique | index.js:64 | At most one string is the last segment of a key |
| Text.LastSegmentAfterSep | index.js:64 | For any prefix `p` and dot-free `e`, the last segment of `p.e` is `e` |
| Text.LastSegmentOfFree | index.js:64 | A dot-free key is its own last segment |
| Text.ToLowerAscii | index.js:64 | Lower-casing keeps the length and leaves no upper-case ASCII letter |
| Text.LowerCharFixesNonLetters | index.js:64 | Lower-casing never creates or removes a `.` or `/`, so segment boundaries are unchanged |
| Text.ToLowerIdempotent | index.js:64 | Lower-casing twice is the same as lower-casing once |
| Text.LastSegmentToLower | index.js:64 | Lower-casing the key and then taking the last segment is the same as the reverse order |
| MimeType.Extension | index.js:64 | The looked-up extension is the lower-cased text after the last dot of the key, or the whole key when it has no dot. It therefore contains no dot and no upper-case ASCII letter |
| MimeType.TypeOfExtension | index.js:65-82 | The `switch` agrees with the table: each of the eight extensions gives its mapped type, and every other string gives `application/octet-stream` |
| MimeType.DetermineMimeType | index.js:63-83 | The resolver is total and always returns one of the seven types; it returns `application/octet-stream` exactly when the lower-cased last segment is not in the table |
| MimeType.MimeOfLastSegment | index.js:63-83 | Any key whose last dot-segment lower-cases to a table entry gets that entry's type; any other key gets the default |
| MimeType.MimeIgnoresPrefix | index.js:64 | For any prefix `p` and dot-free `e`, the type of `p.e` is the type of `e` |
| MimeType.MimeCaseInsensitive | index.js:64-79 | Keys that are equal up to ASCII case resolve to the same type |
| MimeType.TrailingDotIsOctetStream | index.js:80-82 | A key ending in a dot has an empty segment and resolves to `application/octet-stream` |
| MimeType.BarePdfExample | index.js:64-67 | The dot-free key `pdf` resolves to `application/pdf` |
| MimeType.UpperCaseExample | index.js:64-67 | `X.PDF` resolves to `application/pdf` |
| MimeType.DottedDirectoryExample | index.js:64 | The segment of `dir.v2/file` is `v2/file`, which resolves to the default |
| MimeType.InvoiceExample | index.js:63-67 | `invoice.pdf` resolves to `application/pdf` |
| OutputKey.MatchAt | index.js:52 | The regex `/\.[^/.]+$/` matches at index `i`: a dot at `i`, then one or more characters up to the end of the key, none of them a dot or a slash |
| OutputKey.MatchUnique | index.js:52 | The extension regex matches a key in at most one place, so the first match is the only one |
| OutputKey.LastBoundary | index.js:52 | Finds the last `.` or `/` of the key, or reports that the key has neither |
| OutputKey.MatchStart | index.js:52 | Finds where the regex matches and that no earlier position matches, or reports that nowhere matches |
| OutputKey.StripExtension | index.js:52 | `replace(/\.[^/.]+$/, '')` returns a prefix of the key; it is shorter exactly when the regex matches, and then it ends where the match begins |
| OutputKey.StripAt | index.js:52 | Where the regex matches at `i`, the stem is the first `i` characters of the key |
| OutputKey.StripNoDot | index.js:52 | A key without a dot is kept whole |
| OutputKey.RemovesOneExtension | index.js:52 | The key is the stem followed by either nothing or one dot and a non-empty run without dots or slashes, so at most one extension is removed |
| OutputKey.StripAgreesWithLastSegment | index.js:52 | The key loses an extension exactly when it has a dot and its MIME segment is non-empty and slash-free; the key is then the stem, a dot and that segment |
| OutputKey.DeriveOutputKey | index.js:52 | Every output key starts with `processed_text/` and ends with `.txt`, with the stem of the source key between them |
| OutputKey.DirectoryKeptExample | index.js:52 | `a/b.pdf` gives `processed_text/a/b.txt` |
| OutputKey.LastExtensionOnlyExample | index.js:52 | `a.b.pdf` gives `processed_text/a.b.txt` |
| OutputKey.HiddenFileExample | index.js:52 | `.hidden` gives `processed_text/.txt` |
| OutputKey.TrailingDotExample | index.js:52 | `file.` is not stripped and gives `processed_text/file..txt` |
| OutputKey.DottedDirectoryExample | index.js:52 | `dir.v2/file` is not stripped and gives `processed_text/dir.v2/file.txt` |
| OutputKey.NoExtensionExample | index.js:52 | `noext` gives `processed_text/noext.txt` |
| OutputKey.OutputKeysCollide | index.js:52 | `report`, `report.pdf` and `report.png` all map to the same output key |
| OutputKey.OutputKeyDiffers | index.js:50-52 | The text is never written over the document it came from: no source key is its own output key |
| OutputKey.InvoiceExample | index.js:52 | `invoice.pdf` gives `processed_text/invoice.txt` |
| Processor.Interpolate | index.js:33 | A template literal renders a set value as itself and an unset value as the text `undefined` |
| Processor.ProcessorName | index.js:33 | The name is the six parts `projects`, id, `locations`, location, `processors`, id joined by `/`; with slash-free components, splitting at `/` gives those parts back |
| Processor.JoinSixParts | index.js:33 | Joining the six name parts puts one `/` between each neighbouring pair |
| Processor.ParseProcessorNameRoundTrip | index.js:33 | Parsing the name of a slash-free identity gives back that identity |
| Processor.ProcessorNameOfParse | index.js:33 | Any name that parses is the template's output for the identity it parses to |
| Processor.ProcessorNameInjective | index.js:33 | Distinct slash-free identities never share a processor name |
| Processor.ProcessorNameFromConfig | index.js:12-33 | Unset configuration values are not rejected. Each is rendered as `undefined`, and the name is the template's output for the rendered values, whatever they contain. When no rendered value contains a `/`, the name parses back to those values |
| Processor.ProcessorNameExample | index.js:33 | `p`, `us`, `proc` give `projects/p/locations/us/processors/proc` |
| Processor.MissingConfigExample | index.js:33 | With nothing configured, the name is `projects/undefined/locations/undefined/processors/undefined` |
| Chunks.Concat | index.js:91 | The buffer's length is the sum of the chunk lengths |
| Chunks.ConcatSlices | index.js:87-91 | Each chunk appears unchanged as the contiguous slice at its cumulative offset |
| Chunks.ConcatIsLayout | index.js:87-91 | A buffer is the concatenation exactly when it has the total length and holds every chunk at its offset |
| Chunks.LayoutDeterminesBuffer | index.js:87-91 | Only the concatenation has the total length and holds every chunk at its offset |
| Chunks.ConcatAppend | index.js:91 | Concatenating two lists of chunks one after the other is the same as concatenating their joined list |
| Chunks.ConcatSingle | index.js:91 | A single chunk is its own concatenation |
| Chunks.ConcatSplitChunk | index.js:87-91 | Cutting a chunk in two anywhere leaves the buffer unchanged |
| Chunks.StreamToBuffer | index.js:86-92 | Appending the chunks in arrival order builds the concatenation |
| Chunks.ConcatExample | index.js:91 | Chunks `ab` and `cd` give `abcd` |
| Handler.BuildRequest | index.js:30-45 | The request carries the configured processor name and the MIME type resolved from the key. Its content has the body's total length and holds every chunk, unchanged and in order, at its offset |
| Handler.Written | index.js:50-55 | The object written is plain text in the bucket the document came from, holding the extracted text, under a key that starts with `processed_text/`, ends with `.txt`, and is never the source key itself |
| Handler.Handle | index.js:24-59 | The object read is the one named by the invocation's bucket and key. From the read onwards, an invocation succeeds exactly when the read, the extraction and the write succeed. Otherwise it fails with the error of the first step that failed, and no later step runs. On success, the extracted text is written as `text/plain` to the same bucket under the derived key, with status 200 |
| Handler.InvoiceExample | index.js:24-59 | `invoice.pdf` in bucket `docs` is sent as a PDF, and the text `Hello` goes to `processed_text/invoice.txt` in `docs` |
| Handler.FetchFailureExample | index.js:24-27 | When the read fails, the invocation fails with that error, whatever the services would do |

## Behaviour to note

- Directory segments stay in the output key (index.js:52). Only a final
  extension is removed, so `a/b.pdf` gives `processed_text/a/b.txt`.
- Unset identity values are not rejected. The template at index.js:33
  interpolates them as the text `undefined`
  (`Processor.ProcessorNameFromConfig`).
- The resolver and the key regex use different notions of "extension".
  The resolver (index.js:64) takes whatever follows the last dot, even if
  that text contains a `/` or is empty. The key regex (index.js:52) removes
  only a non-empty, slash-free final extension.
  `OutputKey.StripAgreesWithLastSegment` states exactly when the two agree.
- Different source keys can produce the same output key, so one document's
  text can overwrite another's (`OutputKey.OutputKeysCollide`).

## Left out

- The S3 client and the `GetObjectCommand` and `PutObjectCommand` calls
  (index.js:5, 24-27, 56) are network I/O. In `Handler.Handle`, the read is a
  function from bucket and key to the object's chunks, and the write is a
  function from the object to be written to its outcome.
- The document-processor client and `processDocument` (index.js:19-21,
  46-47) are a remote service. The extraction is a function parameter that
  returns the text or an error.
- Reading environment variables and `JSON.parse` of the credentials
  (index.js:12-16) belong to the process and a library parser. The three
  identity values enter as a `Config` of optional strings, and the
  credentials are not modelled.
- The `for await` iteration over the stream and the `Buffer.from`
  normalisation of chunk types (index.js:88-89) are asynchronous runtime and
  Node buffer behaviour. The chunks enter as a finished sequence of byte
  sequences.
- Base64 encoding of the content (index.js:30) is a library call. The
  request carries the raw bytes.
- Reading event records, logging, and the JSON text of the reply
  (index.js:9-10, 58-59) are plumbing. The reply is modelled as status
  200 and the written object.
- Handler.Handle: does not model the two failures that happen before the
  read. Reading `Records[0]` of an event without records throws
  (index.js:9-10). `JSON.parse` of unset or malformed credentials also
  throws (index.js:16). In the model, the invocation starts from a given
  bucket and key, and the credentials are not an input.
- Handler.Handle: the extracted text is a string. The case where the
  service's response has no text field, and the handler writes `undefined`,
  is not modelled.
- Text.ToLowerAscii: lower-cases ASCII letters only, while `toLowerCase`
  lower-cases all of Unicode. The resolver's result does not change. The
  only non-ASCII character whose lower case is ASCII is the Kelvin sign,
  which becomes `k`, and no table entry contains a `k`.
- Characters are Unicode scalar values, while JavaScript strings are
  sequences of UTF-16 code units. None of the modelled rules depends on the
  difference, because every character they inspect (`.`, `/`, ASCII letters)
  is a single code unit.
- The URL-encoding that S3 notifications apply to object keys is outside
  the handler's code and is not modelled.
