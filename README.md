# MirrorAceNet client core, in Dafny

MirrorAceNet is a small C# client for the MirrorAce file-hosting API. A `MirrorAceApi`
object holds an API key, an API token and a retry budget (`RequestRetires`). It negotiates
upload variables (`file/upload`), looks up files by slug (`file/info`), asks the server to
fetch a remote URL, and uploads a local file in chunks. Every chunk carries a
`Content-Range` value, and the server's JSON envelope (`status`, `result`) decides whether
the next chunk goes out. Every request goes through one retrying executor (`MakeRequest`).

This project models that core and proves what it does:

- `Retry`: the executor as a specification over a transport oracle. The oracle maps the
  number of a send to its outcome: an `HttpRequestException`, another exception, or a
  response. A caller starts at cursor `start` and gets back the cursor `next`. The module
  also holds the clamping `RequestRetires` setter.
- `Chunking`: the chunk count and the byte range of every chunk. It proves bounds,
  contiguity, disjointness and reassembly, and characterises the strict last-chunk flag.
- `ContentRange`: the code's `bytes {start}-{end}/{total}` value, with an exclusive end,
  and a parser that reads it back.
- `Requests`: the form-encoded API requests and the multipart upload bodies, as values.
- `ResponseJson`, `Helpers`: the decoded reply envelope, `ResponseHasError` and the
  error-text extraction.
- `Upload`: the chunked upload driver as a recursive specification, `UploadSpec`, and
  lemmas about when it continues, aborts or completes.
- `Api`: the class `MirrorAceApi`. Its methods are imperative (loops, a fresh array per
  chunk, early returns) and are proved equal to the specifications above.

`MirrorAceApi.cs:159` tests `(i+1)*c > len` strictly; the model follows the code. So for a
file whose length is a positive multiple of the chunk size no chunk is flagged last, and
the final chunk's `Content-Range` (`bytes {len-c}-{len}/{len}`, an end equal to the total)
goes through the validating `Headers.Add` of line 181. The model takes that validation to
be the range check of section 14.4 of RFC 9110 (first <= last < complete length), which
refuses this value. The call therefore throws before the final chunk is sent, even when
every earlier reply says "continue", and it never returns a completion payload
(`Upload.ExactMultipleNeverCompletes`, `Upload.ExactMultipleAllContinue`,
`Upload.RejectionOnlyAtFinalChunk`).

## Model

| member | source | states |
|---|---|---|
| Retry.ClampRetries | MirrorAceNet/MirrorAceApi.cs:39-51 | the stored retry count is always in [1, 5]; values in range are kept, any other value becomes 3 |
| Api.MirrorAceApi.constructor | MirrorAceNet/MirrorAceApi.cs:58-63 | a new client keeps the key and token it is given, and its retry budget starts at 3, the field initialiser of line 34 (so the class invariant holds) |
| Api.MirrorAceApi.SetRequestRetries | MirrorAceNet/MirrorAceApi.cs:39-51 | the setter stores the clamped value and keeps the budget in [1, 5] |
| Retry.Execute | MirrorAceNet/MirrorAceApi.cs:260-289 | the executor makes at most `attempts` sends, and at least one when the budget is positive |
| Retry.ExecuteNoResponse | MirrorAceNet/MirrorAceApi.cs:262-288 | null comes back exactly when every send in the budget failed with an `HttpRequestException` or a non-success status, and then the whole budget was used |
| Retry.ExecuteStopsAtFirstDecisive | MirrorAceNet/MirrorAceApi.cs:266-281 | otherwise the executor stops at the first send that is not retried: a success response is returned as is, and any other exception escapes with its message |
| Retry.IsSuccess | MirrorAceNet/MirrorAceApi.cs:278 | `IsSuccessStatusCode`: the status code lies in 200..299 |
| Retry.FailedAttempts | MirrorAceNet/MirrorAceApi.cs:270-285 | the failed attempts of an execution: every send but the deciding one, or all of them when the budget ran out |
| Api.MirrorAceApi.MakeRequest | MirrorAceNet/MirrorAceApi.cs:260-289 | the loop computes exactly `Execute` with the client's budget; at most `RequestRetires` sends; one clone after every failed attempt, the last included, and `RequestRetryDelay` (3000 ms) of waiting per clone |
| Chunking.RangeStart | MirrorAceNet/MirrorAceApi.cs:156 | chunk i starts at i * c |
| Chunking.IsLastChunk | MirrorAceNet/MirrorAceApi.cs:157-159 | a chunk is flagged last when its full-size end (i+1) * c lies strictly past the length |
| Chunking.RangeEnd | MirrorAceNet/MirrorAceApi.cs:157-164 | chunk i ends at (i+1) * c, or at the length when it is flagged last |
| Chunking.ExactChunkCount | MirrorAceNet/MirrorAceApi.cs:152 | a length that is a multiple of c splits into exactly len / c chunks |
| Chunking.ChunkCount | MirrorAceNet/MirrorAceApi.cs:152 | the number of chunks is the ceiling of len / c: enough chunks to cover the file, none of them empty, and none for an empty file |
| Chunking.ChunkBounds | MirrorAceNet/MirrorAceApi.cs:156-166 | chunk i is [i*c, min((i+1)*c, len)): non-empty, inside the file, at most c bytes, exactly c bytes unless flagged last, and a last-flagged chunk ends at the file length |
| Chunking.ChunksContiguous | MirrorAceNet/MirrorAceApi.cs:156-164 | every chunk but the final one is not flagged last and ends where the next one starts |
| Chunking.ChunksDisjoint | MirrorAceNet/MirrorAceApi.cs:156-164 | two different chunks do not overlap |
| Chunking.FinalChunkEndsFile | MirrorAceNet/MirrorAceApi.cs:154-164 | the final chunk of a non-empty file ends at the file length |
| Chunking.ChunkOfByte | MirrorAceNet/MirrorAceApi.cs:154-164 | every byte of the file lies in chunk p / c |
| Chunking.LastFlag | MirrorAceNet/MirrorAceApi.cs:159 | a chunk is flagged last iff it is the final chunk and the length is not a multiple of c |
| Chunking.ChunkBytes | MirrorAceNet/MirrorAceApi.cs:166-170 | the bytes of a chunk are a non-empty slice of at most c bytes |
| Chunking.ConcatenatedSuffix | MirrorAceNet/MirrorAceApi.cs:154-170 | the chunks from i on, laid end to end, are the file from chunk i's start |
| Chunking.Reassembled | MirrorAceNet/MirrorAceApi.cs:154-170 | all the chunks laid end to end are the whole file |
| ContentRange.Decimal | MirrorAceNet/MirrorAceApi.cs:173 | a number is written as non-empty decimal digits, with no leading zero except for 0 itself |
| ContentRange.DecimalRoundTrip | MirrorAceNet/MirrorAceApi.cs:173 | reading back a written number gives the number |
| ContentRange.SplitOn | MirrorAceNet/MirrorAceApi.cs:173 | splitting at the first separator gives a prefix without it, and fails only when the separator is absent |
| ContentRange.SplitOnFirst | MirrorAceNet/MirrorAceApi.cs:173 | a separator-free prefix followed by the separator splits back into its two parts |
| ContentRange.ContentRangeValue | MirrorAceNet/MirrorAceApi.cs:173 | the value `bytes {start}-{end}/{total}`, numbers in decimal (`ContentRangeRoundTrip` states that it determines them) |
| ContentRange.Validates | MirrorAceNet/MirrorAceApi.cs:181 | what the validating `Add` accepts: a value that reads as a range with first <= last < complete length |
| ContentRange.ValidatesIff | MirrorAceNet/MirrorAceApi.cs:173-181 | a value the driver writes passes validation exactly when start <= end < total, so an exclusive end equal to the total is refused |
| ContentRange.ContentRangeRoundTrip | MirrorAceNet/MirrorAceApi.cs:173 | the `bytes {start}-{end}/{total}` value reads back as its start, exclusive end and total |
| Api.BlockCopy | MirrorAceNet/MirrorAceApi.cs:170 | the destination range receives exactly the source slice, and every other byte is unchanged |
| Requests.FormRequest | MirrorAceNet/MirrorAceApi.cs:291-316 | the form request: a POST to the API base plus the path, whose fields are key, token, then the extra fields in order |
| Requests.JoinComma | MirrorAceNet/MirrorAceApi.cs:100 | `string.Join(',', slugs)`: the slugs separated by commas |
| Api.MirrorAceApi.CreateRequest | MirrorAceNet/MirrorAceApi.cs:291-316 | a POST to the API base plus the path, with key, token, then the extra fields in order; the keys stay distinct, as the dictionary requires |
| Requests.IsWhiteSpace | MirrorAceNet/MirrorAceApi.cs:370 | the Unicode white-space characters `char.IsWhiteSpace` recognises |
| Requests.IsNullOrWhiteSpace | MirrorAceNet/MirrorAceApi.cs:370 | a password is blank when it is null or every character is white space |
| Requests.BaseUploadParts | MirrorAceNet/MirrorAceApi.cs:349-381 | the upload body: key, token, tracker and upload key ("" when null), the password unless blank, then one `mirrors[]` part per mirror, in that order (`BaseUploadFields` states what the server reads from it) |
| Api.MirrorAceApi.CreateBaseUploadContent | MirrorAceNet/MirrorAceApi.cs:349-381 | the parts are key, token, tracker and upload key ("" when null), the password unless it is null or white space, then one `mirrors[]` part per mirror |
| Requests.ValuesOfAppend | MirrorAceNet/MirrorAceApi.cs:349-381 | the values of a field in two bodies laid end to end are the values in each, in order |
| Requests.ValuesOfMirrors | MirrorAceNet/MirrorAceApi.cs:375-378 | the mirror parts carry exactly the caller's mirrors, in order, under `mirrors[]` and nothing else |
| Requests.BaseUploadValues | MirrorAceNet/MirrorAceApi.cs:349-381 | the values of any field of an upload body, taken part by part |
| Requests.BaseUploadFields | MirrorAceNet/MirrorAceApi.cs:349-381 | the server reads one key, one token, the tracker and upload key ("" when null), the password only when set, and the mirrors in the caller's order |
| Requests.FileUploadRequest | MirrorAceNet/MirrorAceApi.cs:318-332 | the chunk request: a POST to the file server with the upload body, then the chunk bytes under `files[]` with the file name |
| Requests.FileUploadFields | MirrorAceNet/MirrorAceApi.cs:318-332 | its text fields are exactly those of the upload body; the chunk adds none |
| Requests.RemoteUploadRequest | MirrorAceNet/MirrorAceApi.cs:334-347 | the remote request: a POST to the remote server with the upload body, then the URL under `url` |
| Requests.RemoteUploadFields | MirrorAceNet/MirrorAceApi.cs:334-347 | its text fields are those of the upload body plus one `url` value |
| Api.MirrorAceApi.CreateFileUploadRequest | MirrorAceNet/MirrorAceApi.cs:318-332 | a POST to the file server with the upload body, then the chunk bytes under `files[]` with the file name |
| Api.MirrorAceApi.CreateRemoteFileUploadRequest | MirrorAceNet/MirrorAceApi.cs:334-347 | a POST to the remote server with the upload body, then the URL under `url` |
| Helpers.ResponseHasError | MirrorAceNet/Helpers/MirrorAceApiHelpers.cs:8 | no error exactly when there is a reply and its status is the string "success" (an exact comparison); a missing reply, a missing status or a null status is an error |
| Helpers.ErrorText | MirrorAceNet/Helpers/MirrorAceApiHelpers.cs:11 | the error text is the `result` string, or "" when the result is absent or null |
| ResponseJson.Deserialize | MirrorAceNet/MirrorAceApi.cs:85 | a decoded reply deserialises to its status text (null when missing or null) and its payload (null unless the result is an object) |
| ResponseJson.DeserializeChunk | MirrorAceNet/MirrorAceApi.cs:213-215 | a chunk reply read as `UploadResponseChunkResult`: name, size and info of the payload |
| ResponseJson.DeserializeComplete | MirrorAceNet/MirrorAceApi.cs:205-207 | a chunk or remote reply read as `UploadResponseCompleteResult` (also line 257): name, size, slug, url and info of the payload |
| Api.MirrorAceApi.GetUploadVariablesAsync | MirrorAceNet/MirrorAceApi.cs:69-91 | sends `file/upload`; null when the executor gave up or the status is an error, otherwise the deserialised reply with status "success"; an escaping exception propagates |
| Api.MirrorAceApi.GetFileInfoAsync | MirrorAceNet/MirrorAceApi.cs:98-127 | sends `file/info` with the slugs joined by commas; the same null-on-error rule |
| Api.MirrorAceApi.RemoteUploadAsync | MirrorAceNet/MirrorAceApi.cs:240-258 | null only when the executor gave up; any delivered reply is deserialised as the completion result, error status or not |
| Upload.ChunkRangeValue | MirrorAceNet/MirrorAceApi.cs:173 | chunk i's `Content-Range` value: its start, exclusive end and the file length |
| Upload.ChunkRequest | MirrorAceNet/MirrorAceApi.cs:156-182 | chunk i's request: the file upload request around the chunk's bytes, with its range value attached, validated unless the chunk is flagged last (`ChunkRequestContents` states its contents) |
| Upload.HeaderRejected | MirrorAceNet/MirrorAceApi.cs:175-182 | a chunk not flagged last whose range is one `Add` refuses |
| Upload.HeaderRejectedIff | MirrorAceNet/MirrorAceApi.cs:159-182 | that is the case exactly when `Add` does not validate the chunk's value, and exactly for the final chunk of a length that is a multiple of c, whose value is then `bytes {len-c}-{len}/{len}` |
| Upload.EndsAtTotal | MirrorAceNet/MirrorAceApi.cs:157-159 | a full-size chunk end reaches the total exactly for the final chunk of a length that is a multiple of c |
| Upload.Halts | MirrorAceNet/MirrorAceApi.cs:154-182 | the loop stops before sending chunk j when there is no such chunk or its header is refused |
| Upload.Unsent | MirrorAceNet/MirrorAceApi.cs:181-229 | it then returns null after the last chunk (line 229), or throws the refused header's `FormatException` |
| Upload.ChunkContinues | MirrorAceNet/MirrorAceApi.cs:217 | the deserialised chunk result exists and its info is "continue" |
| Upload.Proceeds | MirrorAceNet/MirrorAceApi.cs:187-219 | the loop goes on after a chunk only on a delivered reply with no error status, to a chunk not flagged last, whose info is "continue" |
| Upload.Stopped | MirrorAceNet/MirrorAceApi.cs:187-224 | otherwise it returns null when the executor gave up, on an error status or on any other info; the executor's escaping exception; or the completion payload for a chunk flagged last |
| Upload.UploadFrom | MirrorAceNet/MirrorAceApi.cs:154-229 | from chunk i on, the loop sends at most the remaining chunks, and sends nothing exactly when it halts at chunk i |
| Upload.UploadSpec | MirrorAceNet/MirrorAceApi.cs:138-230 | a file of `MaxFileSize` bytes or more raises FileTooLarge with the limit and the size before anything is sent; otherwise the loop runs from chunk 0 |
| Upload.UploadHalted | MirrorAceNet/MirrorAceApi.cs:175-182 | a turn whose header is refused ends the call with that header's exception, sending nothing |
| Upload.UploadStep | MirrorAceNet/MirrorAceApi.cs:187-224 | one turn of the loop either goes on to the next chunk or ends as `Stopped` says |
| Upload.ChunkRequestsInOrder | MirrorAceNet/MirrorAceApi.cs:154-187 | those requests are chunk 0, chunk 1, ... in index order, never past the final chunk |
| Upload.ContinuesOnlyOnContinue | MirrorAceNet/MirrorAceApi.cs:187-224 | a chunk is followed by another only after a delivered, non-error reply to a chunk not flagged last whose info is "continue" |
| Upload.UploadEnding | MirrorAceNet/MirrorAceApi.cs:175-229 | the reply to the last chunk sent decides the outcome as `Stopped` says, unless the loop went on, in which case it halted at the next chunk and the outcome is `Unsent` |
| Upload.CompletionOnlyForLastChunk | MirrorAceNet/MirrorAceApi.cs:175-224 | a completion payload is returned only for a last-flagged chunk with a non-error reply, and it is that reply's result; a refused header is the one of the chunk after the last sent; any other exception escapes from the executor |
| Upload.RejectionOnlyAtFinalChunk | MirrorAceNet/MirrorAceApi.cs:159-182 | a refused header happens only for a length that is a multiple of c, after all the other chunks went out, with the value `bytes {len-c}-{len}/{len}` |
| Upload.ExactMultipleNeverCompletes | MirrorAceNet/MirrorAceApi.cs:159 | when the length is a multiple of the chunk size, no completion payload is ever returned |
| Upload.ContinueStep | MirrorAceNet/MirrorAceApi.cs:187-219 | when every first send succeeds with "continue", a chunk neither flagged last nor refused takes one send and the loop goes on |
| Upload.AllContinueFrom | MirrorAceNet/MirrorAceApi.cs:154-219 | then, for a length that is a multiple of c, every remaining chunk before the final one is sent once and the final chunk's header is refused |
| Upload.ExactMultipleAllContinue | MirrorAceNet/MirrorAceApi.cs:152-229 | so such a non-empty file sends len / c - 1 chunks and throws on the final chunk's header; an empty one sends nothing and returns null |
| Upload.EmptyFileSendsNothing | MirrorAceNet/MirrorAceApi.cs:152-154 | an empty file sends nothing and returns null |
| Upload.ChunkRequestContents | MirrorAceNet/MirrorAceApi.cs:156-182 | chunk i's request goes to the file server with the upload fields and the file slice; its `Content-Range` reads back as start, exclusive end and length, and is validated unless the chunk is flagged last |
| Api.MirrorAceApi.CreateChunkRequest | MirrorAceNet/MirrorAceApi.cs:156-182 | the loop body up to the send builds exactly chunk i's request and range value; its last flag is `Chunking.IsLastChunk`, and the header is refused exactly when `HeaderRejected` holds |
| Api.MirrorAceApi.UploadAsync | MirrorAceNet/MirrorAceApi.cs:138-230 | the method's outcome, replies and cursor are exactly `UploadSpec`: a file of `MaxFileSize` bytes or more raises FileTooLarge before any send; otherwise the chunks go out in index order, one request per reply |

## Left out

- HTTP, `Task.Delay` and async/await: a send is a lookup in the transport oracle, and the
  delays and clones after failed attempts are counted, not performed.
- The transport oracle answers by send number, whatever the request says; the requests
  themselves are recorded in ghost out-parameters.
- `CloneAsync` is not part of this model; a clone is the same request value.
- JSON parsing and deserialisation: replies arrive already decoded as an `Envelope`.
- Helpers.ResponseHasError: a `status` holding a non-string token (a number, an object) is
  not modelled; the library's conversion of such tokens is not part of this model.
- Helpers.ErrorText: a structured `result` yields "" here, where the JSON library throws.
- ResponseJson.Deserialize: a text `result` deserialises to a null result here, where the
  JSON library throws.
- Multipart and form-encoded serialisation are not modelled. Of header validation only the
  range check on `Content-Range` values is modelled (`ContentRange.Validates`); the
  header parser's other rules (spacing, `*` forms, number limits) are not, since the
  driver's values never exercise them.
- File-system access: the file arrives as its name and bytes. Files of 2 GiB or more,
  which cannot be read into one array and whose offsets do not fit the `int` casts, are
  excluded by a precondition of `Api.MirrorAceApi.UploadAsync`.
- Api.MirrorAceApi.UploadAsync: the chunk count is the integer ceiling of len / c with
  c > 0; the `double` division and `Math.Ceiling` are not modelled, and neither is a
  non-positive `MaxChunkSize`.
- Console output, including the error texts printed at lines 88, 124, 199 and 223 and the
  chunk size in megabytes (a floating-point value).
- Api.MirrorAceApi.CreateRequest: a repeated key in the extra parameters, where
  `Dictionary.Add` throws, is excluded by a precondition.
