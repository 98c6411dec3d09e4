/**
 * `MirrorAceApi`: the client object. Its one piece of mutable state is the retry budget;
 * its operations build requests, hand them to the retrying executor and interpret the
 * replies. The network is a transport oracle (see module Retry), the file system is
 * replaced by the file's name and bytes, and console output is not modelled.
 */
module Api {
  import opened Wrappers
  import opened ResponseJson
  import opened Helpers
  import opened Chunking
  import opened ContentRange
  import opened Requests
  import opened Retry
  import opened Upload

  /** The largest offset `Buffer.BlockCopy` takes (an `int`). */
  const Int32Max := 0x7FFF_FFFF

  /** `Buffer.BlockCopy` of `count` bytes from `src` into `dst` at `dstOffset`. */
  method BlockCopy(src: seq<bv8>, srcOffset: nat, dst: array<bv8>, dstOffset: nat, count: nat)
    requires srcOffset + count <= |src| && dstOffset + count <= dst.Length
    modifies dst
    ensures dst[dstOffset..dstOffset + count] == src[srcOffset..srcOffset + count]
    ensures forall j :: 0 <= j < dst.Length && !(dstOffset <= j < dstOffset + count) ==> dst[j] == old(dst[j])
  {
    for k := 0 to count
      invariant dst[dstOffset..dstOffset + k] == src[srcOffset..srcOffset + k]
      invariant forall j :: 0 <= j < dst.Length && !(dstOffset <= j < dstOffset + k) ==> dst[j] == old(dst[j])
    {
      dst[dstOffset + k] := src[srcOffset + k];
      assert dst[dstOffset..dstOffset + k + 1] == dst[dstOffset..dstOffset + k] + [src[srcOffset + k]];
      assert src[srcOffset..srcOffset + k + 1] == src[srcOffset..srcOffset + k] + [src[srcOffset + k]];
    }
  }

  class MirrorAceApi {
    const apiToken: string
    const apiKey: string
    var requestRetries: int

    /** The retry budget always lies in [1, 5]. */
    ghost predicate Valid()
      reads this
    {
      1 <= requestRetries <= 5
    }

    constructor (apiKey: string, apiToken: string)
      ensures Valid()
      ensures this.apiKey == apiKey && this.apiToken == apiToken
      ensures requestRetries == DefaultRetries
    {
      this.apiToken := apiToken;
      this.apiKey := apiKey;
      requestRetries := DefaultRetries;
    }

    /** The `RequestRetires` setter */
    method SetRequestRetries(value: int)
      modifies this
      ensures Valid()
      ensures requestRetries == ClampRetries(value)
    {
      var v := value;
      if v < 1 || v > 5 {
        v := DefaultRetries;
      }
      requestRetries := v;
    }

    /** Sends `request` until a success status, at most `requestRetries` times. Sends are
        numbered from `start`; `next` is the number of the first send not made. After every
        failed attempt the request is cloned (a copy, here) and the executor waits
        `RequestRetryDelay` milliseconds; `clones` counts the clones and `waited` the time
        spent waiting. The oracle answers by
        send number, whatever the request. */
    method MakeRequest<B>(request: Request, transport: nat -> SendOutcome<B>, start: nat)
      returns (result: ExecResult<B>, next: nat, clones: nat, waited: nat)
      requires Valid()
      ensures Execution(result, next) == Execute(transport, start, requestRetries)
      ensures start < next <= start + requestRetries
      ensures clones == FailedAttempts(Execution(result, next), start)
      ensures waited == clones * RequestRetryDelay
    {
      result, next, clones, waited := NoResponse, start, 0, 0;
      var i := 0;
      while i < requestRetries
        invariant 0 <= i <= requestRetries
        invariant next == start + i && clones == i && waited == i * RequestRetryDelay
        invariant Execute(transport, start, requestRetries) == Execute(transport, next, requestRetries - i)
      {
        var outcome := transport(next);
        next := next + 1;
        match outcome {
          case OtherException(m) =>
            result := Escaped(m);
            return;
          case RequestException(_) =>
            clones, waited := clones + 1, waited + RequestRetryDelay;
          case Responded(response) =>
            if IsSuccess(response) {
              result := Delivered(response);
              return;
            }
            clones, waited := clones + 1, waited + RequestRetryDelay;
        }
        i := i + 1;
      }
    }

    /** A form-encoded POST to `ApiBase + path` with the key, the token and then the extra
        fields in order. The fields form a dictionary, whose `Add` refuses a repeated key. */
    method CreateRequest(path: string, extraParameters: seq<(string, string)>) returns (request: Request)
      requires DistinctKeys([("api_key", apiKey), ("api_token", apiToken)] + extraParameters)
      ensures request == FormRequest(apiKey, apiToken, path, extraParameters)
      ensures DistinctKeys(request.content.fields)
    {
      var requestContent := [("api_key", apiKey), ("api_token", apiToken)];
      for k := 0 to |extraParameters|
        invariant requestContent == [("api_key", apiKey), ("api_token", apiToken)] + extraParameters[..k]
      {
        requestContent := requestContent + [extraParameters[k]];
      }
      assert extraParameters[..|extraParameters|] == extraParameters;
      request := Request(Some(ApiBase + path), FormUrlEncoded(requestContent), None);
    }

    method CreateBaseUploadContent(vars: UploadVariables, mirrors: seq<string>, password: Option<string>)
      returns (parts: seq<Part>)
      ensures parts == BaseUploadParts(apiKey, apiToken, vars, mirrors, password)
    {
      parts := [StringPart("api_key", apiKey), StringPart("api_token", apiToken),
                StringPart("cTracker", vars.cTracker.GetOr("")), StringPart("upload_key", vars.uploadKey.GetOr(""))];
      if !IsNullOrWhiteSpace(password) {
        parts := parts + [StringPart("file_password", password.value)];
      }
      ghost var fixed := parts;
      for k := 0 to |mirrors|
        invariant parts == fixed + MirrorParts(mirrors[..k])
      {
        assert MirrorParts(mirrors[..k + 1]) == MirrorParts(mirrors[..k]) + [StringPart("mirrors[]", mirrors[k])];
        parts := parts + [StringPart("mirrors[]", mirrors[k])];
      }
      assert mirrors[..|mirrors|] == mirrors;
    }

    method CreateFileUploadRequest(vars: UploadVariables, mirrors: seq<string>, chunkContents: seq<bv8>,
                                   fileName: string, password: Option<string>) returns (request: Request)
      ensures request == FileUploadRequest(apiKey, apiToken, vars, mirrors, chunkContents, fileName, password)
    {
      var multipartData := CreateBaseUploadContent(vars, mirrors, password);
      multipartData := multipartData + [BytesPart("files[]", fileName, chunkContents)];
      request := Request(vars.serverFile, Multipart(multipartData), None);
    }

    method CreateRemoteFileUploadRequest(vars: UploadVariables, mirrors: seq<string>, url: string,
                                         password: Option<string>) returns (request: Request)
      ensures request == RemoteUploadRequest(apiKey, apiToken, vars, mirrors, url, password)
    {
      var multipartData := CreateBaseUploadContent(vars, mirrors, password);
      multipartData := multipartData + [StringPart("url", url)];
      request := Request(vars.serverRemote, Multipart(multipartData), None);
    }

    /** Negotiates the upload variables (`file/upload` with no extra field). */
    method GetUploadVariablesAsync(transport: nat -> SendOutcome<Envelope<UploadVariables>>, start: nat)
      returns (outcome: Outcome<ResponseBase<UploadVariables>>, ghost request: Request, next: nat)
      requires Valid()
      ensures request == FormRequest(apiKey, apiToken, "file/upload", [])
      ensures var e := Execute(transport, start, requestRetries);
        next == e.next && CheckedReply(outcome, e.result)
    {
      var req := CreateRequest("file/upload", []);
      request := req;
      var result, after, clones, waited := MakeRequest(req, transport, start);
      next := after;
      match result {
        case NoResponse => outcome := Null;
        case Escaped(m) => outcome := Raised(Unhandled(m));
        case Delivered(response) =>
          if !ResponseHasError(Some(response.content)) {
            outcome := Value(Deserialize(response.content));
          } else {
            outcome := Null;
          }
      }
    }

    /** Looks up the given slugs (`file/info` with the slugs joined by commas). */
    method GetFileInfoAsync(fileSlugs: seq<string>, transport: nat -> SendOutcome<Envelope<map<string, FileInfo>>>,
                            start: nat)
      returns (outcome: Outcome<ResponseBase<map<string, FileInfo>>>, ghost request: Request, next: nat)
      requires Valid()
      ensures request == FormRequest(apiKey, apiToken, "file/info", [("files", JoinComma(fileSlugs))])
      ensures var e := Execute(transport, start, requestRetries);
        next == e.next && CheckedReply(outcome, e.result)
    {
      var fileSlugsSeparated := JoinComma(fileSlugs);
      var req := CreateRequest("file/info", [("files", fileSlugsSeparated)]);
      request := req;
      var result, after, clones, waited := MakeRequest(req, transport, start);
      next := after;
      match result {
        case NoResponse => outcome := Null;
        case Escaped(m) => outcome := Raised(Unhandled(m));
        case Delivered(response) =>
          if !ResponseHasError(Some(response.content)) {
            outcome := Value(Deserialize(response.content));
          } else {
            outcome := Null;
          }
      }
    }

    /** Asks the server to fetch `url` itself. Unlike the other calls it does not look at the
        reply's status: any delivered reply is deserialised as the completion result. */
    method RemoteUploadAsync(vars: UploadVariables, url: string, mirrors: seq<string>, password: Option<string>,
                             transport: nat -> SendOutcome<ChunkReply>, start: nat)
      returns (outcome: Outcome<ResponseBase<CompleteResult>>, ghost request: Request, next: nat)
      requires Valid()
      ensures request == RemoteUploadRequest(apiKey, apiToken, vars, mirrors, url, password)
      ensures var e := Execute(transport, start, requestRetries);
        && next == e.next
        && (outcome.Null? <==> e.result.NoResponse?)
        && (outcome.Value? <==> e.result.Delivered?)
        && (outcome.Value? ==> outcome.value == DeserializeComplete(e.result.response.content))
        && (outcome.Raised? <==> e.result.Escaped?)
        && (outcome.Raised? ==> outcome.error == Unhandled(e.result.message))
    {
      var req := CreateRemoteFileUploadRequest(vars, mirrors, url, password);
      request := req;
      var result, after, clones, waited := MakeRequest(req, transport, start);
      next := after;
      match result {
        case NoResponse => outcome := Null;
        case Escaped(m) => outcome := Raised(Unhandled(m));
        case Delivered(response) => outcome := Value(DeserializeComplete(response.content));
      }
    }

    /** The body of the upload loop up to the send: chunk i's range, a fresh array filled
        from the file, the upload request around it and its `Content-Range`, attached without
        validation to a chunk flagged last and through the validating `Add` otherwise.
        `accepted` is false when `Add` refuses the value and throws. */
    method CreateChunkRequest(vars: UploadVariables, fileName: string, file: seq<bv8>, mirrors: seq<string>,
                              password: Option<string>, i: nat)
      returns (request: Request, isLastChunk: bool, rangeValue: string, accepted: bool)
      requires Valid()
      requires 0 < vars.maxChunkSize && i < ChunkCount(|file|, vars.maxChunkSize)
      ensures isLastChunk == IsLastChunk(|file|, vars.maxChunkSize, i)
      ensures rangeValue
           == ChunkRangeValue(UploadJob(apiKey, apiToken, requestRetries as nat, vars, fileName, file, mirrors, password), i)
      ensures request
           == ChunkRequest(UploadJob(apiKey, apiToken, requestRetries as nat, vars, fileName, file, mirrors, password), i)
      ensures accepted
          <==> !HeaderRejected(UploadJob(apiKey, apiToken, requestRetries as nat, vars, fileName, file, mirrors, password), i)
    {
      ghost var job := UploadJob(apiKey, apiToken, requestRetries as nat, vars, fileName, file, mirrors, password);
      var uploadFileLength := |file|;
      ChunkBounds(uploadFileLength, vars.maxChunkSize, i);
      var rangeStart := i * vars.maxChunkSize;
      var rangeEnd := (i + 1) * vars.maxChunkSize;
      isLastChunk := rangeEnd > uploadFileLength;
      if isLastChunk {
        rangeEnd := uploadFileLength;
      }
      var range := rangeEnd - rangeStart;
      var chunk := new bv8[range];
      BlockCopy(file, rangeStart, chunk, 0, range);
      assert chunk[..] == ChunkBytes(file, vars.maxChunkSize, i) by {
        assert chunk[..] == chunk[0..range];
      }
      request := CreateFileUploadRequest(vars, mirrors, chunk[..], fileName, password);
      rangeValue := ContentRangeValue(rangeStart, rangeEnd, uploadFileLength);
      assert rangeValue == ChunkRangeValue(job, i);
      accepted := isLastChunk || Validates(rangeValue);
      assert accepted <==> !HeaderRejected(job, i) by {
        ValidatesIff(rangeStart, rangeEnd, uploadFileLength);
      }
      request := request.(contentRange := Some(RangeHeader(rangeValue, !isLastChunk)));
    }

    /** Uploads `file` (named `fileName`) chunk by chunk. A file of `MaxFileSize` bytes or more
        is refused before anything is sent. Otherwise chunk i covers bytes [i*c, min((i+1)*c,
        len)) and goes out with its `Content-Range`; the loop stops on the first chunk that
        does not proceed, as `Upload.UploadFrom` describes. `sent` and `replies` record
        the requests handed to the executor and its answers. */
    method UploadAsync(vars: UploadVariables, fileName: string, file: seq<bv8>, mirrors: seq<string>,
                       password: Option<string>, transport: nat -> SendOutcome<ChunkReply>, start: nat)
      returns (outcome: Outcome<ResponseBase<CompleteResult>>, ghost sent: seq<Request>,
               ghost replies: seq<ExecResult<ChunkReply>>, next: nat)
      requires Valid()
      requires |file| < vars.maxFileSize ==> 0 < vars.maxChunkSize && |file| <= Int32Max
      ensures var spec := UploadSpec(UploadJob(apiKey, apiToken, requestRetries as nat, vars, fileName, file,
                                               mirrors, password), transport, start);
        outcome == spec.outcome && next == spec.next && replies == spec.replies
      ensures |file| >= vars.maxFileSize ==>
        outcome == Raised(FileTooLarge(vars.maxFileSize, |file|)) && next == start && sent == []
      ensures |sent| == |replies|
      ensures |file| < vars.maxFileSize ==>
        ChunksSentInOrder(UploadJob(apiKey, apiToken, requestRetries as nat, vars, fileName, file, mirrors, password), sent)
    {
      ghost var job := UploadJob(apiKey, apiToken, requestRetries as nat, vars, fileName, file, mirrors, password);
      sent, replies := [], [];
      var uploadFileLength := |file|;
      if uploadFileLength >= vars.maxFileSize {
        outcome, next := Raised(FileTooLarge(vars.maxFileSize, uploadFileLength)), start;
        return;
      }
      var numberOfChunks := ChunkCount(uploadFileLength, vars.maxChunkSize);
      next := start;
      for i := 0 to numberOfChunks
        invariant |sent| == |replies| == i
        invariant sent == ChunkRequestsBefore(job, i)
        invariant UploadFrom(job, transport, 0, start) == After(replies, UploadFrom(job, transport, i, next))
      {
        var request, isLastChunk, rangeValue, accepted := CreateChunkRequest(vars, fileName, file, mirrors, password, i);
        if !accepted {
          outcome := Raised(InvalidHeader(rangeValue));
          UploadHalted(job, transport, i, next, replies);
          ChunkRequestsInOrder(job, i);
          return;
        }
        var uploadResponse, after, clones, waited := MakeRequest(request, transport, next);
        UploadStep(job, transport, i, next, replies, Execution(uploadResponse, after));
        sent, replies := sent + [request], replies + [uploadResponse];
        assert sent == ChunkRequestsBefore(job, i + 1);
        ChunkRequestsInOrder(job, i + 1);
        next := after;

        match uploadResponse {
          case NoResponse =>
            outcome := Null;
            return;
          case Escaped(m) =>
            outcome := Raised(Unhandled(m));
            return;
          case Delivered(response) =>
            if ResponseHasError(Some(response.content)) {
              outcome := Null;
              return;
            }
            if isLastChunk {
              outcome := Value(DeserializeComplete(response.content));
              return;
            }
            var uploadResponseParsed := DeserializeChunk(response.content);
            if !(uploadResponseParsed.result.Some? && uploadResponseParsed.result.value.info == Some("continue")) {
              outcome := Null;
              return;
            }
        }
      }
      ChunkRequestsInOrder(job, numberOfChunks);
      outcome := Null;
    }
  }
}
