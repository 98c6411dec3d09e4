/**
 * The chunked upload driver of `UploadAsync`, as a specification: which requests it hands
 * to the executor, in which order, and what it returns for each combination of replies.
 * `Api.MirrorAceApi.UploadAsync` is proved to compute exactly `UploadSpec`.
 */
module Upload {
  import opened Wrappers
  import opened ResponseJson
  import opened Helpers
  import opened Chunking
  import opened ContentRange
  import opened Requests
  import opened Retry

  /** `FileTooLargeException`, raised with the limit and the actual size; the
      `FormatException` of a validating `Headers.Add` refusing a `Content-Range` value; and an
      exception other than `HttpRequestException` escaping from `SendAsync`. */
  datatype ApiError = FileTooLarge(limit: int, actual: int) | InvalidHeader(value: string) | Unhandled(message: string)

  /** What an API call ends with: a null result, a value, or an exception. */
  datatype Outcome<T> = Null | Value(value: T) | Raised(error: ApiError)

  type ChunkReply = Envelope<UploadReply>

  /** Everything one upload call works from: the client's credentials and retry budget, the
      negotiated variables, the file (its name and bytes) and the caller's choices. */
  datatype UploadJob = UploadJob(apiKey: string, apiToken: string, retries: nat,
                                 vars: UploadVariables, fileName: string, file: seq<bv8>,
                                 mirrors: seq<string>, password: Option<string>)

  /** The end of an upload: its outcome, what the executor answered for each chunk handed to
      it (chunk k gets replies[k]; chunks go out in index order, so |replies| chunks went out)
      and the cursor of the next send. */
  datatype Run = Run(outcome: Outcome<ResponseBase<CompleteResult>>, replies: seq<ExecResult<ChunkReply>>, next: nat)

  function ChunkSize(job: UploadJob): int {
    job.vars.maxChunkSize
  }

  function NumberOfChunks(job: UploadJob): nat
    requires ChunkSize(job) > 0
  {
    ChunkCount(|job.file|, ChunkSize(job))
  }

  /** Chunk i's `Content-Range` value: its start, exclusive end and the file length. */
  function ChunkRangeValue(job: UploadJob, i: nat): string
    requires ChunkSize(job) > 0 && i < NumberOfChunks(job)
  {
    var len, c := |job.file|, ChunkSize(job);
    ChunkBounds(len, c, i);
    ContentRangeValue(RangeStart(c, i), RangeEnd(len, c, i), len)
  }

  /** The request for chunk i: the upload body around the chunk's bytes, and its
      `Content-Range`, attached without validation exactly when the chunk is flagged last. */
  function ChunkRequest(job: UploadJob, i: nat): Request
    requires ChunkSize(job) > 0 && i < NumberOfChunks(job)
  {
    var len, c := |job.file|, ChunkSize(job);
    var header := RangeHeader(ChunkRangeValue(job, i), !IsLastChunk(len, c, i));
    FileUploadRequest(job.apiKey, job.apiToken, job.vars, job.mirrors, ChunkBytes(job.file, c, i),
                      job.fileName, job.password).(contentRange := Some(header))
  }

  /** Chunk i is not flagged last, so its header goes through the validating `Add`, and
      its range is one `Add` refuses (`HeaderRejectedIff` states this on the value itself):
      the loop throws before the chunk is sent. */
  predicate HeaderRejected(job: UploadJob, i: nat)
    requires ChunkSize(job) > 0
  {
    var len, c := |job.file|, ChunkSize(job);
    !IsLastChunk(len, c, i) && !(RangeStart(c, i) <= RangeEnd(len, c, i) < len)
  }

  /** The loop reaches chunk j and sends nothing more: it has run out of chunks, or chunk
      j's header is refused. */
  predicate Halts(job: UploadJob, j: nat)
    requires ChunkSize(job) > 0
  {
    j >= NumberOfChunks(job) || HeaderRejected(job, j)
  }

  /** What the call returns when the loop halts at chunk j: null once it has run out of
      chunks (line 229), otherwise the header's `FormatException`. */
  function Unsent(job: UploadJob, j: nat): Outcome<ResponseBase<CompleteResult>>
    requires ChunkSize(job) > 0
  {
    if j >= NumberOfChunks(job) then Null else Raised(InvalidHeader(ChunkRangeValue(job, j)))
  }

  /** The header of chunk i is refused exactly when `Add` does not validate its value, and
      that happens exactly for the final chunk of a file whose length is a multiple of the
      chunk size: that chunk is not flagged last, and its exclusive end equals the total. Its
      value is then `bytes {len-c}-{len}/{len}`. */
  lemma HeaderRejectedIff(job: UploadJob, i: nat)
    requires ChunkSize(job) > 0 && i < NumberOfChunks(job)
    ensures HeaderRejected(job, i)
        <==> !IsLastChunk(|job.file|, ChunkSize(job), i) && !Validates(ChunkRangeValue(job, i))
    ensures HeaderRejected(job, i) <==> i == NumberOfChunks(job) - 1 && |job.file| % ChunkSize(job) == 0
    ensures HeaderRejected(job, i) ==>
      ChunkRangeValue(job, i) == ContentRangeValue(|job.file| - ChunkSize(job), |job.file|, |job.file|)
  {
    var len, c := |job.file|, ChunkSize(job);
    ChunkBounds(len, c, i);
    ValidatesIff(RangeStart(c, i), RangeEnd(len, c, i), len);
    EndsAtTotal(len, c, i);
  }

  /** Chunk i's full-size end reaches the total exactly for the final chunk of a length that
      is a multiple of c. */
  lemma EndsAtTotal(len: nat, c: int, i: nat)
    requires c > 0 && i < ChunkCount(len, c)
    ensures (i + 1) * c == len <==> i == ChunkCount(len, c) - 1 && len % c == 0
  {
    if (i + 1) * c == len {
      DivModUnique(len, c, i + 1, 0);
      DivModUnique(len + c - 1, c, i + 1, c - 1);
    } else if len % c == 0 {
      DivModUnique(len + c - 1, c, len / c, c - 1);
    }
  }

  /** `uploadResponseParsed?.Result?.Info == "continue"` */
  predicate ChunkContinues(reply: ChunkReply) {
    var parsed := DeserializeChunk(reply);
    parsed.result.Some? && parsed.result.value.info == Some("continue")
  }

  function Then(reply: ExecResult<ChunkReply>, r: Run): Run {
    Run(r.outcome, [reply] + r.replies, r.next)
  }

  /** The loop goes on to the next chunk only after a delivered, non-error reply to a chunk
      not flagged last whose info says "continue". */
  predicate Proceeds(job: UploadJob, i: nat, result: ExecResult<ChunkReply>) {
    && result.Delivered?
    && !ResponseHasError(Some(result.response.content))
    && !IsLastChunk(|job.file|, ChunkSize(job), i)
    && ChunkContinues(result.response.content)
  }

  /** What the loop returns when it does not go on after chunk i: null when the executor
      gave up, on an error status, or on any info other than "continue"; the exception that
      escaped the executor; the completion payload for a chunk flagged last. */
  function Stopped(job: UploadJob, i: nat, result: ExecResult<ChunkReply>): Outcome<ResponseBase<CompleteResult>> {
    match result
    case NoResponse => Null
    case Escaped(m) => Raised(Unhandled(m))
    case Delivered(response) =>
      if ResponseHasError(Some(response.content)) then Null
      else if IsLastChunk(|job.file|, ChunkSize(job), i) then Value(DeserializeComplete(response.content))
      else Null
  }

  /** The loop from chunk i on, with the transport at send number `pos`. */
  function UploadFrom(job: UploadJob, transport: nat -> SendOutcome<ChunkReply>, i: nat, pos: nat): (r: Run)
    requires ChunkSize(job) > 0
    ensures i < NumberOfChunks(job) ==> |r.replies| <= NumberOfChunks(job) - i
    ensures r.replies == [] <==> Halts(job, i)
    ensures pos <= r.next
    decreases NumberOfChunks(job) - i
  {
    if Halts(job, i) then Run(Unsent(job, i), [], pos)
    else
      var e := Execute(transport, pos, job.retries);
      if Proceeds(job, i, e.result) then Then(e.result, UploadFrom(job, transport, i + 1, e.next))
      else Run(Stopped(job, i, e.result), [e.result], e.next)
  }

  /** The whole of `UploadAsync`: a file of `MaxFileSize` bytes or more is refused before
      anything is sent; otherwise the loop runs from chunk 0. */
  function UploadSpec(job: UploadJob, transport: nat -> SendOutcome<ChunkReply>, start: nat): Run
    requires |job.file| < job.vars.maxFileSize ==> ChunkSize(job) > 0
  {
    if |job.file| >= job.vars.maxFileSize then Run(Raised(FileTooLarge(job.vars.maxFileSize, |job.file|)), [], start)
    else UploadFrom(job, transport, 0, start)
  }

  /** `r`, preceded by the replies of the chunks already handled. */
  function After(done: seq<ExecResult<ChunkReply>>, r: Run): Run {
    Run(r.outcome, done + r.replies, r.next)
  }

  /** One turn of the loop: with chunk i's execution in hand, the loop either goes on from
      chunk i + 1 or ends with `Stopped`. */
  lemma UploadStep(job: UploadJob, transport: nat -> SendOutcome<ChunkReply>, i: nat, pos: nat,
                   done: seq<ExecResult<ChunkReply>>, e: Execution<ChunkReply>)
    requires ChunkSize(job) > 0 && i < NumberOfChunks(job) && !HeaderRejected(job, i)
    requires e == Execute(transport, pos, job.retries)
    ensures Proceeds(job, i, e.result) ==>
      After(done, UploadFrom(job, transport, i, pos)) == After(done + [e.result], UploadFrom(job, transport, i + 1, e.next))
    ensures !Proceeds(job, i, e.result) ==>
      After(done, UploadFrom(job, transport, i, pos)) == Run(Stopped(job, i, e.result), done + [e.result], e.next)
  {
    var rest := UploadFrom(job, transport, i + 1, e.next);
    assert done + ([e.result] + rest.replies) == done + [e.result] + rest.replies;
  }

  /** A turn of the loop whose header is refused ends the call before the send. */
  lemma UploadHalted(job: UploadJob, transport: nat -> SendOutcome<ChunkReply>, i: nat, pos: nat,
                     done: seq<ExecResult<ChunkReply>>)
    requires ChunkSize(job) > 0 && i < NumberOfChunks(job) && HeaderRejected(job, i)
    ensures After(done, UploadFrom(job, transport, i, pos))
         == Run(Raised(InvalidHeader(ChunkRangeValue(job, i))), done, pos)
  {
    assert done + [] == done;
  }

  /** The requests handed to the executor are those of chunks 0, 1, ... in order. */
  ghost predicate ChunksSentInOrder(job: UploadJob, sent: seq<Request>)
    requires ChunkSize(job) > 0
  {
    && |sent| <= NumberOfChunks(job)
    && forall k :: 0 <= k < |sent| ==> sent[k] == ChunkRequest(job, k)
  }

  /** The requests of chunks 0 .. i - 1, in order. */
  function ChunkRequestsBefore(job: UploadJob, i: nat): (sent: seq<Request>)
    requires ChunkSize(job) > 0 && i <= NumberOfChunks(job)
    ensures |sent| == i
  {
    if i == 0 then [] else ChunkRequestsBefore(job, i - 1) + [ChunkRequest(job, i - 1)]
  }

  lemma {:induction false} ChunkRequestsInOrder(job: UploadJob, i: nat)
    requires ChunkSize(job) > 0 && i <= NumberOfChunks(job)
    ensures ChunksSentInOrder(job, ChunkRequestsBefore(job, i))
  {
    if i > 0 {
      ChunkRequestsInOrder(job, i - 1);
    }
  }

  /** How `GetUploadVariablesAsync` and `GetFileInfoAsync` read the executor's answer: null
      when there is none or the reply carries an error status; otherwise the deserialised
      reply, whose status is then "success"; an escaped exception propagates. */
  ghost predicate CheckedReply<T>(outcome: Outcome<ResponseBase<T>>, result: ExecResult<Envelope<T>>) {
    && (outcome.Null? <==> result.NoResponse? || (result.Delivered? && ResponseHasError(Some(result.response.content))))
    && (outcome.Value? ==> result.Delivered? && outcome.value == Deserialize(result.response.content)
                           && outcome.value.status == Some("success"))
    && (outcome.Raised? <==> result.Escaped?)
    && (outcome.Raised? ==> outcome.error == Unhandled(result.message))
  }

  /** Every chunk before the last one sent was followed by the next because the loop
      proceeded after it. */
  ghost predicate ProceededBeforeLast(job: UploadJob, i: nat, r: Run) {
    forall k :: 0 <= k < |r.replies| - 1 ==> Proceeds(job, i + k, r.replies[k])
  }

  /** A chunk is followed by another only when its reply was delivered, was not an error,
      the chunk was not flagged last, and the reply's info said "continue". */
  lemma {:induction false} ContinuesOnlyOnContinue(job: UploadJob, transport: nat -> SendOutcome<ChunkReply>, i: nat, pos: nat)
    requires ChunkSize(job) > 0
    ensures ProceededBeforeLast(job, i, UploadFrom(job, transport, i, pos))
    decreases NumberOfChunks(job) - i
  {
    var r := UploadFrom(job, transport, i, pos);
    if !Halts(job, i) {
      var e := Execute(transport, pos, job.retries);
      if Proceeds(job, i, e.result) {
        var rest := UploadFrom(job, transport, i + 1, e.next);
        ContinuesOnlyOnContinue(job, transport, i + 1, e.next);
        assert r.replies == [e.result] + rest.replies;
        forall k | 0 <= k < |r.replies| - 1
          ensures Proceeds(job, i + k, r.replies[k])
        {
          if k > 0 {
            assert r.replies[k] == rest.replies[k - 1];
            assert i + 1 + (k - 1) == i + k;
          }
        }
      }
    }
  }

  /** How the loop ends after the last chunk it sent, m: the executor's answer for that chunk
      decides, as `Stopped` says, unless the loop proceeded past the final chunk. */
  ghost predicate EndsAsStopped(job: UploadJob, i: nat, r: Run)
    requires ChunkSize(job) > 0
  {
    && (r.replies == [] ==> r.outcome == Unsent(job, i))
    && (r.replies != [] ==>
          var m := |r.replies| - 1;
          if Proceeds(job, i + m, r.replies[m])
          then Halts(job, i + m + 1) && r.outcome == Unsent(job, i + m + 1)
          else r.outcome == Stopped(job, i + m, r.replies[m]))
  }

  lemma {:induction false} UploadEnding(job: UploadJob, transport: nat -> SendOutcome<ChunkReply>, i: nat, pos: nat)
    requires ChunkSize(job) > 0
    ensures EndsAsStopped(job, i, UploadFrom(job, transport, i, pos))
    ensures i >= NumberOfChunks(job) ==> UploadFrom(job, transport, i, pos) == Run(Null, [], pos)
    decreases NumberOfChunks(job) - i
  {
    var r := UploadFrom(job, transport, i, pos);
    if !Halts(job, i) {
      var e := Execute(transport, pos, job.retries);
      if Proceeds(job, i, e.result) {
        var rest := UploadFrom(job, transport, i + 1, e.next);
        UploadEnding(job, transport, i + 1, e.next);
        assert r.replies == [e.result] + rest.replies;
        if rest.replies != [] {
          var m := |r.replies| - 1;
          assert r.replies[m] == rest.replies[m - 1];
          assert i + 1 + (m - 1) == i + m;
        }
      }
    }
  }

  /** The completion payload is returned only for a chunk flagged last whose reply was
      delivered without an error status, and it is that reply's result. An exception other
      than a refused header escapes only when the executor let one escape; a refused header
      is that of the chunk after the last one sent. */
  lemma CompletionOnlyForLastChunk(job: UploadJob, transport: nat -> SendOutcome<ChunkReply>, i: nat, pos: nat)
    requires ChunkSize(job) > 0
    ensures var r := UploadFrom(job, transport, i, pos);
      && (r.outcome.Value? ==>
            && r.replies != []
            && var m := |r.replies| - 1;
            && r.replies[m].Delivered?
            && !ResponseHasError(Some(r.replies[m].response.content))
            && IsLastChunk(|job.file|, ChunkSize(job), i + m)
            && r.outcome.value == DeserializeComplete(r.replies[m].response.content))
      && (r.outcome.Raised? && !r.outcome.error.InvalidHeader? ==>
            && r.replies != []
            && r.replies[|r.replies| - 1].Escaped?
            && r.outcome.error == Unhandled(r.replies[|r.replies| - 1].message))
      && (r.outcome.Raised? && r.outcome.error.InvalidHeader? ==>
            && i + |r.replies| < NumberOfChunks(job)
            && HeaderRejected(job, i + |r.replies|)
            && r.outcome.error.value == ChunkRangeValue(job, i + |r.replies|))
  {
    UploadEnding(job, transport, i, pos);
  }

  /** With the strict last-chunk test, a file whose length is a multiple of the chunk size
      never completes: whatever the server answers, the result is not a completion payload. */
  lemma ExactMultipleNeverCompletes(job: UploadJob, transport: nat -> SendOutcome<ChunkReply>, start: nat)
    requires |job.file| < job.vars.maxFileSize && ChunkSize(job) > 0
    requires |job.file| % ChunkSize(job) == 0
    ensures !UploadSpec(job, transport, start).outcome.Value?
  {
    var r := UploadFrom(job, transport, 0, start);
    CompletionOnlyForLastChunk(job, transport, 0, start);
    if r.outcome.Value? {
      LastFlag(|job.file|, ChunkSize(job), |r.replies| - 1);
    }
  }

  /** A refused header can only be the final chunk's, for a length that is a multiple of the
      chunk size; by then every other chunk has gone out. */
  lemma RejectionOnlyAtFinalChunk(job: UploadJob, transport: nat -> SendOutcome<ChunkReply>, start: nat)
    requires |job.file| < job.vars.maxFileSize ==> ChunkSize(job) > 0
    ensures var r := UploadSpec(job, transport, start);
      r.outcome.Raised? && r.outcome.error.InvalidHeader? ==>
        && |job.file| % ChunkSize(job) == 0
        && |r.replies| == NumberOfChunks(job) - 1
        && r.outcome.error.value == ContentRangeValue(|job.file| - ChunkSize(job), |job.file|, |job.file|)
  {
    if |job.file| < job.vars.maxFileSize {
      var r := UploadFrom(job, transport, 0, start);
      CompletionOnlyForLastChunk(job, transport, 0, start);
      if r.outcome.Raised? && r.outcome.error.InvalidHeader? {
        HeaderRejectedIff(job, |r.replies|);
      }
    }
  }

  /** A transport on which the first attempt of every send succeeds with a reply that
      says "continue". */
  ghost predicate AlwaysContinues(transport: nat -> SendOutcome<ChunkReply>) {
    forall k :: transport(k).Responded? && IsSuccess(transport(k).response)
      && !ResponseHasError(Some(transport(k).response.content)) && ChunkContinues(transport(k).response.content)
  }

  /** For a length that is a multiple of the chunk size, when every chunk is accepted with
      "continue", the chunks before the final one all go out, one send each, and the final
      chunk's header is refused. */
  lemma {:induction false} AllContinueFrom(job: UploadJob, transport: nat -> SendOutcome<ChunkReply>, i: nat, pos: nat)
    requires ChunkSize(job) > 0 && job.retries > 0 && i < NumberOfChunks(job)
    requires |job.file| % ChunkSize(job) == 0
    requires AlwaysContinues(transport)
    ensures UploadFrom(job, transport, i, pos).outcome
         == Raised(InvalidHeader(ChunkRangeValue(job, NumberOfChunks(job) - 1)))
    ensures |UploadFrom(job, transport, i, pos).replies| == NumberOfChunks(job) - 1 - i
    ensures UploadFrom(job, transport, i, pos).next == pos + NumberOfChunks(job) - 1 - i
    decreases NumberOfChunks(job) - i
  {
    HeaderRejectedIff(job, i);
    if i < NumberOfChunks(job) - 1 {
      LastFlag(|job.file|, ChunkSize(job), i);
      ContinueStep(job, transport, i, pos);
      AllContinueFrom(job, transport, i + 1, pos + 1);
    }
  }

  /** On such a transport a chunk that is neither flagged last nor refused takes one send
      and the loop goes on. */
  lemma ContinueStep(job: UploadJob, transport: nat -> SendOutcome<ChunkReply>, i: nat, pos: nat)
    requires ChunkSize(job) > 0 && job.retries > 0 && i < NumberOfChunks(job)
    requires !IsLastChunk(|job.file|, ChunkSize(job), i) && !HeaderRejected(job, i)
    requires AlwaysContinues(transport)
    ensures UploadFrom(job, transport, i, pos)
         == Then(Delivered(transport(pos).response), UploadFrom(job, transport, i + 1, pos + 1))
  {
    assert transport(pos).Responded? && IsSuccess(transport(pos).response);
    assert Execute(transport, pos, job.retries) == Execution(Delivered(transport(pos).response), pos + 1);
  }

  /** So a non-empty file whose length is a multiple of the chunk size never uploads in
      full, even when every reply says "continue": len / c - 1 chunks go out and the call
      throws on the final chunk's header. An empty file sends nothing and returns null. */
  lemma ExactMultipleAllContinue(job: UploadJob, transport: nat -> SendOutcome<ChunkReply>, start: nat)
    requires |job.file| < job.vars.maxFileSize && ChunkSize(job) > 0 && job.retries > 0
    requires |job.file| % ChunkSize(job) == 0
    requires AlwaysContinues(transport)
    ensures NumberOfChunks(job) == |job.file| / ChunkSize(job)
    ensures |job.file| == 0 ==> UploadSpec(job, transport, start) == Run(Null, [], start)
    ensures |job.file| > 0 ==>
      && UploadSpec(job, transport, start).outcome
         == Raised(InvalidHeader(ContentRangeValue(|job.file| - ChunkSize(job), |job.file|, |job.file|)))
      && |UploadSpec(job, transport, start).replies| == |job.file| / ChunkSize(job) - 1
  {
    ExactChunkCount(|job.file|, ChunkSize(job));
    if |job.file| > 0 {
      AllContinueFrom(job, transport, 0, start);
      HeaderRejectedIff(job, NumberOfChunks(job) - 1);
    } else {
      UploadEnding(job, transport, 0, start);
    }
  }

  /** An empty file that is not too large sends nothing and returns null. */
  lemma EmptyFileSendsNothing(job: UploadJob, transport: nat -> SendOutcome<ChunkReply>, start: nat)
    requires |job.file| == 0 < job.vars.maxFileSize && ChunkSize(job) > 0
    ensures UploadSpec(job, transport, start) == Run(Null, [], start)
  {
    UploadEnding(job, transport, 0, start);
  }

  /** What each chunk request carries: the upload fields, then the chunk's own bytes (the file
      slice, `c` bytes unless flagged last) under `files[]`, and a `Content-Range` that reads
      back as start, EXCLUSIVE end and total, validated unless the chunk is flagged last. */
  lemma ChunkRequestContents(job: UploadJob, i: nat)
    requires ChunkSize(job) > 0 && i < NumberOfChunks(job)
    ensures var req := ChunkRequest(job, i);
      var len, c := |job.file|, ChunkSize(job);
      var s, e := RangeStart(c, i), RangeEnd(len, c, i);
      && 0 <= s < e <= len
      && req.uri == job.vars.serverFile
      && req.content.Multipart?
      && req.content.parts == BaseUploadParts(job.apiKey, job.apiToken, job.vars, job.mirrors, job.password)
                              + [BytesPart("files[]", job.fileName, job.file[s..e])]
      && (!IsLastChunk(len, c, i) ==> e - s == c)
      && req.contentRange.Some?
      && req.contentRange.value.validated == !IsLastChunk(len, c, i)
      && ParseContentRange(req.contentRange.value.value) == Some((s, e, len))
  {
    var len, c := |job.file|, ChunkSize(job);
    ChunkBounds(len, c, i);
    ContentRangeRoundTrip(RangeStart(c, i), RangeEnd(len, c, i), len);
  }
}
