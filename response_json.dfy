/**
 * The shapes of the decoded server replies (the ResponseJson record classes).
 * They carry no behaviour; JSON text parsing itself is not modelled, so a reply
 * is taken here as already decoded.
 */
module ResponseJson {
  import opened Wrappers

  /** A JSON property read through `token?.Value<string>()`: the key is absent, holds
      an explicit JSON null, or holds the JSON string `text`. */
  datatype Field = Missing | NullValue | Text(text: string)

  /** The `result` property of an envelope: absent, null, a plain message (what the
      server sends with an error status) or the typed payload object. */
  datatype ResultField<T> = NoResult | NullResult | Message(text: string) | Payload(value: T)

  /** Every reply of the service has the shape `{status, result}`. */
  datatype Envelope<T> = Envelope(status: Field, result: ResultField<T>)

  /** `MirrorAceResponseBase<T>` after deserialisation: both properties are nullable. */
  datatype ResponseBase<T> = ResponseBase(status: Option<string>, result: Option<T>)

  /** `UploadVariablesResult`: the constraints negotiated before any upload. Uris are
      kept as their text; the expiry timestamp as an opaque integer. */
  datatype UploadVariables = UploadVariables(
    server: Option<string>,
    serverFile: Option<string>,
    serverRemote: Option<string>,
    cTracker: Option<string>,
    mirrors: Option<map<string, bool>>,
    defaultMirrors: Option<seq<string>>,
    maxChunkSize: int,
    maxFileSize: int,
    maxMirrors: int,
    uploadKey: Option<string>,
    uploadKeyExpiry: int)

  /** `MirrorAceFileInfo` */
  datatype FileInfo = FileInfo(id: int, name: Option<string>, slug: Option<string>,
                               size: int, url: Option<string>, status: Option<string>)

  /** The JSON object a chunk reply carries; the driver deserialises it either as a
      `UploadResponseChunkResult` or as a `UploadResponseCompleteResult`. */
  datatype UploadReply = UploadReply(name: Option<string>, size: int, slug: Option<string>,
                                     url: Option<string>, info: Option<string>)

  /** `UploadResponseChunkResult` */
  datatype ChunkResult = ChunkResult(name: Option<string>, size: int, info: Option<string>)

  /** `UploadResponseCompleteResult` */
  datatype CompleteResult = CompleteResult(name: Option<string>, size: int, slug: Option<string>,
                                           url: Option<string>, info: Option<string>)

  function AsChunkResult(r: UploadReply): ChunkResult {
    ChunkResult(r.name, r.size, r.info)
  }

  function AsCompleteResult(r: UploadReply): CompleteResult {
    CompleteResult(r.name, r.size, r.slug, r.url, r.info)
  }

  function FieldText(f: Field): Option<string> {
    match f
    case Text(s) => Some(s)
    case _ => None
  }

  /** `JsonConvert.DeserializeObject<MirrorAceResponseBase<T>>` of a decoded envelope */
  function Deserialize<T>(e: Envelope<T>): ResponseBase<T> {
    ResponseBase(FieldText(e.status), if e.result.Payload? then Some(e.result.value) else None)
  }

  function DeserializeChunk(e: Envelope<UploadReply>): ResponseBase<ChunkResult> {
    var d := Deserialize(e);
    ResponseBase(d.status, if d.result.Some? then Some(AsChunkResult(d.result.value)) else None)
  }

  function DeserializeComplete(e: Envelope<UploadReply>): ResponseBase<CompleteResult> {
    var d := Deserialize(e);
    ResponseBase(d.status, if d.result.Some? then Some(AsCompleteResult(d.result.value)) else None)
  }
}
