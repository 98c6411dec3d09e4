/** The envelope interpreter of MirrorAceApiHelpers: is a reply an error, and its message. */
module Helpers {
  import opened Wrappers
  import opened ResponseJson

  /** `response?["status"]?.Value<string>() != "success"`: a missing reply, a missing or
      null status, and any status other than the exact (ordinal) text "success" is an error. */
  function ResponseHasError<T>(response: Option<Envelope<T>>): (hasError: bool)
    ensures !hasError <==> response.Some? && response.value.status == Text("success")
    ensures response.None? ==> hasError
    ensures response.Some? && (response.value.status.Missing? || response.value.status.NullValue?) ==> hasError
  {
    var status := match response
                  case None => None
                  case Some(e) => FieldText(e.status);
    status != Some("success")
  }

  /** `response["result"]?.Value<string>() ?? ""`: the error text of a reply. */
  function ErrorText<T>(response: Envelope<T>): (text: string)
    ensures response.result.Message? ==> text == response.result.text
    ensures response.result.NoResult? || response.result.NullResult? ==> text == ""
  {
    var result := match response.result
                  case Message(s) => Some(s)
                  case _ => None;
    result.GetOr("")
  }
}
