/**
 * The retrying request executor behind `MakeRequest`, as a specification over a transport
 * oracle. The network is a function from the index of a send to its outcome; a caller
 * consumes sends from a cursor and gets back where the next caller starts. The retry
 * budget is the `RequestRetires` setting, which the setter clamps to [1, 5].
 */
module Retry {

  const DefaultRetries := 3
  /** `RequestRetryDelay`, the fixed wait after every failed attempt, in milliseconds */
  const RequestRetryDelay := 3000

  /** The `RequestRetires` setter: out-of-range values fall back to the default. */
  function ClampRetries(value: int): (stored: int)
    ensures 1 <= stored <= 5
    ensures 1 <= value <= 5 ==> stored == value
    ensures value < 1 || value > 5 ==> stored == DefaultRetries
  {
    if value < 1 || value > 5 then DefaultRetries else value
  }

  datatype HttpResponse<B> = HttpResponse(statusCode: int, reasonPhrase: string, content: B)

  /** `IsSuccessStatusCode`: a 2xx status */
  predicate IsSuccess<B>(r: HttpResponse<B>) {
    200 <= r.statusCode <= 299
  }

  /** What one `SendAsync` does: throws `HttpRequestException`, throws anything else, or
      answers with a response. */
  datatype SendOutcome<B> =
    | RequestException(message: string)
    | OtherException(message: string)
    | Responded(response: HttpResponse<B>)

  /** The outcomes that make the executor clone the request, wait and try again. */
  predicate IsRetried<B>(o: SendOutcome<B>) {
    o.RequestException? || (o.Responded? && !IsSuccess(o.response))
  }

  /** The executor's answer: null after the budget is spent, the first success response, or
      an exception other than `HttpRequestException`, which escapes to the caller. */
  datatype ExecResult<B> = NoResponse | Delivered(response: HttpResponse<B>) | Escaped(message: string)

  datatype Execution<B> = Execution(result: ExecResult<B>, next: nat)

  /** At most `attempts` sends, starting with send number `start`. */
  function Execute<B>(transport: nat -> SendOutcome<B>, start: nat, attempts: nat): (e: Execution<B>)
    ensures start <= e.next <= start + attempts
    ensures attempts > 0 ==> start < e.next
    decreases attempts
  {
    if attempts == 0 then Execution(NoResponse, start)
    else match transport(start)
      case OtherException(m) => Execution(Escaped(m), start + 1)
      case RequestException(_) => Execute(transport, start + 1, attempts - 1)
      case Responded(r) =>
        if IsSuccess(r) then Execution(Delivered(r), start + 1)
        else Execute(transport, start + 1, attempts - 1)
  }

  /** The executor gives up, with no response, exactly when every one of the `attempts`
      sends failed in a retried way; it then used all of them. */
  lemma {:induction false} ExecuteNoResponse<B>(transport: nat -> SendOutcome<B>, start: nat, attempts: nat)
    ensures Execute(transport, start, attempts).result.NoResponse?
        <==> forall k :: start <= k < start + attempts ==> IsRetried(transport(k))
    ensures Execute(transport, start, attempts).result.NoResponse? ==>
            Execute(transport, start, attempts).next == start + attempts
    decreases attempts
  {
    if attempts > 0 {
      ExecuteNoResponse(transport, start + 1, attempts - 1);
    }
  }

  /** Otherwise the executor stops at the first send that was not retried: every send before
      it failed in a retried way, and that send decides the answer: a success response is
      returned as it is, any other exception escapes with its message. */
  lemma {:induction false} ExecuteStopsAtFirstDecisive<B>(transport: nat -> SendOutcome<B>, start: nat, attempts: nat)
    requires !Execute(transport, start, attempts).result.NoResponse?
    ensures var e := Execute(transport, start, attempts);
      && start < e.next <= start + attempts
      && (forall k :: start <= k < e.next - 1 ==> IsRetried(transport(k)))
      && !IsRetried(transport(e.next - 1))
      && (e.result.Delivered? <==> transport(e.next - 1).Responded?)
      && (e.result.Delivered? ==> transport(e.next - 1) == Responded(e.result.response) && IsSuccess(e.result.response))
      && (e.result.Escaped? ==> transport(e.next - 1) == OtherException(e.result.message))
    decreases attempts
  {
    var o := transport(start);
    if IsRetried(o) {
      ExecuteStopsAtFirstDecisive(transport, start + 1, attempts - 1);
    }
  }

  /** Number of failed attempts, each followed by a clone of the request and a delay: every
      send but the deciding one, or all of them when the budget ran out. */
  function FailedAttempts<B>(e: Execution<B>, start: nat): int {
    if e.result.NoResponse? then e.next - start else e.next - start - 1
  }
}
