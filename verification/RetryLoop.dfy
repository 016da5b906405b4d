/** The bounded retry loop of `_call` and `_call_bytes` in app/services/icm/client.py.

    The upstream is an arbitrary function from attempt numbers to replies.  Tenacity is
    taken as its documentation promises: stop after three attempts, retry while
    `_is_retryable` holds of the raised exception, re-raise the last one.
 */
module RetryLoop {
  import opened Prelude

  datatype Exc =
    | IcmError
    | HttpStatusError(status: int)
    | ConnectError
    | TimeoutException
    | OtherError

  // The value under "errorCode": a scalar (the default "" included) can be looked up in the
  // error map; an array or object is not hashable and cannot.
  datatype ErrorCode = Scalar | Compound

  // A JSON array, string or number is JSON but has no `get` and no error code.  `TooDeep` is
  // JSON nested beyond Python's recursion limit, for which `json()` raises RecursionError.
  datatype Body<V> = NotJson | TooDeep | JsonObject(json: V, errorCode: ErrorCode) | JsonOther(json: V)

  // What one attempt meets: no token and so no request, no response, or a response.
  datatype Reply<V> =
    | TokenFailed(exc: Exc)
    | TransportFailed(exc: Exc)
    | Response(status: int, body: Body<V>, content: V)

  datatype Attempt<V> = Returned(value: V) | Raised(exc: Exc)

  // The JSON loop of `_call` and the raw loop of `_call_bytes` differ in this alone.
  datatype Kind = Json | Bytes

  const MAX_ATTEMPTS := 3

  predicate IsRetryable(exc: Exc) {
    match exc
    case IcmError => false
    case HttpStatusError(status) => status >= 500
    case ConnectError => true
    case TimeoutException => true
    case OtherError => false
  }

  predicate IsSuccess(status: int) {
    200 <= status < 300
  }

  function JsonAttempt<V>(status: int, body: Body<V>): Attempt<V> {
    if !IsSuccess(status) then
      match body
      case JsonObject(_, Scalar) =>
        if status >= 500 then Raised(HttpStatusError(status)) else Raised(IcmError)
      case NotJson => Raised(HttpStatusError(status))
      // The inner except clause lets these three through.
      case JsonObject(_, Compound) => Raised(OtherError)   // TypeError from the lookup
      case JsonOther(_) => Raised(OtherError)              // AttributeError: the body has no `get`
      case TooDeep => Raised(OtherError)                   // RecursionError
    else
      match body
      case JsonObject(json, _) => Returned(json)
      case JsonOther(json) => Returned(json)
      case NotJson => Raised(OtherError)                   // ValueError, outside the inner try
      case TooDeep => Raised(OtherError)
  }

  function AttemptOf<V>(kind: Kind, reply: Reply<V>): Attempt<V> {
    match reply
    case TokenFailed(exc) => Raised(exc)
    case TransportFailed(exc) => Raised(exc)
    case Response(status, body, content) =>
      if kind == Json then JsonAttempt(status, body)
      else if IsSuccess(status) then Returned(content)
      else Raised(HttpStatusError(status))
  }

  predicate RetriedOn<V>(kind: Kind, reply: Reply<V>) {
    var attempt := AttemptOf(kind, reply);
    attempt.Raised? && IsRetryable(attempt.exc)
  }

  // The loop may make another attempt after these.
  predicate Continues<V>(kind: Kind, replies: seq<Reply<V>>) {
    && |replies| < MAX_ATTEMPTS
    && forall k :: 0 <= k < |replies| ==> RetriedOn(kind, replies[k])
  }

  // The loop has run its course on exactly these.
  predicate Concluded<V>(kind: Kind, replies: seq<Reply<V>>) {
    && 1 <= |replies| <= MAX_ATTEMPTS
    && (forall k :: 0 <= k < |replies| - 1 ==> RetriedOn(kind, replies[k]))
    && (|replies| < MAX_ATTEMPTS ==> !RetriedOn(kind, Last(replies)))
  }

  // `attempts` is a transcript of the loop against `upstream`.  Its last reply decides: the
  // JSON loop returns the parsed body and the raw loop the content, each of a 2xx response; a
  // failure without a response is raised as it is.
  method Call<V>(kind: Kind, upstream: nat -> Reply<V>) returns (result: Attempt<V>, attempts: seq<Reply<V>>)
    ensures Concluded(kind, attempts) && 1 <= |attempts| <= 3
    ensures forall k :: 0 <= k < |attempts| ==> attempts[k] == upstream(k)
    ensures forall k :: 0 <= k < |attempts| - 1 ==> RetriedOn(kind, attempts[k])
    ensures |attempts| < 3 ==> !RetriedOn(kind, attempts[|attempts| - 1])
    ensures result == AttemptOf(kind, attempts[|attempts| - 1])
    ensures match attempts[|attempts| - 1]
            case TokenFailed(exc) => result == Raised(exc)
            case TransportFailed(exc) => result == Raised(exc)
            case Response(status, body, content) =>
              var success := 200 <= status < 300;
              && (kind == Bytes ==> result == if success then Returned(content) else Raised(HttpStatusError(status)))
              && (kind == Json ==>
                    match body
                    case NotJson => result == Raised(if success then OtherError else HttpStatusError(status))
                    case TooDeep => result == Raised(OtherError)
                    case JsonOther(json) => result == if success then Returned(json) else Raised(OtherError)
                    case JsonObject(json, code) =>
                      result == if success then Returned(json)
                                else if code == Compound then Raised(OtherError)
                                else if status >= 500 then Raised(HttpStatusError(status))
                                else Raised(IcmError))
  {
    attempts := [];
    var again := true;
    result := Raised(OtherError);
    while again
      invariant |attempts| <= MAX_ATTEMPTS
      invariant forall k :: 0 <= k < |attempts| ==> attempts[k] == upstream(k)
      invariant again ==> Continues(kind, attempts)
      invariant !again ==> Concluded(kind, attempts) && result == AttemptOf(kind, Last(attempts))
      decreases MAX_ATTEMPTS - |attempts|, again
    {
      var reply := upstream(|attempts|);
      result := AttemptOf(kind, reply);
      attempts := attempts + [reply];
      match result {
        case Returned(_) =>
          again := false;
        case Raised(exc) =>
          again := IsRetryable(exc) && |attempts| < MAX_ATTEMPTS;
      }
    }
  }

  // Against one upstream there is one transcript, so the contract of Call fixes its result.
  lemma TranscriptUnique<V>(kind: Kind, upstream: nat -> Reply<V>, a: seq<Reply<V>>, b: seq<Reply<V>>)
    requires Concluded(kind, a) && Concluded(kind, b)
    requires forall k :: 0 <= k < |a| ==> a[k] == upstream(k)
    requires forall k :: 0 <= k < |b| ==> b[k] == upstream(k)
    ensures a == b
  {}

  // What `_call` does with an error body: no JSON at all, or an object whose error code can be
  // looked up, are the bodies it can classify.
  predicate Classifiable<V>(body: Body<V>) {
    body.NotJson? || (body.JsonObject? && body.errorCode.Scalar?)
  }

  // `_call_bytes` retries every 5xx response, `_call` those whose body it can classify.  No
  // response below 500 is ever retried, and neither is a typed ICM error.
  lemma ResponseRetriedIff<V>(kind: Kind, status: int, body: Body<V>, content: V)
    ensures RetriedOn(kind, Response(status, body, content))
            <==> status >= 500 && (kind == Json ==> body.NotJson? || (body.JsonObject? && body.errorCode == Scalar))
    ensures AttemptOf(kind, Response(status, body, content)) == Raised(IcmError)
            <==> && kind == Json && body.JsonObject? && body.errorCode.Scalar?
                 && (status < 200 || 300 <= status < 500)
    ensures AttemptOf(kind, Response(status, body, content)).Returned?
            <==> 200 <= status < 300 && (kind == Json ==> body.JsonObject? || body.JsonOther?)
  {
    assert IsSuccess(status) ==> status < 500;
  }

  // So an upstream that answers every request with some 5xx gets all three attempts exactly
  // when its first two bodies can be classified.
  lemma {:induction false} ServerErrorsGetThreeAttemptsIff<V>(kind: Kind, upstream: nat -> Reply<V>,
                                                            attempts: seq<Reply<V>>)
    requires Concluded(kind, attempts)
    requires forall k :: 0 <= k < |attempts| ==> attempts[k] == upstream(k)
    requires forall k: nat :: upstream(k).Response? && upstream(k).status >= 500
    ensures |attempts| == 3
            <==> (kind == Json ==> Classifiable(upstream(0).body) && Classifiable(upstream(1).body))
    ensures AttemptOf(kind, Last(attempts)).Raised?
  {
    forall k | 0 <= k < |attempts|
      ensures RetriedOn(kind, attempts[k]) <==> (kind == Json ==> Classifiable(upstream(k).body))
      ensures AttemptOf(kind, attempts[k]).Raised?
    {
      ResponseRetriedIff(kind, upstream(k).status, upstream(k).body, upstream(k).content);
    }
  }

  // The three kinds of failing input, each a 503 that ends the loop at its first attempt, and
  // each a 400 that is no typed ICM error.
  lemma UnclassifiedErrors<V>(json: V, content: V)
    ensures forall body :: body in [JsonObject(json, Compound), JsonOther(json), TooDeep] ==>
              && Concluded(Json, [Response(503, body, content)])
              && AttemptOf(Json, Response(503, body, content)) == Raised(OtherError)
              && AttemptOf(Json, Response(400, body, content)) == Raised(OtherError)
  {
    forall body | body in [JsonObject(json, Compound), JsonOther(json), TooDeep]
      ensures Concluded(Json, [Response(503, body, content)])
    {
      ResponseRetriedIff(Json, 503, body, content);
    }
  }

  // Every prefix of a transcript is a state in which the loop goes on, and no longer one is.
  lemma {:induction false} TranscriptPlays<V>(kind: Kind, attempts: seq<Reply<V>>, k: nat)
    requires Concluded(kind, attempts)
    ensures k < |attempts| ==> Continues(kind, attempts[..k])
    ensures !Continues(kind, attempts)
  {
    assert !RetriedOn(kind, attempts[|attempts| - 1]) || |attempts| == 3;
  }

  // Without a response, only connections that could not be made, timeouts and a token
  // endpoint's 5xx are retried; one that is lost half-way (`ReadError`) is not.
  lemma FailureRetriedIff<V>(kind: Kind, exc: Exc)
    ensures RetriedOn<V>(kind, TokenFailed(exc)) <==> RetriedOn<V>(kind, TransportFailed(exc))
    ensures RetriedOn<V>(kind, TokenFailed(exc))
            <==> exc in {ConnectError, TimeoutException} || (exc.HttpStatusError? && exc.status >= 500)
  {
    assert AttemptOf<V>(kind, TokenFailed(exc)) == AttemptOf<V>(kind, TransportFailed(exc));
  }
}
