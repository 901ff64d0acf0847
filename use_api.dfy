/** The `useApi` hook: one request at a time through the shared HTTP client, with the
    hook's `loading` flag and error text. The client itself is foreign code; a call's
    outcome is the parameter `reply`. */
module UseApi {

  import opened Wrappers
  import J = Json

  /** What a call hands to the HTTP client. */
  datatype Request = Request(verb: string, url: string, data: J.Value)

  /** A rejected call: the message of the server's error envelope when the failure carries a
      response with one, and the client error's own message (empty when it has none). */
  datatype Failure = Failure(envelope: Option<string>, message: string)

  /** How a call settles: the response body, or a rejection. */
  datatype Reply = Answered(body: J.Value) | Failed(failure: Failure)

  const FallbackMessage := "Something went wrong"

  /** `err.response?.data?.error?.message || fallback`, as the pages write it. */
  function EnvelopeOr(f: Failure, fallback: string): (r: string)
    ensures Truthy(f.envelope) ==> r == f.envelope.value
    ensures !Truthy(f.envelope) ==> r == fallback
    ensures fallback != "" ==> r != ""
  {
    if Truthy(f.envelope) then f.envelope.value else fallback
  }

  /** The hook's error text: the envelope's message, else the client's message, else the
      fixed fallback. It is never empty. */
  function FailureMessage(f: Failure): (r: string)
    ensures r != ""
    ensures Truthy(f.envelope) ==> r == f.envelope.value
    ensures !Truthy(f.envelope) && f.message != "" ==> r == f.message
    ensures !Truthy(f.envelope) && f.message == "" ==> r == FallbackMessage
  {
    if Truthy(f.envelope) then f.envelope.value
    else if f.message != "" then f.message
    else FallbackMessage
  }

  /** A rejection without a response and without a message reads as the hook's fallback,
      whatever fallback a page would have used. */
  lemma BareFailureReadsFallback(fallback: string)
    ensures FailureMessage(Failure(None, "")) == FallbackMessage
    ensures EnvelopeOr(Failure(None, ""), fallback) == fallback
  {
  }

  /** The envelope wins over the client's message wherever both exist. */
  lemma EnvelopeTakesPrecedence(f: Failure, fallback: string)
    requires Truthy(f.envelope)
    ensures FailureMessage(f) == EnvelopeOr(f, fallback) == f.envelope.value
  {
  }

  class ApiState {
    var loading: bool
    var error: Option<string>

    constructor ()
      ensures !loading && error == None
    {
      loading := false;
      error := None;
    }

    /** The start of every call. */
    method Begin()
      modifies this
      ensures loading && error == None
    {
      loading := true;
      error := None;
    }

    /** The end of a call: the body on success; on failure the error text is recorded and
        the rejection passed on (`None`). `loading` is off either way. */
    method Settle(reply: Reply) returns (body: Option<J.Value>)
      modifies this
      ensures !loading
      ensures reply.Answered? ==> body == Some(reply.body) && error == old(error)
      ensures reply.Failed? ==> body == None && error == Some(FailureMessage(reply.failure))
    {
      loading := false;
      match reply
      case Answered(b) =>
        body := Some(b);
      case Failed(f) =>
        error := Some(FailureMessage(f));
        body := None;
    }

    /** `request(method, url, data)`. */
    method Call(verb: string, url: string, data: J.Value, reply: Reply) returns (sent: Request, body: Option<J.Value>)
      modifies this
      ensures sent == Request(verb, url, data)
      ensures !loading
      ensures body.Some? <==> reply.Answered?
      ensures reply.Answered? ==> body == Some(reply.body) && error == None
      ensures reply.Failed? ==> error == Some(FailureMessage(reply.failure))
    {
      Begin();
      sent := Request(verb, url, data);
      body := Settle(reply);
    }

    /** `get(url)`: a GET without data. */
    method Get(url: string, reply: Reply) returns (sent: Request, body: Option<J.Value>)
      modifies this
      ensures sent == Request("GET", url, J.Null)
      ensures !loading && (body.Some? <==> reply.Answered?)
      ensures reply.Answered? ==> body == Some(reply.body) && error == None
      ensures reply.Failed? ==> error == Some(FailureMessage(reply.failure))
    {
      sent, body := Call("GET", url, J.Null, reply);
    }

    /** `post(url, data)`. */
    method Post(url: string, data: J.Value, reply: Reply) returns (sent: Request, body: Option<J.Value>)
      modifies this
      ensures sent == Request("POST", url, data)
      ensures !loading && (body.Some? <==> reply.Answered?)
      ensures reply.Answered? ==> body == Some(reply.body) && error == None
      ensures reply.Failed? ==> error == Some(FailureMessage(reply.failure))
    {
      sent, body := Call("POST", url, data, reply);
    }

    /** `del(url)`: a DELETE without data. */
    method Del(url: string, reply: Reply) returns (sent: Request, body: Option<J.Value>)
      modifies this
      ensures sent == Request("DELETE", url, J.Null)
      ensures !loading && (body.Some? <==> reply.Answered?)
      ensures reply.Answered? ==> body == Some(reply.body) && error == None
      ensures reply.Failed? ==> error == Some(FailureMessage(reply.failure))
    {
      sent, body := Call("DELETE", url, J.Null, reply);
    }
  }
}
