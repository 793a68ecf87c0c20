/**
 * The subscription handshake answered by `GET /webhook`: the messaging
 * platform sends `hub.mode`, `hub.verify_token` and `hub.challenge`, and
 * the relay echoes the challenge only for a subscribe request carrying the
 * configured verification token.
 */
module Handshake {
  import opened JsValues

  const Subscribe := "subscribe"

  /** What the GET handler does with the HTTP response. */
  datatype Response =
    | NoResponse                                  // the handler returns without answering
    | Respond(status: nat, body: Option<string>)  // `res.status(..).send(body)` / `res.sendStatus(..)`

  /**
   * The handshake decision. `secret` is the configured verification token,
   * itself possibly undefined when the environment does not set it.
   */
  function Verify(mode: Option<string>, token: Option<string>, challenge: Option<string>,
                  secret: Option<string>): (r: Response)
    ensures r == Respond(200, challenge) <==>
              Truthy(mode) && Truthy(token) && mode == Some(Subscribe) && token == secret
    ensures r == Respond(403, None) <==>
              Truthy(mode) && Truthy(token) && !(mode == Some(Subscribe) && token == secret)
    ensures r == NoResponse <==> !Truthy(mode) || !Truthy(token)
    ensures r.Respond? ==> r.status in {200, 403}
  {
    if Truthy(mode) && Truthy(token) then
      if mode == Some(Subscribe) && token == secret then Respond(200, challenge)
      else Respond(403, None)
    else
      NoResponse
  }

  /** An undefined configured token never lets a request through, whatever token it carries. */
  lemma UnsetSecretRejects(mode: Option<string>, token: Option<string>, challenge: Option<string>)
    ensures Verify(mode, token, challenge, None).Respond? ==> Verify(mode, token, challenge, None).status == 403
  {
  }
}
