/** A model of the token-signing library (jsonwebtoken) used by the router.

    Tokens are signed with one server-held secret. The router relies on two
    laws: verifying a signed token gives back the payload that was signed, and
    verifying any other string fails (`jwt.verify` throws). The model is the
    free one satisfying them: a token is either the signature of a payload or
    some other text (a tampered, truncated or foreign token, or the empty string
    written by logout). The cryptography is not part of this model. */
module Jwt {

  import opened Wrappers

  datatype Token<P> = Signed(claims: P) | Text(text: string)

  /** `jwt.sign(payload, secret)` */
  function Sign<P>(payload: P): Token<P>
  {
    Signed(payload)
  }

  /** `jwt.verify(token, secret)`, with `None` for the thrown error. */
  function Verify<P>(token: Token<P>): Option<P>
  {
    match token
    case Signed(p) => Some(p)
    case Text(_) => None
  }

  /** Verification returns exactly what was signed. */
  lemma VerifySign<P>(payload: P)
    ensures Verify(Sign(payload)) == Some(payload)
  {
  }

  /** A token that verifies was produced by `Sign`, and from the payload it
      yields: any other string fails. */
  lemma VerifyOnlySigned<P>(token: Token<P>)
    ensures Verify(token).Some? ==> token == Sign(Verify(token).value)
  {
  }
}
