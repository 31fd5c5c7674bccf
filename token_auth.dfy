/**
 * The bearer-token gate in front of the mutating endpoints: the request goes on
 * only when the extracted token is exactly the configured string.
 */
module TokenAuth {
  import opened Common
  import opened Http

  const ExpectedToken: string := "artificially-token"

  const UnauthorizedMessage: string := "Unauthorized. Invalid or missing token."

  /**
   * The gate's test: strict comparison with the expected string. A missing token
   * (no header, or no `Bearer ` prefix) is null and never equal.
   */
  predicate Admits(token: Option<string>)
  {
    token == Some(ExpectedToken)
  }

  /** The single response every rejected request gets. */
  function Unauthorized(): Response
  {
    ErrorResponse(401, UnauthorizedMessage)
  }

  /**
   * `handle`: either short-circuit with 401 or pass the request on to `next`.
   * The controller methods that change state (`Destroy`, `Store`) write this gate
   * inline as their first step, returning `Unauthorized()` when `Admits` fails.
   */
  function Handle(token: Option<string>, next: () -> Response): (r: Response)
    ensures Admits(token) ==> r == next()
    ensures !Admits(token) ==> r.status == 401 && r.body == Json(false, Some(UnauthorizedMessage), None)
  {
    if Admits(token) then next() else Unauthorized()
  }

  /** The comparison is exact: a token passes iff it has the expected characters, in order. */
  lemma AdmitsExactly(token: Option<string>)
    ensures Admits(token) <==>
      token.Some? && |token.value| == |ExpectedToken| &&
      forall i :: 0 <= i < |ExpectedToken| ==> token.value[i] == ExpectedToken[i]
  {
    if token.Some? && |token.value| == |ExpectedToken| &&
      forall i :: 0 <= i < |ExpectedToken| ==> token.value[i] == ExpectedToken[i] {
      assert token.value == ExpectedToken;
    }
  }

  /** A missing token, an empty one, a wrong one, a wrongly cased one and a padded one all fail. */
  lemma NearMissesRejected()
    ensures !Admits(None)
    ensures !Admits(Some(""))
    ensures !Admits(Some("invalid-token"))
    ensures !Admits(Some("Artificially-Token"))
    ensures !Admits(Some(" artificially-token  "))
  {
    assert "Artificially-Token"[0] != ExpectedToken[0];
    assert |" artificially-token  "| != |ExpectedToken|;
  }

  /** Whatever the reason for rejecting, the response is the same, and `next` is not consulted. */
  lemma RejectionsIndistinguishable(t1: Option<string>, t2: Option<string>, n1: () -> Response, n2: () -> Response)
    requires !Admits(t1) && !Admits(t2)
    ensures Handle(t1, n1) == Handle(t2, n2)
  {
  }
}
