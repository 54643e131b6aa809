/** The header side of bearer-token authentication. Checking the token's
    signature and expiry is left to a predicate the caller supplies. */
module Auth {
  import opened Results
  import opened GoStrings

  const AuthorizationName: string := "Authorization"
  const BearerPrefix: string := "Bearer "

  /** The token a request presents: the "Authorization" header, looked up
      under exactly that spelling (a missing header reads as empty), must
      begin with "Bearer "; the token is the rest of the value. */
  function BearerToken(headers: map<string, string>): (r: Option<string>)
    ensures r.Some? <==> AuthorizationName in headers && HasPrefix(headers[AuthorizationName], BearerPrefix)
    ensures r.Some? ==> headers[AuthorizationName] == BearerPrefix + r.value
  {
    var auth := if AuthorizationName in headers then headers[AuthorizationName] else "";
    if !HasPrefix(auth, BearerPrefix) then None
    else
      var token := TrimPrefix(auth, BearerPrefix);
      assert auth == auth[..|BearerPrefix|] + token;
      Some(token)
  }

  /** A request is authorised when it presents a token the validator accepts. */
  predicate Authorized(tokenValid: string -> bool, headers: map<string, string>) {
    match BearerToken(headers)
    case None => false
    case Some(t) => tokenValid(t)
  }

  /** Whatever token a client puts after "Bearer " is the token read back,
      whatever other headers the request has. */
  lemma BearerRoundTrip(headers: map<string, string>, token: string)
    ensures BearerToken(headers[AuthorizationName := BearerPrefix + token]) == Some(token)
  {
    var h := headers[AuthorizationName := BearerPrefix + token];
    assert (BearerPrefix + token)[..|BearerPrefix|] == BearerPrefix;
    assert BearerToken(h).Some?;
  }

  /** The header name is matched exactly: a request whose only spelling of
      it is lower case presents no token, and neither does a value with a
      different scheme word. */
  lemma HeaderNameIsCaseSensitive(token: string)
    ensures BearerToken(map["authorization" := BearerPrefix + token]) == None
    ensures BearerToken(map[AuthorizationName := "bearer " + token]) == None
  {
    var m := map[AuthorizationName := "bearer " + token];
    assert m[AuthorizationName][0] != BearerPrefix[0];
  }
}
