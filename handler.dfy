/** What the three route handlers share: the JSON response they return and the way
    they read the OAuth access token from the request. */
module Handler {
  import opened Js

  /** A handler's response: an error with its HTTP status, or the value the handler
      goes on with (the JSON it returns, or the request it hands to an external
      service). */
  datatype Response<T> = Failure(status: nat, error: string) | Success(value: T)

  /** `req.headers.get('authorization')?.split(' ')[1]`: the second space-separated
      field of the Authorization header, `undefined` when the header is absent or has
      no space. */
  function AccessToken(authorization: Option<string>): (r: Option<string>)
    ensures r.Some? ==> ' ' !in r.value
    ensures r.Some? <==> authorization.Some? && ' ' in authorization.value
    ensures r.Some? ==> var h := authorization.value;
                        exists a :: ' ' !in a && StartsWith(h, a + " " + r.value) &&
                                    (|h| == |a| + 1 + |r.value| || h[|a| + 1 + |r.value|] == ' ')
  {
    match authorization
    case None => None
    case Some(h) =>
      var fields := Split(h, ' ');
      if |fields| > 1 then
        JoinSplit(h, ' ');
        JoinFirstTwo(fields, ' ');
        var a := fields[0];
        assert h[|a|] == ' ';
        assert ' ' !in a && StartsWith(h, a + " " + fields[1]) &&
               (|h| == |a| + 1 + |fields[1]| || h[|a| + 1 + |fields[1]|] == ' ');
        Some(fields[1])
      else
        JoinSplit(h, ' ');
        None
  }

  /** A `Bearer <token>` header yields the token. */
  lemma BearerToken(token: string)
    requires ' ' !in token
    ensures AccessToken(Some("Bearer " + token)) == Some(token)
  {
    SplitNoSeparator(token, ' ');
    assert "Bearer " + token == "Bearer" + [' '] + token;
    SplitFieldThen("Bearer", ' ', token);
  }
}
