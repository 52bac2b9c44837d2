/**
 * BasicAuthMiddleware.InvokeAsync: the decision chain over the Authorization
 * header. Base64 and UTF-8 decoding are library calls and are taken as a
 * parameter `decode` (None when Convert.FromBase64String throws a
 * FormatException); what the next middleware does is taken as `next`.
 */
module BasicAuth {
  import opened Wrappers
  import opened Text

  const Scheme: string := "Basic"
  const CredentialSeparator: char := ':'

  const Status400BadRequest: int := 400
  const Status401Unauthorized: int := 401
  const Status500InternalServerError: int := 500

  /** How the rest of the pipeline behaves once it is invoked. */
  datatype Downstream = Completes | ThrowsArgumentException | ThrowsFormatException | ThrowsOther

  /** How the request ends. */
  datatype Outcome =
    | Respond(status: int)              // the middleware answers; next is not invoked
    | Forwarded                         // next ran to completion
    | ForwardedThenFailed(status: int)  // next threw; the middleware answers

  predicate NextInvoked(o: Outcome) {
    o.Forwarded? || o.ForwardedThenFailed?
  }

  /** The header's text after the first five characters, trimmed. No space
      is needed after the scheme name. */
  function CredentialText(header: string): (text: string)
    requires |header| >= |Scheme|
    ensures text == Trim(header[|Scheme|..])
    ensures |text| <= |header| - |Scheme|
    ensures text == [] <==> IsBlank(header[|Scheme|..])
    ensures text == [] || (!IsWhiteSpace(text[0]) && !IsWhiteSpace(text[|text| - 1]))
  {
    Trim(header[|Scheme|..])
  }

  /** The middleware's decision for `header` (empty when absent), with the
      configured `username` and `password`. */
  function Authenticate(header: string, username: string, password: string,
                        decode: string -> Option<string>, next: Downstream): (o: Outcome)
    // no header, or another scheme: 401 and next is not invoked
    ensures (header == [] || !StartsWithIgnoreCase(header, Scheme)) ==> o == Respond(Status401Unauthorized)
    // credentials that are not Base64: 400
    ensures StartsWithIgnoreCase(header, Scheme) && decode(CredentialText(header)) == None ==>
              o == Respond(Status400BadRequest)
    // next runs only for a decoded text that is exactly "username:password"
    ensures NextInvoked(o) ==>
              && StartsWithIgnoreCase(header, Scheme)
              && decode(CredentialText(header)) == Some(username + [CredentialSeparator] + password)
    // a configured password containing ':' can never be presented
    ensures CredentialSeparator in password ==> !NextInvoked(o)
    // an exception from next: 400 for argument and format errors, 500 otherwise
    ensures NextInvoked(o) ==>
              o == match next
                   case Completes => Forwarded
                   case ThrowsOther => ForwardedThenFailed(Status500InternalServerError)
                   case _ => ForwardedThenFailed(Status400BadRequest)
    // a configured username containing ':' can never be presented either
    ensures CredentialSeparator in username ==> !NextInvoked(o)
    ensures o.Respond? ==> o.status in {Status400BadRequest, Status401Unauthorized}
  {
    if header == [] || !StartsWithIgnoreCase(header, Scheme) then
      Respond(Status401Unauthorized)
    else
      match decode(CredentialText(header))
      case None => Respond(Status400BadRequest)
      case Some(decoded) =>
        var credentials := Split(decoded, CredentialSeparator);
        if |credentials| != 2 then
          Respond(Status400BadRequest)
        else if credentials[0] != username || credentials[1] != password then
          Respond(Status401Unauthorized)
        else
          assert credentials == [credentials[0], credentials[1]];
          JoinPair(credentials[0], credentials[1], CredentialSeparator);
          assert decoded == credentials[0] + [CredentialSeparator] + credentials[1];
          match next
          case Completes => Forwarded
          case ThrowsArgumentException => ForwardedThenFailed(Status400BadRequest)
          case ThrowsFormatException => ForwardedThenFailed(Status400BadRequest)
          case ThrowsOther => ForwardedThenFailed(Status500InternalServerError)
  }

  /** For configured credentials without ':', next is invoked exactly when
      the header carries the Basic scheme and decodes to "username:password". */
  lemma NextInvokedIff(header: string, username: string, password: string,
                       decode: string -> Option<string>, next: Downstream)
    requires CredentialSeparator !in username && CredentialSeparator !in password
    ensures NextInvoked(Authenticate(header, username, password, decode, next)) <==>
              && StartsWithIgnoreCase(header, Scheme)
              && decode(CredentialText(header)) == Some(username + [CredentialSeparator] + password)
  {
    if StartsWithIgnoreCase(header, Scheme)
       && decode(CredentialText(header)) == Some(username + [CredentialSeparator] + password)
    {
      SplitPair(username, password, CredentialSeparator);
    }
  }

  /** Section 2 of RFC 7617 lets the password contain ':' (only the user-id
      may not); here a decoded text with a second ':' has three parts and is
      answered with 400 whatever is configured. */
  lemma ColonInPasswordIsBadRequest(header: string, username: string, password: string,
                                    user: string, pass: string,
                                    decode: string -> Option<string>, next: Downstream)
    requires StartsWithIgnoreCase(header, Scheme)
    requires decode(CredentialText(header)) == Some(user + [CredentialSeparator] + pass)
    requires CredentialSeparator in pass
    ensures Authenticate(header, username, password, decode, next) == Respond(Status400BadRequest)
  {
    SplitManyParts(user, pass, CredentialSeparator);
  }

  /** Well-formed credentials that are not the configured ones: 401, and
      next is not invoked. */
  lemma WrongCredentialsUnauthorized(header: string, username: string, password: string,
                                     user: string, pass: string,
                                     decode: string -> Option<string>, next: Downstream)
    requires StartsWithIgnoreCase(header, Scheme)
    requires decode(CredentialText(header)) == Some(user + [CredentialSeparator] + pass)
    requires CredentialSeparator !in user && CredentialSeparator !in pass
    requires user != username || pass != password
    ensures Authenticate(header, username, password, decode, next) == Respond(Status401Unauthorized)
  {
    SplitPair(user, pass, CredentialSeparator);
  }

  /** A decoded text without any ':' is one part only: 400. */
  lemma NoSeparatorIsBadRequest(header: string, username: string, password: string,
                                decoded: string, decode: string -> Option<string>, next: Downstream)
    requires StartsWithIgnoreCase(header, Scheme)
    requires decode(CredentialText(header)) == Some(decoded)
    requires CredentialSeparator !in decoded
    ensures Authenticate(header, username, password, decode, next) == Respond(Status400BadRequest)
  {
    SplitWithoutSeparator(decoded, CredentialSeparator);
  }

  /** The scheme is matched in any letter case; another scheme is not. */
  lemma SchemeInAnyCase()
    ensures StartsWithIgnoreCase("basic dXNlcjpwYXNz", Scheme)
    ensures StartsWithIgnoreCase("BASIC dXNlcjpwYXNz", Scheme)
    ensures StartsWithIgnoreCase("Basic dXNlcjpwYXNz", Scheme)
    ensures !StartsWithIgnoreCase("Bearer token", Scheme)
    ensures !StartsWithIgnoreCase("Basi", Scheme)
  {
    assert "Bearer token"[1] == 'e' && Scheme[1] == 'a';
    assert ToUpperAscii("Bearer token"[1]) != ToUpperAscii(Scheme[1]);
  }

  /** Only the trimmed text after the scheme name matters: two Basic headers
      with the same credential text are decided alike. */
  lemma OnlyCredentialTextMatters(h1: string, h2: string, username: string, password: string,
                                  decode: string -> Option<string>, next: Downstream)
    requires StartsWithIgnoreCase(h1, Scheme) && StartsWithIgnoreCase(h2, Scheme)
    requires CredentialText(h1) == CredentialText(h2)
    ensures Authenticate(h1, username, password, decode, next) ==
            Authenticate(h2, username, password, decode, next)
  {
  }

  /** With the default configuration (empty Username and Password) a header
      whose credentials decode to ":" is let through. */
  lemma EmptyConfigurationAcceptsBareColon(header: string, decode: string -> Option<string>)
    requires StartsWithIgnoreCase(header, Scheme)
    requires decode(CredentialText(header)) == Some([CredentialSeparator])
    ensures Authenticate(header, "", "", decode, Completes) == Forwarded
  {
    SplitPair("", "", CredentialSeparator);
    assert "" + [CredentialSeparator] + "" == [CredentialSeparator];
  }
}
