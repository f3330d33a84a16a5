/**
 * The authorization guard that runs in front of protected handlers:
 * bearer-token extraction from the Authorization header, selection of the
 * signing key from a JSON Web Key Set, classification of the decoder's
 * outcome, the permission-claim check, and their composition.
 *
 * The library calls that read the token's unverified header and verify the
 * token (signature, `exp`, `aud`, `iss`) are parameters of the model; the
 * key set is passed in as the sequence of its `keys` entries.
 */
module Auth {
  import opened Wrappers
  import opened PyStr

  // =======================================================================
  // AuthError and the errors the guard raises
  // =======================================================================

  /** The value under the dict's second key: an HTTP code (header and
      permission errors) or a symbolic label (token errors). */
  datatype Tag = Code(n: int) | Label(name: string)

  /** The error dict `{'success': ..., key: tag, 'description': ...}`. */
  datatype ErrorDict = ErrorDict(success: bool, key: string, tag: Tag, description: string)

  /** An AuthError: the error dict and the HTTP status code. */
  datatype AuthError = AuthError(error: ErrorDict, statusCode: int)

  /** What a step raises: an AuthError, or an exception the guard does not
      catch and that therefore leaves it unclassified. */
  datatype Raised =
    | Denied(authError: AuthError)
    | KeyError(key: string)  // a JSON object lacks a member that is looked up
    | TypeError              // `in` applied to a claim that is not a container
    | JoseError              // the token's header segment cannot be read

  const MissingHeader := AuthError(ErrorDict(false, "status", Code(401), "Authorization header is expected."), 401)
  const WrongFormat := AuthError(ErrorDict(false, "status", Code(401), "Authorization header is not in right format."), 401)
  const NotBearer := AuthError(ErrorDict(false, "status", Code(401), "Authorization header must start with \"Bearer\"."), 401)
  const PermissionsMissing := AuthError(ErrorDict(false, "status", Code(400), "Permissions not included in JWT"), 400)
  const NoPermission := AuthError(ErrorDict(false, "status", Code(403), "No Permission"), 403)
  const KidMissing := AuthError(ErrorDict(false, "status", Label("invalid_header"), "Authorization malformed."), 401)
  const TokenExpired := AuthError(ErrorDict(false, "status", Label("token_expired"), "Token expired."), 401)
  const InvalidClaims := AuthError(ErrorDict(false, "status", Label("invalid_claims"), "Incorrect claims. Please, check the audience and issuer."), 401)
  const Unparseable := AuthError(ErrorDict(false, "status", Label("invalid_header"), "Unable to parse authentication token."), 400)
  /** The one error dict whose label sits under 'code' rather than 'status'. */
  const KeyNotFound := AuthError(ErrorDict(false, "code", Label("invalid_header"), "Unable to find the appropriate key."), 400)

  /** Every AuthError the guard raises: 'success' is false, the status is
      400, 401 or 403, and a numeric tag repeats the status. */
  predicate WellFormed(e: AuthError)
  {
    && !e.error.success
    && e.statusCode in {400, 401, 403}
    && (e.error.key == "status" || e.error.key == "code")
    && (e.error.tag.Code? ==> e.error.tag.n == e.statusCode)
  }

  predicate RaisedWellFormed(x: Raised)
  {
    x.Denied? ==> WellFormed(x.authError)
  }

  // =======================================================================
  // get_token_auth_header
  // =======================================================================

  /** The bearer token in the Authorization header (None when the request
      has no such header). */
  function GetTokenAuthHeader(header: Option<string>): (r: Result<string, AuthError>)
    ensures r.Failure? ==> WellFormed(r.error) && r.error.statusCode == 401
    ensures r == Failure(MissingHeader) <==> header.None? || header.value == ""
    ensures header.Some? && header.value != "" && multiset(header.value)[' '] != 1 ==>
              r == Failure(WrongFormat)
    ensures r.Success? ==> ' ' !in r.value
  {
    if header.None? || header.value == "" then Failure(MissingHeader)
    else
      var parts := Split(header.value, ' ');
      if |parts| != 2 then Failure(WrongFormat)
      else if Lower(parts[0]) != "bearer" then Failure(NotBearer)
      else Success(parts[1])
  }

  /** With exactly one space in the header, the scheme check decides: the
      part before the space, lower-cased, must be "bearer", and the token is
      everything after the space. */
  lemma HeaderWithOneSpace(h: string, i: nat)
    requires i < |h| && h[i] == ' ' && multiset(h)[' '] == 1
    ensures GetTokenAuthHeader(Some(h)) ==
              if Lower(h[..i]) == "bearer" then Success(h[i + 1..]) else Failure(NotBearer)
  {
    SplitAtSole(h, ' ', i);
  }

  /** The headers the extractor accepts are exactly a six-letter "Bearer" in
      any case, one space and a token without spaces (possibly empty), and
      the token it returns is that tail. */
  lemma HeaderAccepted(h: string)
    ensures GetTokenAuthHeader(Some(h)).Success? <==>
              |h| >= 7 && Lower(h[..6]) == "bearer" && h[6] == ' ' && ' ' !in h[7..]
    ensures GetTokenAuthHeader(Some(h)).Success? ==> GetTokenAuthHeader(Some(h)).value == h[7..]
  {
    if |h| >= 7 && Lower(h[..6]) == "bearer" && h[6] == ' ' && ' ' !in h[7..] {
      assert ' ' !in h[..6] by {
        forall k | 0 <= k < 6 ensures h[k] != ' ' {
          assert Lower(h[..6])[k] == LowerChar(h[k]);
        }
      }
      assert h == h[..6] + [h[6]] + h[7..];
      assert multiset(h) == multiset(h[..6]) + multiset([h[6]]) + multiset(h[7..]);
      HeaderWithOneSpace(h, 6);
    }
    if GetTokenAuthHeader(Some(h)).Success? {
      assert multiset(h)[' '] == 1;
      var i :| 0 <= i < |h| && h[i] == ' ';
      HeaderWithOneSpace(h, i);
      assert |Lower(h[..i])| == i;
    }
  }

  /** The scheme is compared without regard to case, and the token comes
      back unchanged: formatting a space-free token behind any spelling of
      "Bearer" and extracting it again gives the token back. */
  lemma BearerRoundTrip(scheme: string, token: string)
    requires |scheme| == 6
    requires forall k :: 0 <= k < 6 ==> SameLetter(scheme[k], "bearer"[k])
    requires ' ' !in token
    ensures GetTokenAuthHeader(Some(scheme + " " + token)) == Success(token)
  {
    var h := scheme + " " + token;
    LowerEqualsIgnoringCase(scheme, "bearer");
    assert h[..6] == scheme && h[7..] == token;
    HeaderAccepted(h);
  }

  /** Spacing is strict: "Bearer" followed by two spaces, or a token
      followed by a trailing space, is a format error whatever the token. */
  lemma ExtraSpaceRejected(token: string)
    ensures GetTokenAuthHeader(Some("Bearer  " + token)) == Failure(WrongFormat)
    ensures GetTokenAuthHeader(Some("Bearer " + token + " ")) == Failure(WrongFormat)
  {
    var h1, h2 := "Bearer  " + token, "Bearer " + token + " ";
    assert h1 == "Bearer" + [' '] + [' '] + token;
    assert h2 == "Bearer" + [' '] + token + [' '];
    assert multiset(h1)[' '] >= 2;
    assert multiset(h2)[' '] >= 2;
  }

  /** Any other scheme is refused once the part count is right. */
  lemma OtherSchemeRefused(scheme: string, token: string)
    requires ' ' !in scheme && ' ' !in token
    requires Lower(scheme) != "bearer"
    ensures GetTokenAuthHeader(Some(scheme + " " + token)) == Failure(NotBearer)
  {
    var h := scheme + " " + token;
    assert h == scheme + [' '] + token;
    assert multiset(h)[' '] == 1;
    assert h[..|scheme|] == scheme;
    HeaderWithOneSpace(h, |scheme|);
  }

  // =======================================================================
  // check_permissions
  // =======================================================================

  /** A claim value of the decoded payload. */
  datatype Claim = Text(s: string) | Number(n: int) | TextList(items: seq<string>)

  type Payload = map<string, Claim>

  /** Python's `item in container` on a claim: list membership, substring
      test on a string, and None where Python raises TypeError. */
  function ClaimContains(container: Claim, item: string): (r: Option<bool>)
    ensures r.None? <==> container.Number?
    ensures container.TextList? ==> r == Some(item in container.items)
    ensures container.Text? ==> r == Some(exists i :: OccursAt(item, container.s, i))
  {
    match container
    case TextList(xs) => Some(item in xs)
    case Text(s) => Some(IsSubstring(item, s))
    case Number(_) => None
  }

  /** The permission check: the payload must carry a 'permissions' claim
      (else 400), and that claim must contain the required permission
      (else 403). The default '' gets no special treatment. */
  function CheckPermissions(payload: Payload, permission: string): (r: Result<bool, Raised>)
    ensures r.Success? ==> r.value
    ensures r.Failure? ==> RaisedWellFormed(r.error)
    ensures r == Failure(Denied(PermissionsMissing)) <==> "permissions" !in payload
    ensures "permissions" in payload && payload["permissions"].TextList? ==>
              (r.Success? <==> permission in payload["permissions"].items) &&
              (r.Failure? ==> r.error == Denied(NoPermission))
    ensures "permissions" in payload && payload["permissions"].Text? ==>
              (r.Success? <==> exists i :: OccursAt(permission, payload["permissions"].s, i)) &&
              (r.Failure? ==> r.error == Denied(NoPermission))
    ensures "permissions" in payload && payload["permissions"].Number? ==> r == Failure(TypeError)
  {
    if "permissions" !in payload then Failure(Denied(PermissionsMissing))
    else match ClaimContains(payload["permissions"], permission)
      case None => Failure(TypeError)
      case Some(false) => Failure(Denied(NoPermission))
      case Some(true) => Success(true)
  }

  // =======================================================================
  // verify_decode_jwt: key selection
  // =======================================================================

  /** A JSON object with string members: a JWKS entry, a selected key, or
      the token's unverified header. */
  type Jwk = map<string, string>

  /** The members copied from the matching entry into the selected key. */
  const CopiedFields: set<string> := {"kty", "kid", "use", "n", "e"}

  predicate Matches(entry: Jwk, kid: string)
  {
    "kid" in entry && entry["kid"] == kid
  }

  /** The member whose lookup raises KeyError when the loop body runs on
      this entry: 'kid' on any entry, then, for a matching entry, the
      copied members in the order kty, kid, use, n, e. */
  function EntryFault(entry: Jwk, kid: string): (r: Option<string>)
    ensures r.None? <==> "kid" in entry && (entry["kid"] == kid ==> CopiedFields <= entry.Keys)
    ensures r.Some? ==> r.value in CopiedFields && r.value !in entry
  {
    if "kid" !in entry then Some("kid")
    else if entry["kid"] != kid then None
    else if "kty" !in entry then Some("kty")
    else if "use" !in entry then Some("use")
    else if "n" !in entry then Some("n")
    else if "e" !in entry then Some("e")
    else None
  }

  /** The key built from a matching entry. */
  function CopyKey(entry: Jwk): (k: Jwk)
    requires CopiedFields <= entry.Keys
    ensures k.Keys == CopiedFields
    ensures forall f :: f in k ==> k[f] == entry[f]
  {
    map["kty" := entry["kty"], "kid" := entry["kid"], "use" := entry["use"], "n" := entry["n"], "e" := entry["e"]]
  }

  /** The index of the first entry on which the loop raises, if any. */
  function FirstFault(keys: seq<Jwk>, kid: string): (r: Option<nat>)
    ensures r.Some? ==> r.value < |keys| && EntryFault(keys[r.value], kid).Some?
    ensures forall j :: 0 <= j < |keys| && (r.None? || j < r.value) ==> EntryFault(keys[j], kid).None?
    decreases |keys|
  {
    if |keys| == 0 then None
    else if EntryFault(keys[0], kid).Some? then Some(0)
    else
      var rest := FirstFault(keys[1..], kid);
      assert forall j :: 1 <= j < |keys| ==> keys[j] == keys[1..][j - 1];
      match rest
      case None => None
      case Some(i) => Some(i + 1)
  }

  /** The index of the last entry whose 'kid' equals the token's, if any. */
  function LastMatch(keys: seq<Jwk>, kid: string): (r: Option<nat>)
    ensures r.Some? ==> r.value < |keys| && Matches(keys[r.value], kid)
    ensures forall j :: 0 <= j < |keys| && (r.None? || r.value < j) ==> !Matches(keys[j], kid)
    decreases |keys|
  {
    if |keys| == 0 then None
    else if Matches(keys[|keys| - 1], kid) then Some(|keys| - 1)
    else LastMatch(keys[..|keys| - 1], kid)
  }

  /** What the key-selection loop leaves in rsa_key, or what it raises: the
      first faulty entry's KeyError; otherwise the five copied members of
      the last matching entry, or the empty dict when nothing matches. */
  function SelectedKey(keys: seq<Jwk>, kid: string): (r: Result<Jwk, Raised>)
    ensures r.Failure? <==> exists j :: 0 <= j < |keys| && EntryFault(keys[j], kid).Some?
    ensures r.Failure? ==> r.error.KeyError? && r.error.key in CopiedFields
    ensures r.Success? ==> (r.value == map[] <==> forall j :: 0 <= j < |keys| ==> !Matches(keys[j], kid))
    ensures r.Success? && r.value != map[] ==> r.value.Keys == CopiedFields && r.value["kid"] == kid
  {
    match FirstFault(keys, kid)
    case Some(i) => Failure(KeyError(EntryFault(keys[i], kid).value))
    case None =>
      match LastMatch(keys, kid)
      case None => Success(map[])
      case Some(j) =>
        assert "kty" in CopyKey(keys[j]);
        Success(CopyKey(keys[j]))
  }

  /** The selected key is a copy of the LAST matching entry: the loop does
      not stop at the first match. */
  lemma SelectedIsLastMatch(keys: seq<Jwk>, kid: string, j: nat)
    requires forall l :: 0 <= l < |keys| ==> EntryFault(keys[l], kid).None?
    requires j < |keys| && Matches(keys[j], kid)
    requires forall l :: j < l < |keys| ==> !Matches(keys[l], kid)
    ensures CopiedFields <= keys[j].Keys
    ensures SelectedKey(keys, kid) == Success(CopyKey(keys[j]))
  {
    assert EntryFault(keys[j], kid).None?;
    var m := LastMatch(keys, kid);
    assert m.Some? && m.value == j;
  }

  // =======================================================================
  // verify_decode_jwt: classifying the decoder's outcome
  // =======================================================================

  /** How the library's decode call ended: the payload, or the exception
      class it raised. */
  datatype DecodeOutcome =
    | Decoded(payload: Payload)
    | Expired       // jwt.ExpiredSignatureError
    | ClaimsError   // jwt.JWTClaimsError (audience or issuer)
    | OtherError    // any other exception

  /** The decoder's outcome mapped onto the guard's errors: expiry and
      claims errors are 401, everything else 400; a payload passes through
      unchanged. */
  function ClassifyDecode(outcome: DecodeOutcome): (r: Result<Payload, Raised>)
    ensures r.Success? <==> outcome.Decoded?
    ensures r.Success? ==> r.value == outcome.payload
    ensures r.Failure? ==> r.error.Denied? && WellFormed(r.error.authError) && r.error.authError.error.key == "status"
    ensures r.Failure? ==> r.error.authError.statusCode == if outcome.OtherError? then 400 else 401
    ensures outcome.Expired? ==> r == Failure(Denied(TokenExpired))
    ensures outcome.ClaimsError? ==> r == Failure(Denied(InvalidClaims))
    ensures outcome.OtherError? ==> r == Failure(Denied(Unparseable))
  {
    match outcome
    case Decoded(payload) => Success(payload)
    case Expired => Failure(Denied(TokenExpired))
    case ClaimsError => Failure(Denied(InvalidClaims))
    case OtherError => Failure(Denied(Unparseable))
  }

  // =======================================================================
  // verify_decode_jwt
  // =======================================================================

  /** The token verifier as a whole. `unverifiedHeader` reads the token's
      header segment (None when it cannot), `decode` verifies the token
      against a key: both stand for the JWT library. */
  function VerifyDecode(token: string, keys: seq<Jwk>,
                        unverifiedHeader: string -> Option<Jwk>,
                        decode: (string, Jwk) -> DecodeOutcome): (r: Result<Payload, Raised>)
    ensures unverifiedHeader(token).None? ==> r == Failure(JoseError)
    ensures unverifiedHeader(token).Some? && "kid" !in unverifiedHeader(token).value ==>
              r == Failure(Denied(KidMissing))
    ensures r == Failure(Denied(KeyNotFound)) <==>
              && unverifiedHeader(token).Some?
              && "kid" in unverifiedHeader(token).value
              && var kid := unverifiedHeader(token).value["kid"];
                 && (forall j :: 0 <= j < |keys| ==> EntryFault(keys[j], kid).None?)
                 && (forall j :: 0 <= j < |keys| ==> !Matches(keys[j], kid))
    ensures r.Success? ==>
              && unverifiedHeader(token).Some?
              && "kid" in unverifiedHeader(token).value
              && var kid := unverifiedHeader(token).value["kid"];
                 && SelectedKey(keys, kid).Success?
                 && SelectedKey(keys, kid).value["kid"] == kid
                 && decode(token, SelectedKey(keys, kid).value) == Decoded(r.value)
    ensures unverifiedHeader(token).Some? && "kid" in unverifiedHeader(token).value ==>
              var kid := unverifiedHeader(token).value["kid"];
              match FirstFault(keys, kid)
              case Some(i) => r == Failure(KeyError(EntryFault(keys[i], kid).value))
              case None =>
                match LastMatch(keys, kid)
                case None => r == Failure(Denied(KeyNotFound))
                case Some(j) =>
                  && r == ClassifyDecode(decode(token, CopyKey(keys[j])))
                  && (decode(token, CopyKey(keys[j])).Decoded? ==>
                        r == Success(decode(token, CopyKey(keys[j])).payload))
    ensures r.Failure? ==> RaisedWellFormed(r.error)
    ensures r.Failure? && r.error.Denied? ==> r.error.authError.statusCode in {400, 401}
  {
    match unverifiedHeader(token)
    case None => Failure(JoseError)
    case Some(header) =>
      if "kid" !in header then Failure(Denied(KidMissing))
      else
        match SelectedKey(keys, header["kid"])
        case Failure(e) => Failure(e)
        case Success(rsaKey) =>
          if rsaKey == map[] then Failure(Denied(KeyNotFound))
          else ClassifyDecode(decode(token, rsaKey))
  }

  /** verify_decode_jwt: reads the token's header, requires its 'kid',
      scans the key set keeping the last match, and hands the token and the
      selected key to the decoder. */
  method VerifyDecodeJwt(token: string, keys: seq<Jwk>,
                         unverifiedHeader: string -> Option<Jwk>,
                         decode: (string, Jwk) -> DecodeOutcome) returns (r: Result<Payload, Raised>)
    ensures r == VerifyDecode(token, keys, unverifiedHeader, decode)
  {
    var header := unverifiedHeader(token);
    if header.None? {
      return Failure(JoseError);
    }
    var rsaKey: Jwk := map[];
    if "kid" !in header.value {
      return Failure(Denied(KidMissing));
    }
    var kid := header.value["kid"];
    for i := 0 to |keys|
      invariant forall j :: 0 <= j < i ==> EntryFault(keys[j], kid).None?
      invariant SelectedKey(keys[..i], kid) == Success(rsaKey)
    {
      var key := keys[i];
      assert keys[..i + 1][..i] == keys[..i];
      if "kid" !in key {
        return Failure(KeyError("kid"));
      }
      if key["kid"] == kid {
        if "kty" !in key {
          return Failure(KeyError("kty"));
        }
        if "use" !in key {
          return Failure(KeyError("use"));
        }
        if "n" !in key {
          return Failure(KeyError("n"));
        }
        if "e" !in key {
          return Failure(KeyError("e"));
        }
        rsaKey := map["kty" := key["kty"], "kid" := key["kid"], "use" := key["use"], "n" := key["n"], "e" := key["e"]];
      }
    }
    assert keys[..|keys|] == keys;
    if rsaKey != map[] {
      r := ClassifyDecode(decode(token, rsaKey));
    } else {
      r := Failure(Denied(KeyNotFound));
    }
  }

  // =======================================================================
  // requires_auth
  // =======================================================================

  /** The guard wrapped around a handler: header, then verification, then
      the permission check; the handler runs, on its own arguments, only
      when all three succeed, and the first failure is what is raised. */
  method RequiresAuth<A, R>(permission: string, handler: A -> R, args: A,
                            header: Option<string>, keys: seq<Jwk>,
                            unverifiedHeader: string -> Option<Jwk>,
                            decode: (string, Jwk) -> DecodeOutcome) returns (r: Result<R, Raised>)
    ensures GetTokenAuthHeader(header).Failure? ==> r == Failure(Denied(GetTokenAuthHeader(header).error))
    ensures GetTokenAuthHeader(header).Success? ==>
              var v := VerifyDecode(GetTokenAuthHeader(header).value, keys, unverifiedHeader, decode);
              && (v.Failure? ==> r == Failure(v.error))
              && (v.Success? && CheckPermissions(v.value, permission).Failure? ==>
                    r == Failure(CheckPermissions(v.value, permission).error))
              && (v.Success? && CheckPermissions(v.value, permission).Success? ==>
                    r == Success(handler(args)))
    ensures r.Failure? ==> RaisedWellFormed(r.error)
  {
    var token := GetTokenAuthHeader(header);
    if token.Failure? {
      return Failure(Denied(token.error));
    }
    var payload := VerifyDecodeJwt(token.value, keys, unverifiedHeader, decode);
    if payload.Failure? {
      return Failure(payload.error);
    }
    var granted := CheckPermissions(payload.value, permission);
    if granted.Failure? {
      return Failure(granted.error);
    }
    r := Success(handler(args));
  }
}
