# Authorization guard of the casting-agency backend, in Dafny

This project models the authorization guard of the casting-agency REST
backend (`backend/app/auth/auth.py`). The guard runs in front of protected
route handlers. It either lets the request through or raises an `AuthError`
that carries an error dict and an HTTP status code. It has four steps:

- `get_token_auth_header` takes the bearer token out of the
  `Authorization: Bearer <token>` header (RFC 6750, section 2.1). The code
  is stricter than the RFC: it splits on a single space, and it lower-cases
  the scheme before comparing it.
- `verify_decode_jwt` requires a `kid` in the token's unverified header
  (RFC 7515, section 4.1.4). It scans the JSON Web Key Set entries
  (RFC 7517, section 4.5) for a matching `kid` and copies five members out
  of the match. It then hands the token and that key to the JWT library and
  maps the library's exceptions onto the guard's errors.
- `check_permissions` requires a `permissions` claim that contains the
  required permission.
- `requires_auth` runs the three steps in order and calls the handler only
  when all of them pass.

The project has three modules:

- `Wrappers` holds `Option` and `Result`.
- `PyStr` models the Python string operations the guard uses:
  `str.split(' ')`, `str.lower()` and the substring test `x in s`.
- `Auth` models the guard itself. `get_token_auth_header` and
  `check_permissions` are functions that return a `Result`.
  `verify_decode_jwt` is the method `Auth.VerifyDecodeJwt`. Its `for` loop
  reassigns `rsaKey` on every match, as the source's loop does. The loop is
  proved against the specification function `Auth.VerifyDecode`, which is
  built on `Auth.SelectedKey`. `requires_auth` is the method
  `Auth.RequiresAuth`.

A raised exception is modelled as the value `Failure(e)`, where `e` is of
type `Raised`. `Raised` holds either an `AuthError` (the constructor
`Denied`) or one of the exceptions the guard does not catch:

- a `KeyError` when a key-set entry lacks a member that is looked up;
- a `TypeError` when `in` is applied to a numeric `permissions` claim;
- the JWT library's error when the token's header cannot be read.

## Model

| member | source | states |
|---|---|---|
| `PyStr.Split` | backend/app/auth/auth.py:36 | `str.split(' ')` keeps empty pieces: it gives one more piece than there are spaces, and no piece contains a space |
| `PyStr.JoinSplit` | backend/app/auth/auth.py:36 | joining the pieces of a split with the separator gives back the original string |
| `PyStr.SplitAtSole` | backend/app/auth/auth.py:36-39 | a string with exactly one separator, at index i, splits into exactly the part before i and the part after i |
| `PyStr.Lower` | backend/app/auth/auth.py:46 | lower-casing keeps the length and lower-cases each character |
| `PyStr.LowerEqualsIgnoringCase` | backend/app/auth/auth.py:46 | `w.lower()` equals a lower-case word exactly when each character of w is that word's letter in either case |
| `PyStr.IsSubstring` | backend/app/auth/auth.py:71 | the substring test holds exactly when the needle occurs at some position of the haystack; the empty string occurs in every string |
| `Auth.GetTokenAuthHeader` | backend/app/auth/auth.py:24-54 | an absent or empty header raises the 401 "Authorization header is expected." error, and only such a header does; a non-empty header whose space count is not one raises the 401 "not in right format" error; every failure is a well-formed 401 error; a returned token has no space |
| `Auth.HeaderWithOneSpace` | backend/app/auth/auth.py:36-54 | with exactly one space, at index i, the result is the text after the space when the text before it lower-cases to "bearer", and otherwise the 401 'must start with "Bearer"' error; the scheme check runs only after the part count passed |
| `Auth.HeaderAccepted` | backend/app/auth/auth.py:36-54 | the header is accepted if and only if it is six letters that lower-case to "bearer", then one space, then a tail without spaces; the token returned is that tail, unchanged, which may be empty |
| `Auth.BearerRoundTrip` | backend/app/auth/auth.py:46-54 | putting "Bearer", spelled in any mix of cases, a space and a space-free token together, then extracting, gives back the token |
| `Auth.ExtraSpaceRejected` | backend/app/auth/auth.py:36-44 | `"Bearer  " + t` and `"Bearer " + t + " "` raise the 401 format error for every t |
| `Auth.OtherSchemeRefused` | backend/app/auth/auth.py:46-51 | a space-free scheme that does not lower-case to "bearer", followed by a space and a space-free token, raises the 401 'must start with "Bearer"' error |
| `Auth.ClaimContains` | backend/app/auth/auth.py:71 | Python's `in` on a claim: membership in a list of strings, substring test on a string, and a TypeError on a number |
| `Auth.CheckPermissions` | backend/app/auth/auth.py:59-78 | a payload without `permissions` raises the 400 error, and only such a payload does; a list claim passes if and only if the permission is an exact element of it, and otherwise raises the 403 "No Permission" error; the default '' gets no special case; a string claim passes if and only if it contains the permission as a substring; a numeric claim raises TypeError; success returns True |
| `Auth.EntryFault` | backend/app/auth/auth.py:98-106 | the loop body raises KeyError on an entry if and only if the entry lacks `kid`, or it matches and lacks one of kty, kid, use, n, e; the member named is one of those and is absent from the entry |
| `Auth.CopyKey` | backend/app/auth/auth.py:100-106 | the selected key has exactly the members kty, kid, use, n and e, each equal to the entry's |
| `Auth.FirstFault` | backend/app/auth/auth.py:98-106 | the index of the first entry the loop raises on; every entry before it passes, and when there is none, every entry passes |
| `Auth.LastMatch` | backend/app/auth/auth.py:98-106 | the index of the last entry whose `kid` equals the token's; no later entry matches, and when there is none, no entry matches |
| `Auth.SelectedKey` | backend/app/auth/auth.py:90-106 | the loop raises KeyError if and only if some entry is faulty; otherwise `rsa_key` stays empty if and only if no entry matches, and a non-empty `rsa_key` has exactly the five copied members and the token's `kid` |
| `Auth.SelectedIsLastMatch` | backend/app/auth/auth.py:98-106 | when no entry is faulty, the selected key is the copy of the last matching entry; the loop has no `break`, so an earlier match is overwritten |
| `Auth.ClassifyDecode` | backend/app/auth/auth.py:107-137 | a decoded payload is returned unchanged, and only a decoded payload succeeds; an expired signature raises exactly the 401 'token_expired' "Token expired." error, a claims error exactly the 401 'invalid_claims' error about audience and issuer, and every other decode exception exactly the 400 'invalid_header' "Unable to parse authentication token." error, each under the key 'status' |
| `Auth.VerifyDecode` | backend/app/auth/auth.py:86-142 | an unreadable token header raises the library error; a header without `kid` raises the 401 'invalid_header' error; the 400 "Unable to find the appropriate key." error (under 'code') is raised if and only if the `kid` is present, no entry is faulty and no entry matches; with the `kid` present, the first faulty entry's KeyError is passed on, and otherwise, when some entry matches, the result is the classification of what the decoder returns for the token and the copy of the last matching entry, so a `Decoded(p)` outcome gives exactly `Success(p)`; on success the payload is what the decoder returned for this token and the selected key, whose `kid` is the token's; every AuthError raised is well-formed, with status 400 or 401 |
| `Auth.VerifyDecodeJwt` | backend/app/auth/auth.py:86-142 | the method, with its key-selection loop, computes exactly `VerifyDecode`; the loop invariant is that `rsaKey` is the selection over the entries scanned so far |
| `Auth.RequiresAuth` | backend/app/auth/auth.py:147-157 | the steps run in the order header, verify, permissions, and the first failure is the one raised; the handler's result on the same arguments is returned only when all three steps succeed; every AuthError that escapes is well-formed, with status 400, 401 or 403 |

## Left out

- The key-set fetch (`urlopen`, `json.loads`, auth.py:87-88) is network I/O. The key set is a parameter: the sequence of its `keys` entries. A missing `keys` member, which would raise KeyError, is not modelled. The fetch happens before the `kid` check, but that order shows only through I/O.
- `jwt.get_unverified_header` and `jwt.decode` (auth.py:89, 109-115) are parameters. They do base64url and JSON decoding, RS256 signature checking and the `exp`/`aud`/`iss` checks. The constants `AUTH0_DOMAIN`, `ALGORITHMS` and `API_AUDIENCE` (auth.py:8-10, 112-114) are only handed to the library, so they are not modelled.
- The Flask request context: the header is passed in as an `Option<string>`. The `functools.wraps` decorator mechanics are not modelled either: `RequiresAuth` takes the handler and its arguments directly, and the handler is a pure function.
- `PyStr.Lower`: models Python's Unicode `str.lower()` only for ASCII letters and leaves every other character unchanged.
- JSON values: key-set entries and the unverified header are objects with string members. Non-string members and Python's equality across types are not modelled. Payload claims are strings, integers or lists of strings. Null, booleans, nested objects and lists with non-string elements are not modelled.
- What Flask does with an exception the guard does not catch (`KeyError`, `TypeError`, the library's error), and how the error handlers render an `AuthError`, is outside the guard.
- Repeated calls give the same result because every member is a function of its inputs, so no separate lemma states this.
- The code is stricter or plainer than RFC 6750 or a reader might expect, and the model follows the code:
  - the header is split on a single space, not on any whitespace;
  - an empty required permission is not always granted: it passes only if `''` is an element of the list claim, or if the claim is a string;
  - the key-not-found error puts its label under 'code', where every other token error uses 'status';
  - a failure of the key-set fetch is not classified: whatever `urlopen` or `json.loads` raises escapes the guard.
