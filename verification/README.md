# Chirp body sanitiser, modelled in Dafny

This project models the content sanitiser of a small chirp (short post) web
backend written in Go. Before a chirp is stored, and on a validation-only
endpoint, the body goes through two steps:

1. **Length gate.** A body longer than 140 is refused with "Chirp is too long".
   Go's `len` on a string counts UTF-8 bytes, so the model works on byte
   strings (`GoStrings.Bytes`, a sequence of 0..255 values).
2. **Word-level redaction** (`getCleanedBody`). The body is split on the
   single space byte. Each token is lower-cased and looked up in the
   three-word denylist `kerfuffle`, `sharbert`, `fornax`. A token that matches
   is replaced by `****`. The tokens are joined back with single spaces.

The Go code holds `getCleanedBody` twice, in `handler_chirps_create.go` and
in `handler_validate.go`. The code of the two copies is identical; only their comments differ. Both files
are in `package main`, so the repository as given would not even compile.
The model defines the redaction once, as `Sanitizer.GetCleanedBody`, and both
endpoints use it. `Sanitizer.CleanBody` is the Go loop as written: it
overwrites bad words in the slice in place. It is proved to compute the same
function.

Modules and files:

- `go_strings.dfy`, module `GoStrings`: bytes, `strings.Split(s, " ")`,
  `strings.Join(ts, " ")` and an ASCII `strings.ToLower`, with the
  split/join round trips proved in both directions.
- `sanitizer.dfy`, module `Sanitizer`: the 140-byte limit, the denylist,
  the redaction, the Go loop, and the properties of the redaction.
- `chirps_create.dfy`, module `ChirpsCreate`: `validateChirp`, and
  `handlerChirpsCreate` up to the database insert.
- `chirps_validate.dfy`, module `ChirpsValidate`: `handlerChirpsValidate`,
  and the agreement of the two endpoints.
- `http.dfy`, module `Http`: the status codes and the JSON envelopes the
  handlers answer with.
- `sanitizer_cases.dfy`, module `SanitizerCases`: concrete bodies worked
  through the model.
- `wrappers.dfy`, module `Wrappers`: `Option`.

JSON decoding is a parameter: a handler receives `Option` of the decoded
request, and `None` stands for a body that did not decode.

## Model

| member | source | states |
|---|---|---|
| GoStrings.Split | handler_chirps_create.go:90 | Splitting on " " always yields at least one token. It yields one more token than the body has spaces, including empty tokens from leading, trailing or repeated spaces, and no token contains a space. |
| GoStrings.JoinSplit | handler_chirps_create.go:90-103 | Joining the tokens of a split with single spaces gives back exactly the string that was split. |
| GoStrings.SplitJoin | handler_validate.go:59-72 | Splitting the join of at least one space-free token gives back exactly those tokens, in order. |
| GoStrings.LowerByte | handler_chirps_create.go:94 | The lower-casing applied to each byte of a token: 'A'..'Z' move up by 32 to 'a'..'z', the result is never an upper-case letter, and every other byte is kept. |
| Sanitizer.GetCleanedBody | handler_chirps_create.go:87-106 | The output has as many space-separated tokens, and as many spaces, as the body. A token whose lower-case form is a bad word becomes exactly `****` at the same index. Every other token is kept byte for byte, original casing included. |
| Sanitizer.CleanBody | handler_validate.go:56-75 | The loop that overwrites bad words of the split slice in place and then joins the slice computes exactly `GetCleanedBody`. This is the copy in the validation handler. |
| Sanitizer.CleanedDeterminedByTokens | handler_chirps_create.go:92-103 | Any string whose space-separated tokens are the body's tokens, each replaced by `****` when it is bad, in the same places and as many, is exactly the cleaned body. So the token-wise contract of `GetCleanedBody` determines its output completely. |
| Sanitizer.CleanSingleToken | handler_validate.go:61-72 | A body with no space is a single token: it comes back as `****` if it is bad and unchanged otherwise. |
| Sanitizer.NoBadTokenUnchanged | handler_chirps_create.go:92-100 | For any set of bad words: if no token is bad, the output equals the input. |
| Sanitizer.UnchangedOnlyIfNoBadToken | handler_chirps_create.go:96-98 | When `****` is not a bad word and the output equals the input, no token of the input is bad: a bad token would have become `****`. |
| Sanitizer.UnchangedIffNoBadToken | handler_chirps_create.go:92-103 | When `****` is not itself a bad word, as for the denylist, the output equals the input exactly when no token is bad. |
| Sanitizer.EmptyBodyStaysEmpty | handler_chirps_create.go:90-105 | The empty body cleans to the empty body. |
| Sanitizer.CleanIdempotent | handler_chirps_create.go:96-98 | Cleaning an already cleaned body changes nothing, provided `****` is not a bad word. |
| Sanitizer.CleanedNotLonger | handler_chirps_create.go:98-103 | If every bad word is at least 4 bytes long, the output is never longer than the body. Lower-casing keeps the length, and `****` is 4 bytes. |
| Sanitizer.StarsHaveNoSpace | handler_chirps_create.go:98 | The replacement `****` is 4 bytes long, contains no space and is its own lower-case form. So it stays a single token and is never matched by lower-casing into a bad word. |
| Sanitizer.DenylistFacts | handler_chirps_create.go:76-80 | `****` is not in the denylist, and neither is the empty token. Every bad word is at least as long as `****`. |
| Sanitizer.DenylistIsLowerCase | handler_validate.go:40-44 | Every bad word is its own lower-case form, so a token spelled exactly as a bad word is redacted. |
| ChirpsCreate.ValidateChirp | handler_chirps_create.go:69-85 | The result carries an error exactly when the body is over 140 bytes. In that case the error is "Chirp is too long" and the string is empty. Any other body, including one of exactly 140 bytes, has no error and comes back as `GetCleanedBody(body, denylist)`, which is no longer than the body. |
| ChirpsCreate.ValidateChirpFixpoint | handler_chirps_create.go:72-84 | Validating an accepted chirp's cleaned body again accepts it and returns it unchanged. |
| ChirpsCreate.PrepareChirp | handler_chirps_create.go:22-53 | Before the insert, a request that did not decode gets a 500 with "Couldn't decode parameters". The handler refuses exactly the bodies over 140 bytes, with a 400 and the validation message. Otherwise it inserts the cleaned body for the same author. |
| ChirpsValidate.HandleValidate | handler_validate.go:9-53 | A request that did not decode gets a 500. A 400 "Chirp is too long" answers exactly the bodies over 140 bytes, and no cleaning is done on that path. Any other body gets a 200 whose `cleaned_body` is `GetCleanedBody(body, denylist)` with the same denylist. |
| ChirpsValidate.EndpointsAgree | handler_validate.go:32-53 | The validation endpoint refuses a body exactly when chirp creation refuses it, with the same response. Otherwise the body it echoes is the one chirp creation inserts. |
| ChirpsValidate.ValidateEchoIsStable | handler_validate.go:46-53 | Sending the echoed `cleaned_body` back to the validation endpoint yields the same response. |
| SanitizerCases.RedactsWholeWord | handler_chirps_create.go:87-106 | "kerfuffle is bad" is accepted as "**** is bad". |
| SanitizerCases.RedactsAnyCasing | handler_chirps_create.go:94-98 | "KeRfUfFlE" is accepted as "****". |
| SanitizerCases.KeepsPartialMatch | handler_chirps_create.go:94-96 | "kerfuffled" is accepted unchanged, because only whole tokens match. |
| SanitizerCases.KeepsRepeatedSpaces | handler_validate.go:59-72 | "a  b", with two spaces, is accepted unchanged, including the empty token between the spaces. |
| SanitizerCases.LengthBoundary | handler_chirps_create.go:71-74 | A body of exactly 140 bytes is accepted. A body of 141 bytes is refused with "Chirp is too long". |

## Left out

- GoStrings.LowerByte: the lowering covers ASCII letters only. Go's `strings.ToLower` is full Unicode. On ASCII input the two agree. For this denylist, they differ only on tokens that spell "kerfuffle" with U+212A KELVIN SIGN, which Go lowers to `k` and which the model does not redact. Go also turns invalid UTF-8 into U+FFFD before comparing; such a token can never equal an ASCII bad word, so this does not change the result.
- The length limit counts bytes, as Go's `len` does, not characters or grapheme clusters; a body of 140 characters with multi-byte UTF-8 characters in it is refused.
- The database insert, the 201 response after it and the insert's 500 path (`handler_chirps_create.go` after line 53) are not modelled. The database is an external service.
- JSON decoding and encoding and writing to the response (`json.go`) are not modelled. The decoded request is a parameter, and a marshalling failure cannot happen for these payloads.
- Logging inside `respondWithError` is not modelled. It has no effect on the response.
- Password hashing (`internal/auth/auth.go`), users, login, chirp listing, the hit counter, reset, readiness and server start-up (`main.go`) are not part of this model. They are plumbing around external libraries and the database, with no sanitiser logic.
