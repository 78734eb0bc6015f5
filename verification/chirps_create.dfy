/** Chirp creation: `validateChirp` (the length gate followed by the
    redaction) and the part of `handlerChirpsCreate` that runs before the
    database insert. */
module ChirpsCreate {
  import opened Wrappers
  import opened GoStrings
  import opened Sanitizer
  import opened Http

  const TooLongMessage: string := "Chirp is too long"
  const DecodeFailedMessage: string := "Couldn't decode parameters"

  /** Go's `(string, error)` pair returned by `validateChirp`; a `None`
      error is Go's `nil`. */
  datatype Validated = Validated(cleaned: Bytes, err: Option<string>)

  /** `validateChirp(body)`: a body of more than 140 bytes is refused with
      the empty string and "Chirp is too long"; any other body, 140 bytes
      included, is accepted and comes back cleaned against the denylist,
      never longer than it was. */
  function ValidateChirp(body: Bytes): (r: Validated)
    ensures r.err.Some? <==> |body| > MaxChirpLength
    ensures r.err.Some? ==> r.cleaned == [] && r.err.value == TooLongMessage
    ensures r.err.None? ==> r.cleaned == GetCleanedBody(body, Denylist)
    ensures r.err.None? ==> |r.cleaned| <= |body| <= MaxChirpLength
  {
    if |body| > MaxChirpLength then
      Validated([], Some(TooLongMessage))
    else
      DenylistFacts();
      CleanedNotLonger(body, Denylist);
      Validated(GetCleanedBody(body, Denylist), None)
  }

  /** The decoded request of `handlerChirpsCreate`; the author's UUID is
      kept as its bytes and only passed through. */
  datatype CreateParams = CreateParams(body: Bytes, userId: Bytes)

  /** What `handlerChirpsCreate` does before touching the database: answer
      with an error, or insert the cleaned chirp for the given author. */
  datatype CreateStep =
    | Reject(response: Response)
    | Insert(body: Bytes, userId: Bytes)

  /** `handlerChirpsCreate` up to the insert. A body that did not decode is
      a 500; a body over 140 bytes is a 400 carrying the validation error's
      message; otherwise the cleaned body is inserted for the same author. */
  function PrepareChirp(decoded: Option<CreateParams>): (r: CreateStep)
    ensures decoded.None? ==> r == Reject(Response(StatusInternalServerError, ErrorPayload(DecodeFailedMessage)))
    ensures decoded.Some? ==> (r.Reject? <==> |decoded.value.body| > MaxChirpLength)
    ensures decoded.Some? && r.Reject? ==> r.response == Response(StatusBadRequest, ErrorPayload(TooLongMessage))
    ensures r.Insert? ==> decoded.Some? && r.userId == decoded.value.userId
    ensures r.Insert? ==> r.body == GetCleanedBody(decoded.value.body, Denylist)
  {
    match decoded
    case None => Reject(RespondWithError(StatusInternalServerError, DecodeFailedMessage))
    case Some(params) =>
      var v := ValidateChirp(params.body);
      if v.err.Some? then Reject(RespondWithError(StatusBadRequest, v.err.value))
      else Insert(v.cleaned, params.userId)
  }

  /** An accepted chirp is a fixed point: validating the stored body again
      accepts it and leaves it as it is. */
  lemma ValidateChirpFixpoint(body: Bytes)
    requires |body| <= MaxChirpLength
    ensures ValidateChirp(ValidateChirp(body).cleaned) == ValidateChirp(body)
  {
    DenylistFacts();
    CleanIdempotent(body, Denylist);
  }
}
