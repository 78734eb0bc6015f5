/** `handlerChirpsValidate`: the validation-only endpoint. It repeats the
    140-byte gate inline and cleans with the same redaction as chirp
    creation, answering `{"cleaned_body": ...}` on success. */
module ChirpsValidate {
  import opened Wrappers
  import opened GoStrings
  import opened Sanitizer
  import opened Http
  import opened ChirpsCreate

  /** `handlerChirpsValidate` given the decoded `body` field (`None` when
      the JSON did not decode). A 400 "Chirp is too long" answers exactly
      the bodies over 140 bytes, and no cleaning happens on that path; any
      other decoded body is answered 200 with its cleaned form. */
  function HandleValidate(decoded: Option<Bytes>): (r: Response)
    ensures decoded.None? ==> r == Response(StatusInternalServerError, ErrorPayload(DecodeFailedMessage))
    ensures decoded.Some? ==> (r.status == StatusBadRequest <==> |decoded.value| > MaxChirpLength)
    ensures r.status == StatusBadRequest ==> r.payload == ErrorPayload(TooLongMessage)
    ensures decoded.Some? && |decoded.value| <= MaxChirpLength ==>
      r == Response(StatusOK, CleanedPayload(GetCleanedBody(decoded.value, Denylist)))
  {
    match decoded
    case None => RespondWithError(StatusInternalServerError, DecodeFailedMessage)
    case Some(body) =>
      if |body| > MaxChirpLength then
        RespondWithError(StatusBadRequest, TooLongMessage)
      else
        Response(StatusOK, CleanedPayload(GetCleanedBody(body, Denylist)))
  }

  /** The two endpoints agree on every body: both refuse the same bodies
      with a 400 and the same message, and on the others the body the
      validation endpoint echoes is the body chirp creation inserts. */
  lemma EndpointsAgree(body: Bytes, userId: Bytes)
    ensures HandleValidate(Some(body)).status == StatusBadRequest <==>
      PrepareChirp(Some(CreateParams(body, userId))).Reject?
    ensures PrepareChirp(Some(CreateParams(body, userId))).Reject? ==>
      PrepareChirp(Some(CreateParams(body, userId))).response == HandleValidate(Some(body))
    ensures PrepareChirp(Some(CreateParams(body, userId))).Insert? ==>
      HandleValidate(Some(body)) ==
        Response(StatusOK, CleanedPayload(PrepareChirp(Some(CreateParams(body, userId))).body))
  {
  }

  /** A body the validation endpoint returned validates to itself again. */
  lemma ValidateEchoIsStable(body: Bytes)
    requires |body| <= MaxChirpLength
    ensures HandleValidate(Some(HandleValidate(Some(body)).payload.cleanedBody)) == HandleValidate(Some(body))
  {
    ValidateChirpFixpoint(body);
  }
}
