/** The shape of the JSON responses the chirp endpoints send: a status code
    and either the error envelope `{"error": msg}` or the validation result
    `{"cleaned_body": ...}`. Marshalling and writing are not modelled. */
module Http {
  import opened GoStrings

  const StatusOK: nat := 200
  const StatusBadRequest: nat := 400
  const StatusInternalServerError: nat := 500

  datatype Payload =
    | ErrorPayload(error: string)
    | CleanedPayload(cleanedBody: Bytes)

  datatype Response = Response(status: nat, payload: Payload)

  /** `respondWithError(w, code, msg, err)`: the message goes out in the
      error envelope; the logged `err` leaves no trace in the response. */
  function RespondWithError(code: nat, msg: string): Response
  {
    Response(code, ErrorPayload(msg))
  }
}
