/** Request and response shapes of the two endpoints. */
module Models {

  /** Body of `POST /sign`: `{"userId": ..., "answers": [...]}`. */
  datatype SignRequest = SignRequest(userId: string, answers: seq<string>)

  /** Body of a successful `POST /sign` reply: `{"signature": ...}`. */
  datatype SignResponse = SignResponse(signature: string)

  /** Body of `POST /verify`: `{"userId": ..., "signature": ...}`, the
      anonymous struct the verify handler decodes into. */
  datatype VerifyRequest = VerifyRequest(userId: string, signature: string)
}
