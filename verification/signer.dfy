/** The two HTTP handlers, their validators, and the fingerprint ("signature")
    generator. Each handler is a pure function from the request and the
    table to a response and the new table. */
module Signer {
  import opened Wrappers
  import opened Bytes
  import opened Text
  import opened Models
  import opened Db
  import Utf8
  import Hex

  const StatusOK := 200
  const StatusCreated := 201
  const StatusBadRequest := 400
  const StatusUnauthorized := 401
  const StatusNotFound := 404
  const StatusMethodNotAllowed := 405
  const StatusInternalServerError := 500

  const MsgMethodNotAllowed := "method not allowed"
  const MsgUserIdNull := "user id cannot be null"
  const MsgAnswersRequired := "answers are required"
  const MsgUserIdRequired := "userId required"
  const MsgSignatureRequired := "signature required"
  const MsgAuthRequired := "authorization header is required"
  const MsgAuthFormat := "authorization header format must be Bearer {token}"
  const MsgMethodNotAllowedHere := "Method not allowed here"
  const MsgInvalidFormat := "Invalid request format"
  const MsgInternal := "Internal server error"
  const MsgNoSession := "No matching session found"

  /** What a handler sees of an HTTP request: the method (`httpMethod`), the value of the
      `Authorization` header (`""` when absent), and the body as the JSON
      decoder delivered it (`None` when decoding failed). */
  datatype HttpRequest<B> = HttpRequest(httpMethod: string, authorization: string, body: Option<B>)

  /** A JSON reply body: `{"error": ...}`, a `SignResponse`, or the verify reply. */
  datatype Body =
    | ErrorBody(error: string)
    | SignBody(sign: SignResponse)
    | VerifyBody(status: string, answers: seq<string>, timestamp: Time)

  datatype Response = Response(code: int, body: Body)

  /** A handler's reply together with the table after the request. */
  datatype Handled = Handled(response: Response, store: Store)

  // ---------------------------------------------------------------------
  // Validators

  function ValidateHttpMethod(httpMethod: string, allowedMethod: string): (r: Outcome<string>)
    ensures r.Pass? <==> httpMethod == allowedMethod
    ensures r.Fail? ==> r.error == MsgMethodNotAllowed
  {
    if httpMethod != allowedMethod then Fail(MsgMethodNotAllowed) else Pass
  }

  /** A sign request the handler accepts: a user id and at least one answer. */
  predicate WellFormedSign(req: SignRequest) {
    req.userId != "" && |req.answers| > 0
  }

  /** Fails exactly on ill-formed requests; a missing user id is reported in
      preference to missing answers. */
  function ValidateRequest(req: SignRequest): (r: Outcome<string>)
    ensures r.Pass? <==> WellFormedSign(req)
    ensures req.userId == "" ==> r == Fail(MsgUserIdNull)
    ensures req.userId != "" && req.answers == [] ==> r == Fail(MsgAnswersRequired)
  {
    if req.userId == "" then Fail(MsgUserIdNull)
    else if |req.answers| == 0 then Fail(MsgAnswersRequired)
    else Pass
  }

  /** A verify request the handler accepts: both fields present. */
  predicate WellFormedVerify(req: VerifyRequest) {
    req.userId != "" && req.signature != ""
  }

  function ValidateVerifyRequest(req: VerifyRequest): (r: Outcome<string>)
    ensures r.Pass? <==> WellFormedVerify(req)
    ensures req.userId == "" ==> r == Fail(MsgUserIdRequired)
    ensures req.userId != "" && req.signature == "" ==> r == Fail(MsgSignatureRequired)
  {
    if req.userId == "" then Fail(MsgUserIdRequired)
    else if req.signature == "" then Fail(MsgSignatureRequired)
    else Pass
  }

  /** The header shapes the service lets through: the scheme `Bearer`
      (matched case-sensitively), one space, and a token without spaces,
      which may be empty. */
  predicate IsBearer(header: string) {
    |header| >= 7 && header[..7] == "Bearer " && ' ' !in header[7..]
  }

  /** Splitting on single spaces gives exactly two parts, the first
      `Bearer`, precisely for the `IsBearer` shapes. */
  lemma BearerSplit(header: string)
    ensures (|Split(header, ' ')| == 2 && Split(header, ' ')[0] == "Bearer") <==> IsBearer(header)
  {
    var parts := Split(header, ' ');
    if |parts| == 2 && parts[0] == "Bearer" {
      assert Join(parts, ' ') == parts[0] + [' '] + parts[1];
      assert header[..7] == "Bearer ";
      assert header[7..] == parts[1];
    }
    if IsBearer(header) {
      var token := header[7..];
      assert header == "Bearer" + [' '] + token;
      assert Join(["Bearer", token], ' ') == header;
      SplitJoin(["Bearer", token], ' ');
    }
  }

  /** Shape check of the `Authorization` header. Only the shape is looked
      at; the token is never decoded. */
  function ValidateJwtPresent(authHeader: string): (r: Outcome<string>)
    ensures r.Pass? <==> IsBearer(authHeader)
    ensures authHeader == "" ==> r == Fail(MsgAuthRequired)
    ensures authHeader != "" && !IsBearer(authHeader) ==> r == Fail(MsgAuthFormat)
  {
    BearerSplit(authHeader);
    if authHeader == "" then Fail(MsgAuthRequired)
    else
      var headerParts := Split(authHeader, ' ');
      if |headerParts| != 2 || headerParts[0] != "Bearer" then Fail(MsgAuthFormat)
      else Pass
  }

  // ---------------------------------------------------------------------
  // Fingerprint

  /** The bytes written to the hash after the user id: each answer in turn. */
  function WriteAnswers(answers: seq<string>): (b: Bytes)
  {
    if answers == [] then [] else Utf8.Encode(answers[0]) + WriteAnswers(answers[1..])
  }

  /** Writing the answers one by one feeds the hash the bytes of their
      concatenation: no delimiter, no length prefix. */
  lemma {:induction false} WriteAnswersIsConcat(answers: seq<string>)
    ensures WriteAnswers(answers) == Utf8.Encode(Concat(answers))
  {
    if answers != [] {
      WriteAnswersIsConcat(answers[1..]);
      Utf8.EncodeAppend(answers[0], Concat(answers[1..]));
    }
  }

  /** The text the fingerprint is a digest of. */
  function SignedText(req: SignRequest): (text: string) {
    req.userId + Concat(req.answers)
  }

  /** `generateSignature`: SHA-256 over the user id and then every answer,
      hex encoded. The result is 64 lowercase hex digits and depends on the
      request only through `SignedText`. */
  function GenerateSignature(sha256: Sha256, req: SignRequest): (signature: string)
    ensures |signature| == 2 * DigestSize == 64
    ensures Hex.IsLowerHex(signature)
    ensures signature == Hex.Encode(sha256(Utf8.Encode(SignedText(req))))
  {
    WriteAnswersIsConcat(req.answers);
    Utf8.EncodeAppend(req.userId, Concat(req.answers));
    Hex.Encode(sha256(Utf8.Encode(req.userId) + WriteAnswers(req.answers)))
  }

  /** Field boundaries are invisible: moving characters between the user id
      and the answers, or between answers, keeps the signature. */
  lemma SignatureIgnoresBoundaries(sha256: Sha256, a: SignRequest, b: SignRequest)
    requires SignedText(a) == SignedText(b)
    ensures GenerateSignature(sha256, a) == GenerateSignature(sha256, b)
  {
  }

  /** The collision spelled out: ("ab", ["c"]) and ("a", ["bc"]). */
  lemma BoundaryCollision(sha256: Sha256)
    ensures GenerateSignature(sha256, SignRequest("ab", ["c"]))
         == GenerateSignature(sha256, SignRequest("a", ["bc"]))
  {
    assert SignedText(SignRequest("ab", ["c"])) == "abc";
    assert SignedText(SignRequest("a", ["bc"])) == "abc";
  }

  /** Two requests are signed alike exactly when their signed text is the
      same or the hash collides on the bytes of the two texts: apart from
      boundary shifts, only a hash collision makes signatures agree. */
  lemma SignatureDeterminesText(sha256: Sha256, a: SignRequest, b: SignRequest)
    ensures GenerateSignature(sha256, a) == GenerateSignature(sha256, b)
            <==> SignedText(a) == SignedText(b)
                 || Collides(sha256, Utf8.Encode(SignedText(a)), Utf8.Encode(SignedText(b)))
  {
    var da, db := Utf8.Encode(SignedText(a)), Utf8.Encode(SignedText(b));
    if GenerateSignature(sha256, a) == GenerateSignature(sha256, b) {
      Hex.EncodeInjective(sha256(da), sha256(db));
      Utf8.EncodeInjective(SignedText(a), SignedText(b));
    }
  }

  // ---------------------------------------------------------------------
  // Handlers

  /** `SignAnswers`. Checks run in order and the first failure decides the
      reply: header shape 401, method 405, JSON decoding 400, fields 400,
      storing 500; otherwise 201 with the signature, which is also the
      signature of the one row appended to the table. */
  function SignAnswers(sha256: Sha256, r: HttpRequest<SignRequest>, store: Store, env: WriteEnv): (h: Handled)
    ensures h.response.code == StatusUnauthorized <==> !IsBearer(r.authorization)
    ensures !IsBearer(r.authorization) ==>
      h.response.body == ErrorBody(if r.authorization == "" then MsgAuthRequired else MsgAuthFormat)
    ensures h.response.code == StatusMethodNotAllowed <==> IsBearer(r.authorization) && r.httpMethod != "POST"
    ensures h.response.code == StatusBadRequest <==>
      IsBearer(r.authorization) && r.httpMethod == "POST" && !(r.body.Some? && WellFormedSign(r.body.value))
    ensures h.response.code == StatusInternalServerError <==>
      IsBearer(r.authorization) && r.httpMethod == "POST" && r.body.Some? && WellFormedSign(r.body.value)
      && !(env.marshalOk && env.execOk)
    ensures h.response.code == StatusCreated <==>
      IsBearer(r.authorization) && r.httpMethod == "POST" && r.body.Some? && WellFormedSign(r.body.value)
      && env.marshalOk && env.execOk
    ensures h.response.code == StatusBadRequest ==>
      h.response.body == ErrorBody(
        if r.body.None? then MsgInvalidFormat
        else if r.body.value.userId == "" then MsgUserIdNull
        else MsgAnswersRequired)
    ensures h.response.code == StatusCreated ==>
      var req := r.body.value;
      var signature := Hex.Encode(sha256(Utf8.Encode(SignedText(req))));
      h.response.body == SignBody(SignResponse(signature))
      && h.store == store + [Record(req.userId, signature, req.answers, env.now)]
    ensures h.response.code == StatusMethodNotAllowed ==> h.response.body == ErrorBody(MsgMethodNotAllowedHere)
    ensures h.response.code == StatusInternalServerError ==> h.response.body == ErrorBody(MsgInternal)
    ensures h.response.code != StatusCreated ==> h.store == store
  {
    var auth := ValidateJwtPresent(r.authorization);
    if auth.Fail? then
      Handled(Response(StatusUnauthorized, ErrorBody(auth.error)), store)
    else if ValidateHttpMethod(r.httpMethod, "POST").Fail? then
      Handled(Response(StatusMethodNotAllowed, ErrorBody(MsgMethodNotAllowedHere)), store)
    else if r.body.None? then
      Handled(Response(StatusBadRequest, ErrorBody(MsgInvalidFormat)), store)
    else
      var req := r.body.value;
      var valid := ValidateRequest(req);
      if valid.Fail? then
        Handled(Response(StatusBadRequest, ErrorBody(valid.error)), store)
      else
        var signature := GenerateSignature(sha256, req);
        var saved := SaveSession(store, req.userId, signature, req.answers, env);
        if saved.err.Some? then
          Handled(Response(StatusInternalServerError, ErrorBody(MsgInternal)), saved.store)
        else
          Handled(Response(StatusCreated, SignBody(SignResponse(signature))), saved.store)
  }

  /** `VerifySignature`. Method 405, JSON decoding 400, fields 400, then
      the lookup: other store error 500, no matching row 404, otherwise 200
      with the answers and timestamp of a row matching both fields. The
      table is never changed and the `Authorization` header is not read. */
  function VerifySignature(r: HttpRequest<VerifyRequest>, store: Store, env: ReadEnv): (h: Handled)
    ensures h.store == store
    ensures h.response.code == StatusMethodNotAllowed <==> r.httpMethod != "POST"
    ensures h.response.code == StatusBadRequest <==>
      r.httpMethod == "POST" && !(r.body.Some? && WellFormedVerify(r.body.value))
    ensures h.response.code == StatusBadRequest ==>
      h.response.body == ErrorBody(
        if r.body.None? then MsgInvalidFormat
        else if r.body.value.userId == "" then MsgUserIdRequired
        else MsgSignatureRequired)
    ensures h.response.code == StatusInternalServerError <==>
      r.httpMethod == "POST" && r.body.Some? && WellFormedVerify(r.body.value) && !env.queryOk
    ensures h.response.code == StatusNotFound <==>
      r.httpMethod == "POST" && r.body.Some? && WellFormedVerify(r.body.value) && env.queryOk
      && !HasMatch(store, r.body.value.userId, r.body.value.signature)
    ensures h.response.code == StatusMethodNotAllowed ==> h.response.body == ErrorBody(MsgMethodNotAllowedHere)
    ensures h.response.code == StatusInternalServerError ==> h.response.body == ErrorBody(MsgInternal)
    ensures h.response.code == StatusNotFound ==> h.response.body == ErrorBody(MsgNoSession)
    ensures h.response.code == StatusOK <==>
      r.httpMethod == "POST" && r.body.Some? && WellFormedVerify(r.body.value) && env.queryOk
      && HasMatch(store, r.body.value.userId, r.body.value.signature)
    ensures h.response.code == StatusOK ==>
      exists rec :: rec in store && Matches(rec, r.body.value.userId, r.body.value.signature)
                    && h.response.body == VerifyBody("OK", rec.answers, rec.createdAt)
  {
    if ValidateHttpMethod(r.httpMethod, "POST").Fail? then
      Handled(Response(StatusMethodNotAllowed, ErrorBody(MsgMethodNotAllowedHere)), store)
    else if r.body.None? then
      Handled(Response(StatusBadRequest, ErrorBody(MsgInvalidFormat)), store)
    else
      var req := r.body.value;
      var valid := ValidateVerifyRequest(req);
      if valid.Fail? then
        Handled(Response(StatusBadRequest, ErrorBody(valid.error)), store)
      else
        var fetched := FetchSessionData(store, req.userId, req.signature, env);
        if fetched.err.Some? then
          if fetched.err.value == ErrNoRows then
            Handled(Response(StatusNotFound, ErrorBody(MsgNoSession)), store)
          else
            Handled(Response(StatusInternalServerError, ErrorBody(MsgInternal)), store)
        else
          Handled(Response(StatusOK, VerifyBody("OK", fetched.answers.value, fetched.createdAt)), store)
  }

  /** On a well-formed POST whose lookup succeeds, the reply carries what
      the lookup returned. */
  lemma VerifyRepliesWithFetched(r: HttpRequest<VerifyRequest>, store: Store, env: ReadEnv)
    requires r.httpMethod == "POST" && r.body.Some? && WellFormedVerify(r.body.value)
    requires FetchSessionData(store, r.body.value.userId, r.body.value.signature, env).err.None?
    ensures var f := FetchSessionData(store, r.body.value.userId, r.body.value.signature, env);
            VerifySignature(r, store, env).response == Response(StatusOK, VerifyBody("OK", f.answers.value, f.createdAt))
  {
  }
}
