/** Properties that relate several calls of the handlers, and the concrete
    cases the repository's unit tests pin down. */
module Scenarios {
  import opened Wrappers
  import opened Bytes
  import opened Models
  import opened Db
  import opened Signer
  import Hex
  import Text

  /** The method check: "POST" against "POST" passes, "GET" fails. */
  lemma HttpMethodCases()
    ensures ValidateHttpMethod("POST", "POST") == Pass
    ensures ValidateHttpMethod("GET", "POST") == Fail("method not allowed")
  {
  }

  /** The sign-request check, including the case where both fields are
      missing and the user-id message wins. */
  lemma SignRequestCases()
    ensures ValidateRequest(SignRequest("", ["answer1"])) == Fail("user id cannot be null")
    ensures ValidateRequest(SignRequest("user1", [])) == Fail("answers are required")
    ensures ValidateRequest(SignRequest("", [])) == Fail("user id cannot be null")
    ensures ValidateRequest(SignRequest("user1", ["answer1"])) == Pass
  {
  }

  lemma VerifyRequestCases()
    ensures ValidateVerifyRequest(VerifyRequest("user1", "signature1")) == Pass
    ensures ValidateVerifyRequest(VerifyRequest("", "signature1")) == Fail("userId required")
    ensures ValidateVerifyRequest(VerifyRequest("user1", "")) == Fail("signature required")
    ensures ValidateVerifyRequest(VerifyRequest("", "")) == Fail("userId required")
  {
  }

  /** The header check on the shapes that matter: an empty token is let
      through, a second space is not, and the scheme is case-sensitive. */
  lemma BearerCases()
    ensures ValidateJwtPresent("") == Fail("authorization header is required")
    ensures ValidateJwtPresent("Bearer token") == Pass
    ensures ValidateJwtPresent("Bearer ") == Pass
  {
    assert IsBearer("Bearer token") by {
      assert "Bearer token"[..7] == "Bearer ";
      assert "Bearer token"[7..] == "token";
    }
    assert IsBearer("Bearer ") by {
      assert "Bearer "[..7] == "Bearer ";
      assert "Bearer "[7..] == "";
    }
  }

  lemma NotBearerCases()
    ensures ValidateJwtPresent("Basic token") == Fail("authorization header format must be Bearer {token}")
    ensures ValidateJwtPresent("bearer token").Fail?
    ensures ValidateJwtPresent("Bearer a b").Fail?
    ensures ValidateJwtPresent("Bearer").Fail?
  {
    assert !IsBearer("Basic token") by { assert "Basic token"[..7][1] != "Bearer "[1]; }
    assert !IsBearer("bearer token") by { assert "bearer token"[..7][0] != "Bearer "[0]; }
    assert !IsBearer("Bearer a b") by {
      assert "Bearer a b"[7..] == "a b";
      assert "a b"[1] == ' ';
    }
  }

  /** A GET without an Authorization header is refused for the header, not
      for the method: the header check runs first. */
  lemma GetWithoutAuthorizationIs401(sha256: Sha256, body: Option<SignRequest>, store: Store, env: WriteEnv)
    ensures SignAnswers(sha256, HttpRequest("GET", "", body), store, env).response
            == Response(401, ErrorBody("authorization header is required"))
  {
  }

  /** Verification gives the same reply whatever the Authorization header holds. */
  lemma VerifyIgnoresAuthorization(r: HttpRequest<VerifyRequest>, authorization: string,
                                   store: Store, env: ReadEnv)
    ensures VerifySignature(r.(authorization := authorization), store, env) == VerifySignature(r, store, env)
  {
  }

  /** Signing and then verifying with the returned signature succeeds, on
      any header, as long as the lookup reaches the database. If no row
      matched before, the reply carries exactly the submitted answers and
      the time the row was stamped with. */
  lemma SignThenVerify(sha256: Sha256, sign: HttpRequest<SignRequest>, store: Store, wenv: WriteEnv,
                       authorization: string, renv: ReadEnv)
    requires SignAnswers(sha256, sign, store, wenv).response.code == StatusCreated
    requires renv.queryOk
    ensures
      var signed := SignAnswers(sha256, sign, store, wenv);
      var req := sign.body.value;
      var signature := signed.response.body.sign.signature;
      var v := VerifySignature(HttpRequest("POST", authorization, Some(VerifyRequest(req.userId, signature))),
                               signed.store, renv);
      && v.response.code == StatusOK
      && v.store == signed.store
      && (!HasMatch(store, req.userId, signature) ==> v.response.body == VerifyBody("OK", req.answers, wenv.now))
  {
    var signed := SignAnswers(sha256, sign, store, wenv);
    var req := sign.body.value;
    var signature := signed.response.body.sign.signature;
    SaveThenFetch(store, req.userId, signature, req.answers, wenv, renv);
    if !HasMatch(store, req.userId, signature) {
      SaveThenFetchFresh(store, req.userId, signature, req.answers, wenv, renv);
    }
  }

  /** A round trip for one concrete user: alice signs ["red", "blue"] with a
      Bearer header on an empty table, receives 64 hex digits, and verifying
      with them returns ["red", "blue"]. */
  lemma AliceRoundTrip(sha256: Sha256, authorization: string, wenv: WriteEnv, renv: ReadEnv)
    requires IsBearer(authorization)
    requires wenv.marshalOk && wenv.execOk && renv.queryOk
    ensures
      var signed := SignAnswers(sha256, HttpRequest("POST", authorization, Some(SignRequest("alice", ["red", "blue"]))), [], wenv);
      var signature := signed.response.body.sign.signature;
      var v := VerifySignature(HttpRequest("POST", "", Some(VerifyRequest("alice", signature))), signed.store, renv);
      && signed.response.code == 201
      && |signature| == 64 && Hex.IsLowerHex(signature)
      && v.response == Response(200, VerifyBody("OK", ["red", "blue"], wenv.now))
  {
    FreshRoundTrip(sha256, HttpRequest("POST", authorization, Some(SignRequest("alice", ["red", "blue"]))), wenv, "", renv);
  }

  /** On an empty table, an accepted submission verifies with exactly its
      own answers and timestamp. */
  lemma FreshRoundTrip(sha256: Sha256, sign: HttpRequest<SignRequest>, wenv: WriteEnv,
                       authorization: string, renv: ReadEnv)
    requires IsBearer(sign.authorization) && sign.httpMethod == "POST"
    requires sign.body.Some? && WellFormedSign(sign.body.value)
    requires wenv.marshalOk && wenv.execOk && renv.queryOk
    ensures
      var signed := SignAnswers(sha256, sign, [], wenv);
      var req := sign.body.value;
      var signature := signed.response.body.sign.signature;
      var v := VerifySignature(HttpRequest("POST", authorization, Some(VerifyRequest(req.userId, signature))),
                               signed.store, renv);
      && signed.response.code == 201
      && |signature| == 64 && Hex.IsLowerHex(signature)
      && v.response == Response(200, VerifyBody("OK", req.answers, wenv.now))
  {
    SignAccepted(sha256, sign, [], wenv);
    var signature := GenerateSignature(sha256, sign.body.value);
    assert !HasMatch([], sign.body.value.userId, signature);
    SignThenVerify(sha256, sign, [], wenv, authorization, renv);
  }

  /** A Bearer-shaped POST carrying a well-formed request, stored without
      error, is answered 201 with the request's signature. */
  lemma SignAccepted(sha256: Sha256, sign: HttpRequest<SignRequest>, store: Store, wenv: WriteEnv)
    requires IsBearer(sign.authorization) && sign.httpMethod == "POST"
    requires sign.body.Some? && WellFormedSign(sign.body.value)
    requires wenv.marshalOk && wenv.execOk
    ensures
      var signed := SignAnswers(sha256, sign, store, wenv);
      && signed.response.code == StatusCreated
      && signed.response.body == SignBody(SignResponse(GenerateSignature(sha256, sign.body.value)))
  {
  }

  /** Two submissions by the same user that get the same signature (because
      fields are not delimited, or through a hash collision) are both stored,
      and verification may then return either one's answers, depending on
      which row the database yields. */
  lemma AmbiguousVerification(sha256: Sha256, authorization: string, a: SignRequest, b: SignRequest,
                              store: Store, wenv1: WriteEnv, wenv2: WriteEnv)
    requires IsBearer(authorization) && WellFormedSign(a) && WellFormedSign(b)
    requires a.userId == b.userId && GenerateSignature(sha256, a) == GenerateSignature(sha256, b)
    requires wenv1.marshalOk && wenv1.execOk && wenv2.marshalOk && wenv2.execOk
    ensures
      var s1 := SignAnswers(sha256, HttpRequest("POST", authorization, Some(a)), store, wenv1);
      var s2 := SignAnswers(sha256, HttpRequest("POST", authorization, Some(b)), s1.store, wenv2);
      var signature := s1.response.body.sign.signature;
      var query := HttpRequest("POST", "", Some(VerifyRequest(a.userId, signature)));
      var earlier := |MatchingRows(store, a.userId, signature)|;
      && s1.response.code == 201 && s2.response.code == 201
      && s2.response.body.sign.signature == signature
      && VerifySignature(query, s2.store, ReadEnv(true, earlier)).response.body
         == VerifyBody("OK", a.answers, wenv1.now)
      && VerifySignature(query, s2.store, ReadEnv(true, earlier + 1)).response.body
         == VerifyBody("OK", b.answers, wenv2.now)
  {
    var signature := GenerateSignature(sha256, a);
    SignTwice(sha256, authorization, a, b, store, wenv1, wenv2);
    var r1, r2 := Record(a.userId, signature, a.answers, wenv1.now), Record(b.userId, signature, b.answers, wenv2.now);
    VerifyEitherRow(store, r1, r2);
  }

  /** Two accepted submissions with the same signature, from the same user
      or not, get one signature and append two records. By
      `SignatureDeterminesText` that happens exactly when their user id and
      answers run together to the same text or the hash collides. */
  lemma SignTwice(sha256: Sha256, authorization: string, a: SignRequest, b: SignRequest,
                  store: Store, wenv1: WriteEnv, wenv2: WriteEnv)
    requires IsBearer(authorization) && WellFormedSign(a) && WellFormedSign(b)
    requires GenerateSignature(sha256, a) == GenerateSignature(sha256, b)
    requires wenv1.marshalOk && wenv1.execOk && wenv2.marshalOk && wenv2.execOk
    ensures
      var s1 := SignAnswers(sha256, HttpRequest("POST", authorization, Some(a)), store, wenv1);
      var s2 := SignAnswers(sha256, HttpRequest("POST", authorization, Some(b)), s1.store, wenv2);
      var signature := GenerateSignature(sha256, a);
      && s1.response.code == 201 && s2.response.code == 201
      && s1.response.body.sign.signature == signature
      && s2.response.body.sign.signature == signature
      && s2.store == store + [Record(a.userId, signature, a.answers, wenv1.now),
                              Record(b.userId, signature, b.answers, wenv2.now)]
  {
    var signature := GenerateSignature(sha256, a);
    var s1 := SignAnswers(sha256, HttpRequest("POST", authorization, Some(a)), store, wenv1);
    var s2 := SignAnswers(sha256, HttpRequest("POST", authorization, Some(b)), s1.store, wenv2);
    var r1, r2 := Record(a.userId, signature, a.answers, wenv1.now), Record(b.userId, signature, b.answers, wenv2.now);
    assert s1.store == store + [r1];
    assert s2.store == s1.store + [r2];
  }

  /** With two matching records appended, the row pick chooses which one a
      verification reports. */
  lemma VerifyEitherRow(store: Store, r1: Record, r2: Record)
    requires r1.userId == r2.userId && r1.signature == r2.signature
    requires r1.userId != "" && r1.signature != ""
    ensures
      var query := HttpRequest("POST", "", Some(VerifyRequest(r1.userId, r1.signature)));
      var earlier := |MatchingRows(store, r1.userId, r1.signature)|;
      && VerifySignature(query, store + [r1, r2], ReadEnv(true, earlier)).response.body
         == VerifyBody("OK", r1.answers, r1.createdAt)
      && VerifySignature(query, store + [r1, r2], ReadEnv(true, earlier + 1)).response.body
         == VerifyBody("OK", r2.answers, r2.createdAt)
  {
    var all := store + [r1, r2];
    MatchingRowsAppend(store, [r1, r2], r1.userId, r1.signature);
    MatchingRowsAppend([r1], [r2], r1.userId, r1.signature);
    assert [r1] + [r2] == [r1, r2];
    var rows := MatchingRows(all, r1.userId, r1.signature);
    var earlier := |MatchingRows(store, r1.userId, r1.signature)|;
    assert rows[earlier] == r1 && rows[earlier + 1] == r2;
    var query := HttpRequest("POST", "", Some(VerifyRequest(r1.userId, r1.signature)));
    FetchPicksRow(all, r1.userId, r1.signature, ReadEnv(true, earlier));
    VerifyRepliesWithFetched(query, all, ReadEnv(true, earlier));
    FetchPicksRow(all, r1.userId, r1.signature, ReadEnv(true, earlier + 1));
    VerifyRepliesWithFetched(query, all, ReadEnv(true, earlier + 1));
  }

  /** Answers are run together with no delimiter, so alice's ["red", "blue"]
      and ["redblue"] are signed alike. */
  lemma AliceCollision(sha256: Sha256)
    ensures GenerateSignature(sha256, SignRequest("alice", ["red", "blue"]))
         == GenerateSignature(sha256, SignRequest("alice", ["redblue"]))
  {
    assert Text.Concat(["red", "blue"]) == "redblue";
    assert Text.Concat(["redblue"]) == "redblue";
    SignatureIgnoresBoundaries(sha256, SignRequest("alice", ["red", "blue"]), SignRequest("alice", ["redblue"]));
  }
}
