# test-signer, modelled in Dafny

test-signer is a small HTTP service. It has two endpoints:

- `POST /sign` takes a user id and an ordered list of answers. It computes a SHA-256 fingerprint, the "signature", over the user id followed by every answer. It stores the row in PostgreSQL and replies `201` with the signature.
- `POST /verify` takes a user id and a signature. It looks the row up and replies `200` with the stored answers and the row's creation timestamp, or `404` when no row matches.

The sign endpoint first checks that the `Authorization` header has the shape `Bearer <token>`. It never decodes the token.

This project models the service's core:

- the request validators;
- the fingerprint;
- the order of the checks in both handlers, including every status code and error message;
- the two store operations;
- the construction of the database connection string.

It also proves properties of all of these.

Modules, one file each:

- `Wrappers`: `Option` and `Outcome`, a pass-or-fail result carrying an error message.
- `Bytes`: bytes, 32-byte digests, and the SHA-256 function as a value of type `Bytes -> Digest`.
- `Utf8`: Go's `[]byte(s)` conversion as UTF-8 encoding, with a strict decoder that accepts only shortest-form UTF-8 and inverts it.
- `Hex`: `hex.EncodeToString`, with a decoder that inverts it.
- `Text`: concatenation, and Go's `strings.Split` with a one-character separator, together with its inverse `Join`.
- `Models`: the sign request and response records of `internal/signer/models.go`, and the verify request, which is the anonymous struct at `internal/signer/signer.go:106-109`.
- `Db`: the `user_session` table as a sequence of rows, `SaveSession` and `FetchSessionData`.
- `Signer`: the validators, `generateSignature`, and the handlers `SignAnswers` and `VerifySignature`.
  - Each handler is a pure function from a request, the table and the environment's decisions to a reply and the new table.
- `Dsn`: `getDSN`, and the keyword/value connection-string grammar that the `lib/pq` driver reads it with.
  - This is the format of section 34.1.1.1 "Keyword/Value Connection Strings" of the PostgreSQL documentation.
  - White space is Go's `unicode.IsSpace`.
- `Scenarios`: the repository's unit-test cases and end-to-end properties of the two endpoints together.

Things outside the program become parameters:

- The hash function is a parameter. No function from byte strings of any length to 32-byte digests is injective, so no property assumes that it is. Instead, collisions are named: `Collides(h, x, y)` holds when `x != y` and `h(x) == h(y)`.
- The database's behaviour is a parameter:
  - whether marshalling succeeded;
  - whether the insert or the query succeeded;
  - the timestamp of a new row;
  - which of several matching rows the query returns.

The model follows the code on three points where the endpoints' purpose alone might suggest otherwise:

- **Check order in the sign handler.** The `Authorization` check runs first, so a `GET` with no header gets `401`, not `405`.
- **Header on verify.** The verify handler never reads the header.
- **Duplicate rows.** When several rows match a lookup, the code does not return the most recent one. It returns whichever row the query yields first.

## Model

| member | source | states |
|---|---|---|
| Signer.ValidateHttpMethod | internal/signer/signer.go:56-61 | passes exactly when the method equals the allowed one; any other method fails with "method not allowed" |
| Scenarios.HttpMethodCases | internal/signer/signer_test.go:8-14 | "POST" against "POST" passes; "GET" against "POST" fails |
| Signer.ValidateRequest | internal/signer/signer.go:63-71 | passes exactly when the user id is non-empty and at least one answer is given; an empty user id is reported ("user id cannot be null") in preference to an empty answer list ("answers are required") |
| Scenarios.SignRequestCases | internal/signer/signer_test.go:42-46 | the three cases of the test, plus both fields empty, which reports the user id |
| Signer.ValidateVerifyRequest | internal/signer/signer.go:143-154 | passes exactly when user id and signature are both non-empty; the user id is reported first ("userId required"), then the signature ("signature required") |
| Scenarios.VerifyRequestCases | internal/signer/signer_test.go:16-34 | the three cases of the test, plus both fields empty |
| Text.Split | internal/signer/signer.go:170 | splitting on one character gives at least one part, no part contains the separator, and joining the parts with the separator gives back the input |
| Text.SplitJoin | internal/signer/signer.go:170 | splitting undoes joining whenever no part contains the separator, so the split of a string is the only separator-free decomposition of it |
| Text.SplitAtFirst | internal/signer/signer.go:170 | a string cut at the first separator splits into the part before it followed by the split of the rest |
| Signer.BearerSplit | internal/signer/signer.go:170-171 | splitting the header on spaces yields exactly two parts with the first equal to "Bearer" if and only if the header is "Bearer " followed by a token holding no space (the token may be empty) |
| Signer.ValidateJwtPresent | internal/signer/signer.go:165-176 | passes if and only if the header has that Bearer shape; an empty header fails with "authorization header is required", every other rejected header with "authorization header format must be Bearer {token}" |
| Scenarios.BearerCases | internal/signer/signer_test.go:36-40 | an empty header is refused as missing, "Bearer token" passes, and so does "Bearer " with an empty token |
| Scenarios.NotBearerCases | internal/signer/signer_test.go:36-40 | "Basic token" fails with the format message; "bearer token" (the scheme is case-sensitive), "Bearer a b" and "Bearer" alone all fail |
| Utf8.EncodeChar | internal/signer/signer.go:158 | each character becomes one to four bytes, a single byte exactly for ASCII, with continuation bytes after the first |
| Utf8.Encode | internal/signer/signer.go:158-160 | a string's bytes number at least one and at most four per character; with the two round-trip lemmas below, they are exactly the shortest-form UTF-8 that `[]byte(s)` produces |
| Utf8.EncodeDecodeChar | internal/signer/signer.go:158 | the decoder accepts only shortest forms: the bytes it consumes for a character are exactly that character's encoding, so an overlong sequence such as `C0 80` is refused |
| Utf8.OverlongRejected | internal/signer/signer.go:158 | the overlong two-byte form of NUL does not decode |
| Utf8.EncodeAppend | internal/signer/signer.go:158-161 | the bytes of a concatenation are the concatenated bytes, so feeding the hash piece by piece equals feeding it the whole |
| Utf8.DecodeEncode | internal/signer/signer.go:158 | decoding the bytes of a string gives the string back |
| Utf8.EncodeDecode | internal/signer/signer.go:158 | every byte sequence the strict decoder accepts is the encoding of what it decodes to, so no other encoding of a string passes it |
| Utf8.EncodeInjective | internal/signer/signer.go:158 | two strings have the same bytes if and only if they are equal |
| Text.ConcatAppend | internal/signer/signer.go:159-161 | the concatenation of two lists of answers is the concatenation of their concatenations |
| Signer.WriteAnswersIsConcat | internal/signer/signer.go:159-161 | writing the answers one after another feeds the hash the bytes of their concatenation, with no delimiter or length prefix |
| Hex.DigitValue | internal/signer/signer.go:162 | defined exactly on the sixteen lowercase hex digits, and inverse to the digit of a nibble |
| Hex.Encode | internal/signer/signer.go:162 | two lowercase hex digits per byte |
| Hex.DecodeEncode | internal/signer/signer.go:162 | decoding the hex text of some bytes gives the bytes back |
| Hex.EncodeDecode | internal/signer/signer.go:162 | every decodable string is the hex text of what it decodes to |
| Hex.DecodeDefined | internal/signer/signer.go:162 | decoding succeeds exactly on even-length lowercase hex strings, the strings encoding can produce |
| Hex.EncodeInjective | internal/signer/signer.go:162 | two byte strings have the same hex text if and only if they are equal |
| Signer.GenerateSignature | internal/signer/signer.go:156-163 | the signature is 64 lowercase hex digits: the hex text of SHA-256 over the UTF-8 bytes of the user id followed by all answers run together |
| Signer.SignatureIgnoresBoundaries | internal/signer/signer.go:156-163 | two requests whose user id and answers run together to the same text get the same signature |
| Signer.BoundaryCollision | internal/signer/signer.go:156-163 | user "ab" with answers ["c"] and user "a" with answers ["bc"] are signed alike |
| Signer.SignatureDeterminesText | internal/signer/signer.go:156-163 | for every hash, two requests get the same signature if and only if their run-together text is equal or the hash collides on the UTF-8 bytes of the two texts |
| Scenarios.AliceCollision | internal/signer/signer.go:156-163 | "alice" with ["red", "blue"] and "alice" with ["redblue"] are signed alike |
| Signer.SignAnswers | internal/signer/signer.go:18-54 | the whole decision table, each code stated if and only if its condition: `401` when the header is not Bearer-shaped (with the missing or format message), else `405` "Method not allowed here" when the method is not POST, else `400` when the body did not decode ("Invalid request format") or fails validation (the validator's message), else `500` when marshalling or the insert fails ("Internal server error"), else `201` carrying the signature; on `201` exactly one row holding the user id, signature, answers and new timestamp is appended, and on every other code the table is unchanged |
| Scenarios.GetWithoutAuthorizationIs401 | internal/signer/signer.go:26-34 | a GET with no Authorization header is answered 401 "authorization header is required", whatever its body |
| Signer.VerifySignature | internal/signer/signer.go:93-141 | never changes the table; `405` "Method not allowed here" when the method is not POST, else `400` for an undecodable body ("Invalid request format") or a failed validation (with its message), else `500` "Internal server error" exactly when the query fails, `404` "No matching session found" exactly when no row matches both fields, and `200` exactly when one does, with the answers and timestamp of a matching row |
| Signer.VerifyRepliesWithFetched | internal/signer/signer.go:120-140 | a well-formed POST whose lookup succeeds is answered `200` with status "OK" and the answers and timestamp the lookup returned |
| Scenarios.VerifyIgnoresAuthorization | internal/signer/signer.go:93-141 | the verify reply is the same whatever the Authorization header holds |
| Scenarios.SignThenVerify | internal/signer/signer.go:47-140 | after an accepted sign request whose user id PostgreSQL stores unchanged (see the `Db.SaveSession` line under "## Left out"), verifying its user id and returned signature succeeds with `200`; when no earlier row matched, the reply carries exactly the signed answers and the new row's timestamp |
| Scenarios.AliceRoundTrip | internal/signer/signer.go:18-141 | alice signs ["red", "blue"] with any Bearer-shaped header into an empty table, gets `201` and a 64-digit hex signature, and verifying it returns `200` with ["red", "blue"] |
| Scenarios.FreshRoundTrip | internal/signer/signer.go:18-141 | on an empty table, any accepted submission whose user id is stored unchanged gets `201` and a 64-digit hex signature, and verifying it returns `200` with exactly its answers and timestamp |
| Scenarios.SignAccepted | internal/signer/signer.go:26-53 | a Bearer-shaped POST with a well-formed body that is stored without error is answered `201` with the request's signature |
| Scenarios.SignTwice | internal/signer/signer.go:47-53 | two accepted submissions with the same signature, whether from one user or from two ("ab" with ["c"] and "a" with ["bc"]), get that signature and append two rows; by `SignatureDeterminesText` this covers both equal run-together text and a hash collision |
| Scenarios.VerifyEitherRow | internal/db/db.go:67-73 | with two matching rows appended, the row the query yields decides which answers a verification returns |
| Scenarios.AmbiguousVerification | internal/signer/signer.go:18-141 | after two submissions with the same user id get the same signature, whether their run-together text is equal or the hash collides, verifying that signature can return either submission's answers, depending on which row the query yields |
| Db.SaveSession | internal/db/db.go:76-85 | succeeds if and only if marshalling and the insert both succeed; a marshal failure is reported before a driver failure; on failure the table is unchanged; on success exactly one row with the given fields and the current timestamp is appended and every earlier row is kept |
| Db.SaveTwiceKeepsBoth | internal/db/db.go:76-85 | saving the same session twice appends two rows that differ at most in their timestamp: there is no de-duplication, and both rows match the lookup |
| Db.MatchingRows | internal/db/db.go:67-68 | the rows selected by the `WHERE user_id = $1 AND signature = $2` clause are exactly the table's rows matching both fields |
| Db.MatchingRowsAppend | internal/db/db.go:67-68 | selection distributes over appending rows, in table order |
| Db.FetchSessionData | internal/db/db.go:63-74 | a query failure is a driver error; otherwise the result is `sql.ErrNoRows` exactly when no row matches and success exactly when one does; on success the answers and timestamp come from a matching row; on any error the answers are absent and the timestamp is Go's zero time |
| Db.FetchPicksRow | internal/db/db.go:67-73 | among several matching rows, the row the query yields is the one returned |
| Db.SaveThenFetch | internal/db/db.go:63-85 | after a successful save, a lookup of the same user id and signature succeeds |
| Db.SaveThenFetchFresh | internal/db/db.go:63-85 | when no earlier row matched, that lookup returns exactly the saved answers and timestamp |
| Dsn.GetDsn | internal/db/db.go:52-61 | the connection string is the six settings host, port, user, password, dbname, sslmode in that order, each written `key=value` with the value bare, separated by single spaces |
| Dsn.ParseField | internal/db/db.go:39-40 | the keyword/value grammar of the driver that `sql.Open` hands the string to reads one written setting, bare when its value is plain or quoted with escapes, and then goes on with what follows |
| Dsn.ParseRender | internal/db/db.go:39-40 | in that grammar, settings written with valid keys and readable values parse back to the same settings, in order |
| Dsn.Lookup | internal/db/db.go:39-40 | the value the driver keeps for a key is present exactly when the key occurs, and it is the value of one of that key's settings |
| Dsn.LookupLast | internal/db/db.go:39-40 | a setting followed by no other setting of its key is the one the driver keeps: a later repetition of a key replaces an earlier one |
| Dsn.GetDsnReadsBack | internal/db/db.go:60 | when all six values are non-empty and free of white space, backslashes and a leading quote, the grammar reads back exactly the six settings, keys in order, and the driver keeps each key's own value |
| Dsn.GetDsnTestCase | internal/db/db_test.go:9-21 | the test's six values give the test's expected connection string |
| Dsn.SpaceInPasswordUnreadable | internal/db/db.go:60 | a password containing a space ("se cret") makes the connection string unreadable for the driver |
| Dsn.EmptyHostSwallowsPort | internal/db/db.go:60 | with an empty host, the grammar reads the host as "port=…", and no port setting is left in the string: `DB_PORT` is lost, and the driver falls back to its default port (5432, or `PGPORT`) |
| Dsn.GetDsnFixed | internal/db/db.go:52-61 | the corrected connection string writes a value bare when it is plain and single-quoted with escapes otherwise; for every choice of values it reads back as exactly the six settings and the driver keeps each key's own value; when all six values are plain it is `getDSN`'s own string |
| Dsn.RenderAutoPlain | internal/db/db.go:60 | when every value is plain, writing values bare only where plain gives the all-bare string |
| Dsn.GetDsnFixedTestCase | internal/db/db_test.go:9-21 | the corrected writer still gives the test's expected connection string |
| Dsn.GetDsnFixedEmptyHost | internal/db/db.go:53-60 | with the corrected writer an unset host is written `host=''` and read back as an empty host |

## Left out

- HTTP transport: routing, response headers, JSON writing (`writeError`, `writeJSONResponse`), closing the body and logging are not modelled. A reply is a status code and a body value.
- JSON decoding of request bodies is an input. The body is `None` when decoding failed, and its failure conditions are not modelled.
- The `Authorization` header is a single string. An absent header and an empty one are the same, as `Header.Get` makes them.
- `json.Marshal` of the answers and the JSONB column are not modelled. Marshalling success is an environment flag. The verify reply carries the stored answer list rather than its raw JSON text.
- Timestamps are opaque integers. The database assigns them through an environment value, and the zero time is `0`.
- SHA-256 itself is not modelled; it is a parameter. Where collisions matter they appear in the statement as `Collides`, not as an assumption.
- Strings are sequences of Unicode scalar values. Go strings holding invalid UTF-8 cannot be expressed, so for them the model does not cover `[]byte(s)`.
- `init`, `initDB`, the `CREATE TABLE` statement, `sql.Open` and `Ping` are not modelled. The table is a sequence of rows without the surrogate `id`.
- `os.Getenv` is not modelled: `GetDsn` takes the six values as arguments.
- The URL form of connection strings (`postgres://…`) is not modelled. The driver's keyword/value grammar is modelled only as far as it reads these settings: it does not check which keywords are known.
- Concurrency between requests is not modelled: each handler call sees the table as the previous call left it.
- `cmd/testsigner/main.go` (server wiring) is not part of this model.
- Db.SaveSession: assumes that an insert reporting an error wrote no row. A connection lost after the server committed the insert would report an error while the row exists, so a 500 from `SignAnswers` could leave a row that a later verify finds. The model promises an unchanged table on every error. The column types are not modelled either. `user_id` is `VARCHAR(255)` (internal/db/db.go:26), and PostgreSQL refuses a longer value unless the excess is all spaces, in which case it cuts the value silently; text holding a NUL character fails outright. A refused insert or query is what `execOk` and `queryOk` stand for, but a silent cut cannot be expressed: the model stores the user id unchanged. So `Scenarios.SignThenVerify` and `Scenarios.FreshRoundTrip` hold for the program only for user ids PostgreSQL stores as given, such as those of at most 255 characters; "alice" followed by 300 spaces would be answered `201` and then `404`.
- Dsn.Parse: returns the settings as a sequence, in order. The reader is lib/pq's, not code in this repository; it is reached through `sql.Open` at internal/db/db.go:40. lib/pq keeps the settings in a map, and `Dsn.Lookup` states which value survives for each key (the last one). Defaults for absent keys, taken from the environment and libpq, are not modelled.
- Db.FetchSessionData: which row is returned when several match is left to an oracle, because the query has no `ORDER BY` and PostgreSQL does not define the order.

## Findings

| source | as written | input that shows it | evidently intended | confidence | as-written member | corrected member |
|---|---|---|---|---|---|---|
| internal/db/db.go:60 | values are joined into the connection string bare, so white space in a value ends the value | `DB_PASSWORD` set to "se cret": the driver reads "cret" as a keyword with no `=` and rejects the string | any password reaches the driver unchanged, which quoting every value that is not plain achieves while plain values stay as the test expects | medium, not executed | Dsn.SpaceInPasswordUnreadable | Dsn.GetDsnFixed |
| internal/db/db.go:60 | an empty value is written as `host=` followed by a space, and the driver skips white space after `=` | `DB_HOST` unset: the host becomes "port=5432", and the driver ignores `DB_PORT` and uses its default port instead | an unset variable yields an empty setting (`host=''`) | medium, not executed | Dsn.EmptyHostSwallowsPort | Dsn.GetDsnFixed |
