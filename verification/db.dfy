/** The `user_session` table as an append-only sequence of records, and the
    two statements the service runs against it. */
module Db {
  import opened Wrappers

  /** A `created_at` value. Timestamps are opaque: the store assigns them. */
  type Time = int

  /** Go's zero `time.Time{}`, returned alongside an error. */
  const ZeroTime: Time := 0

  /** One row of `user_session`; the surrogate `id` is left out. */
  datatype Record = Record(userId: string, signature: string, answers: seq<string>, createdAt: Time)

  /** The table, in the order rows were inserted. */
  type Store = seq<Record>

  /** `sql.ErrNoRows`, a `json.Marshal` failure, or any other driver error. */
  datatype DbError = ErrNoRows | ErrMarshal | ErrDriver

  /** What the environment decides for one `SaveSession`: whether marshalling
      the answers and executing the INSERT succeed, and the time the server
      stamps the new row with. */
  datatype WriteEnv = WriteEnv(marshalOk: bool, execOk: bool, now: Time)

  /** What the environment decides for one `FetchSessionData`: whether the
      query reaches the database, and which of several matching rows
      `QueryRow` yields (the table has no ordering, so this is an oracle). */
  datatype ReadEnv = ReadEnv(queryOk: bool, pick: nat)

  datatype Saved = Saved(store: Store, err: Option<DbError>)

  /** The answers, timestamp and error `FetchSessionData` returns; `None`
      answers is Go's `nil`. */
  datatype Fetched = Fetched(answers: Option<seq<string>>, createdAt: Time, err: Option<DbError>)

  predicate Matches(rec: Record, userId: string, signature: string) {
    rec.userId == userId && rec.signature == signature
  }

  /** True when some row has exactly this user id and signature. */
  predicate HasMatch(store: Store, userId: string, signature: string) {
    exists rec :: rec in store && Matches(rec, userId, signature)
  }

  /** `SaveSession`: marshal the answers, then insert one row. A failure of
      either step leaves the table untouched; success appends exactly one
      row and never merges it with an equal one. */
  function SaveSession(store: Store, userId: string, signature: string, answers: seq<string>,
                       env: WriteEnv): (r: Saved)
    ensures r.err.None? <==> env.marshalOk && env.execOk
    ensures !env.marshalOk ==> r.err == Some(ErrMarshal)
    ensures env.marshalOk && !env.execOk ==> r.err == Some(ErrDriver)
    ensures r.err.Some? ==> r.store == store
    ensures r.err.None? ==> |r.store| == |store| + 1
    ensures r.store[..|store|] == store
    ensures r.err.None? ==> r.store[|store|] == Record(userId, signature, answers, env.now)
  {
    if !env.marshalOk then Saved(store, Some(ErrMarshal))
    else if !env.execOk then Saved(store, Some(ErrDriver))
    else Saved(store + [Record(userId, signature, answers, env.now)], None)
  }

  /** The rows matching the `WHERE user_id = $1 AND signature = $2` clause, in table order. */
  function MatchingRows(store: Store, userId: string, signature: string): (rows: seq<Record>)
    ensures |rows| <= |store|
    ensures forall rec :: rec in rows <==> rec in store && Matches(rec, userId, signature)
  {
    if store == [] then []
    else
      var rest := MatchingRows(store[1..], userId, signature);
      assert forall rec :: rec in store <==> rec == store[0] || rec in store[1..];
      if Matches(store[0], userId, signature) then [store[0]] + rest else rest
  }

  /** `FetchSessionData`: the answers and timestamp of one row matching both
      columns exactly, `sql.ErrNoRows` when none does, or a driver error. */
  function FetchSessionData(store: Store, userId: string, signature: string, env: ReadEnv): (r: Fetched)
    ensures r.err.Some? ==> r.answers.None? && r.createdAt == ZeroTime
    ensures r.err == Some(ErrDriver) <==> !env.queryOk
    ensures r.err == Some(ErrNoRows) <==> env.queryOk && !HasMatch(store, userId, signature)
    ensures r.err.None? <==> env.queryOk && HasMatch(store, userId, signature)
    ensures r.err.None? ==>
      exists rec :: rec in store && Matches(rec, userId, signature)
                    && r.answers == Some(rec.answers) && r.createdAt == rec.createdAt
  {
    if !env.queryOk then Fetched(None, ZeroTime, Some(ErrDriver))
    else
      var rows := MatchingRows(store, userId, signature);
      if rows == [] then
        Fetched(None, ZeroTime, Some(ErrNoRows))
      else
        var rec := rows[env.pick % |rows|];
        assert rec in rows;
        Fetched(Some(rec.answers), rec.createdAt, None)
  }

  /** Among several matching rows, the oracle's choice decides which one is
      returned: `pick` indexes the matches in table order. */
  lemma FetchPicksRow(store: Store, userId: string, signature: string, env: ReadEnv)
    requires env.queryOk && env.pick < |MatchingRows(store, userId, signature)|
    ensures var rec := MatchingRows(store, userId, signature)[env.pick];
            FetchSessionData(store, userId, signature, env) == Fetched(Some(rec.answers), rec.createdAt, None)
  {
    var rows := MatchingRows(store, userId, signature);
    ModSmall(env.pick, |rows|);
  }

  lemma ModSmall(a: nat, b: nat)
    requires a < b
    ensures a % b == a
  {
  }

  /** After a successful save, a lookup with the same user id and signature
      succeeds and returns a matching row, though with duplicates not
      necessarily the one just written. */
  lemma SaveThenFetch(store: Store, userId: string, signature: string, answers: seq<string>,
                      wenv: WriteEnv, renv: ReadEnv)
    requires SaveSession(store, userId, signature, answers, wenv).err.None?
    requires renv.queryOk
    ensures var f := FetchSessionData(SaveSession(store, userId, signature, answers, wenv).store,
                                      userId, signature, renv);
            f.err.None? && f.answers.Some?
  {
    var s := SaveSession(store, userId, signature, answers, wenv).store;
    assert s[|store|] in s;
  }

  /** When no earlier row matched, the lookup after a save is determined:
      it returns exactly the saved answers and timestamp. */
  lemma SaveThenFetchFresh(store: Store, userId: string, signature: string, answers: seq<string>,
                           wenv: WriteEnv, renv: ReadEnv)
    requires !HasMatch(store, userId, signature)
    requires SaveSession(store, userId, signature, answers, wenv).err.None?
    requires renv.queryOk
    ensures FetchSessionData(SaveSession(store, userId, signature, answers, wenv).store,
                             userId, signature, renv)
            == Fetched(Some(answers), wenv.now, None)
  {
    var s := SaveSession(store, userId, signature, answers, wenv).store;
    assert s == store + [Record(userId, signature, answers, wenv.now)];
    forall rec | rec in s && Matches(rec, userId, signature)
      ensures rec == Record(userId, signature, answers, wenv.now)
    {
      assert rec !in store;
    }
    var rows := MatchingRows(s, userId, signature);
    assert s[|store|] in rows;
    assert rows[renv.pick % |rows|] in rows;
  }

  /** Saving the same input twice yields two rows that differ at most in
      their timestamp: there is no de-duplication. */
  lemma SaveTwiceKeepsBoth(store: Store, userId: string, signature: string, answers: seq<string>,
                           env1: WriteEnv, env2: WriteEnv)
    requires env1.marshalOk && env1.execOk && env2.marshalOk && env2.execOk
    ensures var s1 := SaveSession(store, userId, signature, answers, env1).store;
            var s2 := SaveSession(s1, userId, signature, answers, env2).store;
            && s2 == store + [Record(userId, signature, answers, env1.now), Record(userId, signature, answers, env2.now)]
            && s2[|store|].(createdAt := 0) == s2[|store| + 1].(createdAt := 0)
            && |MatchingRows(s2, userId, signature)| >= 2
  {
    var s1 := SaveSession(store, userId, signature, answers, env1).store;
    var s2 := SaveSession(s1, userId, signature, answers, env2).store;
    MatchingRowsAppend(store, [s2[|store|], s2[|store| + 1]], userId, signature);
    assert s2 == store + [s2[|store|], s2[|store| + 1]];
  }

  lemma {:induction false} MatchingRowsAppend(a: Store, b: Store, userId: string, signature: string)
    ensures MatchingRows(a + b, userId, signature)
            == MatchingRows(a, userId, signature) + MatchingRows(b, userId, signature)
  {
    if a == [] {
      assert a + b == b;
    } else {
      assert (a + b)[0] == a[0];
      assert (a + b)[1..] == a[1..] + b;
      MatchingRowsAppend(a[1..], b, userId, signature);
    }
  }
}
