/**
  Properties of the handlers: which check fires first, what a success does
  to the table, the invariants the handlers keep or break, and round trips
  through `GetUser`.
*/
module HandlerProperties {
  import opened Options
  import opened Email
  import opened UserStore
  import opened Handlers

  /* ---------- POST /users ---------- */

  /**
    An empty name or an email outside the pattern is rejected with 400 before
    the table is consulted: the reply is the same whatever the table holds
    and whichever statements would fail, and nothing changes.
  */
  lemma CreateRejectsInvalidInput(db: Store, u: User, faults: set<Statement>, newId: int)
    requires newId > 0 && newId !in db
    requires u.name == "" || !MatchesPattern(u.email)
    ensures CreateUser(db, Decoded(u), faults, newId)
         == Outcome(HttpError(StatusBadRequest, InvalidCreateInput), db)
  {
    IsValidEmailCorrect(u.email);
  }

  /**
    A stored row with the same name, or the same email, or both, makes a
    valid create answer 409 and leave the table as it was.
  */
  lemma CreateConflict(db: Store, u: User, faults: set<Statement>, newId: int, k: int)
    requires newId > 0 && newId !in db
    requires u.name != "" && IsValidEmail(u.email) && FindNameOrEmail !in faults
    requires k in db && (db[k].name == u.name || db[k].email == u.email)
    ensures CreateUser(db, Decoded(u), faults, newId)
         == Outcome(HttpError(StatusConflict, NameOrEmailExists), db)
  {
    assert NameOrEmailTaken(db, u.name, u.email);
  }

  /**
    A create succeeds exactly when the body decoded, the name is non-empty,
    the email matches the pattern, no row has that name or that email, and
    neither the lookup nor the insert fails; the reply then carries the new
    id and the submitted name and email.
  */
  lemma CreateSucceedsIff(db: Store, body: Payload, faults: set<Statement>, newId: int)
    requires newId > 0 && newId !in db
    ensures CreateUser(db, body, faults, newId).reply.UserJson? <==>
      && body.Decoded?
      && body.user.name != ""
      && MatchesPattern(body.user.email)
      && (forall k :: k in db ==> db[k].name != body.user.name && db[k].email != body.user.email)
      && FindNameOrEmail !in faults
      && InsertRow !in faults
    ensures CreateUser(db, body, faults, newId).reply.UserJson? ==>
      CreateUser(db, body, faults, newId).reply.user == User(newId, body.user.name, body.user.email)
  {
    if body.Decoded? {
      IsValidEmailCorrect(body.user.email);
    }
  }

  /**
    A failing lookup answers 500 "Error checking for existing user", whatever
    the table holds: the fault is looked at before any conflict.
  */
  lemma CreateLookupFault(db: Store, u: User, faults: set<Statement>, newId: int)
    requires newId > 0 && newId !in db
    requires u.name != "" && IsValidEmail(u.email) && FindNameOrEmail in faults
    ensures CreateUser(db, Decoded(u), faults, newId)
         == Outcome(HttpError(StatusInternalServerError, CheckFailed), db)
  {
  }

  /** A failing insert, after the checks pass, answers 500 "Error creating user". */
  lemma CreateInsertFault(db: Store, u: User, faults: set<Statement>, newId: int)
    requires newId > 0 && newId !in db
    requires u.name != "" && IsValidEmail(u.email) && FindNameOrEmail !in faults
    requires forall k :: k in db ==> db[k].name != u.name && db[k].email != u.email
    requires InsertRow in faults
    ensures CreateUser(db, Decoded(u), faults, newId)
         == Outcome(HttpError(StatusInternalServerError, CreateFailed), db)
  {
  }

  /** Create keeps names unique and emails unique. */
  lemma CreatePreservesUniqueness(db: Store, body: Payload, faults: set<Statement>, newId: int)
    requires newId > 0 && newId !in db
    requires UniqueNames(db) && UniqueEmails(db)
    ensures UniqueNames(CreateUser(db, body, faults, newId).db)
    ensures UniqueEmails(CreateUser(db, body, faults, newId).db)
  {
    var out := CreateUser(db, body, faults, newId);
    if out.reply.UserJson? {
      var u := body.user;
      assert !NameOrEmailTaken(db, u.name, u.email);
      forall j, k | j in out.db && k in out.db && j != k
        ensures out.db[j].name != out.db[k].name && out.db[j].email != out.db[k].email
      {
        if j == newId {
          assert !(db[k].name == u.name || db[k].email == u.email);
        } else if k == newId {
          assert !(db[j].name == u.name || db[j].email == u.email);
        }
      }
    }
  }

  /** After a successful create, `GET` of the new id returns what was submitted. */
  lemma CreateThenGet(db: Store, u: User, faults: set<Statement>, newId: int)
    requires newId > 0 && newId !in db
    requires CreateUser(db, Decoded(u), faults, newId).reply.UserJson?
    ensures GetUser(CreateUser(db, Decoded(u), faults, newId).db, newId, {})
         == UserJson(StatusOK, User(newId, u.name, u.email))
  {
  }

  /** Posting the same user twice: the second attempt answers 409, never 201. */
  lemma CreateTwiceConflicts(db: Store, u: User, faults: set<Statement>, id1: int, id2: int)
    requires id1 > 0 && id1 !in db
    requires CreateUser(db, Decoded(u), faults, id1).reply.UserJson?
    requires id2 > 0 && id2 !in CreateUser(db, Decoded(u), faults, id1).db
    ensures CreateUser(CreateUser(db, Decoded(u), faults, id1).db, Decoded(u), faults, id2).reply
         == HttpError(StatusConflict, NameOrEmailExists)
  {
    var db1 := CreateUser(db, Decoded(u), faults, id1).db;
    assert db1[id1].name == u.name;
    assert NameOrEmailTaken(db1, u.name, u.email);
  }

  /* ---------- PUT /users/{id} ---------- */

  /**
    Update checks only that name and email are non-empty: with no conflict,
    an existing row and a real change it succeeds whether or not the email
    matches the pattern.
  */
  lemma UpdateChecksOnlyPresence(db: Store, id: int, u: User)
    requires u.name != "" && u.email != ""
    requires id in db && db[id] != Row(u.name, u.email)
    requires forall k :: k in db && k != id ==> db[k].email != u.email
    ensures UpdateUser(db, id, Decoded(u), {}).reply == UserJson(StatusOK, u)
  {
  }

  /** The same body that create refuses for its email, update stores. */
  lemma UpdateAcceptsWhatCreateRejects()
    ensures CreateUser(map[], Decoded(User(0, "a", "x")), {}, 1).reply
         == HttpError(StatusBadRequest, InvalidCreateInput)
    ensures UpdateUser(map[1 := Row("a", "a@b.co")], 1, Decoded(User(0, "a", "x")), {})
         == Outcome(UserJson(StatusOK, User(0, "a", "x")), map[1 := Row("a", "x")])
  {
    assert !IsValidEmail("x");
  }

  /**
    The email conflict check comes before the existence check: an email held
    by some row, sent to an id that does not exist, answers 409 and not 404.
  */
  lemma UpdateConflictBeforeNotFound(db: Store, id: int, u: User, faults: set<Statement>, k: int)
    requires u.name != "" && u.email != "" && FindEmailElsewhere !in faults
    requires id !in db
    requires k in db && db[k].email == u.email
    ensures UpdateUser(db, id, Decoded(u), faults)
         == Outcome(HttpError(StatusConflict, EmailInUse), db)
  {
    assert EmailTakenByOther(db, u.email, id);
  }

  /** A failing email query ends the process, whatever the table holds. */
  lemma UpdateEmailQueryFault(db: Store, id: int, u: User, faults: set<Statement>)
    requires u.name != "" && u.email != "" && FindEmailElsewhere in faults
    ensures UpdateUser(db, id, Decoded(u), faults) == Outcome(Fatal, db)
  {
  }

  /** An id with no row, and an email nobody holds, answers 404 "User not found". */
  lemma UpdateMissingIdNotFound(db: Store, id: int, u: User, faults: set<Statement>)
    requires u.name != "" && u.email != ""
    requires id !in db
    requires forall k :: k in db ==> db[k].email != u.email
    requires FindEmailElsewhere !in faults && FindCurrent !in faults
    ensures UpdateUser(db, id, Decoded(u), faults)
         == Outcome(HttpError(StatusNotFound, UserNotFound), db)
  {
  }

  /**
    Any failure of the current-row query answers 404 "User not found", even
    when the row exists.
  */
  lemma UpdateCurrentQueryFault(db: Store, id: int, u: User, faults: set<Statement>)
    requires u.name != "" && u.email != ""
    requires forall k :: k in db && k != id ==> db[k].email != u.email
    requires FindEmailElsewhere !in faults && FindCurrent in faults
    ensures UpdateUser(db, id, Decoded(u), faults)
         == Outcome(HttpError(StatusNotFound, UserNotFound), db)
  {
  }

  /** A failing `UPDATE` on a real change ends the process and changes nothing. */
  lemma UpdateWriteFault(db: Store, id: int, u: User, faults: set<Statement>)
    requires u.name != "" && u.email != ""
    requires forall k :: k in db && k != id ==> db[k].email != u.email
    requires FindEmailElsewhere !in faults && FindCurrent !in faults && UpdateRow in faults
    requires id in db && db[id] != Row(u.name, u.email)
    ensures UpdateUser(db, id, Decoded(u), faults) == Outcome(Fatal, db)
  {
  }

  /** An email held by another row answers 409 and leaves the table as it was. */
  lemma UpdateConflict(db: Store, id: int, u: User, faults: set<Statement>, k: int)
    requires u.name != "" && u.email != "" && FindEmailElsewhere !in faults
    requires k in db && k != id && db[k].email == u.email
    ensures UpdateUser(db, id, Decoded(u), faults)
         == Outcome(HttpError(StatusConflict, EmailInUse), db)
  {
    assert EmailTakenByOther(db, u.email, id);
  }

  /**
    Keeping one's own email is not a conflict: in a table with unique emails,
    renaming a row while keeping its email succeeds.
  */
  lemma UpdateKeepsOwnEmail(db: Store, id: int, u: User)
    requires UniqueEmails(db)
    requires id in db && db[id].email == u.email
    requires u.name != "" && u.email != "" && u.name != db[id].name
    ensures UpdateUser(db, id, Decoded(u), {}).reply == UserJson(StatusOK, u)
    ensures UpdateUser(db, id, Decoded(u), {}).db == db[id := Row(u.name, u.email)]
  {
    assert !EmailTakenByOther(db, u.email, id);
  }

  /**
    Sending back a row's own name and email answers 400 "No changes
    detected" and changes nothing, when emails are unique.
  */
  lemma UpdateNoChange(db: Store, id: int, u: User, faults: set<Statement>)
    requires UniqueEmails(db)
    requires id in db && db[id] == Row(u.name, u.email)
    requires u.name != "" && u.email != ""
    requires FindEmailElsewhere !in faults && FindCurrent !in faults
    ensures UpdateUser(db, id, Decoded(u), faults)
         == Outcome(HttpError(StatusBadRequest, NoChanges), db)
  {
    assert !EmailTakenByOther(db, u.email, id);
  }

  /**
    An update succeeds exactly when the body decoded with both fields
    non-empty, no other row has the email, the row exists and differs from
    the submitted values, and none of the three statements fails.
  */
  lemma UpdateSucceedsIff(db: Store, id: int, body: Payload, faults: set<Statement>)
    ensures UpdateUser(db, id, body, faults).reply.UserJson? <==>
      && body.Decoded?
      && body.user.name != "" && body.user.email != ""
      && (forall k :: k in db && k != id ==> db[k].email != body.user.email)
      && id in db && db[id] != Row(body.user.name, body.user.email)
      && FindEmailElsewhere !in faults && FindCurrent !in faults && UpdateRow !in faults
  {
    if body.Decoded? && (exists k :: k in db && k != id && db[k].email == body.user.email) {
      assert EmailTakenByOther(db, body.user.email, id);
    }
  }

  /** The reply echoes the decoded body, whose `id` need not be the path id. */
  lemma UpdateEchoesBody()
    ensures UpdateUser(map[1 := Row("a", "a@b.co")], 1, Decoded(User(7, "b", "b@b.co")), {}).reply
         == UserJson(StatusOK, User(7, "b", "b@b.co"))
  {
  }

  /** Update keeps emails unique. */
  lemma UpdatePreservesUniqueEmails(db: Store, id: int, body: Payload, faults: set<Statement>)
    requires UniqueEmails(db)
    ensures UniqueEmails(UpdateUser(db, id, body, faults).db)
  {
    var out := UpdateUser(db, id, body, faults);
    if out.reply.UserJson? {
      var u := body.user;
      assert !EmailTakenByOther(db, u.email, id);
      forall j, k | j in out.db && k in out.db && j != k
        ensures out.db[j].email != out.db[k].email
      {
        if j == id {
          assert db[k].email != u.email;
        } else if k == id {
          assert db[j].email != u.email;
        }
      }
    }
  }

  /** Update does not check names: it can give a second row a name already in use. */
  lemma UpdateMayDuplicateNames()
    ensures UniqueNames(map[1 := Row("a", "a@x.io"), 2 := Row("b", "b@x.io")])
    ensures !UniqueNames(UpdateUser(map[1 := Row("a", "a@x.io"), 2 := Row("b", "b@x.io")], 2,
                                    Decoded(User(2, "a", "b@x.io")), {}).db)
  {
    var db: Store := map[1 := Row("a", "a@x.io"), 2 := Row("b", "b@x.io")];
    assert !EmailTakenByOther(db, "b@x.io", 2);
    var after := UpdateUser(db, 2, Decoded(User(2, "a", "b@x.io")), {}).db;
    assert after[1].name == after[2].name;
  }

  /** After a successful update, `GET` of the path id returns the new values under that id. */
  lemma UpdateThenGet(db: Store, id: int, u: User, faults: set<Statement>)
    requires UpdateUser(db, id, Decoded(u), faults).reply.UserJson?
    ensures GetUser(UpdateUser(db, id, Decoded(u), faults).db, id, {})
         == UserJson(StatusOK, User(id, u.name, u.email))
  {
  }

  /* ---------- DELETE /users/{id} ---------- */

  /** Deleting twice is deleting once: same reply, same table. */
  lemma DeleteIdempotent(db: Store, id: int, faults: set<Statement>)
    ensures DeleteUser(DeleteUser(db, id, faults).db, id, faults) == DeleteUser(db, id, faults)
  {
  }

  /** Deleting an id that is not there answers "User deleted" and changes nothing. */
  lemma DeleteMissingIsNoop(db: Store, id: int, faults: set<Statement>)
    requires id !in db && DeleteRow !in faults
    ensures DeleteUser(db, id, faults) == Outcome(StringJson(UserDeleted), db)
  {
  }

  /** After a delete, `GET` of that id takes the fatal path. */
  lemma DeleteThenGet(db: Store, id: int, faults: set<Statement>)
    requires DeleteRow !in faults
    ensures GetUser(DeleteUser(db, id, faults).db, id, faults) == Fatal
  {
  }

  /* ---------- GET ---------- */

  /** The list holds a user exactly when `GET` of its id returns that user. */
  lemma ListAgreesWithGet(db: Store, u: User)
    ensures GetUsers(db, {}).UserListJson?
    ensures u in GetUsers(db, {}).users <==> GetUser(db, u.id, {}) == UserJson(StatusOK, u)
  {
  }

  /* ---------- a whole lifecycle ---------- */

  /**
    POST {A, a@b.co}, GET, PUT {A2, a2@b.co}, GET, DELETE, GET on a table
    where neither name nor either email is in use.
  */
  lemma Lifecycle(db: Store, n: int)
    requires n > 0 && n !in db
    requires forall k :: k in db ==> db[k].name != "A" && db[k].email != "a@b.co" && db[k].email != "a2@b.co"
    ensures CreateUser(db, Decoded(User(0, "A", "a@b.co")), {}, n).reply
         == UserJson(StatusCreated, User(n, "A", "a@b.co"))
    ensures var db1 := CreateUser(db, Decoded(User(0, "A", "a@b.co")), {}, n).db;
      && GetUser(db1, n, {}) == UserJson(StatusOK, User(n, "A", "a@b.co"))
      && UpdateUser(db1, n, Decoded(User(n, "A2", "a2@b.co")), {}).reply
         == UserJson(StatusOK, User(n, "A2", "a2@b.co"))
      && var db2 := UpdateUser(db1, n, Decoded(User(n, "A2", "a2@b.co")), {}).db;
      && GetUser(db2, n, {}) == UserJson(StatusOK, User(n, "A2", "a2@b.co"))
      && DeleteUser(db2, n, {}).reply == StringJson(UserDeleted)
      && GetUser(DeleteUser(db2, n, {}).db, n, {}) == Fatal
  {
    var u1 := User(0, "A", "a@b.co");
    var u2 := User(n, "A2", "a2@b.co");
    AcceptedExample();
    assert !NameOrEmailTaken(db, "A", "a@b.co");
    var c := CreateUser(db, Decoded(u1), {}, n);
    assert c.reply == UserJson(StatusCreated, User(n, "A", "a@b.co"));
    var db1 := c.db;
    assert db1 == db[n := Row("A", "a@b.co")];
    CreateThenGet(db, u1, {}, n);
    assert !EmailTakenByOther(db1, "a2@b.co", n);
    UpdateChecksOnlyPresence(db1, n, u2);
    var up := UpdateUser(db1, n, Decoded(u2), {});
    assert up.reply == UserJson(StatusOK, u2);
    UpdateThenGet(db1, n, u2, {});
    var db2 := up.db;
    DeleteThenGet(db2, n, {});
  }
}
