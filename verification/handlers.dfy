/**
  The five request handlers of main.go, each a pure function from the table
  and the already-decoded request to the reply and the table afterwards.

  Each handler is a short-circuit pipeline: the first check that fails
  decides the reply and the rest are skipped. A store error other than
  "no rows" is not something the table decides; it is given as `faults`,
  the set of statements that fail if they are reached.
*/
module Handlers {
  import opened Options
  import opened Email
  import opened UserStore

  /** The SQL statements a handler can issue, to say which of them fail. */
  datatype Statement =
    | ListAll            // SELECT * FROM users                       (main.go:57)
    | GetById            // SELECT * FROM users WHERE id = $1         (main.go:87)
    | FindNameOrEmail    // ... WHERE name = $1 OR email = $2         (main.go:114)
    | InsertRow          // INSERT ... RETURNING id                   (main.go:126)
    | FindEmailElsewhere // ... WHERE email = $1 AND id != $2         (main.go:159)
    | FindCurrent        // SELECT name, email ... WHERE id = $1      (main.go:170)
    | UpdateRow          // UPDATE users SET ... WHERE id = $3        (main.go:182)
    | DeleteRow          // DELETE FROM users WHERE id = $1           (main.go:197)

  /** A request body: JSON that did not decode, or the `User` it decoded to. */
  datatype Payload = Malformed | Decoded(user: User)

  /** What the client sees, or `Fatal` when `log.Fatal` ends the process. */
  datatype Reply =
    | HttpError(status: int, message: string)  // http.Error(w, message, status)
    | UserJson(status: int, user: User)        // a User encoded as JSON
    | UserListJson(users: set<User>)           // getUsers' JSON array, status 200
    | StringJson(text: string)                 // a JSON string, status 200
    | Fatal

  /** A reply and the table after the request. */
  datatype Outcome = Outcome(reply: Reply, db: Store)

  const StatusOK := 200
  const StatusCreated := 201
  const StatusBadRequest := 400
  const StatusNotFound := 404
  const StatusConflict := 409
  const StatusInternalServerError := 500

  const InvalidPayload := "Invalid request payload"
  const InvalidCreateInput := "Invalid input: Name is required and Email must be valid"
  const CheckFailed := "Error checking for existing user"
  const NameOrEmailExists := "User with the same name or email already exists"
  const CreateFailed := "Error creating user"
  const FieldsRequired := "Name and Email are required"
  const EmailInUse := "Email already in use by another user"
  const UserNotFound := "User not found"
  const NoChanges := "No changes detected"
  const UserDeleted := "User deleted"

  /** `GET /users`: every row, or `Fatal` if the query or a scan fails. */
  function GetUsers(db: Store, faults: set<Statement>): (r: Reply)
    ensures r.Fatal? <==> ListAll in faults
    ensures r.UserListJson? ==>
      forall u :: u in r.users <==> SelectById(db, u.id) == Some(Row(u.name, u.email))
  {
    if ListAll in faults then Fatal else UserListJson(SelectAll(db))
  }

  /** `GET /users/{id}`: the row, or `Fatal`, also when there is no such row. */
  function GetUser(db: Store, id: int, faults: set<Statement>): (r: Reply)
    ensures r.Fatal? || r.UserJson?
    ensures r.UserJson? <==> id in db && GetById !in faults
    ensures r.UserJson? ==> r.status == StatusOK && r.user.id == id && Row(r.user.name, r.user.email) == db[id]
  {
    if GetById in faults then Fatal
    else match SelectById(db, id)
      case None => Fatal
      case Some(row) => UserJson(StatusOK, AsUser(id, row))
  }

  /**
    `POST /users`. `newId` is the id the `SERIAL` column would hand out
    to the inserted row: any positive id not yet in the table.
  */
  function CreateUser(db: Store, body: Payload, faults: set<Statement>, newId: int): (out: Outcome)
    requires newId > 0 && newId !in db
    ensures out.reply.HttpError? || out.reply.UserJson?
    ensures out.reply.HttpError? ==> out.db == db
    ensures body.Malformed? ==> out.reply == HttpError(StatusBadRequest, InvalidPayload)
    ensures out.reply.HttpError? && out.reply.status == StatusInternalServerError ==>
      FindNameOrEmail in faults || InsertRow in faults
    ensures out.reply.UserJson? ==>
      && out.reply.status == StatusCreated
      && out.reply.user.id == newId
      && out.db.Keys == db.Keys + {newId}
      && out.db[newId] == Row(out.reply.user.name, out.reply.user.email)
      && AgreeExcept(db, out.db, newId)
  {
    match body
    case Malformed => Outcome(HttpError(StatusBadRequest, InvalidPayload), db)
    case Decoded(u) =>
      if u.name == "" || !IsValidEmail(u.email) then
        Outcome(HttpError(StatusBadRequest, InvalidCreateInput), db)
      else if FindNameOrEmail in faults then
        Outcome(HttpError(StatusInternalServerError, CheckFailed), db)
      else if NameOrEmailTaken(db, u.name, u.email) then
        Outcome(HttpError(StatusConflict, NameOrEmailExists), db)
      else if InsertRow in faults then
        Outcome(HttpError(StatusInternalServerError, CreateFailed), db)
      else
        Outcome(UserJson(StatusCreated, User(newId, u.name, u.email)),
                Insert(db, newId, Row(u.name, u.email)))
  }

  /** `PUT /users/{id}`: replace the name and email of row `id`. */
  function UpdateUser(db: Store, id: int, body: Payload, faults: set<Statement>): (out: Outcome)
    ensures out.reply.HttpError? || out.reply.UserJson? || out.reply.Fatal?
    ensures !out.reply.UserJson? ==> out.db == db
    ensures body.Malformed? ==> out.reply == HttpError(StatusBadRequest, InvalidPayload)
    ensures body.Decoded? && (body.user.name == "" || body.user.email == "") ==>
      out.reply == HttpError(StatusBadRequest, FieldsRequired)
    ensures out.reply.Fatal? ==> FindEmailElsewhere in faults || UpdateRow in faults
    ensures out.reply == HttpError(StatusNotFound, UserNotFound) ==> FindCurrent in faults || id !in db
    ensures out.reply.UserJson? ==>
      && body.Decoded?
      && out.reply == UserJson(StatusOK, body.user)
      && id in db
      && out.db.Keys == db.Keys
      && out.db[id] == Row(body.user.name, body.user.email) != db[id]
      && AgreeExcept(db, out.db, id)
  {
    match body
    case Malformed => Outcome(HttpError(StatusBadRequest, InvalidPayload), db)
    case Decoded(u) =>
      if u.name == "" || u.email == "" then
        Outcome(HttpError(StatusBadRequest, FieldsRequired), db)
      else if FindEmailElsewhere in faults then
        Outcome(Fatal, db)
      else if EmailTakenByOther(db, u.email, id) then
        Outcome(HttpError(StatusConflict, EmailInUse), db)
      else if FindCurrent in faults then
        // any error of this query, not only "no rows", reads as not found
        Outcome(HttpError(StatusNotFound, UserNotFound), db)
      else match SelectById(db, id)
        case None => Outcome(HttpError(StatusNotFound, UserNotFound), db)
        case Some(current) =>
          if current == Row(u.name, u.email) then
            Outcome(HttpError(StatusBadRequest, NoChanges), db)
          else if UpdateRow in faults then
            Outcome(Fatal, db)
          else
            Outcome(UserJson(StatusOK, u), Update(db, id, Row(u.name, u.email)))
  }

  /** `DELETE /users/{id}`: remove row `id` if there is one; no existence check. */
  function DeleteUser(db: Store, id: int, faults: set<Statement>): (out: Outcome)
    ensures out.reply == StringJson(UserDeleted) || out.reply.Fatal?
    ensures out.reply.Fatal? <==> DeleteRow in faults
    ensures out.reply.Fatal? ==> out.db == db
    ensures out.reply.StringJson? ==> id !in out.db && out.db.Keys == db.Keys - {id}
    ensures AgreeExcept(db, out.db, id)
  {
    if DeleteRow in faults then Outcome(Fatal, db)
    else Outcome(StringJson(UserDeleted), Delete(db, id))
  }
}
