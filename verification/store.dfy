/**
  The `users` table (main.go) as an immutable map from id to row, and the
  SQL statements the handlers issue, each as a function or predicate over
  that map. Ids come from a `SERIAL` column, so every stored id is positive.
*/
module UserStore {
  import opened Options

  /** The `User` record the handlers decode from and encode to JSON. */
  datatype User = User(id: int, name: string, email: string)

  /** The non-key columns of a row of `users`. */
  datatype Row = Row(name: string, email: string)

  /** The table: `id SERIAL PRIMARY KEY`, so every key is positive. */
  type Store = db: map<int, Row> | forall id :: id in db ==> id > 0 witness map[]

  /** The user a row stands for. */
  function AsUser(id: int, row: Row): User {
    User(id, row.name, row.email)
  }

  /** Every row except the one at `id` is the same in `db` and `db'`. */
  ghost predicate AgreeExcept(db: Store, db': Store, id: int) {
    forall k :: k != id ==> (k in db <==> k in db') && (k in db ==> db'[k] == db[k])
  }

  /** No two rows share a name. */
  ghost predicate UniqueNames(db: Store) {
    forall j, k :: j in db && k in db && j != k ==> db[j].name != db[k].name
  }

  /** No two rows share an email. */
  ghost predicate UniqueEmails(db: Store) {
    forall j, k :: j in db && k in db && j != k ==> db[j].email != db[k].email
  }

  /** `SELECT * FROM users` (main.go:57): the whole table, order left aside. */
  function SelectAll(db: Store): (users: set<User>)
    ensures forall u :: u in users <==> u.id in db && db[u.id] == Row(u.name, u.email)
  {
    set id | id in db :: AsUser(id, db[id])
  }

  /**
    `SELECT * FROM users WHERE id = $1` (main.go:87) and
    `SELECT name, email FROM users WHERE id = $1` (main.go:170).
  */
  function SelectById(db: Store, id: int): (r: Option<Row>)
    ensures r.Some? <==> id in db
    ensures r.Some? ==> r.value == db[id]
  {
    if id in db then Some(db[id]) else None
  }

  /**
    `SELECT id, name, email FROM users WHERE name = $1 OR email = $2`
    (main.go:114): some row has the name, or the email, or both.
  */
  predicate NameOrEmailTaken(db: Store, name: string, email: string) {
    exists id :: id in db && (db[id].name == name || db[id].email == email)
  }

  /**
    `SELECT id, name, email FROM users WHERE email = $1 AND id != $2`
    (main.go:159): some row other than `id` has the email.
  */
  predicate EmailTakenByOther(db: Store, email: string, id: int) {
    exists other :: other in db && other != id && db[other].email == email
  }

  /**
    `INSERT INTO users (name, email) VALUES ($1, $2) RETURNING id`
    (main.go:126), where `id` is the value the `SERIAL` column hands out.
  */
  function Insert(db: Store, id: int, row: Row): (db': Store)
    requires id > 0 && id !in db
    ensures db'.Keys == db.Keys + {id} && db'[id] == row
    ensures AgreeExcept(db, db', id)
  {
    db[id := row]
  }

  /** `UPDATE users SET name = $1, email = $2 WHERE id = $3` (main.go:182). */
  function Update(db: Store, id: int, row: Row): (db': Store)
    ensures db'.Keys == db.Keys
    ensures id in db ==> db'[id] == row
    ensures AgreeExcept(db, db', id)
  {
    if id in db then db[id := row] else db
  }

  /** `DELETE FROM users WHERE id = $1` (main.go:197). */
  function Delete(db: Store, id: int): (db': Store)
    ensures db'.Keys == db.Keys - {id}
    ensures AgreeExcept(db, db', id)
  {
    db - {id}
  }
}
