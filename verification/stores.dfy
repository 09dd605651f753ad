/**
 * The user store adapters (pkg/stores/sqlite.go, pkg/stores/pg.go): they
 * implement the `UserStore` contract of pkg/stores/store.go over the query
 * layer generated for each database.  Both adapters have the same code, so
 * one `UserStore` class stands for either, over one `Querier` class that
 * stands for the generated query layer and holds the users table.
 */
module Stores {

  import opened Wrappers
  import opened Errors
  import opened Models

  /** A row of the users table, as the generated code reads and writes it
      (`CreateUserParams` and the `User` row type). */
  datatype Row = Row(username: string, passwordHash: string)

  /** The outcome of the generated `GetUser` query. */
  datatype QueryResult = RowFound(row: Row) | QueryFailed(err: Error)

  /** The outcome of `UserStore.Get`, Go's `(*models.User, error)`: a user,
      neither (no such user), or an error. */
  datatype Lookup = Present(user: User) | Absent | LookupFailed(err: Error)

  /** The users table, keyed by username (the column is unique). */
  type Table = map<string, string>

  /** `SELECT ... WHERE username = $1` on `table`.  `fault` is a failure of
      the database itself for this call (connection lost, context
      cancelled, ...), reported as its text. */
  function Select(table: Table, username: string, fault: Option<string>): (r: QueryResult)
    ensures fault.Some? ==> r == QueryFailed(Failure(fault.value))
    ensures fault.None? && username !in table ==> r == QueryFailed(NoRows)
    ensures fault.None? && username in table ==> r == RowFound(Row(username, table[username]))
  {
    if fault.Some? then QueryFailed(Failure(fault.value))
    else if username !in table then QueryFailed(NoRows)
    else RowFound(Row(username, table[username]))
  }

  /**
   * The adapter's translation of a `GetUser` outcome: `sql.ErrNoRows`
   * (possibly wrapped) means no user and no error, any other error is
   * wrapped with the username, and a row becomes the user whose password
   * is the row's hash.
   */
  function TranslateGet(username: string, q: QueryResult): (r: Lookup)
    ensures r.Absent? <==> q.QueryFailed? && Is(q.err, NoRows)
    ensures r.Present? <==> q.RowFound?
    ensures r.Present? ==> r.user == User(q.row.username, q.row.passwordHash)
    ensures r.LookupFailed? ==>
      && Message(r.err) == "error getting the user " + username + ": " + Message(q.err)
      && Is(r.err, q.err)
  {
    match q
    case QueryFailed(err) =>
      if !Is(err, NoRows) then LookupFailed(Wrap("error getting the user " + username, err))
      else Absent
    case RowFound(row) => Present(User(row.username, row.passwordHash))
  }

  /** The adapter's translation of a `CreateUser` outcome: an error is
      wrapped with the username, success is nil. */
  function TranslateCreate(username: string, err: Option<Error>): (r: Option<Error>)
    ensures r.None? <==> err.None?
    ensures r.Some? ==>
      && Message(r.value) == "error creating the user " + username + ": " + Message(err.value)
      && Is(r.value, err.value)
  {
    match err
    case Some(e) => Some(Wrap("error creating the user " + username, e))
    case None => None
  }

  /** `UserStore.Get` on a table, as a value: the query, then the
      translation. */
  function Fetch(table: Table, username: string, fault: Option<string>): (r: Lookup)
    ensures fault.None? ==> (r.Absent? <==> username !in table)
    ensures fault.None? && username in table ==> r == Present(User(username, table[username]))
    ensures fault.Some? ==>
              r.LookupFailed? && Message(r.err) == "error getting the user " + username + ": " + fault.value
  {
    TranslateGet(username, Select(table, username, fault))
  }

  /** The database's own messages: for a username that is already stored
      (the unique column) and for an empty username or password hash (the
      columns' non-empty constraint). */
  datatype Driver = Driver(conflictText: string, emptyText: string)

  /**
   * The outcome of the generated `CreateUser` insert on `table`: a database
   * fault, an empty column and a duplicate username each refuse the row, in
   * that order of precedence; any other row is accepted.
   */
  function Insert(table: Table, row: Row, fault: Option<string>, driver: Driver): (r: Option<Error>)
    ensures r.None? <==> fault.None? && row.username != "" && row.passwordHash != "" && row.username !in table
    ensures fault.Some? ==> r == Some(Failure(fault.value))
    ensures fault.None? && (row.username == "" || row.passwordHash == "") ==> r == Some(Failure(driver.emptyText))
    ensures fault.None? && row.username != "" && row.passwordHash != "" && row.username in table ==>
              r == Some(Failure(driver.conflictText))
  {
    if fault.Some? then Some(Failure(fault.value))
    else if row.username == "" || row.passwordHash == "" then Some(Failure(driver.emptyText))
    else if row.username in table then Some(Failure(driver.conflictText))
    else None
  }

  /**
   * The generated query layer of one database connection: the users table,
   * and the log of the rows it inserted.
   */
  class Querier {
    var table: Table
    ghost var inserted: seq<Row>
    const driver: Driver

    constructor (table: Table, driver: Driver)
      ensures this.table == table && inserted == [] && this.driver == driver
    {
      this.table := table;
      this.inserted := [];
      this.driver := driver;
    }

    /** The `GetUser` query: `Select` read off this querier's current
        table. */
    function GetUser(username: string, fault: Option<string>): (r: QueryResult)
      reads this
      ensures r == Select(table, username, fault)
    {
      Select(table, username, fault)
    }

    /** The `CreateUser` insert: it fails on a database fault, an empty
        column or a duplicate username and then changes nothing; otherwise
        it adds the row. */
    method CreateUser(row: Row, fault: Option<string>) returns (err: Option<Error>)
      modifies this
      ensures err == Insert(old(table), row, fault, driver)
      ensures err.Some? ==> unchanged(this)
      ensures err.None? ==>
        table == old(table)[row.username := row.passwordHash] && inserted == old(inserted) + [row]
    {
      if fault.Some? {
        return Some(Failure(fault.value));
      }
      if row.username == "" || row.passwordHash == "" {
        return Some(Failure(driver.emptyText));
      }
      if row.username in table {
        return Some(Failure(driver.conflictText));
      }
      table := table[row.username := row.passwordHash];
      inserted := inserted + [row];
      return None;
    }
  }

  /** `SqliteUserStore` / `PgUserStore`: the adapter around a querier. */
  class UserStore {
    const querier: Querier

    /** `NewSqliteUserStore` / `NewPgUserStore`. */
    constructor (querier: Querier)
      ensures this.querier == querier
    {
      this.querier := querier;
    }

    /** `Get`: the stored user, nothing when there is none, or an error that
        names the username; `Fetch` read off the querier's current table. */
    function Get(username: string, fault: Option<string>): (r: Lookup)
      reads querier
      ensures r == Fetch(querier.table, username, fault)
    {
      TranslateGet(username, querier.GetUser(username, fault))
    }

    /** `Create`: inserts the row (username, password hash = the user's
        password); it succeeds exactly when both are non-empty and the
        username is new, and reports a failure wrapped with the username. */
    method Create(user: User, fault: Option<string>) returns (err: Option<Error>)
      modifies querier
      ensures err.None? <==>
        fault.None? && user.username != "" && user.password != "" && user.username !in old(querier.table)
      ensures err == TranslateCreate(user.username, Insert(old(querier.table), Row(user.username, user.password), fault, querier.driver))
      ensures err.None? ==>
        && querier.table == old(querier.table)[user.username := user.password]
        && querier.inserted == old(querier.inserted) + [Row(user.username, user.password)]
      ensures err.Some? ==> unchanged(querier)
    {
      var e := querier.CreateUser(Row(user.username, user.password), fault);
      err := TranslateCreate(user.username, e);
    }
  }

  /** A user written by `Create` is what `Get` then returns (the round trip
      of the store tests). */
  lemma CreateThenGet(table: Table, user: User)
    ensures Fetch(table[user.username := user.password], user.username, None) == Present(user)
  {
  }

  /** Writing one user leaves every other username's lookup as it was. */
  lemma CreateLeavesOthers(table: Table, user: User, other: string, fault: Option<string>)
    requires other != user.username
    ensures Fetch(table[user.username := user.password], other, fault) == Fetch(table, other, fault)
  {
  }

}
