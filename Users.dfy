/**
 * The user store and its activity log: the `users` and `active_logs` tables
 * behind UsersService, held in memory.
 */
module Users {

  import opened Wrappers
  import opened Errors
  import opened Database

  /** A bcrypt digest: the cost factor and salt it embeds, and the hash proper. */
  datatype Digest = Digest(cost: nat, salt: string, sum: string)

  /** The cost factor every call to `bcrypt.hash` passes. */
  const HashCost := 10

  /** One row of `users`; `updated_at` is NULL until the first edit. */
  datatype User = User(
    name: string,
    position: string,
    username: string,
    hashedPassword: Digest,
    role: string,
    isActive: bool,
    lastLogin: string,
    createdAt: string,
    updatedAt: Option<string>)

  /** One row of `active_logs`: who (`userId`) did what (`action`) to which row. */
  datatype LogEntry = LogEntry(
    id: string,
    userId: string,
    action: string,
    targetTable: string,
    targetId: string,
    createdAt: string)

  /** What `addUserService` resolves to. */
  datatype Created = Created(userId: string, activeLogId: string)

  /** What `editUser` and `deleteUser` resolve to. */
  datatype Changed = Changed(id: string, logId: string)

  const UsernameInUse := "Username sudah digunakan"
  const AddFailed := "Gagal menambahkan data pengguna"
  const LogFailed := "Gagal mencatat log aktivitas"
  const BadCredentials := "Kredensial yang anda berikan salah"
  const NotFound := "Data tidak ditemukan"
  const NotAllowed := "Anda tidak berhak mengakses resource ini"
  const ListFailed := "Gagal mengambil data pengguna"
  const EditFailed := "Gagal mengedit data pengguna"
  const DeleteFailed := "Gagal menghapus data pengguna"

  /** Some row matches `WHERE username = $1`. */
  predicate UsernameTaken(users: map<string, User>, username: string) {
    exists id :: id in users && users[id].username == username
  }

  /** Some log row has primary key `id`. */
  predicate LogIdTaken(logs: seq<LogEntry>, id: string) {
    exists i :: 0 <= i < |logs| && logs[i].id == id
  }

  /** The log records the creation of user `id`. */
  predicate HasCreateLog(logs: seq<LogEntry>, id: string) {
    exists i :: 0 <= i < |logs| && logs[i].action == "create" && logs[i].targetTable == "users" && logs[i].targetId == id
  }

  /** The audit invariant: every user row has the log row of its creation. */
  predicate Audited(users: map<string, User>, logs: seq<LogEntry>) {
    forall id :: id in users ==> HasCreateLog(logs, id)
  }

  /** A log only grows, so a recorded creation stays recorded. */
  lemma CreateLogPersists(logs: seq<LogEntry>, e: LogEntry, id: string)
    requires HasCreateLog(logs, id)
    ensures HasCreateLog(logs + [e], id)
  {
    var i :| 0 <= i < |logs| && logs[i].action == "create" && logs[i].targetTable == "users" && logs[i].targetId == id;
    assert (logs + [e])[i] == logs[i];
  }

  /**
   * Appending log row `e` keeps the audit invariant for any user table whose
   * ids were already users, or whose creation `e` records.
   */
  lemma AuditedAfter(users: map<string, User>, logs: seq<LogEntry>, users': map<string, User>, e: LogEntry)
    requires Audited(users, logs)
    requires forall id :: id in users' ==> id in users || (e.action == "create" && e.targetTable == "users" && e.targetId == id)
    ensures Audited(users', logs + [e])
  {
    forall id | id in users' ensures HasCreateLog(logs + [e], id) {
      if id in users {
        CreateLogPersists(logs, e, id);
      } else {
        assert (logs + [e])[|logs|] == e;
      }
    }
  }

  // ---------------------------------------------------------------------
  // getAllUsers: the query it builds and the pagination it reports
  // ---------------------------------------------------------------------

  /** One entry of `conditions`; a filter names its parameter `$param`. */
  datatype Condition = ActiveOnly | PositionIs(param: nat) | RoleIs(param: nat)

  /** A bound parameter value. */
  datatype Value = Text(text: string) | Number(number: int)

  /** The listing query: WHERE conditions, values, and the LIMIT and OFFSET parameter numbers. */
  datatype UsersQuery = UsersQuery(conditions: seq<Condition>, values: seq<Value>, limitParam: nat, offsetParam: nat)

  /** JavaScript truthiness of an optional string argument. */
  predicate Truthy(s: Option<string>) {
    s.Some? && s.value != ""
  }

  /** User `u` satisfies condition `c` when `$k` is bound to `values[k - 1]`. */
  predicate Holds(c: Condition, values: seq<Value>, u: User) {
    match c
    case ActiveOnly => u.isActive
    case PositionIs(k) => 1 <= k <= |values| && values[k - 1] == Text(u.position)
    case RoleIs(k) => 1 <= k <= |values| && values[k - 1] == Text(u.role)
  }

  /** User `u` satisfies the WHERE clause `conditions.join(' AND ')`. */
  predicate Where(conditions: seq<Condition>, values: seq<Value>, u: User) {
    forall i :: 0 <= i < |conditions| ==> Holds(conditions[i], values, u)
  }

  /** The users a listing is meant to cover: the active ones, narrowed by each truthy filter. */
  predicate Listed(u: User, position: Option<string>, role: Option<string>) {
    && u.isActive
    && (Truthy(position) ==> u.position == position.value)
    && (Truthy(role) ==> u.role == role.value)
  }

  /** The ids of the users a listing covers. */
  function ListedIds(users: map<string, User>, position: Option<string>, role: Option<string>): set<string> {
    set id | id in users && Listed(users[id], position, role)
  }

  /**
   * The `conditions` and `values` arrays of `getAllUsers`, built by pushes,
   * and the values of the count query, which drops the last two.
   */
  method BuildUsersQuery(position: Option<string>, role: Option<string>, limit: int, offset: int)
    returns (q: UsersQuery, countValues: seq<Value>)
    ensures |q.conditions| == 1 + (if Truthy(position) then 1 else 0) + (if Truthy(role) then 1 else 0)
    ensures q.conditions[0] == ActiveOnly
    ensures Truthy(position) ==> q.conditions[1] == PositionIs(1)
    ensures Truthy(role) ==> q.conditions[|q.conditions| - 1] == RoleIs(|q.conditions| - 1)
    ensures |q.values| == |q.conditions| + 1
    ensures q.limitParam == |q.values| - 1 && q.offsetParam == |q.values|
    ensures q.values[q.limitParam - 1] == Number(limit) && q.values[q.offsetParam - 1] == Number(offset)
    ensures countValues == q.values[..|q.values| - 2]
    ensures forall u :: Where(q.conditions, q.values, u) <==> Listed(u, position, role)
    ensures forall u :: Where(q.conditions, countValues, u) <==> Listed(u, position, role)
  {
    var conditions := [ActiveOnly];
    var values := [];
    if Truthy(position) {
      conditions := conditions + [PositionIs(|values| + 1)];
      values := values + [Text(position.value)];
    }
    if Truthy(role) {
      conditions := conditions + [RoleIs(|values| + 1)];
      values := values + [Text(role.value)];
    }
    ghost var filters := values;
    values := values + [Number(limit)];
    values := values + [Number(offset)];
    q := UsersQuery(conditions, values, |values| - 1, |values|);
    countValues := values[..|values| - 2];
    assert countValues == filters;
    forall u ensures (Where(conditions, values, u) <==> Listed(u, position, role))
      && (Where(conditions, filters, u) <==> Listed(u, position, role))
    {
      WhereOfFilters(position, role, conditions, filters, values, u);
    }
  }

  /** The WHERE clause built from the filters means `Listed`, under both bindings. */
  lemma WhereOfFilters(position: Option<string>, role: Option<string>,
                       conditions: seq<Condition>, filters: seq<Value>, values: seq<Value>, u: User)
    requires |filters| == (if Truthy(position) then 1 else 0) + (if Truthy(role) then 1 else 0)
    requires filters <= values
    requires conditions == [ActiveOnly]
      + (if Truthy(position) then [PositionIs(1)] else [])
      + (if Truthy(role) then [RoleIs(|filters|)] else [])
    requires Truthy(position) ==> filters[0] == Text(position.value)
    requires Truthy(role) ==> filters[|filters| - 1] == Text(role.value)
    ensures Where(conditions, filters, u) <==> Listed(u, position, role)
    ensures Where(conditions, values, u) <==> Listed(u, position, role)
  {
    assert Holds(conditions[0], values, u) <==> u.isActive;
    if Truthy(position) {
      assert conditions[1] == PositionIs(1);
      assert Holds(conditions[1], filters, u) <==> u.position == position.value;
      assert Holds(conditions[1], values, u) <==> u.position == position.value;
    }
    if Truthy(role) {
      var last := |conditions| - 1;
      assert conditions[last] == RoleIs(|filters|);
      assert Holds(conditions[last], filters, u) <==> u.role == role.value;
      assert Holds(conditions[last], values, u) <==> u.role == role.value;
    }
  }

  /** The largest value of PostgreSQL's `bigint`, the type of a LIMIT or OFFSET. */
  const MaxBigint := 0x7fff_ffff_ffff_ffff

  /** A JavaScript number as `Math.ceil` can leave it. */
  datatype JsNumber = Finite(n: int) | Infinity | NaN

  /** `Math.ceil(totalItems / limit)`, for a limit PostgreSQL accepted. */
  function TotalPages(totalItems: nat, limit: int): (r: JsNumber)
    requires limit >= 0
    ensures limit > 0 ==> r.Finite? && 0 <= r.n && (r.n - 1) * limit < totalItems <= r.n * limit
    ensures limit == 0 && totalItems > 0 ==> r == Infinity
    ensures limit == 0 && totalItems == 0 ==> r == NaN
  {
    if limit == 0 then
      if totalItems == 0 then NaN else Infinity
    else
      CeilingBounds(totalItems, limit);
      Finite((totalItems + limit - 1) / limit)
  }

  /** The smallest page count that holds `total` items `limit` to a page. */
  lemma CeilingBounds(total: nat, limit: int)
    requires limit > 0
    ensures var c := (total + limit - 1) / limit;
      0 <= c && (c - 1) * limit < total <= c * limit
  {
    var c := (total + limit - 1) / limit;
    var rem := (total + limit - 1) % limit;
    assert total + limit - 1 == c * limit + rem && 0 <= rem < limit;
    assert (c - 1) * limit == c * limit - limit;
  }

  /** What the listing of one row would show: the four columns SELECTed. */
  datatype Listing = Listing(name: string, username: string, position: string, role: string)

  /** What `getAllUsers` resolves to; `data` is `users.rows` of an array, which is undefined. */
  datatype UsersPage = UsersPage(data: Option<seq<Listing>>, page: int, limit: int, totalItems: nat, totalPages: JsNumber)

  /** `SELECT COUNT(*) FROM users WHERE ...`: how many rows the clause accepts. */
  function CountWhere(users: map<string, User>, conditions: seq<Condition>, values: seq<Value>): nat {
    |set id | id in users && Where(conditions, values, users[id])|
  }

  /** A count whose WHERE clause means `Listed` counts exactly the users a listing covers. */
  lemma CountOfListed(users: map<string, User>, conditions: seq<Condition>, values: seq<Value>,
                      position: Option<string>, role: Option<string>)
    requires forall u :: Where(conditions, values, u) <==> Listed(u, position, role)
    ensures CountWhere(users, conditions, values) == |ListedIds(users, position, role)|
  {
    assert (set id | id in users && Where(conditions, values, users[id])) == ListedIds(users, position, role);
  }

  // ---------------------------------------------------------------------
  // The service
  // ---------------------------------------------------------------------

  class UsersService {

    /** The hash underneath bcrypt, of a password and a salt. */
    const hashFn: (string, string) -> string

    /** The `users` table, by primary key. */
    var users: map<string, User>

    /** The `active_logs` table, in insertion order. */
    var logs: seq<LogEntry>

    /** A service over tables with the given contents. */
    constructor (hashFn: (string, string) -> string, users: map<string, User>, logs: seq<LogEntry>)
      ensures this.hashFn == hashFn && this.users == users && this.logs == logs
    {
      this.hashFn := hashFn;
      this.users := users;
      this.logs := logs;
    }

    /** `bcrypt.hash(password, 10)` with the given random salt. */
    function Hash(password: string, salt: string): (d: Digest)
      ensures d.cost == HashCost && d.salt == salt
    {
      Digest(HashCost, salt, hashFn(password, salt))
    }

    /**
     * `bcrypt.compare`: accepts exactly when hashing the password with the
     * salt the digest carries reproduces the digest's hash.
     */
    predicate Compare(password: string, d: Digest): (ok: bool)
      ensures ok <==> Hash(password, d.salt).sum == d.sum
    {
      hashFn(password, d.salt) == d.sum
    }

    /** Compare accepts the password a digest was made from, whatever the salt. */
    lemma CompareAcceptsHash(password: string, salt: string)
      ensures Compare(password, Hash(password, salt))
    {
    }

    /** Compare accepts another password only if the hash collides under that salt. */
    lemma CompareOtherPassword(password: string, other: string, salt: string)
      ensures Compare(other, Hash(password, salt)) <==> hashFn(other, salt) == hashFn(password, salt)
    {
    }

    /** `INSERT INTO users ... RETURNING id`; the primary key is checked by the table. */
    method InsertUser(id: string, row: User, reply: InsertReply) returns (ins: Inserted)
      modifies this`users
      ensures ins.Raised? <==> reply.InsertFaulted? || id in old(users)
      ensures ins.Raised? ==> ins.message == if reply.InsertFaulted? then reply.message else DuplicateKey(UsersPkey)
      ensures ins.NoRow? <==> !ins.Raised? && reply.ReturnedNothing?
      ensures ins.RowId? ==> ins.id == id
      ensures users == if ins.RowId? then old(users)[id := row] else old(users)
    {
      if reply.InsertFaulted? {
        return Raised(reply.message);
      }
      if id in users {
        return Raised(DuplicateKey(UsersPkey));
      }
      if reply.ReturnedNothing? {
        return NoRow;
      }
      users := users[id := row];
      return RowId(id);
    }

    /** `INSERT INTO active_logs ... RETURNING id`; the primary key is checked by the table. */
    method InsertLog(e: LogEntry, reply: InsertReply) returns (ins: Inserted)
      modifies this`logs
      ensures ins.Raised? <==> reply.InsertFaulted? || LogIdTaken(old(logs), e.id)
      ensures ins.Raised? ==> ins.message == if reply.InsertFaulted? then reply.message else DuplicateKey(ActiveLogsPkey)
      ensures ins.NoRow? <==> !ins.Raised? && reply.ReturnedNothing?
      ensures ins.RowId? ==> ins.id == e.id
      ensures logs == if ins.RowId? then old(logs) + [e] else old(logs)
    {
      if reply.InsertFaulted? {
        return Raised(reply.message);
      }
      if LogIdTaken(logs, e.id) {
        return Raised(DuplicateKey(ActiveLogsPkey));
      }
      if reply.ReturnedNothing? {
        return NoRow;
      }
      logs := logs + [e];
      return RowId(e.id);
    }

    /**
     * `addUserService`: inside BEGIN/COMMIT on the checked-out client, insert
     * the user and its "create" log row; on any error ROLLBACK and rethrow it
     * unchanged. The username check comes first and, as written, passes only
     * for a username that is already taken.
     */
    method AddUserService(name: string, position: string, username: string, password: string,
                          role: string, isActive: bool, lastLogin: string,
                          userKey: string, logKey: string, createdAt: string, salt: string,
                          check: Reply, userInsert: InsertReply, logInsert: InsertReply)
      returns (r: Result<Created>)
      modifies this
      ensures var userId, logId := "user-" + userKey, "log-" + logKey;
        var row := User(name, position, username, Hash(password, salt), role, isActive, lastLogin, createdAt, None);
        var entry := LogEntry(logId, userId, "create", "users", userId, createdAt);
        if check.Faulted? then
          r == Err(PlainError(check.message))
        else if !UsernameTaken(old(users), username) then
          r == Err(InvariantError(UsernameInUse))
        else if userInsert.InsertFaulted? then
          r == Err(PlainError(userInsert.message))
        else if userId in old(users) then
          r == Err(PlainError(DuplicateKey(UsersPkey)))
        else if userInsert.ReturnedNothing? then
          r == Err(InvariantError(AddFailed))
        else if logInsert.InsertFaulted? then
          r == Err(PlainError(logInsert.message))
        else if LogIdTaken(old(logs), logId) then
          r == Err(PlainError(DuplicateKey(ActiveLogsPkey)))
        else if logInsert.ReturnedNothing? then
          r == Err(InvariantError(LogFailed))
        else
          r == Ok(Created(userId, logId))
          && users == old(users)[userId := row] && userId !in old(users)
          && logs == old(logs) + [entry]
      ensures r.Err? ==> users == old(users) && logs == old(logs)
      ensures r.Ok? ==> |users| == |old(users)| + 1 && |logs| == |old(logs)| + 1
      ensures r.Ok? ==> UsernameTaken(old(users), username)
      ensures r.Ok? ==> (r.value.userId[..5] == "user-" && r.value.userId in users
        && users[r.value.userId].hashedPassword == Hash(password, salt)
        && Compare(password, users[r.value.userId].hashedPassword))
      ensures Audited(old(users), old(logs)) ==> Audited(users, logs)
    {
      var userId := "user-" + userKey;
      var activeLogId := "log-" + logKey;
      var hashedPassword := Hash(password, salt);

      var verified := VerifyUsername(username, check);
      if verified.Fail? {
        // The ROLLBACK in the catch block finds no open transaction.
        return Err(verified.error);
      }

      // BEGIN: what ROLLBACK restores.
      var savedUsers, savedLogs := users, logs;
      var failure: Option<Error> := None;
      var logId := "";

      var row := User(name, position, username, hashedPassword, role, isActive, lastLogin, createdAt, None);
      var inserted := InsertUser(userId, row, userInsert);
      if inserted.Raised? {
        failure := Some(PlainError(inserted.message));
      } else if inserted.NoRow? {
        failure := Some(InvariantError(AddFailed));
      } else {
        var entry := LogEntry(activeLogId, userId, "create", "users", userId, createdAt);
        var logged := InsertLog(entry, logInsert);
        if logged.Raised? {
          failure := Some(PlainError(logged.message));
        } else if logged.NoRow? {
          failure := Some(InvariantError(LogFailed));
        } else {
          logId := logged.id;
          if Audited(savedUsers, savedLogs) {
            AuditedAfter(savedUsers, savedLogs, users, entry);
          }
        }
      }

      if failure.Some? {
        // ROLLBACK, then rethrow.
        users, logs := savedUsers, savedLogs;
        return Err(failure.value);
      }
      // COMMIT
      return Ok(Created(inserted.id, logId));
    }

    /**
     * `verifyUsername`, as written: it throws when NO row has the username.
     * A driver error propagates as it is. Reads only.
     */
    method VerifyUsername(username: string, select: Reply) returns (r: Outcome)
      ensures r.Pass? <==> select.Executed? && UsernameTaken(users, username)
      ensures select.Faulted? ==> r == Fail(PlainError(select.message))
      ensures select.Executed? && r.Fail? ==> r.error == InvariantError(UsernameInUse)
    {
      if select.Faulted? {
        return Fail(PlainError(select.message));
      }
      if !UsernameTaken(users, username) {
        return Fail(InvariantError(UsernameInUse));
      }
      return Pass;
    }

    /**
     * `verifyUserCredential`: the id of a row with the username whose digest
     * accepts the password. An unknown username and a wrong password raise
     * the same error. With several rows of one username it checks one of them.
     * A driver error propagates as it is.
     */
    method VerifyUserCredential(username: string, password: string, select: Reply) returns (r: Result<string>)
      ensures r.Ok? ==> (select.Executed? && r.value in users && users[r.value].username == username
        && Compare(password, users[r.value].hashedPassword))
      ensures select.Faulted? ==> r == Err(PlainError(select.message))
      ensures select.Executed? && r.Err? ==> r.error == AuthenticationError(BadCredentials)
      ensures !UsernameTaken(users, username) ==> r.Err?
      ensures (forall id :: id in users && users[id].username == username ==> !Compare(password, users[id].hashedPassword))
        ==> r.Err?
      ensures select.Executed? && UsernameTaken(users, username)
        && (forall id :: id in users && users[id].username == username ==> Compare(password, users[id].hashedPassword))
        ==> r.Ok?
    {
      if select.Faulted? {
        return Err(PlainError(select.message));
      }
      if !UsernameTaken(users, username) {
        return Err(AuthenticationError(BadCredentials));
      }
      var id :| id in users && users[id].username == username;
      if !Compare(password, users[id].hashedPassword) {
        return Err(AuthenticationError(BadCredentials));
      }
      return Ok(id);
    }

    /**
     * `verifyAdmin`: the role of user `adminId`, which must be "admin". A
     * driver error propagates as it is. Reads only.
     */
    method VerifyAdmin(adminId: string, select: Reply) returns (r: Result<string>)
      ensures select.Faulted? ==> r == Err(PlainError(select.message))
      ensures select.Executed? && adminId !in users ==> r == Err(InvariantError(NotFound))
      ensures select.Executed? && adminId in users && users[adminId].role != "admin"
        ==> r == Err(AuthorizationError(NotAllowed))
      ensures r.Ok? <==> select.Executed? && adminId in users && users[adminId].role == "admin"
      ensures r.Ok? ==> r.value == "admin"
    {
      if select.Faulted? {
        return Err(PlainError(select.message));
      }
      if adminId !in users {
        return Err(InvariantError(NotFound));
      }
      if users[adminId].role != "admin" {
        return Err(AuthorizationError(NotAllowed));
      }
      return Ok(users[adminId].role);
    }

    /**
     * `getAllUsers`: page and limit default to 1 and 10; the listing query and
     * the count query run on the pool; every failure becomes one plain Error.
     * PostgreSQL rejects a LIMIT or OFFSET that is negative or beyond bigint.
     */
    method GetAllUsers(page: Option<int>, limit: Option<int>, position: Option<string>, role: Option<string>,
                       select: Reply, count: Reply)
      returns (r: Result<UsersPage>)
      ensures var p, l := page.GetOr(1), limit.GetOr(10);
        r.Ok? <==> select.Executed? && 0 <= l <= MaxBigint && 0 <= (p - 1) * l <= MaxBigint && count.Executed?
      ensures r.Err? ==> r.error == PlainError(ListFailed)
      ensures r.Ok? ==> r.value.page == page.GetOr(1) && r.value.limit == limit.GetOr(10)
      ensures r.Ok? ==> r.value.data.None?
      ensures r.Ok? ==> r.value.totalItems == |ListedIds(users, position, role)|
      ensures r.Ok? ==> r.value.limit >= 0 && r.value.totalPages == TotalPages(r.value.totalItems, r.value.limit)
    {
      var p := page.GetOr(1);
      var l := limit.GetOr(10);
      var offset := (p - 1) * l;
      var q, countValues := BuildUsersQuery(position, role, l, offset);

      if select.Faulted? || l < 0 || offset < 0 || l > MaxBigint || offset > MaxBigint {
        return Err(PlainError(ListFailed));
      }
      if count.Faulted? {
        return Err(PlainError(ListFailed));
      }
      var totalItems := CountWhere(users, q.conditions, countValues);
      CountOfListed(users, q.conditions, countValues, position, role);
      var totalPages := TotalPages(totalItems, l);
      return Ok(UsersPage(None, p, l, totalItems, totalPages));
    }

    /**
     * `editUser`: the UPDATE and the log INSERT run on the pool, each committing
     * on its own, and the catch wraps every error in one plain Error. So a
     * failed log insert leaves the edit in place.
     */
    method EditUser(adminId: string, name: string, position: string, username: string, password: string,
                    id: string, logKey: string, now: string, salt: string,
                    update: Reply, logInsert: InsertReply)
      returns (r: Result<Changed>)
      modifies this
      ensures var logId := "log-" + logKey;
        var entry := LogEntry(logId, adminId, "edit", "users", id, now);
        if update.Faulted? || id !in old(users) then
          r == Err(PlainError(EditFailed)) && users == old(users) && logs == old(logs)
        else
          users == old(users)[id := old(users)[id].(name := name, position := position, username := username,
                                                      hashedPassword := Hash(password, salt), updatedAt := Some(now))]
          && if logInsert == Returned && !LogIdTaken(old(logs), logId) then
               r == Ok(Changed(id, logId)) && logs == old(logs) + [entry]
             else
               r == Err(PlainError(EditFailed)) && logs == old(logs)
      ensures r.Err? ==> r.error == PlainError(EditFailed)
      ensures users.Keys == old(users).Keys && old(logs) <= logs
      ensures Audited(old(users), old(logs)) ==> Audited(users, logs)
    {
      var activeLogId := "log-" + logKey;
      var hashedPassword := Hash(password, salt);
      // BEGIN on the client, which runs nothing else.
      if update.Faulted? || id !in users {
        return Err(PlainError(EditFailed));
      }
      users := users[id := users[id].(name := name, position := position, username := username,
                                      hashedPassword := hashedPassword, updatedAt := Some(now))];
      var entry := LogEntry(activeLogId, adminId, "edit", "users", id, now);
      ghost var logsBefore := logs;
      var logged := InsertLog(entry, logInsert);
      if !logged.RowId? {
        return Err(PlainError(EditFailed));
      }
      if Audited(old(users), logsBefore) {
        AuditedAfter(old(users), logsBefore, users, entry);
      }
      // COMMIT on the client.
      return Ok(Changed(id, logged.id));
    }

    /**
     * `deleteUser`: like EditUser, the DELETE and the log INSERT run on the
     * pool, so a failed log insert leaves the user deleted.
     */
    method DeleteUser(adminId: string, id: string, logKey: string, now: string,
                      delete: Reply, logInsert: InsertReply)
      returns (r: Result<Changed>)
      modifies this
      ensures var logId := "log-" + logKey;
        var entry := LogEntry(logId, adminId, "delete", "users", id, now);
        if delete.Faulted? || id !in old(users) then
          r == Err(PlainError(DeleteFailed)) && users == old(users) && logs == old(logs)
        else
          users == old(users) - {id}
          && if logInsert == Returned && !LogIdTaken(old(logs), logId) then
               r == Ok(Changed(id, logId)) && logs == old(logs) + [entry]
             else
               r == Err(PlainError(DeleteFailed)) && logs == old(logs)
      ensures r.Err? ==> r.error == PlainError(DeleteFailed)
      ensures r.Ok? ==> id !in users && |users| == |old(users)| - 1
      ensures old(logs) <= logs
      ensures Audited(old(users), old(logs)) ==> Audited(users, logs)
    {
      var activeLogId := "log-" + logKey;
      // BEGIN on the client, which runs nothing else.
      if delete.Faulted? || id !in users {
        return Err(PlainError(DeleteFailed));
      }
      users := users - {id};
      var entry := LogEntry(activeLogId, adminId, "delete", "users", id, now);
      ghost var logsBefore := logs;
      var logged := InsertLog(entry, logInsert);
      if !logged.RowId? {
        return Err(PlainError(DeleteFailed));
      }
      if Audited(old(users), logsBefore) {
        AuditedAfter(old(users), logsBefore, users, entry);
      }
      // COMMIT on the client.
      return Ok(Changed(id, logged.id));
    }
  }

  /**
   * The username check as written, on a table holding one user "a1": creating
   * "b2" is refused as a taken username, while a second "a1" is created.
   */
  method UsernameCheckIsInverted(hashFn: (string, string) -> string)
    returns (unused: Result<Created>, taken: Result<Created>)
    ensures unused == Err(InvariantError(UsernameInUse))
    ensures taken == Ok(Created("user-k2", "log-k2"))
  {
    var admin := User("A", "staff", "a1", Digest(HashCost, "s0", "h0"), "admin", true, "", "t0", None);
    var s := new UsersService(hashFn, map["user-k0" := admin], []);
    assert "user-" + "k1" == "user-k1" && "user-" + "k2" == "user-k2" && "log-" + "k2" == "log-k2";
    unused := s.AddUserService("B", "staff", "b2", "p", "staff", true, "", "k1", "k1", "t1", "s1", Executed, Returned, Returned);
    assert s.users["user-k0"].username == "a1";
    taken := s.AddUserService("C", "staff", "a1", "p", "staff", true, "", "k2", "k2", "t2", "s2", Executed, Returned, Returned);
  }

  /** An edit whose log insert fails reports an error but keeps the edit. */
  method EditIsNotAtomic(hashFn: (string, string) -> string)
    returns (r: Result<Changed>, nameAfter: string, logCount: nat)
    ensures r == Err(PlainError(EditFailed))
    ensures nameAfter == "New name" && logCount == 0
  {
    var u := User("Old name", "staff", "a1", Digest(HashCost, "s0", "h0"), "staff", true, "", "t0", None);
    var s := new UsersService(hashFn, map["user-k0" := u], []);
    r := s.EditUser("user-admin", "New name", "staff", "a1", "p", "user-k0", "k1", "t1", "s1",
                    Executed, InsertFaulted("connection lost"));
    nameAfter := s.users["user-k0"].name;
    logCount := |s.logs|;
  }
}
