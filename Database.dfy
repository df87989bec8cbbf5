/**
 * What the PostgreSQL driver does with a statement, beyond what the in-memory
 * tables themselves decide. The services take these as inputs: a connection
 * failure, a constraint the model does not track, or an empty RETURNING set
 * cannot be predicted from the tables alone.
 */
module Database {

  /** The reply to an `INSERT ... RETURNING id`. */
  datatype InsertReply =
    | Returned
      /** The statement ran but returned (and so inserted) no row. */
    | ReturnedNothing
    | InsertFaulted(message: string)

  /** The reply to a SELECT, UPDATE or DELETE, whose rows the tables decide, and to the refresh-token INSERT. */
  datatype Reply = Executed | Faulted(message: string)

  /** What an INSERT yields to the code that issued it: `result.rows[0].id`, no row, or a thrown error. */
  datatype Inserted = RowId(id: string) | NoRow | Raised(message: string)

  /**
   * The message PostgreSQL gives for an INSERT that names a column the table
   * lacks: `refreshToken` folds to `refreshtoken`, and `authentications` has
   * only `id` and `token`. The column list is resolved before the VALUES, so
   * this is raised before any parameter is looked at.
   */
  const UnknownRefreshTokenColumn := "column \"refreshtoken\" of relation \"authentications\" does not exist"

  /** The message PostgreSQL gives when an INSERT repeats the key guarded by `constraint`. */
  function DuplicateKey(constraint: string): string {
    "duplicate key value violates unique constraint \"" + constraint + "\""
  }

  /** PostgreSQL's default names for the primary keys of `users` and `active_logs`. */
  const UsersPkey := "users_pkey"
  const ActiveLogsPkey := "active_logs_pkey"
}
