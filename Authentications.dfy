/**
 * The refresh-token store: the `authentications` table. A token is active
 * while a row carries it and revoked once its rows are deleted.
 */
module Authentications {

  import opened Wrappers
  import opened Errors
  import opened Database

  /** One row of `authentications`; a NULL `token` column is None. */
  datatype AuthRow = AuthRow(id: string, token: Option<string>)

  const TokenInvalid := "Refresh token tidak valid"

  /** Some row matches `WHERE token = t`. */
  predicate Stored(rows: seq<AuthRow>, t: string) {
    exists i :: 0 <= i < |rows| && rows[i].token == Some(t)
  }

  /** The table after `DELETE FROM authentications WHERE token = t`. */
  function Without(rows: seq<AuthRow>, t: string): (r: seq<AuthRow>)
    ensures |r| <= |rows|
    ensures forall i :: 0 <= i < |r| ==> r[i] in rows && r[i].token != Some(t)
    ensures forall i :: 0 <= i < |rows| && rows[i].token != Some(t) ==> rows[i] in r
    ensures !Stored(r, t)
  {
    if rows == [] then []
    else if rows[0].token == Some(t) then Without(rows[1..], t)
    else [rows[0]] + Without(rows[1..], t)
  }

  /** The rows `SELECT ... WHERE token = u` sees, in table order. */
  function Matching(rows: seq<AuthRow>, u: string): (r: seq<AuthRow>)
    ensures forall i :: 0 <= i < |r| ==> r[i] in rows && r[i].token == Some(u)
    ensures forall i :: 0 <= i < |rows| && rows[i].token == Some(u) ==> rows[i] in r
  {
    if rows == [] then []
    else if rows[0].token == Some(u) then [rows[0]] + Matching(rows[1..], u)
    else Matching(rows[1..], u)
  }

  /** Deleting a token no row carries changes nothing: the delete never fails. */
  lemma {:induction false} DeleteAbsentIsNoop(rows: seq<AuthRow>, t: string)
    requires !Stored(rows, t)
    ensures Without(rows, t) == rows
  {
    if rows != [] {
      assert rows[0].token != Some(t);
      assert !Stored(rows[1..], t) by {
        forall i | 0 <= i < |rows[1..]| ensures rows[1..][i].token != Some(t) {
          assert rows[1..][i] == rows[i + 1];
        }
      }
      DeleteAbsentIsNoop(rows[1..], t);
      assert [rows[0]] + rows[1..] == rows;
    }
  }

  /** Deleting a token twice is deleting it once. */
  lemma DeleteIdempotent(rows: seq<AuthRow>, t: string)
    ensures Without(Without(rows, t), t) == Without(rows, t)
  {
    DeleteAbsentIsNoop(Without(rows, t), t);
  }

  /** Deleting one token leaves every row of every other token, with its order and multiplicity. */
  lemma {:induction false} DeleteKeepsOtherTokens(rows: seq<AuthRow>, t: string, u: string)
    requires t != u
    ensures Matching(Without(rows, t), u) == Matching(rows, u)
  {
    if rows != [] {
      DeleteKeepsOtherTokens(rows[1..], t, u);
      if rows[0].token != Some(t) {
        assert Without(rows, t) == [rows[0]] + Without(rows[1..], t);
        assert ([rows[0]] + Without(rows[1..], t))[1..] == Without(rows[1..], t);
      }
    }
  }

  /** The order in which two tokens are revoked does not matter. */
  lemma {:induction false} DeletesCommute(rows: seq<AuthRow>, t: string, u: string)
    ensures Without(Without(rows, t), u) == Without(Without(rows, u), t)
  {
    if rows != [] {
      DeletesCommute(rows[1..], t, u);
      var head := rows[0];
      if head.token != Some(t) {
        assert ([head] + Without(rows[1..], t))[1..] == Without(rows[1..], t);
      }
      if head.token != Some(u) {
        assert ([head] + Without(rows[1..], u))[1..] == Without(rows[1..], u);
      }
    }
  }

  /** `Stored` and `Matching` describe the same lookup: it succeeds exactly when it sees a row. */
  lemma {:induction false} StoredIsMatching(rows: seq<AuthRow>, u: string)
    ensures Stored(rows, u) <==> Matching(rows, u) != []
  {
    if Stored(rows, u) {
      var i :| 0 <= i < |rows| && rows[i].token == Some(u);
      assert rows[i] in Matching(rows, u);
    }
    if Matching(rows, u) != [] {
      assert Matching(rows, u)[0] in rows;
      var i :| 0 <= i < |rows| && rows[i] == Matching(rows, u)[0];
    }
  }

  class AuthenticationsService {

    /** The `authentications` table. */
    var rows: seq<AuthRow>

    /** A service over a table with the given contents. */
    constructor (rows: seq<AuthRow>)
      ensures this.rows == rows
    {
      this.rows := rows;
    }

    /**
     * `addRefreshToken`: the INSERT names a column `refreshToken` the table
     * does not have, and passes its parameters under the key `value`, which
     * the driver does not read. The server rejects the statement at its
     * column list. Whatever the connection does, the table is unchanged and a
     * plain Error propagates; the id `auth-` + key is never stored or returned.
     */
    method AddRefreshToken(token: string, key: string, insert: Reply) returns (r: Result<string>)
      ensures insert.Faulted? ==> r == Err(PlainError(insert.message))
      ensures insert.Executed? ==> r == Err(PlainError(UnknownRefreshTokenColumn))
      ensures r.Err? && !r.error.IsClient()
    {
      if insert.Faulted? {
        return Err(PlainError(insert.message));
      }
      return Err(PlainError(UnknownRefreshTokenColumn));
    }

    /**
     * `verifyRefreshToken`: succeeds exactly when the SELECT runs and some row
     * carries the token; a driver error propagates as it is. Reads only.
     */
    method VerifyRefreshToken(token: string, select: Reply) returns (r: Outcome)
      ensures r.Pass? <==> select.Executed? && Stored(rows, token)
      ensures select.Faulted? ==> r == Fail(PlainError(select.message))
      ensures select.Executed? && r.Fail? ==> r.error == InvariantError(TokenInvalid)
    {
      if select.Faulted? {
        return Fail(PlainError(select.message));
      }
      if Stored(rows, token) {
        return Pass;
      }
      return Fail(InvariantError(TokenInvalid));
    }

    /**
     * `deleteRefreshToken`: removes every row carrying the token. It raises
     * nothing of its own, even when no row matches; only a driver error
     * propagates, and then the table is unchanged.
     */
    method DeleteRefreshToken(token: string, delete: Reply) returns (r: Outcome)
      modifies this
      ensures delete.Faulted? ==> r == Fail(PlainError(delete.message)) && rows == old(rows)
      ensures delete.Executed? ==> r == Pass && rows == Without(old(rows), token)
      ensures delete.Executed? ==> !Stored(rows, token)
      ensures forall u :: u != token ==> Matching(rows, u) == Matching(old(rows), u)
    {
      if delete.Faulted? {
        return Fail(PlainError(delete.message));
      }
      ghost var before := rows;
      rows := Without(rows, token);
      forall u | u != token ensures Matching(rows, u) == Matching(before, u) {
        DeleteKeepsOtherTokens(before, token, u);
      }
      return Pass;
    }
  }

  /** A revoked token stays revoked: after a delete that ran, verification fails with InvariantError. */
  method RevokeThenVerify(s: AuthenticationsService, token: string) returns (r: Outcome)
    modifies s
    ensures r == Fail(InvariantError(TokenInvalid))
    ensures s.rows == Without(old(s.rows), token)
  {
    var deleted := s.DeleteRefreshToken(token, Executed);
    r := s.VerifyRefreshToken(token, Executed);
  }

  /** addRefreshToken never changes which tokens verify: afterwards a token passes exactly when it already did. */
  method AddedTokenIsNotFound(s: AuthenticationsService, token: string, key: string)
    returns (added: Result<string>, verified: Outcome)
    ensures added == Err(PlainError(UnknownRefreshTokenColumn))
    ensures verified.Pass? <==> Stored(s.rows, token)
  {
    added := s.AddRefreshToken(token, key, Executed);
    verified := s.VerifyRefreshToken(token, Executed);
  }
}
