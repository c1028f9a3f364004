/** The `users` table behind `dbClient`, held in memory: rows in insertion
    order, and the next value of the `id` sequence. */
module Users {
  import opened Http

  datatype UserRow = UserRow(id: nat, name: string, email: string, passwordHash: string, createdAt: int)

  datatype Table = Table(rows: seq<UserRow>, nextId: nat)

  /** Some row has exactly this email (comparison is case-sensitive). */
  predicate EmailTaken(rows: seq<UserRow>, email: string) {
    exists i :: 0 <= i < |rows| && rows[i].email == email
  }

  /** `SELECT * FROM users WHERE email = $1`: the matching rows, in table order. */
  function SelectByEmail(rows: seq<UserRow>, email: string): (matches: seq<UserRow>)
    ensures forall row :: row in matches <==> row in rows && row.email == email
    ensures |matches| == 0 <==> !EmailTaken(rows, email)
    decreases |rows|
  {
    if rows == [] then []
    else
      var last := rows[|rows| - 1];
      var earlier := SelectByEmail(rows[..|rows| - 1], email);
      assert rows == rows[..|rows| - 1] + [last];
      if last.email == email then earlier + [last] else earlier
  }

  /** No two rows share an email. */
  ghost predicate EmailsUnique(rows: seq<UserRow>) {
    forall i, j :: 0 <= i < j < |rows| ==> rows[i].email != rows[j].email
  }

  /** No two rows share an id. */
  ghost predicate IdsUnique(rows: seq<UserRow>) {
    forall i, j :: 0 <= i < j < |rows| ==> rows[i].id != rows[j].id
  }

  /** The table's invariant: unique emails, unique ids, and every id issued
      below the sequence's next value. */
  ghost predicate WellFormed(t: Table) {
    && EmailsUnique(t.rows)
    && IdsUnique(t.rows)
    && forall i :: 0 <= i < |t.rows| ==> t.rows[i].id < t.nextId
  }

  /** The registration response's view of a row: no password hash. */
  function NewUserOf(row: UserRow): NewUser {
    NewUser(row.id, row.name, row.email, row.createdAt)
  }

  /** The login response's view of a row: no password hash, no timestamp. */
  function SummaryOf(row: UserRow): UserSummary {
    UserSummary(row.id, row.name, row.email)
  }

  /** Appending a row adds it to the matches exactly when its email matches. */
  lemma SelectAfterAppend(rows: seq<UserRow>, row: UserRow, email: string)
    ensures SelectByEmail(rows + [row], email)
         == SelectByEmail(rows, email) + (if row.email == email then [row] else [])
  {
  }

  /** With unique emails, a lookup finds at most one row. */
  lemma {:induction false} SelectUnique(rows: seq<UserRow>, email: string)
    requires EmailsUnique(rows)
    ensures |SelectByEmail(rows, email)| <= 1
    decreases |rows|
  {
    if rows != [] {
      var init := rows[..|rows| - 1];
      assert EmailsUnique(init);
      SelectUnique(init, email);
      if rows[|rows| - 1].email == email {
        assert !EmailTaken(init, email);
      }
    }
  }
}
