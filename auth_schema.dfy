/**
 * The `auths` table of src/schemas/users/authSchema.ts: the Account record,
 * its column defaults, and the two table operations the account service uses,
 * `findOne` by email and `create` with an auto-incremented id.
 */
module AuthSchema {
  import opened Wrappers

  /** A JavaScript Date, as milliseconds since the epoch. */
  type Time = int

  /** One row of `auths`. `email` and `password` are NOT NULL, so they are
      plain strings; `refreshTokenExpiresAt` is the one nullable column. */
  datatype Account = Account(
    id: nat,
    email: string,
    password: string,
    refreshToken: string,
    refreshTokenExpiresAt: Option<Time>,
    createdAt: Time,
    updatedAt: Time)

  /** What `create` is given: every column but the id. A column left out is
      None and takes its default. */
  datatype CreationAttributes = CreationAttributes(
    email: string,
    password: string,
    refreshToken: Option<string>,
    refreshTokenExpiresAt: Option<Time>,
    createdAt: Option<Time>,
    updatedAt: Option<Time>)

  /** The row `create` builds under id `id` at time `now`: given columns keep
      their values; `refreshToken` defaults to '', `refreshTokenExpiresAt` to
      null, and both timestamps to `now`. The model is registered with
      Sequelize's default `timestamps: true`, under which every save sets
      `updatedAt` from Sequelize's own clock and fills an absent `createdAt`;
      with a single `now` for all clock readings that clock is `now` too. */
  function WithDefaults(id: nat, attrs: CreationAttributes, now: Time): (a: Account)
    ensures a.id == id && a.email == attrs.email && a.password == attrs.password
    ensures a.refreshToken == if attrs.refreshToken.Some? then attrs.refreshToken.value else ""
    ensures a.refreshTokenExpiresAt == attrs.refreshTokenExpiresAt
    ensures a.createdAt == if attrs.createdAt.Some? then attrs.createdAt.value else now
    ensures a.updatedAt == if attrs.updatedAt.Some? then attrs.updatedAt.value else now
  {
    Account(
      id, attrs.email, attrs.password,
      attrs.refreshToken.GetOr(""),
      attrs.refreshTokenExpiresAt,
      attrs.createdAt.GetOr(now),
      attrs.updatedAt.GetOr(now))
  }

  /** A row created from an email and a password alone has an empty refresh
      token, no expiry, and both timestamps at the time of creation. */
  lemma DefaultRow(id: nat, email: string, password: string, now: Time)
    ensures WithDefaults(id, CreationAttributes(email, password, None, None, None, None), now)
            == Account(id, email, password, "", None, now, now)
  {
  }

  /** The table: its rows in insertion order and the next value of the id
      sequence. */
  datatype Table = Table(rows: seq<Account>, nextId: nat)

  const EmptyTable := Table([], 1)

  /** Auto-increment ids start at 1, stay below the sequence's next value and
      increase in insertion order. */
  predicate ValidTable(t: Table) {
    && t.nextId >= 1
    && (forall i :: 0 <= i < |t.rows| ==> 1 <= t.rows[i].id < t.nextId)
    && (forall i, j :: 0 <= i < j < |t.rows| ==> t.rows[i].id < t.rows[j].id)
  }

  /** No two rows share an email. The schema does not declare this (the column
      has no unique constraint); only the account service keeps it. */
  predicate EmailsUnique(rows: seq<Account>) {
    forall i, j :: 0 <= i < j < |rows| ==> rows[i].email != rows[j].email
  }

  /** `findOne({ where: { email } })`: the position of the first row whose
      email equals `email` exactly, or None when there is none. */
  function FindOne(rows: seq<Account>, email: string): (r: Option<nat>)
    ensures r.Some? ==> r.value < |rows| && rows[r.value].email == email
    ensures r.Some? ==> forall k :: 0 <= k < r.value ==> rows[k].email != email
    ensures r.None? ==> forall k :: 0 <= k < |rows| ==> rows[k].email != email
  {
    if rows == [] then None
    else if rows[0].email == email then Some(0)
    else
      match FindOne(rows[1..], email)
      case None => None
      case Some(k) => Some(k + 1)
  }

  /** Appending a row whose email is new makes it the row findOne finds. */
  lemma {:induction false} FindOneAppended(rows: seq<Account>, a: Account)
    requires FindOne(rows, a.email).None?
    ensures FindOne(rows + [a], a.email) == Some(|rows|)
  {
    if rows != [] {
      assert (rows + [a])[1..] == rows[1..] + [a];
      FindOneAppended(rows[1..], a);
    }
  }

  /** In a table without duplicate emails findOne finds the one row with that
      email, wherever it is. */
  lemma FindOneUnique(rows: seq<Account>, i: nat)
    requires EmailsUnique(rows) && i < |rows|
    ensures FindOne(rows, rows[i].email) == Some(i)
  {
  }

  /** `Auth.create(attrs)`: the new row takes the next id and goes last. The
      id differs from every id already in the table. Nothing about the email
      is checked, since the column is not unique. */
  function Create(t: Table, attrs: CreationAttributes, now: Time): (r: (Table, Account))
    ensures r.1 == WithDefaults(t.nextId, attrs, now)
    ensures r.0 == Table(t.rows + [r.1], t.nextId + 1)
    ensures ValidTable(t) ==> ValidTable(r.0)
    ensures ValidTable(t) ==> forall i :: 0 <= i < |t.rows| ==> t.rows[i].id != r.1.id
  {
    var row := WithDefaults(t.nextId, attrs, now);
    (Table(t.rows + [row], t.nextId + 1), row)
  }

  /** The table alone does not keep emails unique: creating a row whose email
      is already present leaves two rows with that email. */
  lemma CreateDuplicateEmail(t: Table, attrs: CreationAttributes, now: Time)
    requires FindOne(t.rows, attrs.email).Some?
    ensures !EmailsUnique(Create(t, attrs, now).0.rows)
  {
    var rows' := Create(t, attrs, now).0.rows;
    var i := FindOne(t.rows, attrs.email).value;
    assert rows'[i].email == rows'[|t.rows|].email;
  }
}
