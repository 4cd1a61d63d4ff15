/**
 * The account service of src/services/users/authService.ts: registerService
 * and loginService over the `auths` table.
 *
 * Each operation is first stated as a function from the table before the call
 * to the response and the table after it (RegisterSpec, LoginSpec); the class
 * AccountStore then holds the table as mutable state and its methods Register
 * and Login perform the source's steps in order and are proved to agree with
 * those functions. The callback of the source is replaced by the returned
 * response. The clock (`now`), bcrypt's salt, the cryptographic libraries and
 * the step at which a library or database call throws are inputs.
 */
module AuthService {
  import opened Wrappers
  import opened Utils
  import opened AuthSchema

  /** `7 * 24 * 60 * 60 * 1000`: seven days in milliseconds. */
  const SevenDaysMs: int := 604800000

  /** The `expiresIn` given to generateToken for each kind of token. */
  const AccessTokenLifetime := "1d"
  const RefreshTokenLifetime := "7d"

  /** The `iat` jsonwebtoken stamps on a token signed at `now`:
      `Math.floor(Date.now() / 1000)`. (Dafny's `/` on a positive divisor
      rounds down, as Math.floor does.) */
  function IssuedAt(now: Time): int {
    now / 1000
  }

  /** RegisterRequest and LoginRequest: `{ email, password }`. */
  datatype Credentials = Credentials(email: string, password: string)

  /** The `user` of a successful response: Register returns the id and the
      email alone; Login returns the whole updated row. */
  datatype User = UserSummary(id: nat, email: string) | UserRow(row: Account)

  /** The `data` of a response. */
  datatype Payload =
    | NoData                                                              // {}
    | Registered(accessToken: string, refreshToken: string, user: User)
    | LoggedIn(accessToken: string, refreshToken: string, user: User)
    | Failure(error: Thrown)                                              // the caught error

  type Response = Envelope<Payload>

  /** The awaited or called steps inside the services' try blocks that can throw. */
  datatype Step = FindOneStep | SignStep | HashStep | CreateStep | CompareStep | UpdateStep

  /** A step that throws, and what it throws. */
  datatype Fault = Fault(step: Step, thrown: Thrown)

  predicate FailsAt(fault: Option<Fault>, step: Step) {
    fault.Some? && fault.value.step == step
  }

  const EmailTaken: Response := MessageHandler("Email already registered", false, Conflict, NoData)
  const InvalidCredentials: Response := MessageHandler("Invalid credentials", false, Unauthorized, NoData)
  const RegisterError: Response :=
    MessageHandler("An error occured while processing your registration.", false, InternalServerError, NoData)

  function LoginError(error: Thrown): Response {
    MessageHandler("An error occured while processing your login.", false, InternalServerError, Failure(error))
  }

  // ---------------------------------------------------------------------------
  // The two operations as functions of the table

  /** registerService: the response and the table after it. */
  function RegisterSpec(t: Table, req: Credentials, crypto: Crypto, now: Time, salt: nat, fault: Option<Fault>)
    : (Response, Table)
  {
    if FailsAt(fault, FindOneStep) then (RegisterError, t)
    else if FindOne(t.rows, req.email).Some? then (EmailTaken, t)
    else if FailsAt(fault, SignStep) then (RegisterError, t)
    else
      var claims := Claims(None, req.email);
      var accessToken := crypto.sign(claims, AccessTokenLifetime, IssuedAt(now));
      var refreshToken := crypto.sign(claims, RefreshTokenLifetime, IssuedAt(now));
      var expiresAt := now + SevenDaysMs;
      if FailsAt(fault, HashStep) then (RegisterError, t)
      else
        var hashed := crypto.hash(req.password, salt);
        if FailsAt(fault, CreateStep) then (RegisterError, t)
        else
          var attrs := CreationAttributes(req.email, hashed, Some(refreshToken), Some(expiresAt), Some(now), Some(now));
          var created := Create(t, attrs, now);
          var user := created.1;
          (MessageHandler("Registration successful", true, Success,
                          Registered(accessToken, refreshToken, UserSummary(user.id, user.email))),
           created.0)
  }

  /** The row after `user.update({ refreshToken, refreshTokenExpiresAt, updatedAt })`.
      Under Sequelize's timestamps the saved `updatedAt` is its own clock
      reading rather than the given one; both are `now` here. */
  function WithSession(user: Account, refreshToken: string, expiresAt: Time, now: Time): Account {
    user.(refreshToken := refreshToken, refreshTokenExpiresAt := Some(expiresAt), updatedAt := now)
  }

  /** loginService: the response and the table after it. */
  function LoginSpec(t: Table, req: Credentials, crypto: Crypto, now: Time, fault: Option<Fault>)
    : (Response, Table)
  {
    if FailsAt(fault, FindOneStep) then (LoginError(fault.value.thrown), t)
    else
      match FindOne(t.rows, req.email)
      case None => (InvalidCredentials, t)
      case Some(i) =>
        var user := t.rows[i];
        if FailsAt(fault, CompareStep) then (LoginError(fault.value.thrown), t)
        else if !crypto.compare(req.password, user.password) then (InvalidCredentials, t)
        else if FailsAt(fault, SignStep) then (LoginError(fault.value.thrown), t)
        else
          var claims := Claims(Some(user.id), user.email);
          var accessToken := crypto.sign(claims, AccessTokenLifetime, IssuedAt(now));
          var refreshToken := crypto.sign(claims, RefreshTokenLifetime, IssuedAt(now));
          var expiresAt := now + SevenDaysMs;
          if FailsAt(fault, UpdateStep) then (LoginError(fault.value.thrown), t)
          else
            var updated := WithSession(user, refreshToken, expiresAt, now);
            (MessageHandler("Login successful", true, Success, LoggedIn(accessToken, refreshToken, UserRow(updated))),
             Table(t.rows[i := updated], t.nextId))
  }

  // ---------------------------------------------------------------------------
  // Register

  /** An email already in the table is refused with Conflict, and the table
      stays as it was. */
  lemma RegisterExistingEmail(t: Table, req: Credentials, crypto: Crypto, now: Time, salt: nat, fault: Option<Fault>)
    requires !FailsAt(fault, FindOneStep) && FindOne(t.rows, req.email).Some?
    ensures RegisterSpec(t, req, crypto, now, salt, fault).1 == t
    ensures RegisterSpec(t, req, crypto, now, salt, fault).0
            == Envelope("Email already registered", false, Conflict, NoData)
  {
  }

  /** A new email adds exactly one row, at the end: it has a fresh id, the
      given email, the salted hash of the password, the refresh token that is
      returned, and an expiry seven days from now. The response carries the two
      tokens, both signed over `{email}` alone, and the new id and email. */
  lemma RegisterNewEmail(t: Table, req: Credentials, crypto: Crypto, now: Time, salt: nat)
    requires ValidTable(t) && FindOne(t.rows, req.email).None?
    ensures var (r, t') := RegisterSpec(t, req, crypto, now, salt, None);
      && |t'.rows| == |t.rows| + 1 && t'.rows[..|t.rows|] == t.rows
      && ValidTable(t')
      && var a := t'.rows[|t.rows|];
      && (forall i :: 0 <= i < |t.rows| ==> t.rows[i].id != a.id)
      && a.email == req.email
      && a.password == crypto.hash(req.password, salt)
      && a.refreshTokenExpiresAt == Some(now + 604800000)
      && a.createdAt == now && a.updatedAt == now
      && r.success && r.statusCode == Success && r.message == "Registration successful"
      && r.data == Registered(crypto.sign(Claims(None, req.email), "1d", now / 1000),
                              crypto.sign(Claims(None, req.email), "7d", now / 1000),
                              UserSummary(a.id, req.email))
      && a.refreshToken == r.data.refreshToken
  {
    var (r, t') := RegisterSpec(t, req, crypto, now, salt, None);
    assert t'.rows[..|t.rows|] == t.rows;
  }

  /** When the hash of a password is never the password itself (bcrypt's
      output is a "$2a$..." string of 60 characters), the stored password is
      never the plaintext. */
  lemma RegisterStoresNoPlaintext(t: Table, req: Credentials, crypto: Crypto, now: Time, salt: nat)
    requires FindOne(t.rows, req.email).None?
    requires forall p, s :: crypto.hash(p, s) != p
    ensures var t' := RegisterSpec(t, req, crypto, now, salt, None).1;
      |t'.rows| == |t.rows| + 1 && t'.rows[|t.rows|].password != req.password
  {
    assert crypto.hash(req.password, salt) != req.password;
  }

  /** A step that throws ends Register with the internal-error response, `{}`
      as data and the table unchanged. */
  lemma RegisterFault(t: Table, req: Credentials, crypto: Crypto, now: Time, salt: nat, fault: Option<Fault>)
    requires fault.Some? && fault.value.step in {FindOneStep, SignStep, HashStep, CreateStep}
    requires fault.value.step != FindOneStep ==> FindOne(t.rows, req.email).None?
    ensures RegisterSpec(t, req, crypto, now, salt, fault).1 == t
    ensures RegisterSpec(t, req, crypto, now, salt, fault).0
            == Envelope("An error occured while processing your registration.", false, InternalServerError, NoData)
  {
  }

  /** Register keeps the table valid and keeps emails unique. */
  lemma RegisterKeepsInvariants(t: Table, req: Credentials, crypto: Crypto, now: Time, salt: nat, fault: Option<Fault>)
    requires ValidTable(t) && EmailsUnique(t.rows)
    ensures ValidTable(RegisterSpec(t, req, crypto, now, salt, fault).1)
    ensures EmailsUnique(RegisterSpec(t, req, crypto, now, salt, fault).1.rows)
  {
    var t' := RegisterSpec(t, req, crypto, now, salt, fault).1;
    if t' != t {
      assert t'.rows == t.rows + [t'.rows[|t.rows|]];
      assert t'.rows[|t.rows|].email == req.email;
    }
  }

  /** Registering one email twice: the second call is refused with Conflict
      and adds no second row. */
  lemma RegisterTwice(t: Table, req: Credentials, crypto: Crypto, now: Time, salt: nat,
                      req2: Credentials, now2: Time, salt2: nat, fault2: Option<Fault>)
    requires FindOne(t.rows, req.email).None?
    requires req2.email == req.email && !FailsAt(fault2, FindOneStep)
    ensures var t1 := RegisterSpec(t, req, crypto, now, salt, None).1;
      RegisterSpec(t1, req2, crypto, now2, salt2, fault2) == (EmailTaken, t1)
  {
    var t1 := RegisterSpec(t, req, crypto, now, salt, None).1;
    assert t1.rows[|t.rows|].email == req.email;
  }

  // ---------------------------------------------------------------------------
  // Login

  /** An unknown email and a wrong password get the same response, and
      neither changes the table. */
  lemma LoginRefusal(t: Table, req: Credentials, crypto: Crypto, now: Time, fault: Option<Fault>)
    requires !FailsAt(fault, FindOneStep)
    requires FindOne(t.rows, req.email).None? ||
             (!FailsAt(fault, CompareStep) &&
              !crypto.compare(req.password, t.rows[FindOne(t.rows, req.email).value].password))
    ensures LoginSpec(t, req, crypto, now, fault) == (InvalidCredentials, t)
    ensures InvalidCredentials == Envelope("Invalid credentials", false, Unauthorized, NoData)
  {
  }

  /** The response does not tell an unknown email from a wrong password. */
  lemma LoginRefusalsIndistinguishable(t1: Table, unknown: Credentials, t2: Table, wrong: Credentials,
                                       crypto: Crypto, now1: Time, now2: Time)
    requires FindOne(t1.rows, unknown.email).None?
    requires FindOne(t2.rows, wrong.email).Some?
    requires !crypto.compare(wrong.password, t2.rows[FindOne(t2.rows, wrong.email).value].password)
    ensures LoginSpec(t1, unknown, crypto, now1, None).0 == LoginSpec(t2, wrong, crypto, now2, None).0
  {
    LoginRefusal(t1, unknown, crypto, now1, None);
    LoginRefusal(t2, wrong, crypto, now2, None);
  }

  /** A successful login rotates the session of the matching row and nothing
      else: that row's refresh token becomes the returned one, its expiry seven
      days from now and its update time now; its id, email, password and
      creation time, every other row and the id sequence stay. The tokens are
      signed over `{id, email}`. */
  lemma LoginSuccess(t: Table, req: Credentials, crypto: Crypto, now: Time)
    requires FindOne(t.rows, req.email).Some?
    requires crypto.compare(req.password, t.rows[FindOne(t.rows, req.email).value].password)
    ensures var i := FindOne(t.rows, req.email).value;
      var (r, t') := LoginSpec(t, req, crypto, now, None);
      && r.success && r.statusCode == Success && r.message == "Login successful"
      && r.data.LoggedIn?
      && r.data.accessToken == crypto.sign(Claims(Some(t.rows[i].id), req.email), "1d", now / 1000)
      && r.data.refreshToken == crypto.sign(Claims(Some(t.rows[i].id), req.email), "7d", now / 1000)
      && t'.nextId == t.nextId && |t'.rows| == |t.rows|
      && (forall k :: 0 <= k < |t.rows| && k != i ==> t'.rows[k] == t.rows[k])
      && t'.rows[i].id == t.rows[i].id && t'.rows[i].email == t.rows[i].email
      && t'.rows[i].password == t.rows[i].password && t'.rows[i].createdAt == t.rows[i].createdAt
      && t'.rows[i].refreshToken == r.data.refreshToken
      && t'.rows[i].refreshTokenExpiresAt == Some(now + 604800000)
      && t'.rows[i].updatedAt == now
      && r.data.user == UserRow(t'.rows[i])
  {
  }

  /** A step that throws ends Login with the internal-error response whose
      data is the thrown error, and the table unchanged. */
  lemma LoginFault(t: Table, req: Credentials, crypto: Crypto, now: Time, fault: Option<Fault>)
    requires fault.Some? && fault.value.step in {FindOneStep, CompareStep, SignStep, UpdateStep}
    requires fault.value.step != FindOneStep ==> FindOne(t.rows, req.email).Some?
    requires fault.value.step in {SignStep, UpdateStep} ==>
               crypto.compare(req.password, t.rows[FindOne(t.rows, req.email).value].password)
    ensures LoginSpec(t, req, crypto, now, fault).1 == t
    ensures LoginSpec(t, req, crypto, now, fault).0
            == Envelope("An error occured while processing your login.", false, InternalServerError,
                        Failure(fault.value.thrown))
  {
  }

  /** Login keeps the table valid and keeps emails unique. */
  lemma LoginKeepsInvariants(t: Table, req: Credentials, crypto: Crypto, now: Time, fault: Option<Fault>)
    requires ValidTable(t) && EmailsUnique(t.rows)
    ensures ValidTable(LoginSpec(t, req, crypto, now, fault).1)
    ensures EmailsUnique(LoginSpec(t, req, crypto, now, fault).1.rows)
  {
    var t' := LoginSpec(t, req, crypto, now, fault).1;
    assert |t'.rows| == |t.rows|;
    assert forall k :: 0 <= k < |t.rows| ==> t'.rows[k].id == t.rows[k].id && t'.rows[k].email == t.rows[k].email;
  }

  /** Register, then Login with the same credentials: when bcrypt.compare
      accepts a password against its own hash, the login succeeds for the row
      Register created and returns tokens signed over its id and email. */
  lemma RegisterThenLogin(t: Table, req: Credentials, crypto: Crypto, now: Time, salt: nat, later: Time)
    requires ValidTable(t) && FindOne(t.rows, req.email).None?
    requires crypto.compare(req.password, crypto.hash(req.password, salt))
    ensures var (r1, t1) := RegisterSpec(t, req, crypto, now, salt, None);
      var (r2, t2) := LoginSpec(t1, req, crypto, later, None);
      && r1.success && r2.success
      && r2.data.LoggedIn? && r1.data.Registered?
      && r2.data.user.row.id == r1.data.user.id == t.nextId
      && r2.data.refreshToken == crypto.sign(Claims(Some(t.nextId), req.email), "7d", later / 1000)
      && t2.rows[|t.rows|].refreshToken == r2.data.refreshToken
  {
    var (r1, t1) := RegisterSpec(t, req, crypto, now, salt, None);
    var created := t1.rows[|t.rows|];
    assert t1.rows == t.rows + [created];
    FindOneAppended(t.rows, created);
  }

  /** Tokens signed in different seconds differ, as their `iat` claims do. */
  ghost predicate SignDistinguishesIssueTimes(crypto: Crypto) {
    forall c, e, a, b :: a != b ==> crypto.sign(c, e, a) != crypto.sign(c, e, b)
  }

  /** After a second login the refresh token stored for the account is the
      second one returned: a login overwrites the earlier session rather than
      keeping it beside the new one. When the two logins fall in different
      seconds, the stored token is no longer the first one. */
  lemma LoginTwiceKeepsLatestToken(t: Table, req: Credentials, crypto: Crypto, now1: Time, now2: Time)
    requires FindOne(t.rows, req.email).Some?
    requires crypto.compare(req.password, t.rows[FindOne(t.rows, req.email).value].password)
    ensures var (r1, t1) := LoginSpec(t, req, crypto, now1, None);
      var (r2, t2) := LoginSpec(t1, req, crypto, now2, None);
      var i := FindOne(t.rows, req.email).value;
      && r1.success && r2.success && |t2.rows| == |t.rows|
      && t2.rows[i].refreshToken == r2.data.refreshToken
      && t2.rows[i].refreshTokenExpiresAt == Some(now2 + 604800000)
      && t2.rows[i].refreshToken == crypto.sign(Claims(Some(t.rows[i].id), req.email), "7d", now2 / 1000)
      && (forall k :: 0 <= k < |t.rows| && k != i ==> t2.rows[k] == t.rows[k])
      && (SignDistinguishesIssueTimes(crypto) && now1 / 1000 != now2 / 1000 ==>
            t2.rows[i].refreshToken != r1.data.refreshToken)
  {
    var i := FindOne(t.rows, req.email).value;
    var (r1, t1) := LoginSpec(t, req, crypto, now1, None);
    LoginSuccess(t, req, crypto, now1);
    assert FindOne(t1.rows, req.email) == Some(i) by {
      assert forall k :: 0 <= k < |t.rows| ==> t1.rows[k].email == t.rows[k].email;
      FindOneSameEmails(t.rows, t1.rows, req.email);
    }
    LoginSuccess(t1, req, crypto, now2);
  }

  /** findOne depends only on the emails of the rows. */
  lemma {:induction false} FindOneSameEmails(a: seq<Account>, b: seq<Account>, email: string)
    requires |a| == |b| && forall k :: 0 <= k < |a| ==> a[k].email == b[k].email
    ensures FindOne(a, email) == FindOne(b, email)
  {
    if a != [] {
      FindOneSameEmails(a[1..], b[1..], email);
    }
  }

  // ---------------------------------------------------------------------------
  // The table as a mutable store

  /** The `auths` table and the services that change it. */
  class AccountStore {
    var rows: seq<Account>
    var nextId: nat
    const crypto: Crypto

    function State(): Table
      reads this
    {
      Table(rows, nextId)
    }

    predicate Valid()
      reads this
    {
      ValidTable(State())
    }

    /** An empty table whose id sequence starts at 1. */
    constructor (crypto: Crypto)
      ensures Valid() && State() == EmptyTable && this.crypto == crypto
    {
      rows := [];
      nextId := 1;
      this.crypto := crypto;
    }

    /** registerService */
    method Register(req: Credentials, now: Time, salt: nat, fault: Option<Fault>) returns (response: Response)
      requires Valid()
      modifies this
      ensures Valid()
      ensures (response, State()) == RegisterSpec(old(State()), req, crypto, now, salt, fault)
      ensures old(EmailsUnique(rows)) ==> EmailsUnique(rows)
    {
      if FailsAt(fault, FindOneStep) { return RegisterError; }
      var existing := FindOne(rows, req.email);
      if existing.Some? {
        return EmailTaken;
      }

      if FailsAt(fault, SignStep) { return RegisterError; }
      var accessToken := crypto.sign(Claims(None, req.email), AccessTokenLifetime, IssuedAt(now));
      var refreshToken := crypto.sign(Claims(None, req.email), RefreshTokenLifetime, IssuedAt(now));
      var expiresAt := now + SevenDaysMs;

      if FailsAt(fault, HashStep) { return RegisterError; }
      var hashed := crypto.hash(req.password, salt);

      if FailsAt(fault, CreateStep) { return RegisterError; }
      var user := WithDefaults(nextId, CreationAttributes(req.email, hashed, Some(refreshToken), Some(expiresAt), Some(now), Some(now)), now);
      rows := rows + [user];
      nextId := nextId + 1;

      response := MessageHandler("Registration successful", true, Success,
                                 Registered(accessToken, refreshToken, UserSummary(user.id, user.email)));
      assert rows[..|rows| - 1] == old(rows);
      assert EmailsUnique(old(rows)) ==> EmailsUnique(rows);
    }

    /** loginService */
    method Login(req: Credentials, now: Time, fault: Option<Fault>) returns (response: Response)
      requires Valid()
      modifies this
      ensures Valid()
      ensures (response, State()) == LoginSpec(old(State()), req, crypto, now, fault)
      ensures old(EmailsUnique(rows)) ==> EmailsUnique(rows)
    {
      if FailsAt(fault, FindOneStep) { return LoginError(fault.value.thrown); }
      var found := FindOne(rows, req.email);
      if found.None? {
        return InvalidCredentials;
      }
      var i := found.value;
      var user := rows[i];

      if FailsAt(fault, CompareStep) { return LoginError(fault.value.thrown); }
      var isValidPassword := crypto.compare(req.password, user.password);
      if !isValidPassword {
        return InvalidCredentials;
      }

      if FailsAt(fault, SignStep) { return LoginError(fault.value.thrown); }
      var accessToken := crypto.sign(Claims(Some(user.id), user.email), AccessTokenLifetime, IssuedAt(now));
      var refreshToken := crypto.sign(Claims(Some(user.id), user.email), RefreshTokenLifetime, IssuedAt(now));
      var expiresAt := now + SevenDaysMs;

      if FailsAt(fault, UpdateStep) { return LoginError(fault.value.thrown); }
      user := WithSession(user, refreshToken, expiresAt, now);
      rows := rows[i := user];

      response := MessageHandler("Login successful", true, Success, LoggedIn(accessToken, refreshToken, UserRow(user)));
      if EmailsUnique(old(rows)) {
        LoginKeepsInvariants(old(State()), req, crypto, now, fault);
      }
    }
  }
}
