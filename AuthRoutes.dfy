/** The router built by `module.exports = (dbClient) => { ... }`: the
    `POST /register` and `POST /login` handlers over the `users` table.
    Each collaborator call that can throw (a query, bcrypt, jwt.sign) is
    named by a fault parameter; a throw lands in the handler's `catch` and
    becomes a generic 500. */
module AuthRoutes {
  import opened Wrappers
  import opened Js
  import opened Bcrypt
  import opened Jwt
  import opened Http
  import opened Users

  const MissingRegisterFields := "Please fill in all required fields (name, email, password)."
  const EmailAlreadyRegistered := "This email is already registered."
  const RegistrationSuccessful := "Registration successful!"
  const RegistrationServerError := "Server error during registration."
  const MissingLoginFields := "Please provide both email and password."
  const InvalidCredentials := "Invalid credentials."
  const LoginSuccessful := "Login successful!"
  const LoginServerError := "Server error during login."

  /** `const { name, email, password } = req.body`. */
  datatype RegisterBody = RegisterBody(name: Field, email: Field, password: Field)

  /** `const { email, password } = req.body`. */
  datatype LoginBody = LoginBody(email: Field, password: Field)

  /** Which awaited call of `/register` throws, if any. */
  datatype RegisterFault = RegisterRunsClean | LookupThrows | HashThrows | InsertThrows

  /** Which awaited call of `/login` throws, if any. */
  datatype LoginFault = LoginRunsClean | LoginLookupThrows | CompareThrows | SignThrows

  /** The table after a `/register` request, and the response written. */
  datatype RegisterOutcome = RegisterOutcome(table: Table, response: Response)

  /** The validation step of `/register` passes. */
  predicate RegisterFieldsPresent(body: RegisterBody) {
    Truthy(body.name) && Truthy(body.email) && Truthy(body.password)
  }

  /** The validation step of `/login` passes. */
  predicate LoginFieldsPresent(body: LoginBody) {
    Truthy(body.email) && Truthy(body.password)
  }

  /** The row `INSERT INTO users ... RETURNING ...` creates for a valid body. */
  function NewRow(t: Table, body: RegisterBody, bcrypt: PasswordHasher, now: int): UserRow
    requires RegisterFieldsPresent(body)
  {
    UserRow(t.nextId, body.name.value, body.email.value, bcrypt.hash(body.password.value, SaltRounds), now)
  }

  /** What one `/register` request does to the table and which response it
      writes; `now` is the database clock that fills `created_at`. */
  function RegisterEffect(t: Table, body: RegisterBody, bcrypt: PasswordHasher, now: int, fault: RegisterFault)
    : (out: RegisterOutcome)
    ensures out.response.status in {201, 400, 409, 500}
    ensures out.response.status == 400 <==> !RegisterFieldsPresent(body)
    ensures out.response.status == 400 ==> out.response.body == Message(MissingRegisterFields)
    ensures out.response.status == 409 <==>
              RegisterFieldsPresent(body) && fault != LookupThrows && EmailTaken(t.rows, body.email.value)
    ensures out.response.status == 409 ==> out.response.body == Message(EmailAlreadyRegistered)
    ensures out.response.status == 500 <==>
              RegisterFieldsPresent(body)
              && (fault == LookupThrows
                  || (!EmailTaken(t.rows, body.email.value) && (fault == HashThrows || fault == InsertThrows)))
    ensures out.response.status == 500 ==> out.response.body == Message(RegistrationServerError)
    ensures out.response.status == 201 <==>
              RegisterFieldsPresent(body) && fault == RegisterRunsClean && !EmailTaken(t.rows, body.email.value)
    ensures out.response.status != 201 ==> out.table == t
    ensures out.response.status == 201 ==>
              && RegisterFieldsPresent(body)
              && !EmailTaken(t.rows, body.email.value)
              && out.table.rows == t.rows + [NewRow(t, body, bcrypt, now)]
              && out.table.nextId > t.nextId
              && out.response.body == Registered(RegistrationSuccessful, NewUserOf(NewRow(t, body, bcrypt, now)))
    ensures WellFormed(t) ==> WellFormed(out.table)
  {
    if !RegisterFieldsPresent(body) then
      RegisterOutcome(t, Response(400, Message(MissingRegisterFields)))
    else if fault == LookupThrows then
      RegisterOutcome(t, Response(500, Message(RegistrationServerError)))
    else if |SelectByEmail(t.rows, body.email.value)| > 0 then
      RegisterOutcome(t, Response(409, Message(EmailAlreadyRegistered)))
    else if fault == HashThrows || fault == InsertThrows then
      RegisterOutcome(t, Response(500, Message(RegistrationServerError)))
    else
      assert fault == RegisterRunsClean;
      var row := NewRow(t, body, bcrypt, now);
      var t' := Table(t.rows + [row], t.nextId + 1);
      assert forall i :: 0 <= i < |t.rows| ==> t'.rows[i] == t.rows[i];
      assert t'.rows[|t.rows|] == row;
      RegisterOutcome(t', Response(201, Registered(RegistrationSuccessful, NewUserOf(row))))
  }

  /** One `/register` call of a sequence: its body, clock and fault. */
  datatype RegisterCall = RegisterCall(body: RegisterBody, now: int, fault: RegisterFault)

  /** The table after `calls` are handled one at a time, in order. */
  function RegisterAll(t: Table, calls: seq<RegisterCall>, bcrypt: PasswordHasher): (t': Table)
    ensures |t.rows| <= |t'.rows| <= |t.rows| + |calls|
    ensures t'.rows[..|t.rows|] == t.rows
    decreases |calls|
  {
    if calls == [] then t
    else
      var c := calls[0];
      RegisterAll(RegisterEffect(t, c.body, bcrypt, c.now, c.fault).table, calls[1..], bcrypt)
  }

  /** Sequential registrations never produce two rows with the same email. */
  lemma {:induction false} RegisterAllKeepsWellFormed(t: Table, calls: seq<RegisterCall>, bcrypt: PasswordHasher)
    requires WellFormed(t)
    ensures WellFormed(RegisterAll(t, calls, bcrypt))
    decreases |calls|
  {
    if calls != [] {
      var c := calls[0];
      RegisterAllKeepsWellFormed(RegisterEffect(t, c.body, bcrypt, c.now, c.fault).table, calls[1..], bcrypt);
    }
  }

  /** Once an email is registered, registering it again is a conflict and
      leaves the table as it is. */
  lemma RegisterTwiceConflicts(t: Table, first: RegisterBody, second: RegisterBody, bcrypt: PasswordHasher,
                               now1: int, now2: int, fault: RegisterFault)
    requires RegisterEffect(t, first, bcrypt, now1, RegisterRunsClean).response.status == 201
    requires RegisterFieldsPresent(second) && second.email == first.email
    requires fault != LookupThrows
    ensures var t1 := RegisterEffect(t, first, bcrypt, now1, RegisterRunsClean).table;
            RegisterEffect(t1, second, bcrypt, now2, fault) == RegisterOutcome(t1, Response(409, Message(EmailAlreadyRegistered)))
  {
  }

  /** The 201 response does not depend on how the password was hashed: the
      hash never reaches the client. */
  lemma RegisterResponseHidesHash(t: Table, body: RegisterBody, b1: PasswordHasher, b2: PasswordHasher,
                                  now: int, fault: RegisterFault)
    ensures RegisterEffect(t, body, b1, now, fault).response == RegisterEffect(t, body, b2, now, fault).response
  {
  }

  /** The router closed over `dbClient`; the table is the database's state. */
  class AuthRouter {
    var rows: seq<UserRow>
    var nextId: nat

    ghost function Snapshot(): Table
      reads this
    {
      Table(rows, nextId)
    }

    ghost predicate Valid()
      reads this
    {
      WellFormed(Snapshot())
    }

    constructor (db: Table)
      requires WellFormed(db)
      ensures Valid() && Snapshot() == db
    {
      rows := db.rows;
      nextId := db.nextId;
    }

    /** `POST /register`, step by step with early returns. */
    method Register(body: RegisterBody, bcrypt: PasswordHasher, now: int, fault: RegisterFault)
      returns (res: Response)
      requires Valid()
      modifies this
      ensures Valid()
      ensures var out := RegisterEffect(old(Snapshot()), body, bcrypt, now, fault);
              Snapshot() == out.table && res == out.response
    {
      if !Truthy(body.name) || !Truthy(body.email) || !Truthy(body.password) {
        return Response(400, Message(MissingRegisterFields));
      }
      var name, email, password := body.name.value, body.email.value, body.password.value;

      if fault == LookupThrows {
        return Response(500, Message(RegistrationServerError));
      }
      var userExists := SelectByEmail(rows, email);
      if |userExists| > 0 {
        return Response(409, Message(EmailAlreadyRegistered));
      }

      if fault == HashThrows {
        return Response(500, Message(RegistrationServerError));
      }
      var hashedPassword := bcrypt.hash(password, SaltRounds);

      if fault == InsertThrows {
        return Response(500, Message(RegistrationServerError));
      }
      var newUser := UserRow(nextId, name, email, hashedPassword, now);
      rows := rows + [newUser];
      nextId := nextId + 1;

      res := Response(201, Registered(RegistrationSuccessful, NewUserOf(newUser)));
    }

    /** `POST /login` on this router: it has no `modifies` clause, so no path
        changes the table. */
    method HandleLogin(body: LoginBody, bcrypt: PasswordHasher, codec: TokenCodec, secret: string,
                       now: int, fault: LoginFault) returns (res: Response)
      ensures unchanged(this)
      ensures res == Login(rows, body, bcrypt, codec, secret, now, fault)
    {
      res := Login(rows, body, bcrypt, codec, secret, now, fault);
    }
  }

  /** The token a successful login issues for `row`. */
  function TokenFor(row: UserRow, codec: TokenCodec, secret: string, now: int): string {
    codec.sign(Claims(row.id, row.email), secret, ExpiresIn, now)
  }

  /** `POST /login`: a function of the table, which it only reads. */
  function Login(rows: seq<UserRow>, body: LoginBody, bcrypt: PasswordHasher, codec: TokenCodec,
                 secret: string, now: int, fault: LoginFault): (r: Response)
    ensures r.status in {200, 400, 401, 500}
    ensures r.status == 400 <==> !LoginFieldsPresent(body)
    ensures r.status == 400 ==> r.body == Message(MissingLoginFields)
    ensures r.status == 401 ==> r.body == Message(InvalidCredentials)
    ensures r.status == 401 <==>
              && LoginFieldsPresent(body)
              && fault != LoginLookupThrows
              && var matches := SelectByEmail(rows, body.email.value);
                 (matches == [] || (fault != CompareThrows && !bcrypt.compare(body.password.value, matches[0].passwordHash)))
    ensures r.status == 500 <==>
              && LoginFieldsPresent(body)
              && var matches := SelectByEmail(rows, body.email.value);
                 (fault == LoginLookupThrows
                  || (matches != []
                      && (fault == CompareThrows
                          || (bcrypt.compare(body.password.value, matches[0].passwordHash) && fault == SignThrows))))
    ensures r.status == 500 ==> r.body == Message(LoginServerError)
    ensures r.status == 200 <==>
              && LoginFieldsPresent(body)
              && fault == LoginRunsClean
              && var matches := SelectByEmail(rows, body.email.value);
                 matches != [] && bcrypt.compare(body.password.value, matches[0].passwordHash)
    ensures r.status == 200 ==>
              && LoginFieldsPresent(body)
              && var matches := SelectByEmail(rows, body.email.value);
              && matches != []
              && matches[0] in rows && matches[0].email == body.email.value
              && bcrypt.compare(body.password.value, matches[0].passwordHash)
              && r.body == LoggedIn(LoginSuccessful, TokenFor(matches[0], codec, secret, now), SummaryOf(matches[0]))
  {
    if !Truthy(body.email) || !Truthy(body.password) then
      Response(400, Message(MissingLoginFields))
    else if fault == LoginLookupThrows then
      Response(500, Message(LoginServerError))
    else
      var result := SelectByEmail(rows, body.email.value);
      if |result| == 0 then
        Response(401, Message(InvalidCredentials))
      else
        var user := result[0];
        if fault == CompareThrows then
          Response(500, Message(LoginServerError))
        else if !bcrypt.compare(body.password.value, user.passwordHash) then
          Response(401, Message(InvalidCredentials))
        else if fault == SignThrows then
          Response(500, Message(LoginServerError))
        else
          Response(200, LoggedIn(LoginSuccessful, TokenFor(user, codec, secret, now), SummaryOf(user)))
  }

  /** An unknown email and a wrong password for a known email produce the
      very same response, so a client cannot tell which one happened. */
  lemma LoginFailuresIndistinguishable(
    rows1: seq<UserRow>, unknown: LoginBody,
    rows2: seq<UserRow>, wrongPassword: LoginBody,
    bcrypt: PasswordHasher, codec: TokenCodec, secret: string, now1: int, now2: int)
    requires LoginFieldsPresent(unknown) && !EmailTaken(rows1, unknown.email.value)
    requires LoginFieldsPresent(wrongPassword)
    requires var matches := SelectByEmail(rows2, wrongPassword.email.value);
             matches != [] && !bcrypt.compare(wrongPassword.password.value, matches[0].passwordHash)
    ensures Login(rows1, unknown, bcrypt, codec, secret, now1, LoginRunsClean)
         == Login(rows2, wrongPassword, bcrypt, codec, secret, now2, LoginRunsClean)
         == Response(401, Message(InvalidCredentials))
  {
  }

  /** With unique emails, a successful login is for the one row holding
      that email, and its password matched that row's hash. */
  lemma LoginIdentifiesTheAccount(rows: seq<UserRow>, body: LoginBody, bcrypt: PasswordHasher,
                                  codec: TokenCodec, secret: string, now: int, fault: LoginFault, i: nat)
    requires EmailsUnique(rows)
    requires Login(rows, body, bcrypt, codec, secret, now, fault).status == 200
    requires i < |rows| && rows[i].email == body.email.value
    ensures bcrypt.compare(body.password.value, rows[i].passwordHash)
    ensures Login(rows, body, bcrypt, codec, secret, now, fault).body
         == LoggedIn(LoginSuccessful, TokenFor(rows[i], codec, secret, now), SummaryOf(rows[i]))
  {
    SelectUnique(rows, body.email.value);
  }

  /** Registering and then logging in with the same password succeeds, for
      the row that registration created. */
  lemma LoginAfterRegister(t: Table, body: RegisterBody, bcrypt: PasswordHasher, created: int,
                           codec: TokenCodec, secret: string, now: int)
    requires AcceptsOwnHash(bcrypt)
    requires RegisterEffect(t, body, bcrypt, created, RegisterRunsClean).response.status == 201
    ensures var row := NewRow(t, body, bcrypt, created);
            var t1 := RegisterEffect(t, body, bcrypt, created, RegisterRunsClean).table;
            Login(t1.rows, LoginBody(body.email, body.password), bcrypt, codec, secret, now, LoginRunsClean)
            == Response(200, LoggedIn(LoginSuccessful, TokenFor(row, codec, secret, now), SummaryOf(row)))
  {
    SelectAfterAppend(t.rows, NewRow(t, body, bcrypt, created), body.email.value);
  }
}
