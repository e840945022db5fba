/**
  * User accounts: registration with unique email and username, login,
  * the six-digit password-reset code and the password history that keeps
  * a user from going back to an earlier password. bcrypt is abstracted as
  * a sealed value that only its own password matches; the clock, the
  * random reset code, the salt and the outcome of sending mail are
  * parameters.
  */
module Users {
  import opened Base
  import opened Text
  import Auth

  /**
    * `bcrypt.hash(password, 10)`: a password sealed under a random salt.
    * The only thing the model does with it is `Compare`.
    */
  datatype Hashed = Hashed(salt: nat, sealed: string)

  function Hash(password: string, salt: nat): Hashed
  {
    Hashed(salt, password)
  }

  /** `bcrypt.compare`: a sealed value matches the password it was made from, and no other. */
  predicate Compare(password: string, h: Hashed)
  {
    h.sealed == password
  }

  datatype AlertSettings = AlertSettings(emailAlerts: bool, weeklyReports: bool, monthlyReports: bool)

  datatype PastPassword = PastPassword(password: Hashed, changedIn: int)

  /**
    * A user document. The name is kept as the one full name registration
    * supplies (see `RegisterAsWritten` for what the schema's separate first
    * and last names do to it). Social accounts, access history, address
    * and the timestamps are not modelled.
    */
  datatype User = User(
    id: Id, fullName: string, username: string, email: string, password: Hashed,
    phoneNumber: Option<string>, country: Option<string>, birthdate: Option<int>, bio: Option<string>,
    passwordHistory: seq<PastPassword>, totalLoginCount: nat, lastLoginAt: Option<int>, isDeleted: bool,
    alertSettings: AlertSettings, thresholdEnabled: bool,
    resetToken: Option<string>, resetExpires: Option<int>)

  /** What the schema fills in on a new document. */
  predicate HasDefaults(u: User)
  {
    && u.phoneNumber.None? && u.country.None? && u.birthdate.None? && u.bio.None?
    && u.passwordHistory == [] && u.totalLoginCount == 0 && u.lastLoginAt.None? && !u.isDeleted
    && u.alertSettings == AlertSettings(true, false, true) && u.thresholdEnabled
    && u.resetToken.None? && u.resetExpires.None?
  }

  /** A pending reset code is six decimal digits and always comes with its expiry. */
  predicate ResetStateValid(u: User)
  {
    && (u.resetToken.Some? <==> u.resetExpires.Some?)
    && (u.resetToken.Some? ==> |u.resetToken.value| == 6 && AllDigits(u.resetToken.value))
  }

  /** The required fields and the unique indexes on email and username. */
  predicate UsersValid(users: seq<User>, nextId: Id)
  {
    && (forall i :: 0 <= i < |users| ==>
          users[i].id < nextId && users[i].email != "" && users[i].username != "" && ResetStateValid(users[i]))
    && (forall i, j :: 0 <= i < j < |users| ==>
          users[i].id != users[j].id && users[i].email != users[j].email && users[i].username != users[j].username)
  }

  /** A filter value that is absent drops out of a `findOne` filter, which then accepts every user. */
  predicate EmailIs(u: User, email: Option<string>)
  {
    email.None? || u.email == email.value
  }

  predicate UsernameIs(u: User, username: Option<string>)
  {
    username.None? || u.username == username.value
  }

  /** `User.findOne({ email })` */
  function FindByEmail(users: seq<User>, email: Option<string>): (r: Option<nat>)
    ensures r.Some? ==> r.value < |users| && EmailIs(users[r.value], email)
    ensures r.Some? ==> forall k :: 0 <= k < r.value ==> !EmailIs(users[k], email)
    ensures r.None? ==> forall k :: 0 <= k < |users| ==> !EmailIs(users[k], email)
  {
    FindIndex(users, (u: User) => EmailIs(u, email))
  }

  /** `User.findOne({ username })` */
  function FindByUsername(users: seq<User>, username: Option<string>): (r: Option<nat>)
    ensures r.Some? ==> r.value < |users| && UsernameIs(users[r.value], username)
    ensures r.None? ==> forall k :: 0 <= k < |users| ==> !UsernameIs(users[k], username)
  {
    FindIndex(users, (u: User) => UsernameIs(u, username))
  }

  /** `User.findById`: no check of the deleted flag. */
  function FindById(users: seq<User>, id: Id): (r: Option<nat>)
    ensures r.Some? ==> r.value < |users| && users[r.value].id == id
    ensures r.None? ==> forall k :: 0 <= k < |users| ==> users[k].id != id
  {
    FindIndex(users, (u: User) => u.id == id)
  }

  const EMAIL_OF_DELETED := "Este correo electrónico pertenece a un usuario eliminado."
  const EMAIL_TAKEN := "El correo electrónico ya está en uso."
  const USERNAME_OF_DELETED := "Este nombre de usuario pertenece a un usuario eliminado."
  const USERNAME_TAKEN := "El nombre de usuario ya está en uso."
  const REGISTERED := "Usuario creado exitosamente."
  /**
    * "User validation failed: first_name: Path `first_name` is required.,
    * last_name: Path `last_name` is required.": the least a registration
    * that reaches `save()` is refused with.
    */
  const SCHEMA_REJECTS := SchemaMessage(["first_name", "last_name"])
  const UNKNOWN_EMAIL := "Email incorrecto"
  const DELETED_LOGIN := "Este usuario ha sido eliminado y no puede iniciar sesión."
  const WRONG_PASSWORD := "Contraseña incorrecta"
  const NO_USER_WITH_EMAIL := "No se encontró un usuario con ese correo electrónico."
  const CODE_SENT := "Se ha enviado el código de recuperación de contraseña."
  const MAIL_FAILED := "Error al enviar el correo."
  const INVALID_CODE := "Código inválido o ha expirado."
  const RESET_DONE := "Contraseña restablecida con éxito."
  const RESET_FAILED := "Error al restablecer la contraseña."
  const PASSWORDS_MISSING := "Faltan contraseñas"
  const USER_NOT_FOUND := "Usuario no encontrado"
  const WRONG_CURRENT := "Contraseña actual incorrecta"
  const PASSWORD_REUSED := "No puedes reutilizar una contraseña anterior"
  const PASSWORD_CHANGED := "Contraseña actualizada con éxito"

  /**
    * The uniqueness checks of `registerUser`, email first: a user found by
    * email answers with one of the two email messages, whatever the
    * username; only a request no user matches by email or username gets
    * through.
    */
  function RegisterConflict(users: seq<User>, username: Option<string>, email: Option<string>): (r: Option<(nat, string)>)
    ensures r.None? <==> forall k :: 0 <= k < |users| ==> !EmailIs(users[k], email) && !UsernameIs(users[k], username)
    ensures (exists k :: 0 <= k < |users| && EmailIs(users[k], email)) ==>
              r == Some((BAD_REQUEST, EMAIL_OF_DELETED)) || r == Some((CONFLICT, EMAIL_TAKEN))
    ensures r.Some? ==> (r.value.0 == BAD_REQUEST || r.value.0 == CONFLICT)
  {
    match FindByEmail(users, email)
    case Some(i) =>
      Some(if users[i].isDeleted then (BAD_REQUEST, EMAIL_OF_DELETED) else (CONFLICT, EMAIL_TAKEN))
    case None =>
      match FindByUsername(users, username)
      case Some(i) =>
        Some(if users[i].isDeleted then (BAD_REQUEST, USERNAME_OF_DELETED) else (CONFLICT, USERNAME_TAKEN))
      case None => None
  }

  /** Whether a required string path fails Mongoose's `required` check: unset or empty. */
  predicate MissingPath(v: Option<string>)
  {
    v.None? || v.value == ""
  }

  /**
    * The required schema paths the document `registerUser` builds leaves
    * unset, in the schema's order: `first_name` and `last_name` always
    * (the document sets the undeclared `full_name` instead), `username`
    * and `email` when the request lacks them or sends them empty. The
    * hashed password is always set.
    */
  function MissingRequired(username: Option<string>, email: Option<string>): (r: seq<string>)
    ensures |r| >= 2 && r[0] == "first_name" && r[1] == "last_name"
    ensures "username" in r <==> MissingPath(username)
    ensures "email" in r <==> MissingPath(email)
    ensures forall k :: 0 <= k < |r| ==> r[k] in {"first_name", "last_name", "username", "email"}
  {
    ["first_name", "last_name"]
      + (if MissingPath(username) then ["username"] else [])
      + (if MissingPath(email) then ["email"] else [])
  }

  /** One entry of a validation message: `path: Path `path` is required.` */
  function RequiredEntry(path: string): string
  {
    path + ": Path `" + path + "` is required."
  }

  /** The entries of a validation message, joined by ", ". */
  function RequiredEntries(paths: seq<string>): (r: string)
    ensures |paths| > 0 ==> RequiredEntry(paths[0]) <= r
    ensures |paths| == 0 <==> r == ""
  {
    if |paths| == 0 then ""
    else if |paths| == 1 then RequiredEntry(paths[0])
    else RequiredEntry(paths[0]) + ", " + RequiredEntries(paths[1..])
  }

  /**
    * The message of the `ValidationError` Mongoose throws when saving a
    * `User` with the given required paths missing.
    */
  function SchemaMessage(paths: seq<string>): (r: string)
    ensures "User validation failed: " <= r
    ensures |paths| > 0 <==> |r| > |"User validation failed: "|
  {
    "User validation failed: " + RequiredEntries(paths)
  }

  /**
    * `registerUser` as written: the document it builds sets `full_name`,
    * which the schema does not declare and drops, and leaves the required
    * `first_name` and `last_name` unset, so saving it always fails
    * validation with 500, and the message lists every required path the
    * document lacks. No registration can succeed.
    */
  function RegisterAsWritten(users: seq<User>, fullName: Option<string>, username: Option<string>,
                             email: Option<string>, password: Option<string>): (r: Result<string>)
    ensures r.Err?
    ensures RegisterConflict(users, username, email).None? ==> r.status == INTERNAL_ERROR
    ensures RegisterConflict(users, username, email).Some? ==>
              (r.status, r.message) == RegisterConflict(users, username, email).value
    ensures RegisterConflict(users, username, email).None? && password.Some? && fullName.Some? ==>
              r.message == SchemaMessage(MissingRequired(username, email))
  {
    match RegisterConflict(users, username, email)
    case Some((status, message)) => Err(status, message)
    case None =>
      if password.None? then Err(INTERNAL_ERROR, "data and salt arguments required")
      else if fullName.None? then Err(INTERNAL_ERROR, "Cannot read properties of undefined (reading 'trim')")
      else Err(INTERNAL_ERROR, SchemaMessage(MissingRequired(username, email)))
  }

  /** A first registration into an empty store, with every field given, is refused as written. */
  lemma FirstRegistrationRefused()
    ensures RegisterAsWritten([], Some("Ana Pérez"), Some("ana"), Some("ana@correo.com"), Some("Secreta1!"))
              == Err(INTERNAL_ERROR, SCHEMA_REJECTS)
  {
    assert MissingRequired(Some("ana"), Some("ana@correo.com")) == ["first_name", "last_name"];
  }

  /** Each further missing path adds one entry at the end of the message. */
  lemma {:induction false} EntriesAppend(paths: seq<string>, path: string)
    requires |paths| > 0
    ensures RequiredEntries(paths + [path]) == RequiredEntries(paths) + ", " + RequiredEntry(path)
  {
    if |paths| > 1 {
      assert (paths + [path])[1..] == paths[1..] + [path];
      EntriesAppend(paths[1..], path);
    } else {
      assert (paths + [path])[1..] == [path];
    }
  }

  /**
    * The registration form's own post carries no username, so as written
    * the validation message names `username` after the two name paths.
    */
  lemma FormPostRefused()
    ensures RegisterAsWritten([], Some("Ana Pérez"), None, Some("ana@correo.com"), Some("Secreta1!"))
              == Err(INTERNAL_ERROR, SCHEMA_REJECTS + ", " + RequiredEntry("username"))
  {
    assert MissingRequired(None, Some("ana@correo.com")) == ["first_name", "last_name"] + ["username"];
    EntriesAppend(["first_name", "last_name"], "username");
  }

  /** The document registration creates: the given fields plus the schema's defaults. */
  function NewUser(id: Id, fullName: string, username: string, email: string, password: Hashed): (u: User)
    ensures HasDefaults(u) && ResetStateValid(u)
    ensures u.id == id && u.fullName == fullName && u.username == username && u.email == email
    ensures u.password == password
  {
    User(id, fullName, username, email, password, None, None, None, None, [], 0, None, false,
         AlertSettings(true, false, true), true, None, None)
  }

  /**
    * `loginUser`: an unknown email gives 404, a deleted user 400 before
    * the password is looked at, a missing password 500 (bcrypt throws), a
    * wrong one 404; otherwise 200 with a token for the user's id, name and
    * email. Logging in writes nothing.
    */
  function Login(users: seq<User>, email: Option<string>, password: Option<string>, now: int): (r: Result<Auth.Claims>)
    ensures FindByEmail(users, email).None? ==> r == Err(NOT_FOUND, UNKNOWN_EMAIL)
    ensures FindByEmail(users, email).Some? && users[FindByEmail(users, email).value].isDeleted ==>
              r == Err(BAD_REQUEST, DELETED_LOGIN)
    ensures r.Ok? <==>
              && FindByEmail(users, email).Some? && !users[FindByEmail(users, email).value].isDeleted
              && password.Some? && Compare(password.value, users[FindByEmail(users, email).value].password)
    ensures r.Err? && r.status != NOT_FOUND && r.status != BAD_REQUEST ==>
              r.status == INTERNAL_ERROR && password.None?
    ensures r.Ok? ==>
              var u := users[FindByEmail(users, email).value];
              && r.value.payload == Auth.TokenPayload(u.id, Some(u.fullName), u.email)
              && Auth.Unexpired(r.value, now) && !Auth.Unexpired(r.value, now + 24 * 60 * 60)
  {
    match FindByEmail(users, email)
    case None => Err(NOT_FOUND, UNKNOWN_EMAIL)
    case Some(i) =>
      var u := users[i];
      if u.isDeleted then Err(BAD_REQUEST, DELETED_LOGIN)
      else if password.None? then Err(INTERNAL_ERROR, "data and hash arguments required")
      else if !Compare(password.value, u.password) then Err(NOT_FOUND, WRONG_PASSWORD)
      else Ok(Auth.GenerateToken(u.id, Some(u.fullName), u.email, now))
  }

  /** With unique emails, the user an email finds is the one holding it. */
  lemma {:induction false} FindByEmailUnique(users: seq<User>, nextId: Id, k: nat)
    requires UsersValid(users, nextId) && k < |users|
    ensures FindByEmail(users, Some(users[k].email)) == Some(k)
  {
    var r := FindByEmail(users, Some(users[k].email));
    assert EmailIs(users[k], Some(users[k].email));
    var i := r.value;
    assert !(i < k) && !(k < i);
  }

  /** The sealed password stored for `now`'s reset code, and when it lapses. */
  function WithResetCode(u: User, code: string, expires: int): User
  {
    u.(resetToken := Some(code), resetExpires := Some(expires))
  }

  /**
    * `findOne({ resetPasswordToken: code, resetPasswordExpires: { $gt: now } })`:
    * the code matches and has not lapsed; a missing code drops out of the
    * filter.
    */
  predicate AcceptsCode(u: User, code: Option<string>, now: int)
  {
    && u.resetExpires.Some? && now < u.resetExpires.value
    && (code.None? || u.resetToken == Some(code.value))
  }

  function FindByCode(users: seq<User>, code: Option<string>, now: int): (r: Option<nat>)
    ensures r.Some? ==> r.value < |users| && AcceptsCode(users[r.value], code, now)
    ensures r.None? ==> forall k :: 0 <= k < |users| ==> !AcceptsCode(users[k], code, now)
  {
    FindIndex(users, (u: User) => AcceptsCode(u, code, now))
  }

  /** What the schema keeps of a user when it declares neither reset field. */
  function WithoutResetFields(u: User): User
  {
    u.(resetToken := None, resetExpires := None)
  }

  /**
    * The reset lookup as written. The schema declares neither reset field,
    * so in its default strict mode `forgotPassword` saves neither and no
    * stored user has them. When queries are strict as well (`strictQuery`,
    * the default before Mongoose 7), both unknown keys leave the filter,
    * which becomes `{}`; otherwise the filter names fields that no stored
    * user has.
    */
  function FindByCodeAsWritten(users: seq<User>, code: Option<string>, now: int, strictQuery: bool)
    : (r: Option<nat>)
    ensures strictQuery ==> r == if users == [] then None else Some(0)
    ensures !strictQuery ==> r.None?
  {
    FindIndex(users, (u: User) => strictQuery || AcceptsCode(WithoutResetFields(u), code, now))
  }

  /**
    * As written, a user who never asked for a code is reset with any code
    * when queries are strict, and a user who has just been sent a code is
    * refused with it when they are not; the intended lookup does the
    * opposite in both cases.
    */
  lemma ResetLookupAsWrittenDiffers(u: User, sent: string, guess: string, now: int)
    requires u.resetExpires.None?
    ensures FindByCode([u], Some(guess), now).None?
    ensures FindByCodeAsWritten([u], Some(guess), now, true) == Some(0)
    ensures var asked := WithResetCode(u, sent, now + RESET_CODE_LIFETIME);
            && FindByCode([asked], Some(sent), now) == Some(0)
            && FindByCodeAsWritten([asked], Some(sent), now, false).None?
  {
    var asked := WithResetCode(u, sent, now + RESET_CODE_LIFETIME);
    assert AcceptsCode(asked, Some(sent), now);
  }

  /** The new password in place and the reset code and its expiry cleared. */
  function WithResetPassword(u: User, h: Hashed): (v: User)
    ensures forall code, t :: !AcceptsCode(v, code, t)
  {
    u.(password := h, resetToken := None, resetExpires := None)
  }

  /** `!value` on a request field: absent or empty. */
  predicate Missing(s: Option<string>)
  {
    s.None? || s.value == ""
  }

  /** Whether a password matches any entry of the user's history. */
  predicate UsedBefore(u: User, password: string)
  {
    exists k :: 0 <= k < |u.passwordHistory| && Compare(password, u.passwordHistory[k].password)
  }

  /** The old hash pushed onto the history, and the new one in its place. */
  function WithNewPassword(u: User, h: Hashed, now: int): User
  {
    u.(passwordHistory := u.passwordHistory + [PastPassword(u.password, now)], password := h)
  }

  /** The one-hour validity of a reset code, in milliseconds. */
  const RESET_CODE_LIFETIME: int := 3600000

  class UserStore {
    var users: seq<User>
    var nextId: Id

    ghost predicate Valid()
      reads this
    {
      UsersValid(users, nextId)
    }

    /** A store holding accounts created earlier, deleted ones included. */
    constructor (initial: seq<User>, next: Id)
      requires UsersValid(initial, next)
      ensures Valid() && users == initial && nextId == next
    {
      users := initial;
      nextId := next;
    }

    /**
      * `registerUser`, with the schema accepting the full name it is given:
      * the email check comes first (400 for a deleted account, 409
      * otherwise), then the username check alike; a missing password or
      * name fails in bcrypt or `trim` (500), a missing or empty email or
      * username fails validation (500). Otherwise one user is appended with
      * the trimmed name, the hashed password, the defaults, and no token.
      */
    method Register(fullName: Option<string>, username: Option<string>, email: Option<string>,
                    password: Option<string>, salt: nat)
      returns (r: Result<string>)
      requires Valid()
      modifies this
      ensures Valid()
      ensures r.Err? ==> users == old(users) && nextId == old(nextId)
      ensures (exists k :: 0 <= k < |old(users)| && old(users)[k].isDeleted && EmailIs(old(users)[k], email) &&
                 email.Some?) ==> r == Err(BAD_REQUEST, EMAIL_OF_DELETED)
      ensures (exists k :: 0 <= k < |old(users)| && !old(users)[k].isDeleted && EmailIs(old(users)[k], email) &&
                 email.Some?) ==> r == Err(CONFLICT, EMAIL_TAKEN)
      ensures email.None? && old(users) != [] ==> r == Err(BAD_REQUEST, EMAIL_OF_DELETED) || r == Err(CONFLICT, EMAIL_TAKEN)
      ensures ((forall k :: 0 <= k < |old(users)| ==> !EmailIs(old(users)[k], email)) &&
               (exists k :: 0 <= k < |old(users)| && old(users)[k].isDeleted && UsernameIs(old(users)[k], username) &&
                  username.Some?)) ==> r == Err(BAD_REQUEST, USERNAME_OF_DELETED)
      ensures ((forall k :: 0 <= k < |old(users)| ==> !EmailIs(old(users)[k], email)) &&
               (exists k :: 0 <= k < |old(users)| && !old(users)[k].isDeleted && UsernameIs(old(users)[k], username) &&
                  username.Some?)) ==> r == Err(CONFLICT, USERNAME_TAKEN)
      ensures r.Ok? <==>
                && email.Some? && email.value != "" && username.Some? && username.value != ""
                && password.Some? && fullName.Some?
                && forall k :: 0 <= k < |old(users)| ==>
                     old(users)[k].email != email.value && old(users)[k].username != username.value
      ensures r.Err? && r.status != BAD_REQUEST && r.status != CONFLICT ==> r.status == INTERNAL_ERROR
      ensures r.Ok? ==>
                && r.value == REGISTERED && nextId == old(nextId) + 1
                && users == old(users) + [NewUser(old(nextId), Trim(fullName.value), username.value, email.value,
                                                  Hash(password.value, salt))]
    {
      var conflict := RegisterConflict(users, username, email);
      ConflictAnswers(users, nextId, username, email);
      if conflict.Some? {
        return Err(conflict.value.0, conflict.value.1);
      }
      r := Save(fullName, username, email, password, salt);
    }

    /**
      * The rest of `registerUser` once neither check found a user: the
      * password is hashed, the name trimmed, and the new document saved;
      * each missing or empty field is a 500 and writes nothing.
      */
    method Save(fullName: Option<string>, username: Option<string>, email: Option<string>,
                password: Option<string>, salt: nat)
      returns (r: Result<string>)
      requires Valid() && RegisterConflict(users, username, email).None?
      modifies this
      ensures Valid()
      ensures r.Err? ==> users == old(users) && nextId == old(nextId) && r.status == INTERNAL_ERROR
      ensures r.Ok? <==>
                && email.Some? && email.value != "" && username.Some? && username.value != ""
                && password.Some? && fullName.Some?
      ensures r.Ok? ==>
                && r.value == REGISTERED && nextId == old(nextId) + 1
                && users == old(users) + [NewUser(old(nextId), Trim(fullName.value), username.value, email.value,
                                                  Hash(password.value, salt))]
    {
      if password.None? {
        return Err(INTERNAL_ERROR, "data and salt arguments required");
      }
      if fullName.None? {
        return Err(INTERNAL_ERROR, "Cannot read properties of undefined (reading 'trim')");
      }
      if username.None? || username.value == "" || email.None? || email.value == "" {
        return Err(INTERNAL_ERROR, "User validation failed");
      }
      NoConflictMeansFresh(users, username, email);
      var u := NewUser(nextId, Trim(fullName.value), username.value, email.value, Hash(password.value, salt));
      assert u.email == email.value && u.username == username.value && u.id == nextId;
      assert u.email != "" && u.username != "" && ResetStateValid(u);
      AppendKeepsValid(users, nextId, u);
      users := users + [u];
      nextId := nextId + 1;
      r := Ok(REGISTERED);
    }

    /**
      * `forgotPasswordController`: an email no user has gives 404;
      * otherwise the user `findOne` picks gets the code, written as its
      * six decimal digits, valid for one hour from now. The code is saved
      * before the mail goes out, so a failed mail still leaves it in place.
      */
    method ForgotPassword(email: Option<string>, code: nat, now: int, mailSent: bool) returns (r: Result<string>)
      requires Valid()
      requires 100000 <= code <= 999999
      modifies this
      ensures Valid() && nextId == old(nextId)
      ensures FindByEmail(old(users), email).None? ==>
                r == Err(NOT_FOUND, NO_USER_WITH_EMAIL) && users == old(users)
      ensures FindByEmail(old(users), email).Some? ==>
                var i := FindByEmail(old(users), email).value;
                && users == old(users)[i := WithResetCode(old(users)[i], Decimal(code), now + RESET_CODE_LIFETIME)]
                && r == (if mailSent then Ok(CODE_SENT) else Err(INTERNAL_ERROR, MAIL_FAILED))
      ensures |Decimal(code)| == 6 && DigitsValue(Decimal(code)) == code
    {
      assert Pow10(5) == 100000 && Pow10(6) == 1000000;
      DecimalLength(code, 6);
      DecimalRoundTrip(code);
      var found := FindByEmail(users, email);
      if found.None? {
        return Err(NOT_FOUND, NO_USER_WITH_EMAIL);
      }
      var i := found.value;
      users := users[i := WithResetCode(users[i], Decimal(code), now + RESET_CODE_LIFETIME)];
      if !mailSent {
        return Err(INTERNAL_ERROR, MAIL_FAILED);
      }
      r := Ok(CODE_SENT);
    }

    /**
      * `resetPasswordController`: without a user holding an unexpired
      * matching code the answer is 400; a missing new password fails in
      * bcrypt (500). Otherwise that user's password is replaced and the
      * code cleared, so the same code cannot be used on that user again.
      */
    method ResetPassword(code: Option<string>, password: Option<string>, salt: nat, now: int)
      returns (r: Result<string>)
      requires Valid()
      modifies this
      ensures Valid() && nextId == old(nextId)
      ensures r.Err? ==> users == old(users)
      ensures FindByCode(old(users), code, now).None? ==> r == Err(BAD_REQUEST, INVALID_CODE)
      ensures FindByCode(old(users), code, now).Some? && password.None? ==> r == Err(INTERNAL_ERROR, RESET_FAILED)
      ensures FindByCode(old(users), code, now).Some? && password.Some? ==>
                var i := FindByCode(old(users), code, now).value;
                && r == Ok(RESET_DONE)
                && users == old(users)[i := WithResetPassword(old(users)[i], Hash(password.value, salt))]
                && forall c, t :: !AcceptsCode(users[i], c, t)
    {
      var found := FindByCode(users, code, now);
      if found.None? {
        return Err(BAD_REQUEST, INVALID_CODE);
      }
      if password.None? {
        return Err(INTERNAL_ERROR, RESET_FAILED);
      }
      var i := found.value;
      users := users[i := WithResetPassword(users[i], Hash(password.value, salt))];
      r := Ok(RESET_DONE);
    }

    /**
      * `changePassword` for the user the token names: a missing or empty
      * password field gives 400, an unknown id 404, a wrong current
      * password 401, a new password matching any history entry 409.
      * Otherwise the old hash goes onto the history, one entry more, and
      * the new hash replaces it.
      */
    method ChangePassword(id: Id, current: Option<string>, newPassword: Option<string>, salt: nat, now: int)
      returns (r: Result<string>)
      requires Valid()
      modifies this
      ensures Valid() && nextId == old(nextId)
      ensures r.Err? ==> users == old(users)
      ensures Missing(current) || Missing(newPassword) ==> r == Err(BAD_REQUEST, PASSWORDS_MISSING)
      ensures !Missing(current) && !Missing(newPassword) && FindById(old(users), id).None? ==>
                r == Err(NOT_FOUND, USER_NOT_FOUND)
      ensures !Missing(current) && !Missing(newPassword) && FindById(old(users), id).Some? ==>
                var i := FindById(old(users), id).value;
                var u := old(users)[i];
                && (!Compare(current.value, u.password) ==> r == Err(UNAUTHORIZED, WRONG_CURRENT))
                && (Compare(current.value, u.password) && UsedBefore(u, newPassword.value) ==>
                      r == Err(CONFLICT, PASSWORD_REUSED))
                && (Compare(current.value, u.password) && !UsedBefore(u, newPassword.value) ==>
                      && r == Ok(PASSWORD_CHANGED)
                      && users == old(users)[i := WithNewPassword(u, Hash(newPassword.value, salt), now)]
                      && |users[i].passwordHistory| == |u.passwordHistory| + 1
                      && users[i].passwordHistory[|u.passwordHistory|] == PastPassword(u.password, now))
    {
      if Missing(current) || Missing(newPassword) {
        return Err(BAD_REQUEST, PASSWORDS_MISSING);
      }
      var found := FindById(users, id);
      if found.None? {
        return Err(NOT_FOUND, USER_NOT_FOUND);
      }
      var i := found.value;
      var u := users[i];
      if !Compare(current.value, u.password) {
        return Err(UNAUTHORIZED, WRONG_CURRENT);
      }
      if UsedBefore(u, newPassword.value) {
        return Err(CONFLICT, PASSWORD_REUSED);
      }
      users := users[i := WithNewPassword(u, Hash(newPassword.value, salt), now)];
      r := Ok(PASSWORD_CHANGED);
    }
  }

  /**
    * With unique emails and usernames, the user each lookup finds is the
    * only one it could find, so the answer is decided by that user's flag.
    */
  lemma UniqueMatchIsFirst(users: seq<User>, nextId: Id, username: Option<string>, email: Option<string>)
    requires UsersValid(users, nextId)
    ensures forall k :: 0 <= k < |users| && email.Some? && EmailIs(users[k], email) ==>
              FindByEmail(users, email) == Some(k)
    ensures forall k :: 0 <= k < |users| && username.Some? && UsernameIs(users[k], username) ==>
              FindByUsername(users, username) == Some(k)
  {
    forall k | 0 <= k < |users| && email.Some? && EmailIs(users[k], email)
      ensures FindByEmail(users, email) == Some(k)
    {
      FindByEmailUnique(users, nextId, k);
    }
    forall k | 0 <= k < |users| && username.Some? && UsernameIs(users[k], username)
      ensures FindByUsername(users, username) == Some(k)
    {
      var i := FindByUsername(users, username).value;
      assert !(i < k) && !(k < i);
    }
  }

  /**
    * The four answers of the uniqueness checks on a valid store, each
    * decided by the one user holding the email or the username.
    */
  lemma ConflictAnswers(users: seq<User>, nextId: Id, username: Option<string>, email: Option<string>)
    requires UsersValid(users, nextId)
    ensures (exists k :: 0 <= k < |users| && users[k].isDeleted && EmailIs(users[k], email) && email.Some?) ==>
              RegisterConflict(users, username, email) == Some((BAD_REQUEST, EMAIL_OF_DELETED))
    ensures (exists k :: 0 <= k < |users| && !users[k].isDeleted && EmailIs(users[k], email) && email.Some?) ==>
              RegisterConflict(users, username, email) == Some((CONFLICT, EMAIL_TAKEN))
    ensures ((forall k :: 0 <= k < |users| ==> !EmailIs(users[k], email)) &&
             (exists k :: 0 <= k < |users| && users[k].isDeleted && UsernameIs(users[k], username) && username.Some?)) ==>
              RegisterConflict(users, username, email) == Some((BAD_REQUEST, USERNAME_OF_DELETED))
    ensures ((forall k :: 0 <= k < |users| ==> !EmailIs(users[k], email)) &&
             (exists k :: 0 <= k < |users| && !users[k].isDeleted && UsernameIs(users[k], username) && username.Some?)) ==>
              RegisterConflict(users, username, email) == Some((CONFLICT, USERNAME_TAKEN))
  {
    UniqueMatchIsFirst(users, nextId, username, email);
  }

  /** A request that passes both uniqueness checks names an email and a username nobody holds. */
  lemma NoConflictMeansFresh(users: seq<User>, username: Option<string>, email: Option<string>)
    requires RegisterConflict(users, username, email).None? && email.Some? && username.Some?
    ensures forall k :: 0 <= k < |users| ==> users[k].email != email.value && users[k].username != username.value
  {
    forall k | 0 <= k < |users|
      ensures users[k].email != email.value && users[k].username != username.value
    {
      assert !EmailIs(users[k], email) && !UsernameIs(users[k], username);
    }
  }

  lemma AppendKeepsValid(users: seq<User>, nextId: Id, u: User)
    requires UsersValid(users, nextId) && u.id == nextId && ResetStateValid(u)
    requires u.email != "" && u.username != ""
    requires forall k :: 0 <= k < |users| ==> users[k].email != u.email && users[k].username != u.username
    ensures UsersValid(users + [u], nextId + 1)
  {
    var s := users + [u];
    assert forall k :: 0 <= k < |users| ==> s[k] == users[k];
  }

  /** A user just registered can log in with the password given at registration. */
  lemma LoginAfterRegister(users: seq<User>, u: User, password: string, now: int)
    requires forall k :: 0 <= k < |users| ==> users[k].email != u.email
    requires Compare(password, u.password) && !u.isDeleted
    ensures Login(users + [u], Some(u.email), Some(password), now) ==
              Ok(Auth.GenerateToken(u.id, Some(u.fullName), u.email, now))
  {
    var s := users + [u];
    assert forall k :: 0 <= k < |users| ==> s[k] == users[k];
    assert EmailIs(s[|users|], Some(u.email));
    assert FindByEmail(s, Some(u.email)) == Some(|users|);
  }

  /**
    * After a password change the new password logs in and the old one is
    * refused, and going back to the old password is refused as a reuse.
    */
  lemma PasswordChangeTakesEffect(users: seq<User>, nextId: Id, i: nat, current: string, next: string,
                                  salt: nat, now: int, later: int)
    requires UsersValid(users, nextId) && i < |users| && !users[i].isDeleted
    requires Compare(current, users[i].password) && current != next
    ensures var changed := users[i := WithNewPassword(users[i], Hash(next, salt), now)];
            && Login(changed, Some(users[i].email), Some(next), later).Ok?
            && Login(changed, Some(users[i].email), Some(current), later) == Err(NOT_FOUND, WRONG_PASSWORD)
            && UsedBefore(changed[i], current)
  {
    var changed := users[i := WithNewPassword(users[i], Hash(next, salt), now)];
    assert UsersValid(changed, nextId);
    FindByEmailUnique(changed, nextId, i);
    var h := changed[i].passwordHistory;
    assert h[|h| - 1] == PastPassword(users[i].password, now);
  }

  /**
    * The history holds only earlier passwords, not the current one: the
    * first change to the password already in use is accepted, and once
    * made, the same change is refused.
    */
  lemma CurrentPasswordNotInHistory(u: User, current: string, salt: nat, now: int)
    requires Compare(current, u.password) && u.passwordHistory == []
    ensures !UsedBefore(u, current)
    ensures UsedBefore(WithNewPassword(u, Hash(current, salt), now), current)
  {
    var v := WithNewPassword(u, Hash(current, salt), now);
    assert v.passwordHistory[0] == PastPassword(u.password, now);
  }

  /**
    * A code issued by the forgot-password step is accepted for one hour
    * and no longer; after a reset with it, no code is accepted for that
    * user until a new one is issued.
    */
  lemma ResetCodeLifetime(u: User, code: nat, issued: int, t: int, h: Hashed)
    ensures AcceptsCode(WithResetCode(u, Decimal(code), issued + RESET_CODE_LIFETIME), Some(Decimal(code)), t) <==>
              t < issued + 60 * 60 * 1000
    ensures !AcceptsCode(WithResetPassword(WithResetCode(u, Decimal(code), issued + RESET_CODE_LIFETIME), h), Some(Decimal(code)), t)
  {
  }

  /** The reset replaces the password: after it the new password logs in and the old one does not. */
  lemma LoginAfterReset(users: seq<User>, nextId: Id, i: nat, previous: string, next: string, salt: nat, now: int)
    requires UsersValid(users, nextId) && i < |users| && !users[i].isDeleted
    requires Compare(previous, users[i].password) && previous != next
    ensures var reset := users[i := WithResetPassword(users[i], Hash(next, salt))];
            && Login(reset, Some(users[i].email), Some(next), now).Ok?
            && Login(reset, Some(users[i].email), Some(previous), now) == Err(NOT_FOUND, WRONG_PASSWORD)
  {
    var reset := users[i := WithResetPassword(users[i], Hash(next, salt))];
    assert UsersValid(reset, nextId);
    FindByEmailUnique(reset, nextId, i);
  }

  /**
    * A request without a username (the registration form sends none) is
    * matched by the username lookup against any user at all: once the
    * store is not empty, a new email is still refused with a username
    * message.
    */
  lemma MissingUsernameMatchesAnyone(users: seq<User>, email: string)
    requires users != []
    requires forall k :: 0 <= k < |users| ==> users[k].email != email
    ensures RegisterConflict(users, None, Some(email)) == Some((BAD_REQUEST, USERNAME_OF_DELETED)) ||
            RegisterConflict(users, None, Some(email)) == Some((CONFLICT, USERNAME_TAKEN))
  {
    assert UsernameIs(users[0], None);
  }
}
