/**
  * The login form: the same email chain as registration, a password that
  * only has to be present, the rule that enables submitting, and the
  * server error shown when the login request fails.
  */
module LoginForm {
  import opened Base
  import opened Validators
  import Users
  import Auth

  const LOGIN_FAILED := "Error al iniciar sesión"

  /** `isValid`: no message, and neither field empty. */
  predicate LoginIsValid(f: LoginFields)
  {
    ValidateLogin(f) == map[] && f.email != "" && f.password != ""
  }

  /** Submitting is enabled exactly when the email matches the pattern and a password was typed. */
  lemma LoginValidIff(f: LoginFields)
    ensures LoginIsValid(f) <==> ValidateLogin(f) == map[]
    ensures LoginIsValid(f) <==> EmailPattern(f.email) && f.password != ""
  {
    var r := ValidateLogin(f);
    if r != map[] {
      var g :| g in r;
    }
    if f.email == "" {
      assert Email in r;
    }
  }

  /** The server's answer to the login request, as far as the form reads it. */
  datatype LoginReply = LoggedIn(token: Auth.Claims) | Refused(message: Option<string>)

  /**
    * The body the backend's login sends, seen through the form: the 404
    * answers carry their text under `email` or `password` and the 500
    * answer under `error`, so only the 400 for a deleted user has a
    * `message`.
    */
  function ReplyOf(r: Result<Auth.Claims>): (reply: LoginReply)
    ensures r.Ok? <==> reply.LoggedIn?
    ensures reply.Refused? ==> (reply.message.Some? <==> r.status == BAD_REQUEST)
  {
    match r
    case Ok(claims) => LoggedIn(claims)
    case Err(status, message) => Refused(if status == BAD_REQUEST then Some(message) else None)
  }

  /** `err.response?.data?.message || 'Error al iniciar sesión'` */
  function FailureMessage(message: Option<string>): (r: string)
    ensures r != ""
    ensures message.Some? && message.value != "" ==> r == message.value
    ensures message.None? ==> r == LOGIN_FAILED
  {
    if message.Some? && message.value != "" then message.value else LOGIN_FAILED
  }

  /**
    * The form's state: its fields, the messages shown, the server error,
    * whether submitting is enabled, and, as a record of its effects, the
    * requests it posted and the tokens it handed to `onSuccess`.
    */
  class LoginPanel {
    var form: LoginFields
    var errors: map<Field, string>
    var serverError: string
    var isValid: bool
    var posted: seq<LoginFields>
    var delivered: seq<Auth.Claims>

    ghost predicate Valid()
      reads this
    {
      && isValid == LoginIsValid(form)
      && forall k :: 0 <= k < |posted| ==> EmailPattern(posted[k].email) && posted[k].password != ""
    }

    /** The form as first shown, after the validation effect has run once. */
    constructor ()
      ensures Valid() && form == LoginFields("", "") && !isValid
      ensures errors == ValidateLogin(form) && serverError == ""
      ensures posted == [] && delivered == []
    {
      form := LoginFields("", "");
      errors := ValidateLogin(LoginFields("", ""));
      serverError := "";
      isValid := false;
      posted := [];
      delivered := [];
    }

    /** `handleChange` on one of the two inputs, then the validation effect. */
    method Change(field: Field, value: string)
      requires Valid()
      requires field == Email || field == Password
      modifies this
      ensures Valid()
      ensures form == (if field == Email then old(form).(email := value) else old(form).(password := value))
      ensures errors == ValidateLogin(form) && isValid == (errors == map[])
      ensures serverError == old(serverError) && posted == old(posted) && delivered == old(delivered)
    {
      form := if field == Email then form.(email := value) else form.(password := value);
      errors := ValidateLogin(form);
      LoginValidIff(form);
      isValid := LoginIsValid(form);
    }

    /**
      * `handleSubmit`: the server error is cleared; with `isValid` false
      * nothing else happens. Otherwise the two fields are posted; the
      * token of a successful login goes to `onSuccess`, and a failure
      * shows the server's message or the generic one.
      */
    method Submit(reply: LoginReply)
      requires Valid()
      modifies this
      ensures Valid() && form == old(form) && isValid == old(isValid) && errors == old(errors)
      ensures !old(isValid) ==> serverError == "" && posted == old(posted) && delivered == old(delivered)
      ensures old(isValid) ==> posted == old(posted) + [form]
      ensures old(isValid) && reply.LoggedIn? ==> delivered == old(delivered) + [reply.token] && serverError == ""
      ensures old(isValid) && reply.Refused? ==>
                delivered == old(delivered) && serverError == FailureMessage(reply.message)
    {
      serverError := "";
      if !isValid {
        return;
      }
      LoginValidIff(form);
      posted := posted + [form];
      match reply
      case LoggedIn(token) =>
        delivered := delivered + [token];
      case Refused(message) =>
        serverError := FailureMessage(message);
    }
  }

  /**
    * An unknown email or a wrong password is answered with a body that has
    * no `message`, so the form shows only the generic error; a deleted
    * user's answer is shown as sent.
    */
  lemma LoginFailuresAsShown(users: seq<Users.User>, email: string, password: string, now: int)
    ensures var r := Users.Login(users, Some(email), Some(password), now);
            && (r.Err? && r.status == NOT_FOUND ==> FailureMessage(ReplyOf(r).message) == LOGIN_FAILED)
            && (r.Err? && r.status == BAD_REQUEST ==> FailureMessage(ReplyOf(r).message) == Users.DELETED_LOGIN)
  {
  }
}
