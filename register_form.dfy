/**
  * The registration form: its own validation (the shared one plus a
  * "confirm your password" message), the rule that enables submitting,
  * the request it posts, and how the messages of a failed request are
  * spread over the fields.
  */
module RegisterForm {
  import opened Base
  import opened Text
  import opened Validators

  const CONFIRM_REQUIRED := "Debe confirmar la contraseña"
  const REGISTER_FAILED := "Error al registrarse"

  /** The confirmation chain of the form: required first, then equal to the password. */
  function ConfirmError(f: RegisterFields): (e: Option<string>)
    ensures e == Some(CONFIRM_REQUIRED) <==> f.confirmPassword == ""
    ensures e == Some(PASSWORDS_DIFFER) <==> f.confirmPassword != "" && f.password != f.confirmPassword
    ensures e.None? <==> f.confirmPassword != "" && f.password == f.confirmPassword
  {
    if f.confirmPassword == "" then Some(CONFIRM_REQUIRED)
    else if f.password != f.confirmPassword then Some(PASSWORDS_DIFFER)
    else None
  }

  /** The form's `validateRegister`. */
  function ValidateRegisterForm(f: RegisterFields): (r: map<Field, string>)
    ensures FullName in r <==> FullNameError(f.fullName).Some?
    ensures Email in r <==> EmailError(f.email).Some?
    ensures Password in r <==> PasswordError(f.password).Some?
    ensures ConfirmPassword in r <==> f.confirmPassword == "" || f.password != f.confirmPassword
    ensures ConfirmPassword in r ==>
              r[ConfirmPassword] == (if f.confirmPassword == "" then CONFIRM_REQUIRED else PASSWORDS_DIFFER)
  {
    var m := Put(map[], FullName, FullNameError(f.fullName));
    var m := Put(m, Email, EmailError(f.email));
    var m := Put(m, Password, PasswordError(f.password));
    Put(m, ConfirmPassword, ConfirmError(f))
  }

  /**
    * The form and the shared validator agree except on an empty
    * confirmation, which the form reports as missing (and the shared one
    * reports only when the password is not empty too).
    */
  lemma AgreesWithShared(f: RegisterFields)
    ensures f.confirmPassword != "" ==> ValidateRegisterForm(f) == ValidateRegister(f)
    ensures f.confirmPassword == "" ==>
              ValidateRegisterForm(f) == ValidateRegister(f)[ConfirmPassword := CONFIRM_REQUIRED]
  {
    var a := ValidateRegisterForm(f);
    var b := ValidateRegister(f);
    if f.confirmPassword != "" {
      forall g ensures (g in a <==> g in b) && (g in a ==> a[g] == b[g]) {
        match g
        case FullName =>
        case Email =>
        case Password =>
        case ConfirmPassword =>
      }
      assert a.Keys == b.Keys;
    } else {
      var c := b[ConfirmPassword := CONFIRM_REQUIRED];
      forall g ensures (g in a <==> g in c) && (g in a ==> a[g] == c[g]) {
        match g
        case FullName =>
        case Email =>
        case Password =>
        case ConfirmPassword =>
      }
      assert a.Keys == c.Keys;
    }
  }

  /** `isValid`: no message, and none of the four fields empty. */
  predicate FormIsValid(f: RegisterFields)
  {
    && ValidateRegisterForm(f) == map[]
    && f.fullName != "" && f.email != "" && f.password != "" && f.confirmPassword != ""
  }

  /** The emptiness tests add nothing: an empty field always has a message. */
  lemma ValidIffNoMessages(f: RegisterFields)
    ensures FormIsValid(f) <==> ValidateRegisterForm(f) == map[]
  {
    var r := ValidateRegisterForm(f);
    if f.fullName == "" {
      assert FullName in r;
    } else if f.email == "" {
      assert Email in r;
    } else if f.password == "" {
      assert Password in r;
    } else if f.confirmPassword == "" {
      assert ConfirmPassword in r;
    }
  }

  /** The field a server message is shown under: 'nombre' first, then email words, then password words. */
  function FieldOf(m: string): (r: Option<Field>)
    ensures r == Some(FullName) <==> Contains(m, "nombre")
    ensures r == Some(Email) <==> !Contains(m, "nombre") && (Contains(m, "correo") || Contains(m, "email"))
    ensures r == Some(Password) <==>
              && !Contains(m, "nombre") && !Contains(m, "correo") && !Contains(m, "email")
              && (Contains(m, "contraseña") || Contains(m, "password"))
    ensures r != Some(ConfirmPassword)
    ensures r.Some? ==> m != ""
  {
    if Contains(m, "nombre") then Some(FullName)
    else if Contains(m, "correo") || Contains(m, "email") then Some(Email)
    else if Contains(m, "contraseña") || Contains(m, "password") then Some(Password)
    else None
  }

  /** The record the `forEach` builds from the messages of a failed request, as a fold. */
  function MessageMap(msgs: seq<string>): map<Field, string>
  {
    if msgs == [] then map[]
    else
      var m := MessageMap(msgs[..|msgs| - 1]);
      var last := msgs[|msgs| - 1];
      match FieldOf(last)
      case None => m
      case Some(f) => m[f := last]
  }

  /** A field has a message exactly when some message routes to it. */
  lemma {:induction false} MessageMapKeys(msgs: seq<string>, f: Field)
    ensures f in MessageMap(msgs) <==> exists i :: 0 <= i < |msgs| && FieldOf(msgs[i]) == Some(f)
  {
    if msgs != [] {
      var init := msgs[..|msgs| - 1];
      MessageMapKeys(init, f);
      if exists i :: 0 <= i < |msgs| && FieldOf(msgs[i]) == Some(f) {
        var i :| 0 <= i < |msgs| && FieldOf(msgs[i]) == Some(f);
        if i < |init| {
          assert init[i] == msgs[i];
        }
      }
      if exists i :: 0 <= i < |init| && FieldOf(init[i]) == Some(f) {
        var i :| 0 <= i < |init| && FieldOf(init[i]) == Some(f);
        assert msgs[i] == init[i];
      }
    }
  }

  /** The message a field shows is the last one that routes to it. */
  predicate LastRoutedAt(msgs: seq<string>, f: Field, i: int)
  {
    0 <= i < |msgs| && FieldOf(msgs[i]) == Some(f) && forall j :: i < j < |msgs| ==> FieldOf(msgs[j]) != Some(f)
  }

  /**
    * A field has a message exactly when some message routes to it, and
    * that message is the last one that does.
    */
  lemma {:induction false} LastMessageWins(msgs: seq<string>, f: Field)
    ensures f in MessageMap(msgs) <==> exists i :: 0 <= i < |msgs| && FieldOf(msgs[i]) == Some(f)
    ensures f in MessageMap(msgs) ==> exists i :: LastRoutedAt(msgs, f, i) && MessageMap(msgs)[f] == msgs[i]
  {
    MessageMapKeys(msgs, f);
    if msgs != [] && f in MessageMap(msgs) {
      var init := msgs[..|msgs| - 1];
      var last := msgs[|msgs| - 1];
      if FieldOf(last) == Some(f) {
        assert LastRoutedAt(msgs, f, |msgs| - 1);
      } else {
        LastMessageWins(init, f);
        var i :| LastRoutedAt(init, f, i) && MessageMap(init)[f] == init[i];
        assert forall j :: 0 <= j < |init| ==> init[j] == msgs[j];
        assert LastRoutedAt(msgs, f, i);
      }
    }
  }

  /** Every message the fold records is one the server sent, under the field it routes to. */
  lemma {:induction false} MessageMapFaithful(msgs: seq<string>)
    ensures forall f :: f in MessageMap(msgs) ==> MessageMap(msgs)[f] in msgs && FieldOf(MessageMap(msgs)[f]) == Some(f)
  {
    if msgs != [] {
      var init := msgs[..|msgs| - 1];
      MessageMapFaithful(init);
      assert forall x :: x in init ==> x in msgs;
    }
  }

  /** The `forEach` over the messages, filling the record in place. */
  method MapMessages(msgs: seq<string>) returns (m: map<Field, string>)
    ensures m == MessageMap(msgs)
  {
    m := map[];
    var i := 0;
    while i < |msgs|
      invariant 0 <= i <= |msgs|
      invariant m == MessageMap(msgs[..i])
    {
      assert msgs[..i + 1][..i] == msgs[..i];
      var f := FieldOf(msgs[i]);
      if f.Some? {
        m := m[f.value := msgs[i]];
      }
      i := i + 1;
    }
    assert msgs[..|msgs|] == msgs;
  }

  /** The server's answer to the registration request. */
  datatype Reply =
    | Accepted(token: Option<string>)
    | Rejected(messages: Option<seq<string>>, message: Option<string>)

  /**
    * The message list of a failure: the server's `messages` array when it
    * sent one, otherwise its `message` or, when that is missing or empty,
    * the generic one.
    */
  function ErrorMessages(messages: Option<seq<string>>, message: Option<string>): (r: seq<string>)
    ensures messages.Some? ==> r == messages.value
    ensures messages.None? ==> |r| == 1 && r[0] != ""
    ensures messages.None? && message.Some? && message.value != "" ==> r == [message.value]
  {
    if messages.Some? then messages.value
    else if message.Some? && message.value != "" then [message.value]
    else [REGISTER_FAILED]
  }

  /** What the form posts: no confirmation, and no username. */
  datatype RegisterRequest = RegisterRequest(fullName: string, email: string, password: string)

  /** Fields that pass their client-side chains. */
  predicate Acceptable(q: RegisterRequest)
  {
    FullNameError(q.fullName).None? && EmailError(q.email).None? && PasswordError(q.password).None?
  }

  predicate AllAcceptable(qs: seq<RegisterRequest>)
  {
    forall k :: 0 <= k < |qs| ==> Acceptable(qs[k])
  }

  lemma AppendAcceptable(qs: seq<RegisterRequest>, q: RegisterRequest)
    requires AllAcceptable(qs) && Acceptable(q)
    ensures AllAcceptable(qs + [q])
  {
    assert forall k :: 0 <= k < |qs| ==> (qs + [q])[k] == qs[k];
  }

  /** A form that may be submitted posts fields that pass their chains. */
  lemma ValidFormIsAcceptable(f: RegisterFields)
    requires FormIsValid(f)
    ensures Acceptable(RegisterRequest(f.fullName, f.email, f.password))
  {
    assert FullName !in ValidateRegisterForm(f) && Email !in ValidateRegisterForm(f);
    assert Password !in ValidateRegisterForm(f);
  }

  function WithField(f: RegisterFields, field: Field, value: string): RegisterFields
  {
    match field
    case FullName => f.(fullName := value)
    case Email => f.(email := value)
    case Password => f.(password := value)
    case ConfirmPassword => f.(confirmPassword := value)
  }

  /**
    * The form's state: its fields, the messages shown, the server error
    * (None when it was set from an empty message list), whether submitting
    * is enabled, and, as a record of its effects, the requests it posted
    * and the tokens it handed to `onSuccess`.
    */
  class RegistrationForm {
    var form: RegisterFields
    var errors: map<Field, string>
    var serverError: Option<string>
    var isValid: bool
    var posted: seq<RegisterRequest>
    var delivered: seq<Option<string>>

    ghost predicate Valid()
      reads this
    {
      && isValid == FormIsValid(form)
      && AllAcceptable(posted)
    }

    /** The form as first shown, after the validation effect has run once. */
    constructor ()
      ensures Valid() && form == RegisterFields("", "", "", "") && !isValid
      ensures errors == ValidateRegisterForm(form) && serverError == Some("")
      ensures posted == [] && delivered == []
    {
      form := RegisterFields("", "", "", "");
      errors := ValidateRegisterForm(RegisterFields("", "", "", ""));
      serverError := Some("");
      isValid := false;
      posted := [];
      delivered := [];
    }

    /** `handleChange`, then the validation effect it triggers. */
    method Change(field: Field, value: string)
      requires Valid()
      modifies this
      ensures Valid()
      ensures form == WithField(old(form), field, value)
      ensures errors == ValidateRegisterForm(form) && isValid == (errors == map[])
      ensures serverError == old(serverError) && posted == old(posted) && delivered == old(delivered)
    {
      form := WithField(form, field, value);
      Revalidate();
    }

    /**
      * The validation effect: the messages and `isValid` follow the
      * current fields, whatever they were before.
      */
    method Revalidate()
      requires AllAcceptable(posted)
      modifies this
      ensures Valid()
      ensures errors == ValidateRegisterForm(form) && isValid == (errors == map[])
      ensures form == old(form) && serverError == old(serverError) && posted == old(posted) && delivered == old(delivered)
    {
      ValidIffNoMessages(form);
      errors := ValidateRegisterForm(form);
      isValid := FormIsValid(form);
    }

    /**
      * `handleSubmit`: the server error is cleared; with `isValid` false
      * nothing else happens. Otherwise the name, email and password are
      * posted. On success the token goes to `onSuccess`; on failure the
      * messages replace the shown ones, and the first message becomes the
      * server error only when none was shown under a field.
      */
    method Submit(reply: Reply)
      requires Valid()
      modifies this
      ensures Valid() && form == old(form) && isValid == old(isValid)
      ensures !old(isValid) ==>
                serverError == Some("") && errors == old(errors) && posted == old(posted) && delivered == old(delivered)
      ensures old(isValid) ==> posted == old(posted) + [RegisterRequest(form.fullName, form.email, form.password)]
      ensures old(isValid) && reply.Accepted? ==>
                delivered == old(delivered) + [reply.token] && errors == old(errors) && serverError == Some("")
      ensures old(isValid) && reply.Rejected? ==>
                var msgs := ErrorMessages(reply.messages, reply.message);
                && errors == MessageMap(msgs) && delivered == old(delivered)
                && serverError == (if errors != map[] then Some("") else if msgs == [] then None else Some(msgs[0]))
    {
      serverError := Some("");
      if !isValid {
        return;
      }
      var q := RegisterRequest(form.fullName, form.email, form.password);
      ValidFormIsAcceptable(form);
      AppendAcceptable(posted, q);
      posted := posted + [q];
      match reply
      case Accepted(token) =>
        delivered := delivered + [token];
      case Rejected(messages, message) =>
        ShowFailure(ErrorMessages(messages, message));
    }

    /**
      * The `catch` of `handleSubmit`: the messages replace the shown ones,
      * and the first becomes the server error only when none was shown
      * under a field.
      */
    method ShowFailure(msgs: seq<string>)
      modifies this
      ensures errors == MessageMap(msgs)
      ensures serverError == (if errors != map[] then old(serverError) else if msgs == [] then None else Some(msgs[0]))
      ensures form == old(form) && isValid == old(isValid) && posted == old(posted) && delivered == old(delivered)
    {
      var m := MapMessages(msgs);
      errors := m;
      if FullName !in m && Email !in m && Password !in m {
        NothingRoutedToConfirm(msgs);
        serverError := if msgs == [] then None else Some(msgs[0]);
      }
    }
  }

  /** No message is ever routed to the confirmation field, so the three others cover the record. */
  lemma NothingRoutedToConfirm(msgs: seq<string>)
    requires FullName !in MessageMap(msgs) && Email !in MessageMap(msgs) && Password !in MessageMap(msgs)
    ensures MessageMap(msgs) == map[]
  {
    MessageMapFaithful(msgs);
    forall f | f in MessageMap(msgs) ensures false {
      match f
      case FullName =>
      case Email =>
      case Password =>
      case ConfirmPassword =>
    }
  }

  /** The first message becomes the server error exactly when no message routes to a field. */
  lemma ServerErrorWhenNothingRouted(msgs: seq<string>)
    ensures MessageMap(msgs) == map[] <==> forall i :: 0 <= i < |msgs| ==> FieldOf(msgs[i]).None?
  {
    if MessageMap(msgs) != map[] {
      var f :| f in MessageMap(msgs);
      LastMessageWins(msgs, f);
    } else {
      forall i | 0 <= i < |msgs|
        ensures FieldOf(msgs[i]).None?
      {
        if FieldOf(msgs[i]).Some? {
          LastMessageWins(msgs, FieldOf(msgs[i]).value);
        }
      }
    }
  }

  /**
    * The backend's duplicate-username message mentions "nombre", so the
    * form shows it under the full-name field.
    */
  lemma UsernameMessageShownUnderName()
    ensures MessageMap(["El nombre de usuario ya está en uso."]) == map[FullName := "El nombre de usuario ya está en uso."]
  {
    var m := "El nombre de usuario ya está en uso.";
    assert m == "El " + "nombre" + " de usuario ya está en uso.";
    assert m[3..9] == "nombre";
    assert OccursAt(m, "nombre", 3);
    var none: seq<string> := [];
    assert [m][..0] == none;
  }
}
