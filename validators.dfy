/**
  * The client-side checks of the registration and login forms. Each field
  * goes through a chain of tests and keeps the message of the first one it
  * fails; the result is a record from field names to messages. The
  * regular expressions of the forms are written as predicates over
  * characters; lengths are counted in UTF-16 code units, as JavaScript's
  * `length` does.
  */
module Validators {
  import opened Base
  import opened Text

  /** The keys an error record can have. */
  datatype Field = FullName | Email | Password | ConfirmPassword

  datatype RegisterFields = RegisterFields(fullName: string, email: string, password: string, confirmPassword: string)

  datatype LoginFields = LoginFields(email: string, password: string)

  const NAME_REQUIRED := "El nombre es obligatorio"
  const NAME_TOO_SHORT := "El nombre debe tener al menos 3 caracteres"
  const NAME_TOO_LONG := "El nombre no puede superar 60 caracteres"
  const NAME_INVALID := "El nombre contiene caracteres no válidos"
  const EMAIL_REQUIRED := "El correo es obligatorio"
  const EMAIL_FORMAT := "Formato de correo inválido"
  const PASSWORD_REQUIRED := "La contraseña es obligatoria"
  const PASSWORD_TOO_SHORT := "La contraseña debe tener al menos 8 caracteres"
  const PASSWORD_WEAK := "Debe incluir mayúscula, minúscula, número y símbolo"
  const PASSWORDS_DIFFER := "Las contraseñas no coinciden"

  /**
    * The class `[a-zA-ZáéíóúüñÑ\s'-]`: ASCII letters, the lower-case
    * accented vowels, ü, ñ and Ñ, white space, apostrophe and hyphen.
    * Upper-case accented vowels are not in it.
    */
  predicate IsNameChar(c: char)
  {
    || IsAsciiLower(c) || IsAsciiUpper(c)
    || c == 'á' || c == 'é' || c == 'í' || c == 'ó' || c == 'ú' || c == 'ü' || c == 'ñ' || c == 'Ñ'
    || IsWhitespace(c) || c == '\'' || c == '-'
  }

  /** The class `[^\s@]` of the email pattern. */
  predicate IsAddressChar(c: char)
  {
    !IsWhitespace(c) && c != '@'
  }

  /**
    * `^[^\s@]+@[^\s@]+\.[^\s@]+$`: an '@' at position i with at least one
    * character before it, a '.' at position j at least two places after
    * it and before the last character, and every other character outside
    * white space and '@'.
    */
  predicate EmailPattern(s: string)
  {
    exists i, j :: 0 < i && i + 1 < j && j + 1 < |s| && s[i] == '@' && s[j] == '.' &&
      forall k :: 0 <= k < |s| && k != i ==> IsAddressChar(s[k])
  }

  /**
    * `^(?=.*[a-z])(?=.*[A-Z])(?=.*\d)(?=.*[\W_]).+$`: no line terminator
    * (which `.` does not match), and at least one lower-case ASCII letter,
    * one upper-case ASCII letter, one digit, and one character that is not
    * an ASCII letter or digit.
    */
  predicate StrongPassword(s: string)
  {
    && s != []
    && (forall k :: 0 <= k < |s| ==> !IsLineTerminator(s[k]))
    && (exists k :: 0 <= k < |s| && IsAsciiLower(s[k]))
    && (exists k :: 0 <= k < |s| && IsAsciiUpper(s[k]))
    && (exists k :: 0 <= k < |s| && IsDigit(s[k]))
    && (exists k :: 0 <= k < |s| && (!IsWordChar(s[k]) || s[k] == '_'))
  }

  /** The full-name chain: required, at least 3, at most 60 code units, allowed characters only. */
  function FullNameError(s: string): (e: Option<string>)
    ensures e == Some(NAME_REQUIRED) <==> s == ""
    ensures e == Some(NAME_TOO_SHORT) <==> s != "" && Utf16Length(s) < 3
    ensures e == Some(NAME_TOO_LONG) <==> Utf16Length(s) > 60
    ensures e == Some(NAME_INVALID) <==>
              3 <= Utf16Length(s) <= 60 && exists k :: 0 <= k < |s| && !IsNameChar(s[k])
    ensures e.None? <==> 3 <= Utf16Length(s) <= 60 && forall k :: 0 <= k < |s| ==> IsNameChar(s[k])
  {
    if s == "" then Some(NAME_REQUIRED)
    else if Utf16Length(s) < 3 then Some(NAME_TOO_SHORT)
    else if Utf16Length(s) > 60 then Some(NAME_TOO_LONG)
    else if !(forall k :: 0 <= k < |s| ==> IsNameChar(s[k])) then Some(NAME_INVALID)
    else None
  }

  /** The email chain: required, then the pattern. */
  function EmailError(s: string): (e: Option<string>)
    ensures e == Some(EMAIL_REQUIRED) <==> s == ""
    ensures e == Some(EMAIL_FORMAT) <==> s != "" && !EmailPattern(s)
    ensures e.None? <==> EmailPattern(s)
  {
    if s == "" then Some(EMAIL_REQUIRED)
    else if !EmailPattern(s) then Some(EMAIL_FORMAT)
    else None
  }

  /** The registration password chain: required, at least 8 code units, the four kinds of character. */
  function PasswordError(s: string): (e: Option<string>)
    ensures e == Some(PASSWORD_REQUIRED) <==> s == ""
    ensures e == Some(PASSWORD_TOO_SHORT) <==> s != "" && Utf16Length(s) < 8
    ensures e == Some(PASSWORD_WEAK) <==> Utf16Length(s) >= 8 && !StrongPassword(s)
    ensures e.None? <==> Utf16Length(s) >= 8 && StrongPassword(s)
  {
    if s == "" then Some(PASSWORD_REQUIRED)
    else if Utf16Length(s) < 8 then Some(PASSWORD_TOO_SHORT)
    else if !StrongPassword(s) then Some(PASSWORD_WEAK)
    else None
  }

  /** Records a field's message, if it has one. */
  function Put(m: map<Field, string>, f: Field, e: Option<string>): (r: map<Field, string>)
    ensures f in r <==> f in m || e.Some?
    ensures e.Some? ==> r[f] == e.value
    ensures forall g :: g != f ==> (g in r <==> g in m) && (g in m ==> r[g] == m[g])
  {
    if e.Some? then m[f := e.value] else m
  }

  /**
    * `validateRegister`: one message per failing field, each the first
    * failing test of its chain, and a confirmation message exactly when
    * the two passwords differ.
    */
  function ValidateRegister(f: RegisterFields): (r: map<Field, string>)
    ensures FullName in r <==> FullNameError(f.fullName).Some?
    ensures FullName in r ==> r[FullName] == FullNameError(f.fullName).value
    ensures Email in r <==> EmailError(f.email).Some?
    ensures Email in r ==> r[Email] == EmailError(f.email).value
    ensures Password in r <==> PasswordError(f.password).Some?
    ensures Password in r ==> r[Password] == PasswordError(f.password).value
    ensures ConfirmPassword in r <==> f.password != f.confirmPassword
    ensures ConfirmPassword in r ==> r[ConfirmPassword] == PASSWORDS_DIFFER
  {
    var m := Put(map[], FullName, FullNameError(f.fullName));
    var m := Put(m, Email, EmailError(f.email));
    var m := Put(m, Password, PasswordError(f.password));
    Put(m, ConfirmPassword, if f.password != f.confirmPassword then Some(PASSWORDS_DIFFER) else None)
  }

  /** `validateLogin`: the same email chain, and a password that only has to be non-empty. */
  function ValidateLogin(f: LoginFields): (r: map<Field, string>)
    ensures r.Keys <= {Email, Password}
    ensures Email in r <==> EmailError(f.email).Some?
    ensures Email in r ==> r[Email] == EmailError(f.email).value
    ensures Password in r <==> f.password == ""
    ensures Password in r ==> r[Password] == PASSWORD_REQUIRED
  {
    var m := Put(map[], Email, EmailError(f.email));
    Put(m, Password, if f.password == "" then Some(PASSWORD_REQUIRED) else None)
  }

  /** The empty record means every field passed its chain and the passwords agree. */
  lemma RegisterAccepts(f: RegisterFields)
    ensures ValidateRegister(f) == map[] <==>
              && 3 <= Utf16Length(f.fullName) <= 60 && (forall k :: 0 <= k < |f.fullName| ==> IsNameChar(f.fullName[k]))
              && EmailPattern(f.email)
              && Utf16Length(f.password) >= 8 && StrongPassword(f.password)
              && f.password == f.confirmPassword
  {
    var r := ValidateRegister(f);
    if r != map[] {
      var g :| g in r;
    }
  }

  /** An address the pattern accepts has exactly one '@' and no white space. */
  lemma {:induction false} EmailHasOneAt(s: string)
    requires EmailPattern(s)
    ensures CountChar(s, '@') == 1 && NoWhitespace(s)
  {
    var i, j :| 0 < i && i + 1 < j && j + 1 < |s| && s[i] == '@' && s[j] == '.' &&
      forall k :: 0 <= k < |s| && k != i ==> IsAddressChar(s[k]);
    OnlyOccurrence(s, i, '@');
  }

  /** A character found at exactly one position occurs once. */
  lemma OnlyOccurrence(s: string, i: nat, c: char)
    requires i < |s| && s[i] == c && forall k :: 0 <= k < |s| && k != i ==> s[k] != c
    ensures CountChar(s, c) == 1
  {
    var before, after := s[..i], s[i + 1..];
    assert s == before + [c] + after;
    CountCharConcat(before + [c], after, c);
    CountCharConcat(before, [c], c);
    CountCharAbsent(before, c);
    assert forall k :: 0 <= k < |after| ==> after[k] == s[i + 1 + k];
    CountCharAbsent(after, c);
  }

  lemma {:induction false} CountCharConcat(a: string, b: string, c: char)
    ensures CountChar(a + b, c) == CountChar(a, c) + CountChar(b, c)
  {
    if a != [] {
      assert (a + b)[1..] == a[1..] + b;
      CountCharConcat(a[1..], b, c);
    } else {
      assert a + b == b;
    }
  }

  lemma {:induction false} CountCharAbsent(s: string, c: char)
    requires forall k :: 0 <= k < |s| ==> s[k] != c
    ensures CountChar(s, c) == 0
  {
    if s != [] {
      CountCharAbsent(s[1..], c);
    }
  }

  /** An address whose domain has no dot is refused with the format message. */
  lemma DomainWithoutDot(local: string, domain: string)
    requires local != "" && '.' !in domain && '.' !in local
    ensures EmailError(local + "@" + domain) == Some(EMAIL_FORMAT)
  {
    var s := local + "@" + domain;
    assert forall k :: 0 <= k < |s| ==> s[k] != '.' by {
      forall k | 0 <= k < |s|
        ensures s[k] != '.'
      {
        if k < |local| {
          assert s[k] == local[k];
        } else if k > |local| {
          assert s[k] == domain[k - |local| - 1];
        }
      }
    }
  }

  /** A well-formed registration: every field passes. */
  lemma WellFormedRegistration()
    ensures ValidateRegister(RegisterFields("Ana Pérez", "ana@correo.com", "Secreta1!", "Secreta1!")) == map[]
  {
    WellFormedName();
    WellFormedEmail();
    WellFormedPassword();
  }

  lemma WellFormedName()
    ensures FullNameError("Ana Pérez").None?
  {
    NameAccepted("Ana Pérez");
  }

  /** A name of 3 to 60 allowed characters, none beyond the Basic Multilingual Plane, passes its chain. */
  lemma NameAccepted(s: string)
    requires 3 <= |s| <= 60 && forall k :: 0 <= k < |s| ==> IsNameChar(s[k]) && s[k] <= '\U{FFFF}'
    ensures FullNameError(s).None?
  {
    BmpLength(s);
  }

  lemma WellFormedEmail()
    ensures EmailError("ana@correo.com").None?
  {
    var email := "ana@correo.com";
    assert email[3] == '@' && email[10] == '.';
    assert forall k :: 0 <= k < |email| && k != 3 ==> IsAddressChar(email[k]);
  }

  lemma WellFormedPassword()
    ensures PasswordError("Secreta1!").None?
  {
    var pw := "Secreta1!";
    assert IsAsciiLower(pw[1]) && IsAsciiUpper(pw[0]) && IsDigit(pw[7]) && !IsWordChar(pw[8]);
    PasswordAccepted(pw, 1, 0, 7, 8);
  }

  /**
    * A password of at least 8 characters, none beyond the Basic
    * Multilingual Plane and no line terminator, with a lower-case letter,
    * an upper-case letter, a digit and a symbol, passes its chain.
    */
  lemma PasswordAccepted(s: string, lower: nat, upper: nat, digit: nat, symbol: nat)
    requires 8 <= |s| && forall k :: 0 <= k < |s| ==> !IsLineTerminator(s[k]) && s[k] <= '\U{FFFF}'
    requires lower < |s| && upper < |s| && digit < |s| && symbol < |s|
    requires IsAsciiLower(s[lower]) && IsAsciiUpper(s[upper]) && IsDigit(s[digit]) && !IsWordChar(s[symbol])
    ensures PasswordError(s).None?
  {
    BmpLength(s);
  }

  /** An upper-case accented vowel is outside the name class: "Ángel" is refused. */
  lemma AccentedCapitalRefused()
    ensures FullNameError("Ángel") == Some(NAME_INVALID)
  {
    var name := "Ángel";
    assert Utf16Length(name) == 5;
    assert !IsNameChar(name[0]);
  }

  /** Eight characters without a symbol are too weak; seven are too short whatever they are. */
  lemma PasswordChainOrder()
    ensures PasswordError("Secreta1") == Some(PASSWORD_WEAK)
    ensures PasswordError("Sec1!ab") == Some(PASSWORD_TOO_SHORT)
  {
    LettersAndDigitsAreWeak("Secreta1");
    BmpLength("Sec1!ab");
  }

  /** A password of word characters only has no symbol, so it is not strong. */
  lemma LettersAndDigitsAreWeak(pw: string)
    requires forall k :: 0 <= k < |pw| ==> IsWordChar(pw[k]) && pw[k] != '_'
    ensures !StrongPassword(pw)
  {
  }
}
