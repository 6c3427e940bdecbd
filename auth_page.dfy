/**
 * The client-side `validate` of the Auth page: the form's fields and its
 * error map, filled field by field, at most one message per field.
 */
module AuthPage {
  import opened Wrappers
  import opened JsText

  /**
   * The `errors` state: an object with an optional message per field.
   * `Object.keys(errors).length` is the number of fields present.
   */
  datatype FieldErrors = FieldErrors(
    name: Option<string>,
    email: Option<string>,
    password: Option<string>,
    confirmPassword: Option<string>)
  {
    function KeyCount(): nat {
      (if name.Some? then 1 else 0) + (if email.Some? then 1 else 0)
      + (if password.Some? then 1 else 0) + (if confirmPassword.Some? then 1 else 0)
    }
  }

  const NoErrors: FieldErrors := FieldErrors(None, None, None, None)

  const NameRequired: string := "El nombre es obligatorio"
  const EmailRequired: string := "El email es obligatorio"
  const EmailInvalid: string := "Formato de email inválido"
  const PasswordRequired: string := "La contraseña es obligatoria"
  const PasswordTooShort: string := "Mínimo 6 caracteres"
  const ConfirmRequired: string := "Confirma tu contraseña"
  const PasswordsDiffer: string := "Las contraseñas no coinciden"

  const MinPasswordLength: nat := 6

  /** A character of the class `[^\s@]`. */
  predicate EmailChar(c: char) {
    !IsSpace(c) && c != '@'
  }

  predicate AllEmailChars(s: string) {
    forall i :: 0 <= i < |s| ==> EmailChar(s[i])
  }

  /**
   * `^[^\s@]+@[^\s@]+\.[^\s@]+$` matches with its '@' at `k` and its escaped
   * '.' at `j`.
   */
  ghost predicate EmailMatchAt(s: string, k: int, j: int) {
    && 0 < k && k + 1 < j && j + 1 < |s|
    && s[k] == '@' && s[j] == '.'
    && AllEmailChars(s[..k]) && AllEmailChars(s[k + 1..j]) && AllEmailChars(s[j + 1..])
  }

  /**
   * The email test as one left-to-right check: text before the first '@',
   * and after it a domain of `[^\s@]` characters with a '.' that is neither
   * its first nor its last character.
   */
  function IsEmailFormat(s: string): (b: bool)
    ensures b ==> '@' in s && |s| >= 5
  {
    && '@' in s
    && var k := IndexOf(s, '@');
       var domain := s[k + 1..];
       && k > 0 && AllEmailChars(s[..k])
       && |domain| >= 3 && AllEmailChars(domain)
       && '.' in domain[1..|domain| - 1]
  }

  /** Every string the hand-written check accepts matches the regular expression. */
  lemma EmailFormatSound(s: string)
    requires IsEmailFormat(s)
    ensures exists k, j :: EmailMatchAt(s, k, j)
  {
    var k := IndexOf(s, '@');
    var domain := s[k + 1..];
    var d := IndexOf(domain[1..|domain| - 1], '.');
    var j := k + 2 + d;
    assert s[j] == '.';
    assert s[k + 1..j] == domain[..d + 1];
    assert s[j + 1..] == domain[d + 2..];
    assert EmailMatchAt(s, k, j);
  }

  /** Every string the regular expression matches passes the hand-written check. */
  lemma EmailFormatComplete(s: string, k: int, j: int)
    requires EmailMatchAt(s, k, j)
    ensures IsEmailFormat(s)
  {
    IndexOfIsFirst(s, '@', k);
    var domain := s[k + 1..];
    assert domain == s[k + 1..j] + ['.'] + s[j + 1..];
    assert AllEmailChars(domain) by {
      forall i | 0 <= i < |domain| ensures EmailChar(domain[i]) {
        if i < j - k - 1 { assert domain[i] == s[k + 1..j][i]; }
        else if i > j - k - 1 { assert domain[i] == s[j + 1..][i - (j - k)]; }
      }
    }
    assert domain[1..|domain| - 1][j - k - 2] == '.';
  }

  /** The hand-written check accepts exactly the strings the regular expression matches. */
  lemma EmailFormatMatchesRegex(s: string)
    ensures IsEmailFormat(s) <==> exists k, j :: EmailMatchAt(s, k, j)
  {
    if IsEmailFormat(s) {
      EmailFormatSound(s);
    }
    if k, j :| EmailMatchAt(s, k, j) {
      EmailFormatComplete(s, k, j);
    }
  }

  class AuthForm {
    /** Login mode (true) or registration mode (false). */
    var isLogin: bool
    var name: string
    var email: string
    var password: string
    var confirmPassword: string
    var errors: FieldErrors

    constructor ()
      ensures isLogin && name == "" && email == "" && password == "" && confirmPassword == ""
      ensures errors == NoErrors
    {
      isLogin := true;
      name, email, password, confirmPassword := "", "", "", "";
      errors := NoErrors;
    }

    /**
     * `validate`: records one message for each field that fails, replaces the
     * error state with them, and answers whether there are none. Name and
     * confirmation are checked only when registering.
     */
    method Validate() returns (valid: bool)
      modifies this`errors
      ensures errors.name.Some? <==> !isLogin && IsBlank(name)
      ensures errors.name.Some? ==> errors.name.value == NameRequired
      ensures errors.email.Some? <==> IsBlank(email) || !(exists k, j :: EmailMatchAt(email, k, j))
      ensures errors.email.Some? ==>
        errors.email.value == if IsBlank(email) then EmailRequired else EmailInvalid
      ensures errors.password.Some? <==> IsBlank(password) || Utf16Length(password) < MinPasswordLength
      ensures errors.password.Some? ==>
        errors.password.value == if IsBlank(password) then PasswordRequired else PasswordTooShort
      ensures errors.confirmPassword.Some? <==>
        !isLogin && (IsBlank(confirmPassword) || confirmPassword != password)
      ensures errors.confirmPassword.Some? ==>
        errors.confirmPassword.value == if IsBlank(confirmPassword) then ConfirmRequired else PasswordsDiffer
      ensures valid <==> errors == NoErrors
    {
      var nameEmpty := TrimmedIsEmpty(name);
      var emailEmpty := TrimmedIsEmpty(email);
      var passwordEmpty := TrimmedIsEmpty(password);
      var confirmEmpty := TrimmedIsEmpty(confirmPassword);
      EmailFormatMatchesRegex(email);
      var newErrors := NoErrors;
      if !isLogin && nameEmpty {
        newErrors := newErrors.(name := Some(NameRequired));
      }
      if emailEmpty {
        newErrors := newErrors.(email := Some(EmailRequired));
      } else if !IsEmailFormat(email) {
        newErrors := newErrors.(email := Some(EmailInvalid));
      }
      if passwordEmpty {
        newErrors := newErrors.(password := Some(PasswordRequired));
      } else if Utf16Length(password) < MinPasswordLength {
        newErrors := newErrors.(password := Some(PasswordTooShort));
      }
      if !isLogin {
        if confirmEmpty {
          newErrors := newErrors.(confirmPassword := Some(ConfirmRequired));
        } else if confirmPassword != password {
          newErrors := newErrors.(confirmPassword := Some(PasswordsDiffer));
        }
      }
      errors := newErrors;
      valid := newErrors.KeyCount() == 0;
    }
  }

  /** A well-formed login: the form validates, whatever name and confirmation hold. */
  method LoginFormAccepted(email: string, password: string, name: string, confirm: string)
    returns (valid: bool)
    requires exists k, j :: EmailMatchAt(email, k, j)
    requires Utf16Length(password) >= MinPasswordLength && !IsBlank(password)
    ensures valid
  {
    var form := new AuthForm();
    form.email, form.password, form.name, form.confirmPassword := email, password, name, confirm;
    assert !IsBlank(email) by {
      var k, j :| EmailMatchAt(email, k, j);
      assert !IsSpace(email[k]);
    }
    valid := form.Validate();
  }
}
