/**
 * The create/edit dialog of a credential: the form state the dialog's effect
 * fills from the credential being edited, `validate`, and the JSON payloads
 * `handleSubmit` sends (`PUT /credentials/:id` when editing, `POST
 * /credentials` when creating).
 */
module CredentialDialog {
  import opened Wrappers
  import opened Json
  import opened JsText
  import opened Dashboard
  import Credentials

  const ServiceRequired: string := "Nombre del servicio obligatorio"
  const AccountRequired: string := "Usuario/email obligatorio"
  const PasswordRequired: string := "Contraseña obligatoria"
  const UrlInvalid: string := "URL inválida (debe empezar con http)"

  /** The record `e` of `validate`: an optional message per field. */
  datatype DialogErrors = DialogErrors(
    serviceName: Option<string>,
    accountUsername: Option<string>,
    password: Option<string>,
    url: Option<string>)
  {
    /** `Object.keys(e).length`. */
    function KeyCount(): nat {
      (if serviceName.Some? then 1 else 0) + (if accountUsername.Some? then 1 else 0)
      + (if password.Some? then 1 else 0) + (if url.Some? then 1 else 0)
    }
  }

  const NoErrors: DialogErrors := DialogErrors(None, None, None, None)

  /**
   * The error record `validate` produces for these field values, read off
   * the rules: blank service, account or (when required) password, and a
   * non-empty url outside the regular expression.
   */
  ghost function CheckErrors(serviceName: string, accountUsername: string, password: string,
                             url: string, requirePassword: bool): DialogErrors
  {
    DialogErrors(
      if IsBlank(serviceName) then Some(ServiceRequired) else None,
      if IsBlank(accountUsername) then Some(AccountRequired) else None,
      if requirePassword && IsBlank(password) then Some(PasswordRequired) else None,
      if url != "" && !HttpRegexMatch(url) then Some(UrlInvalid) else None)
  }

  /**
   * `/^https?:\/\/.+/.test(s)` as the matcher runs it: an optional 's' after
   * "http" (taken whenever present, since "http" followed by 's' can never
   * continue with "://"), then "://", then one character that is not a line
   * terminator. Nothing is required after that character.
   */
  function IsHttpUrl(s: string): (b: bool)
    ensures b ==> |s| >= 8 && s[..4] == "http"
  {
    && StartsWith(s, "http")
    && var n := if |s| > 4 && s[4] == 's' then 5 else 4;
       && StartsWith(s[n..], "://")
       && |s| > n + 3
       && !IsLineTerminator(s[n + 3])
  }

  /** The regular expression read as its two alternatives, `http://.` and `https://.`. */
  ghost predicate HttpRegexMatch(s: string) {
    exists scheme :: (scheme == "http://" || scheme == "https://")
      && StartsWith(s, scheme) && |s| > |scheme| && !IsLineTerminator(s[|scheme|])
  }

  /** Whatever the one-pass check accepts, one alternative of the regular expression matches. */
  lemma HttpUrlSound(s: string)
    requires IsHttpUrl(s)
    ensures HttpRegexMatch(s)
  {
    var n := if |s| > 4 && s[4] == 's' then 5 else 4;
    var scheme := s[..n + 3];
    assert scheme == s[..n] + s[n..][..3];
    assert scheme == "http://" || scheme == "https://";
    assert StartsWith(s, scheme);
  }

  /** Whatever either alternative matches, the one-pass check accepts. */
  lemma HttpUrlComplete(s: string, scheme: string)
    requires scheme == "http://" || scheme == "https://"
    requires StartsWith(s, scheme) && |s| > |scheme| && !IsLineTerminator(s[|scheme|])
    ensures IsHttpUrl(s)
  {
    assert s[..4] == scheme[..4];
    var n := |scheme| - 3;
    assert s[n..][..3] == scheme[n..];
    assert s[4] == scheme[4];
  }

  /** The one-pass check accepts exactly what either alternative of the regular expression matches. */
  lemma HttpUrlMatchesRegex(s: string)
    ensures IsHttpUrl(s) <==> HttpRegexMatch(s)
  {
    if IsHttpUrl(s) {
      HttpUrlSound(s);
    }
    if HttpRegexMatch(s) {
      var scheme :| (scheme == "http://" || scheme == "https://")
        && StartsWith(s, scheme) && |s| > |scheme| && !IsLineTerminator(s[|scheme|]);
      HttpUrlComplete(s, scheme);
    }
  }

  /** The scheme alone, with nothing after "//", is rejected. */
  lemma SchemeAloneRejected(s: string)
    requires s == "http://" || s == "https://"
    ensures !IsHttpUrl(s)
  {
  }

  /** `basePayload`: the fields sent on both create and edit. */
  datatype BasePayload = BasePayload(
    service: string,
    accountUsername: string,
    url: Option<string>,
    notas: Option<string>)

  /** `s.trim() || null`: a blank text becomes null, anything else its trimmed form. */
  function TrimOrNull(s: string): (r: Option<string>)
    ensures r.None? <==> IsBlank(s)
    ensures r.Some? ==> r.value == Trim(s)
    ensures r.Some? ==> r.value != "" && !IsSpace(r.value[0]) && !IsSpace(r.value[|r.value| - 1])
  {
    var t := Trim(s);
    if t == "" then None else Some(t)
  }

  /** Builds `basePayload` from the form fields: every text is trimmed, and blank optional texts become null. */
  function MakeBasePayload(serviceName: string, accountUsername: string, url: string, notes: string)
    : (p: BasePayload)
    ensures p.service == Trim(serviceName) && p.accountUsername == Trim(accountUsername)
    ensures p.url == TrimOrNull(url) && p.notas == TrimOrNull(notes)
    ensures p.service == "" <==> IsBlank(serviceName)
    ensures p.accountUsername == "" <==> IsBlank(accountUsername)
    ensures p.url.None? <==> IsBlank(url)
    ensures p.notas.None? <==> IsBlank(notes)
  {
    BasePayload(Trim(serviceName), Trim(accountUsername), TrimOrNull(url), TrimOrNull(notes))
  }

  /** `createPayload`: `basePayload` plus `passw_encr`, the password exactly as typed. */
  datatype CreatePayload = CreatePayload(base: BasePayload, passwEncr: string)

  /** The request `handleSubmit` sends. */
  datatype SaveRequest = Put(id: string, payload: BasePayload) | Post(createPayload: CreatePayload)

  /** A nullable text as `JSON.stringify` writes it and `express.json()` reads it back. */
  function ToJson(v: Option<string>): (f: JsonField)
    ensures v.None? <==> f.Null?
    ensures v.Some? ==> f == Str(v.value)
    ensures !f.Absent?
  {
    if v.Some? then Str(v.value) else Null
  }

  /** The request of a form that passed its checks: a `PUT` of `basePayload` to the id, or a `POST`. */
  function RequestOf(credential: Option<Credential>, serviceName: string, accountUsername: string,
                     password: string, url: string, notes: string): SaveRequest
  {
    var base := MakeBasePayload(serviceName, accountUsername, url, notes);
    if credential.Some? then Put(credential.value.id, base) else Post(CreatePayload(base, password))
  }

  /** The body the update handler receives from a `PUT`. */
  function UpdateBodyOf(p: BasePayload): (b: Credentials.UpdateBody)
    ensures b.service == Str(p.service) && b.accountUsername == Str(p.accountUsername)
    ensures b.url == ToJson(p.url) && b.notas == ToJson(p.notas)
    ensures !b.service.Absent? && !b.accountUsername.Absent? && !b.url.Absent? && !b.notas.Absent?
  {
    Credentials.UpdateBody(Str(p.service), Str(p.accountUsername), ToJson(p.url), ToJson(p.notas))
  }

  /** The body the create handler receives from a `POST`. */
  function CreateBodyOf(p: CreatePayload): (b: Credentials.CreateBody)
    ensures b.service == Str(p.base.service) && b.accountUsername == Str(p.base.accountUsername)
    ensures b.url == ToJson(p.base.url) && b.notas == ToJson(p.base.notas)
    ensures b.passwEncr == Str(p.passwEncr)
  {
    Credentials.CreateBody(Str(p.base.service), Str(p.base.accountUsername), Str(p.passwEncr),
                           ToJson(p.base.url), ToJson(p.base.notas))
  }

  /**
   * Saving an edit replaces all four editable columns with the trimmed form
   * values (a blank url or note clears the column), and leaves the stored
   * password as it was: the edit payload carries none.
   */
  lemma EditStoresTrimmedFields(row: Credentials.Row, serviceName: string, accountUsername: string,
                                url: string, notes: string)
    ensures var r := Credentials.Updated(row, UpdateBodyOf(MakeBasePayload(serviceName, accountUsername, url, notes)));
      && r.passwEncr == row.passwEncr
      && r.service == Some(Trim(serviceName))
      && r.accountUsername == Some(Trim(accountUsername))
      && r.url == TrimOrNull(url) && r.notas == TrimOrNull(notes)
      && (r.url.None? <==> IsBlank(url))
      && (r.notas.None? <==> IsBlank(notes))
  {
  }

  class Dialog {
    /** The `credential` prop: the one being edited, or none when creating. */
    var credential: Option<Credential>
    var serviceName: string
    var accountUsername: string
    var password: string
    var url: string
    var notes: string
    var showPassword: bool
    var errors: DialogErrors

    /** The `useState` initial values. */
    constructor ()
      ensures credential.None?
      ensures serviceName == "" && accountUsername == "" && password == "" && url == "" && notes == ""
      ensures !showPassword && errors == NoErrors
    {
      credential := None;
      serviceName, accountUsername, password, url, notes := "", "", "", "", "";
      showPassword := false;
      errors := NoErrors;
    }

    /**
     * The effect run when the dialog opens or its credential changes: copies
     * the credential's fields, a null url or note becoming "", or clears every
     * field when creating; errors are cleared and the password hidden.
     */
    method Open(c: Option<Credential>)
      modifies this
      ensures credential == c
      ensures c.Some? ==>
        && serviceName == c.value.serviceName && accountUsername == c.value.accountUsername
        && password == c.value.password
        && url == c.value.url.GetOr("") && notes == c.value.notes.GetOr("")
      ensures c.None? ==>
        serviceName == "" && accountUsername == "" && password == "" && url == "" && notes == ""
      ensures errors == NoErrors && !showPassword
    {
      credential := c;
      if c.Some? {
        serviceName := c.value.serviceName;
        accountUsername := c.value.accountUsername;
        password := c.value.password;
        url := c.value.url.GetOr("");
        notes := c.value.notes.GetOr("");
      } else {
        serviceName, accountUsername, password, url, notes := "", "", "", "", "";
      }
      errors := NoErrors;
      showPassword := false;
    }

    /**
     * The field checks of `validate`, with the password check switched by
     * `requirePassword`: one message per failing field, the error state
     * replaced by them, and the answer whether there are none.
     */
    method Check(requirePassword: bool) returns (valid: bool)
      modifies this`errors
      ensures errors == CheckErrors(serviceName, accountUsername, password, url, requirePassword)
      ensures errors.serviceName.Some? <==> IsBlank(serviceName)
      ensures errors.serviceName.Some? ==> errors.serviceName.value == ServiceRequired
      ensures errors.accountUsername.Some? <==> IsBlank(accountUsername)
      ensures errors.accountUsername.Some? ==> errors.accountUsername.value == AccountRequired
      ensures errors.password.Some? <==> requirePassword && IsBlank(password)
      ensures errors.password.Some? ==> errors.password.value == PasswordRequired
      ensures errors.url.Some? <==> url != "" && !HttpRegexMatch(url)
      ensures errors.url.Some? ==> errors.url.value == UrlInvalid
      ensures valid <==> errors == NoErrors
    {
      var serviceEmpty := TrimmedIsEmpty(serviceName);
      var accountEmpty := TrimmedIsEmpty(accountUsername);
      var passwordEmpty := TrimmedIsEmpty(password);
      HttpUrlMatchesRegex(url);
      var e := NoErrors;
      if serviceEmpty {
        e := e.(serviceName := Some(ServiceRequired));
      }
      if accountEmpty {
        e := e.(accountUsername := Some(AccountRequired));
      }
      if requirePassword && passwordEmpty {
        e := e.(password := Some(PasswordRequired));
      }
      if url != "" && !IsHttpUrl(url) {
        e := e.(url := Some(UrlInvalid));
      }
      errors := e;
      valid := e.KeyCount() == 0;
    }

    /** `validate` as written: the password is required in both modes. */
    method Validate() returns (valid: bool)
      modifies this`errors
      ensures errors == CheckErrors(serviceName, accountUsername, password, url, true)
      ensures errors.serviceName.Some? <==> IsBlank(serviceName)
      ensures errors.serviceName.Some? ==> errors.serviceName.value == ServiceRequired
      ensures errors.accountUsername.Some? <==> IsBlank(accountUsername)
      ensures errors.accountUsername.Some? ==> errors.accountUsername.value == AccountRequired
      ensures errors.password.Some? <==> IsBlank(password)
      ensures errors.password.Some? ==> errors.password.value == PasswordRequired
      ensures errors.url.Some? <==> url != "" && !HttpRegexMatch(url)
      ensures errors.url.Some? ==> errors.url.value == UrlInvalid
      ensures valid <==> errors == NoErrors
    {
      valid := Check(true);
    }

    /**
     * The check that saving relies on: as `validate`, except that the
     * password is required only when creating, since an edit never sends it.
     */
    method ValidateForSave() returns (valid: bool)
      modifies this`errors
      ensures errors == CheckErrors(serviceName, accountUsername, password, url, credential.None?)
      ensures errors.serviceName.Some? <==> IsBlank(serviceName)
      ensures errors.serviceName.Some? ==> errors.serviceName.value == ServiceRequired
      ensures errors.accountUsername.Some? <==> IsBlank(accountUsername)
      ensures errors.accountUsername.Some? ==> errors.accountUsername.value == AccountRequired
      ensures errors.password.Some? <==> credential.None? && IsBlank(password)
      ensures errors.password.Some? ==> errors.password.value == PasswordRequired
      ensures errors.url.Some? <==> url != "" && !HttpRegexMatch(url)
      ensures errors.url.Some? ==> errors.url.value == UrlInvalid
      ensures valid <==> errors == NoErrors
    {
      valid := Check(credential.None?);
    }

    /**
     * `handleSubmit` as written, up to the request: it runs `validate`, so a
     * blank password blocks an edit as well as a creation. Nothing is sent
     * when a field fails; otherwise an edit sends `basePayload` to the
     * credential's id and a creation sends `createPayload`.
     */
    method Submit() returns (request: Option<SaveRequest>)
      modifies this`errors
      ensures errors == CheckErrors(serviceName, accountUsername, password, url, true)
      ensures request.None? <==> errors != NoErrors
      ensures errors.password.Some? <==> IsBlank(password)
      ensures request.Some? <==>
        && !IsBlank(serviceName) && !IsBlank(accountUsername) && !IsBlank(password)
        && (url == "" || HttpRegexMatch(url))
      ensures request.Some? && credential.Some? ==>
        request.value == Put(credential.value.id, MakeBasePayload(serviceName, accountUsername, url, notes))
      ensures request.Some? && credential.None? ==>
        request.value == Post(CreatePayload(MakeBasePayload(serviceName, accountUsername, url, notes), password))
    {
      var valid := Validate();
      request := if valid then Some(RequestOf(credential, serviceName, accountUsername, password, url, notes)) else None;
    }

    /**
     * `handleSubmit` running the corrected check `ValidateForSave`: the
     * password is required only when creating.
     */
    method SubmitCorrected() returns (request: Option<SaveRequest>)
      modifies this`errors
      ensures errors == CheckErrors(serviceName, accountUsername, password, url, credential.None?)
      ensures request.None? <==> errors != NoErrors
      ensures errors.password.Some? <==> credential.None? && IsBlank(password)
      ensures request.Some? <==>
        && !IsBlank(serviceName) && !IsBlank(accountUsername)
        && !(credential.None? && IsBlank(password))
        && (url == "" || HttpRegexMatch(url))
      ensures request.Some? && credential.Some? ==>
        request.value == Put(credential.value.id, MakeBasePayload(serviceName, accountUsername, url, notes))
      ensures request.Some? && credential.None? ==>
        request.value == Post(CreatePayload(MakeBasePayload(serviceName, accountUsername, url, notes), password))
    {
      var valid := ValidateForSave();
      request := if valid then Some(RequestOf(credential, serviceName, accountUsername, password, url, notes)) else None;
    }
  }

  /**
   * As written, editing any credential of the list without typing a new
   * password sends nothing: the list holds every password as "", the
   * dialog copies it into its password field, and a blank password is an
   * error even though the edit payload never carries it.
   */
  method EditingListedCredentialAsWritten(item: ApiRow) returns (request: Option<SaveRequest>, passwordError: bool)
    ensures request.None? && passwordError
  {
    var dialog := new Dialog();
    dialog.Open(Some(ToCredential(item)));
    request := dialog.Submit();
    passwordError := dialog.errors.password.Some?;
  }

  /**
   * With the password checked only when creating, an untouched edit of a
   * listed credential whose other fields pass is saved: a `PUT` to the id
   * that denotes the row, carrying its own fields back.
   */
  method EditingListedCredentialCorrected(item: ApiRow) returns (request: Option<SaveRequest>)
    requires !IsBlank(item.service) && !IsBlank(item.accountUsername)
    requires item.url.Some? ==> item.url.value == "" || HttpRegexMatch(item.url.value)
    ensures request.Some? && request.value.Put?
    ensures DecimalValue(request.value.id) == Some(item.idC)
    ensures request.value.payload == MakeBasePayload(item.service, item.accountUsername,
      item.url.GetOr(""), item.notas.GetOr(""))
  {
    var c := ToCredential(item);
    var dialog := new Dialog();
    dialog.Open(Some(c));
    request := dialog.SubmitCorrected();
    assert request.Some?;
    assert dialog.credential == Some(c);
    assert dialog.serviceName == item.service && dialog.accountUsername == item.accountUsername;
    assert dialog.url == item.url.GetOr("") && dialog.notes == item.notas.GetOr("");
    assert request.value == Put(c.id, MakeBasePayload(dialog.serviceName, dialog.accountUsername,
      dialog.url, dialog.notes));
  }
}
