# MiniVault in Dafny

MiniVault is a small password vault. An Express back end keeps each user's
credentials in a Supabase table `credenciales`, and logs every reveal in
`audit_logs`. Two authentication controllers (the `backend` one and the
`api` one) register users with a bcrypt hash and log them in with a JWT.
A React front end has a login/registration page, a dashboard that lists and
searches credentials, and a dialog that creates or edits one.

The reveal handler's `decrypt` expects a stored `passw_encr` to be an
AES-256-CBC record `hexIV:hexCiphertext`, but none of the code shown here
produces one. The dialog posts the typed password as `passw_encr`
(src/components/CredentialDialog.tsx:77-80), and `createCredential` stores
the body verbatim (backend/controllers/credentialsController.js:51-56).

This project models that core and proves properties of it:

- `wrappers.dfy`, `json.dfy`: `Option`/`Result`, and a JSON body field as an
  Express handler sees it (missing, `null`, or a string; only a non-empty
  string is truthy).
- `text.dfy` (`JsText`): the JavaScript string operations the code relies
  on. `trim` and `\s` use the ECMAScript WhiteSpace and LineTerminator sets.
  `toLowerCase` folds ASCII only. The module also covers `includes`,
  `length` in UTF-16 code units, and `split`/`join` on one character, plus
  a prefix test that the regular-expression models use.
- `secret_record.dfy` (`SecretRecord`): `decrypt`'s split/shift/join parse of
  a stored record. The cipher is a function parameter.
- `credentials.dfy` (`Credentials`):
  - the credentials controller over an in-memory table and audit log
    (class `CredentialStore`);
  - the owner filter on every query;
  - the listing order and search;
  - update semantics (a missing body key leaves the column, `null` clears it);
  - the reveal protocol.
- `users.dfy`, `backend_auth.dfy`, `api_auth.dfy`: the `usuarios` table keyed
  by its unique email (class `UserTable`), and both authentication
  controllers.
  - bcrypt is a hash/compare pair with one law: a password matches its own
    hash.
  - `jwt.sign` records claims, secret and lifetime.
- `auth_page.dfy` (`AuthPage`): the Auth page's `validate`, on a form class.
  It includes the email regular expression as a hand-written check, proved
  equal to the expression.
- `dashboard.dfy` (`Dashboard`): mapping API rows to the page's `Credential`,
  the search filter and the empty-state message.
- `credential_dialog.dfy` (`CredentialDialog`): the dialog's form class, as follows.
  - Its effect fills the fields.
  - `validate` is modelled as written and in corrected form.
  - `handleSubmit` builds the request, as written (after `validate`) and in corrected form (after the corrected check).
  - The payloads are connected to the back end's update and create bodies.

Time (`now`), the cipher, the hash and the JWT secret are parameters. The
database is the class state. `backend/routes/auth.routes.js` and the
Supabase configuration files are not part of this model.

## Model

| member | source | states |
|---|---|---|
| JsText.Trim | src/pages/Auth.tsx:24-31 | the trimmed text has no white space at either end, and is empty exactly when the input is all white space |
| JsText.TrimStartStrips | src/components/CredentialDialog.tsx:70-75 | what `trim` removes from the front is white space only |
| JsText.TrimEndStrips | src/components/CredentialDialog.tsx:70-75 | what `trim` removes from the back is white space only |
| JsText.TrimIsSlice | src/components/CredentialDialog.tsx:70-75 | what `trim` keeps is a contiguous slice of the input with only white space before and after it |
| JsText.TrimIdempotent | src/components/CredentialDialog.tsx:71-74 | trimming an already trimmed payload text changes nothing |
| JsText.TrimmedIsEmpty | src/pages/Auth.tsx:24 | `!s.trim()` holds exactly when every character of `s` is white space |
| JsText.Lower | src/pages/Dashboard.tsx:115 | lower-casing keeps the length and maps every character through the ASCII fold |
| JsText.Contains | src/pages/Dashboard.tsx:115 | `includes` is true exactly when the needle occurs as a slice at some index |
| JsText.ContainsEmpty | src/pages/Dashboard.tsx:114-116 | the empty search text occurs in every service name |
| JsText.Utf16Length | src/pages/Auth.tsx:28 | `length` counts UTF-16 code units: between one and two per character |
| JsText.BmpLength | src/pages/Auth.tsx:28 | on text inside the Basic Multilingual Plane, `length` is the number of characters |
| JsText.IndexOf | src/pages/Auth.tsx:26 | the index returned holds the character and no earlier index does |
| JsText.IndexOfIsFirst | src/pages/Auth.tsx:26 | an occurrence with none before it is the one `IndexOf` finds |
| JsText.Split | backend/controllers/credentialsController.js:9 | `split(':')` yields at least one piece and no piece contains ':' |
| JsText.JoinSplit | backend/controllers/credentialsController.js:9-11 | joining the pieces of a split with the same separator restores the text |
| JsText.Join | backend/controllers/credentialsController.js:11 | `join(':')` starts with the first piece and is at least the piece count minus one long; `SplitJoin` and `JoinSplit` fix its value as the inverse of `split` |
| JsText.SplitJoin | backend/controllers/credentialsController.js:9-11 | joining pieces that hold no separator and splitting the result again gives back exactly those pieces |
| JsText.SplitWithoutSeparator | backend/controllers/credentialsController.js:9 | a record without ':' splits into itself alone |
| JsText.SplitAtFirst | backend/controllers/credentialsController.js:9-10 | splitting `head:rest` gives `head` followed by the pieces of `rest` |
| SecretRecord.ParseRecord | backend/controllers/credentialsController.js:8-11 | the IV part holds no ':' and IV, ':' and ciphertext concatenate to the record; a record without ':' is all IV |
| SecretRecord.SplitShiftJoin | backend/controllers/credentialsController.js:9-11 | for `iv:rest`, the shifted head is `iv` and re-joining the tail gives `rest` with its colons |
| SecretRecord.SplitShiftJoinParses | backend/controllers/credentialsController.js:9-11 | split, shift and join cut every record at its first ':' |
| SecretRecord.Decrypt | backend/controllers/credentialsController.js:8-23 | decryption deciphers the IV and ciphertext parts of the record as cut at its first ':' |
| Credentials.FirstExists | backend/controllers/credentialsController.js:39 | every non-empty set of rows has a first row in listing order |
| Credentials.First | backend/controllers/credentialsController.js:39 | the chosen row comes before every other one in the set |
| Credentials.Ordered | backend/controllers/credentialsController.js:39 | the ids are listed once each, exactly the given set, newest first with ties by ascending id |
| Credentials.Summaries | backend/controllers/credentialsController.js:32 | each listed row is projected to the selected columns, without `passw_encr`, in order |
| Credentials.ServiceMatches | backend/controllers/credentialsController.js:35-37 | no search or an empty one keeps every row, and a row with a null service is kept only then |
| Credentials.ServiceMatchesSearch | backend/controllers/credentialsController.js:35-37 | a non-empty search keeps a row exactly when the search, lower-cased, occurs in the row's lower-cased service |
| Credentials.ListCredentials | backend/controllers/credentialsController.js:25-47 | 200 with exactly the caller's rows whose service contains the search (none missing, none foreign), without `passw_encr`, each once, by non-increasing creation date |
| Credentials.GetCredentialById | backend/controllers/credentialsController.js:68-86 | 200 with the row's summary exactly when the row exists and belongs to the caller, else 404 "Credential not found" |
| Credentials.OrderedAgrees | backend/controllers/credentialsController.js:39 | the listing order depends only on the creation dates of the listed rows |
| Credentials.MatchingAgrees | backend/controllers/credentialsController.js:30-37 | tables that look the same to the caller select the same ids with the same summaries |
| Credentials.SummariesAgree | backend/controllers/credentialsController.js:32 | projections depend only on the selected columns |
| Credentials.ListIgnoresSecretsAndOthers | backend/controllers/credentialsController.js:25-47 | the list reply never depends on any stored `passw_encr` nor on other users' rows |
| Credentials.GetIgnoresSecretsAndOthers | backend/controllers/credentialsController.js:68-86 | the same for get-by-id: another user's row is never read |
| Credentials.Updated | backend/controllers/credentialsController.js:91-96 | owner, `passw_encr` and dates stay; a missing body key keeps its column, any other value (string or null) is stored |
| Credentials.UpdateThenGet | backend/controllers/credentialsController.js:88-108 | after an update the row is still the caller's, its `passw_encr` is unchanged and get-by-id shows the new service |
| Credentials.CredentialStore.CreateCredential | backend/controllers/credentialsController.js:49-66 | one new row under a fresh id, owned by the caller, storing the body's fields verbatim; 201 with the new row's summary |
| Credentials.CredentialStore.UpdateCredential | backend/controllers/credentialsController.js:88-108 | only the caller's own row changes, as `Updated` says; any other id gives 404 and no change |
| Credentials.CredentialStore.DeleteCredential | backend/controllers/credentialsController.js:110-129 | exactly the caller's own row is removed with "Credential deleted successfully"; otherwise 404 and no change |
| Credentials.CredentialStore.RevealCredential | backend/controllers/credentialsController.js:131-154 | 404 with no audit for a row not the caller's; 500 for a null record or a failed decryption, with no audit; otherwise 200 with the plaintext and one SHOW_PASSWORD entry when the store accepts it |
| Credentials.CreateThenReveal | backend/controllers/credentialsController.js:131-154 | in a new vault the list is empty; revealing a just-created credential returns its plaintext and leaves one audit entry |
| Users.UserTable.IdNamesOneUser | backend/controllers/auth.controller.js:59-63 | in a valid table, an `id_user` belongs to one user only, so the token's claim names one account |
| Users.UserTable.Insert | backend/controllers/auth.controller.js:15-23 | the insert succeeds exactly when the email is free, adding one user under the next id; otherwise nothing changes |
| BackendAuth.Register | backend/controllers/auth.controller.js:5-33 | 400 unless name, email and password are truthy; 500 when the email is taken; otherwise 201 and one new user holding only the password's hash |
| BackendAuth.SessionToken | backend/controllers/auth.controller.js:59-63 | the token's claims are exactly `id_user`, signed with the secret, valid for 2h |
| BackendAuth.Login | backend/controllers/auth.controller.js:35-69 | 400 for a missing field; 200 with the session token exactly when the email is registered and the password matches; every other case is the same 400 "Credenciales inválidas" |
| BackendAuth.LoginHidesRegistration | backend/controllers/auth.controller.js:49-57 | an unknown email and a wrong password get identical replies |
| BackendAuth.LoginAfterRegister | backend/controllers/auth.controller.js:35-69 | right after registration the same email and password log in |
| BackendAuth.RegisterTwice | backend/controllers/auth.controller.js:15-27 | a second registration of an email fails with 500 and adds nothing |
| ApiAuth.Register | api/src/controllers/auth.controller.js:5-45 | 400 for a missing field; 400 "Usuario ya existe" for a taken email; otherwise 201 and one new user with the hash and the creation time |
| ApiAuth.ProfileToken | api/src/controllers/auth.controller.js:67-71 | the token's claims are exactly id, name and email, valid for 2h |
| ApiAuth.Login | api/src/controllers/auth.controller.js:47-78 | 401 "Credenciales inválidas" exactly for an unregistered email; 500 for a registered email without a password string; 401 "Contraseña incorrecta" exactly for a wrong password; else 200 with the profile token |
| ApiAuth.LoginRevealsRegistration | api/src/controllers/auth.controller.js:57-65 | with a non-matching password, the message tells exactly whether the email is registered |
| ApiAuth.LoginAfterRegister | api/src/controllers/auth.controller.js:47-78 | right after registration the same email and password log in |
| ApiAuth.RegisterTwice | api/src/controllers/auth.controller.js:13-22 | a second registration of an email is refused with 400 and adds nothing |
| AuthPage.IsEmailFormat | src/pages/Auth.tsx:26 | the one-pass email check; an accepted email holds '@' and has at least five characters |
| AuthPage.EmailFormatSound | src/pages/Auth.tsx:26 | every email the hand-written check accepts matches `^[^\s@]+@[^\s@]+\.[^\s@]+$` |
| AuthPage.EmailFormatComplete | src/pages/Auth.tsx:26 | every email the expression matches passes the hand-written check |
| AuthPage.EmailFormatMatchesRegex | src/pages/Auth.tsx:26 | the check and the expression accept the same emails |
| AuthPage.AuthForm.constructor | src/pages/Auth.tsx:12-20 | the form starts in login mode with empty fields and no errors |
| AuthPage.AuthForm.Validate | src/pages/Auth.tsx:22-35 | a field has an error exactly when its check fails (name and confirmation only when registering), with the right one of its two messages; true exactly when there are none |
| AuthPage.LoginFormAccepted | src/pages/Auth.tsx:22-35 | a login with a well-formed email and a non-blank password whose `length` (UTF-16 code units) is six or more validates, whatever the hidden name and confirmation hold |
| Dashboard.NatToStringValue | src/pages/Dashboard.tsx:57 | the decimal text of an id is all digits and denotes the id |
| Dashboard.IdRoundTrip | src/pages/Dashboard.tsx:57 | `String(id_c)` read back as a number is `id_c` |
| Dashboard.IntToString | src/pages/Dashboard.tsx:57 | `String(id_c)` is non-empty and starts with '-' exactly for a negative id |
| Dashboard.NonNegativeIdRoundTrip | src/pages/Dashboard.tsx:57 | the digits of a non-negative id read back as the id |
| Dashboard.NegativeIdRoundTrip | src/pages/Dashboard.tsx:57 | the text of a negative id reads back as that id |
| Dashboard.IdInjective | src/pages/Dashboard.tsx:57 | distinct rows get distinct text ids |
| Dashboard.ToCredential | src/pages/Dashboard.tsx:56-65 | the text id denotes `id_c`, the other fields are copied, and the password is "" |
| Dashboard.MapRows | src/pages/Dashboard.tsx:56 | a missing body gives the empty list; otherwise length and order are kept, element by element |
| Dashboard.MappedPasswordsEmpty | src/pages/Dashboard.tsx:60 | no loaded credential holds a password |
| Dashboard.Filter | src/pages/Dashboard.tsx:114-116 | keeps exactly the credentials whose lower-cased service name contains the lower-cased search |
| Dashboard.FilterAppend | src/pages/Dashboard.tsx:114-116 | filtering works element by element and keeps relative order |
| Dashboard.FilterEmptySearch | src/pages/Dashboard.tsx:114-116 | an empty search keeps every credential |
| Dashboard.Render | src/pages/Dashboard.tsx:153-163 | the spinner exactly while loading; otherwise the empty state exactly when the filter keeps nothing, else the table of the filtered credentials |
| Dashboard.EmptyStateMessage | src/pages/Dashboard.tsx:153-163 | with nothing shown, "No se encontraron resultados" appears exactly when a search is typed; "Aún no tienes credenciales guardadas" exactly when there is no search and no credential |
| CredentialDialog.IsHttpUrl | src/components/CredentialDialog.tsx:53 | the one-pass url check; an accepted url starts with "http" and has at least eight characters |
| CredentialDialog.HttpUrlSound | src/components/CredentialDialog.tsx:53 | every url the one-pass check accepts matches `^https?:\/\/.+` |
| CredentialDialog.HttpUrlComplete | src/components/CredentialDialog.tsx:53 | every url either alternative of the expression matches passes the check |
| CredentialDialog.HttpUrlMatchesRegex | src/components/CredentialDialog.tsx:53 | the check and the expression accept the same urls |
| CredentialDialog.SchemeAloneRejected | src/components/CredentialDialog.tsx:53 | "http://" and "https://" with nothing after them are invalid |
| CredentialDialog.TrimOrNull | src/components/CredentialDialog.tsx:73-74 | blank text becomes null; anything else becomes its trimmed text, which is non-empty and has no surrounding white space |
| CredentialDialog.MakeBasePayload | src/components/CredentialDialog.tsx:70-75 | service and account are the trimmed texts, empty exactly when blank; url and notas are the trimmed texts or null, null exactly when blank |
| CredentialDialog.ToJson | src/components/CredentialDialog.tsx:92 | null stays `null` and text stays a string in the posted JSON; no key is dropped |
| CredentialDialog.UpdateBodyOf | src/components/CredentialDialog.tsx:92 | the edit body sends the payload's service and account as strings and its url and notas as string or null, with all four keys present |
| CredentialDialog.CreateBodyOf | src/components/CredentialDialog.tsx:77-80 | the create body sends the payload's service and account as strings, its url and notas as string or null, and the password exactly as typed |
| CredentialDialog.EditStoresTrimmedFields | src/components/CredentialDialog.tsx:70-93 | saving an edit stores the trimmed service and account, stores url and notes trimmed or null (null exactly when left blank), and keeps the stored password |
| CredentialDialog.Dialog.constructor | src/components/CredentialDialog.tsx:21-28 | empty fields, no errors, password hidden |
| CredentialDialog.Dialog.Open | src/components/CredentialDialog.tsx:30-46 | the fields copy the credential (null url or notes become "") or are all cleared; errors cleared; password hidden |
| CredentialDialog.Dialog.Check | src/components/CredentialDialog.tsx:48-56 | the new error record is `CheckErrors` of the fields: each field has its own message exactly when its check fails; true exactly when there are none |
| CredentialDialog.Dialog.Validate | src/components/CredentialDialog.tsx:48-56 | as written: the new error record is `CheckErrors` with the password required; a blank service, account or password, or a non-empty url the expression rejects, is an error with its own message; true exactly when there are none |
| CredentialDialog.Dialog.ValidateForSave | src/components/CredentialDialog.tsx:48-56 | as `Validate`, every field with its own message, but a blank password is an error only when creating |
| CredentialDialog.Dialog.Submit | src/components/CredentialDialog.tsx:58-103 | as written (runs `validate`): the new error record is `CheckErrors` with the password required; no request exactly when a field fails, a blank password failing in both modes; an edit sends the base payload to the credential's id; a creation adds the untrimmed password |
| CredentialDialog.Dialog.SubmitCorrected | src/components/CredentialDialog.tsx:58-103 | as `Submit`, but running `ValidateForSave`: the new error record is `CheckErrors` with the password required only when creating, so a blank password blocks only a creation |
| CredentialDialog.EditingListedCredentialAsWritten | src/components/CredentialDialog.tsx:30-56 | as written, submitting an edit of any listed credential without typing a password sends nothing and shows a password error |
| CredentialDialog.EditingListedCredentialCorrected | src/components/CredentialDialog.tsx:58-103 | with the corrected handler, an untouched edit of a listed credential with valid fields is sent as a PUT to the id that denotes its row, carrying its own fields back |

## Left out

- AES-256-CBC, the hex decoding of IV and ciphertext, and the `AES_KEY` configuration: one function parameter of `Decrypt` stands for all of them.
- bcrypt's random salt and cost factor: `hash` is a fixed function, and only "a password matches its own hash" is assumed of `compare`.
- The JWT verification middleware that binds `req.user`: every handler takes the caller's id as a parameter.
- The JWT signature itself, and the environment variable it uses: a token is the record of its claims, secret and lifetime.
- Credentials.ServiceMatches: the `%`, `_` and `\` characters of a search are taken literally, not as ILIKE wildcards.
- Credentials.ListCredentials: the order among rows with equal `created_date` is fixed by ascending id, where the database leaves it open.
- JsText.Lower: case folding covers ASCII letters only, not the rest of Unicode (ILIKE and `toLowerCase` fold more).
- The `:id` route parameter is a natural number in the model; PostgREST's parsing of arbitrary text is not modelled.
- Schema constraints (NOT NULL, foreign keys) and column defaults: `created_date` and `update_date` are set to `now` on insert, and `update_date` is not touched by an update.
- Store and network failures that make a handler answer 500 (`error.message`), except the reveal paths, which are modelled.
- Two concurrent registrations of one email: the handlers run one at a time.
- JSON values in request bodies other than missing, `null` or a string (numbers, arrays, objects).
- The `.single()` case of more than one matching row: emails are unique and ids are keys.
- Dashboard.ToCredential: ids are assumed below 2^53, so `String(id_c)` is the exact decimal text; rows are assumed to have a non-null service, which the filter lower-cases (src/pages/Dashboard.tsx:115), and a non-null account, which the dialog trims (src/components/CredentialDialog.tsx:33, 51).
- ApiAuth.Login: a missing or null email is taken never to match a user; the source passes it to `.eq('email', email)`, which looks up the literal text "undefined" or "null". Its 500 reply keeps only `message` and drops the `error: error.message` field (api/src/controllers/auth.controller.js:76), whose text comes from the store or bcrypt.
- ApiAuth.Register: its 500 reply keeps only `message` and drops the `error: error.message` field (api/src/controllers/auth.controller.js:43).
- React rendering, toasts, `localStorage`, `fetch`, loading flags and navigation; `handleSubmit`'s missing-token branch is not modelled.
- `src/components/CredentialDetail.tsx` (reveal and copy in the detail view) and the route files are not part of this model.
- BackendAuth.Register: the model cannot say that no hash is computed when the request is rejected with 400; only that nothing is stored.
- AuthPage.AuthForm.Validate: `length` is modelled in UTF-16 code units; the regular expression's `\s` is the ECMAScript set, the same as `trim`'s.

## Findings

| source | as written | input that shows it | evidently intended | confidence | as-written member | corrected member |
|---|---|---|---|---|---|---|
| src/components/CredentialDialog.tsx:34,52 | the edit dialog copies the listed credential's password, which the dashboard always sets to "" (src/pages/Dashboard.tsx:60), and `validate` requires a non-blank password in edit mode too, although the edit payload never sends it | open "Editar" on any listed credential and press "Guardar" without touching the password field: "Contraseña obligatoria" and no request | the password is required only when creating; an edit is sent without it | not executed | CredentialDialog.EditingListedCredentialAsWritten | CredentialDialog.EditingListedCredentialCorrected |
