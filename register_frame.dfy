/**
 * The account registration window: its user-name pattern and the ordered guards in
 * front of the account store.
 */
module RegisterFrame {
  import opened JavaText
  import StartClient

  predicate Letter(c: char) {
    'a' <= c <= 'z' || 'A' <= c <= 'Z'
  }

  predicate WordChar(c: char) {
    c == '_' || Letter(c) || '0' <= c <= '9'
  }

  /** `^[_a-zA-Z][_a-zA-Z0-9]{0,19}$`: one leading letter or `_`, then up to 19 word characters. */
  predicate ValidUsername(s: string) {
    1 <= |s| <= 20 && (s[0] == '_' || Letter(s[0])) && forall i :: 1 <= i < |s| ==> WordChar(s[i])
  }

  /** The registration pattern is the login pattern capped at 20 characters. */
  lemma ValidUsernameIsCappedLoginName(s: string)
    ensures ValidUsername(s) <==> StartClient.ValidName(s) && |s| <= 20
  {
    if StartClient.ValidName(s) && |s| <= 20 {
      forall i | 1 <= i < |s|
        ensures WordChar(s[i])
      {
        assert StartClient.IdentPart(s[i]);
      }
    }
    if ValidUsername(s) {
      forall i | 1 <= i < |s|
        ensures StartClient.IdentPart(s[i])
      {
        assert WordChar(s[i]);
      }
    }
  }

  /** Which button fired. */
  datatype Button = BackButton | RegisterButton

  /** A call into the account store. */
  datatype StoreCall =
    | UserExists(username: string)
    | Register(username: string, password: string, fullName: string, email: string)

  /** Where the form ends up. */
  datatype Result =
    | ToLogin          // the login window opens and this one closes
    | EmptyField       // empty username or password
    | BadUsername      // the pattern fails
    | Mismatch         // password and confirmation differ
    | Taken            // the username exists already
    | RegisterFailed   // the store refused; the form stays open

  datatype Submission = Submission(calls: seq<StoreCall>, result: Result)

  /**
   * The form as actionPerformed reads it: username, full name and email trimmed,
   * password and confirmation exactly as typed.
   */
  datatype Form = Form(username: string, password: string, confirm: string, fullName: string, email: string)

  function ReadForm(usernameField: string, passwordField: string, confirmField: string,
                    fullNameField: string, emailField: string): (f: Form)
    ensures f.password == passwordField && f.confirm == confirmField
    ensures exists i :: TrimmedAt(usernameField, f.username, i)
    ensures exists i :: TrimmedAt(fullNameField, f.fullName, i)
    ensures exists i :: TrimmedAt(emailField, f.email, i)
  {
    Form(Trim(usernameField), passwordField, confirmField, Trim(fullNameField), Trim(emailField))
  }

  /** No guard holds for the form: everything the store needs to see passes. */
  predicate GuardsPass(f: Form, userExists: string -> bool) {
    f.username != "" && f.password != "" && ValidUsername(f.username) && f.password == f.confirm &&
    !userExists(f.username)
  }

  /**
   * The register button. `userExists` answers isUserExist and `stored` is what
   * register returns; both are the account store's.
   */
  function Submit(f: Form, userExists: string -> bool, stored: bool): (s: Submission)
    // the first failing guard decides, in this order
    ensures s.result == EmptyField <==> f.username == "" || f.password == ""
    ensures s.result == BadUsername <==> f.username != "" && f.password != "" && !ValidUsername(f.username)
    ensures s.result == Mismatch <==>
              f.username != "" && f.password != "" && ValidUsername(f.username) && f.password != f.confirm
    ensures s.result == Taken <==>
              f.username != "" && f.password != "" && ValidUsername(f.username) && f.password == f.confirm &&
              userExists(f.username)
    ensures s.result == ToLogin <==> GuardsPass(f, userExists) && stored
    ensures s.result == RegisterFailed <==> GuardsPass(f, userExists) && !stored
    // register is reached only when every guard passes, with the form's fields;
    // otherwise the store sees at most the existence query
    ensures GuardsPass(f, userExists) ==>
              s.calls == [UserExists(f.username), Register(f.username, f.password, f.fullName, f.email)]
    ensures !GuardsPass(f, userExists) ==> forall k :: 0 <= k < |s.calls| ==> s.calls[k] == UserExists(f.username)
  {
    if f.username == "" || f.password == "" then Submission([], EmptyField)
    else if !ValidUsername(f.username) then Submission([], BadUsername)
    else if f.password != f.confirm then Submission([], Mismatch)
    else if userExists(f.username) then Submission([UserExists(f.username)], Taken)
    else
      var calls := [UserExists(f.username), Register(f.username, f.password, f.fullName, f.email)];
      Submission(calls, if stored then ToLogin else RegisterFailed)
  }

  /** actionPerformed: the back button returns to the login window before anything is read. */
  function Action(button: Button, usernameField: string, passwordField: string, confirmField: string,
                  fullNameField: string, emailField: string,
                  userExists: string -> bool, stored: bool): (s: Submission)
    ensures button == BackButton ==> s == Submission([], ToLogin)
  {
    if button == BackButton then Submission([], ToLogin)
    else Submit(ReadForm(usernameField, passwordField, confirmField, fullNameField, emailField), userExists, stored)
  }

  /** The password is compared as typed: a leading blank is a mismatch, not trimmed away. */
  lemma PasswordNotTrimmed(usernameField: string, fullNameField: string, emailField: string,
                           userExists: string -> bool, stored: bool)
    requires ValidUsername(Trim(usernameField))
    ensures Action(RegisterButton, usernameField, " secret", "secret", fullNameField, emailField,
                   userExists, stored).result == Mismatch
  {
    assert " secret" != "secret" by {
      assert |" secret"| != |"secret"|;
    }
  }
}
