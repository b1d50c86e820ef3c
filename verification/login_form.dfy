/** The decisions of the login and registration pages (modules/ui/login.py):
    the login-failed flag, recording a successful login in the session, and
    the registration form's error chain. The page's own `validate_email` and
    `validate_password` are the same as those of modules/auth.py and are
    modelled by `Auth.ValidateEmail` and `Auth.ValidatePassword`. */
module LoginForm {
  import opened Wrappers
  import opened Database
  import opened Auth
  import opened Session

  const LoginFailedKey: string := "login_failed"
  const PasswordsDiffer: string := "Passwords do not match"
  const TermsNotAgreed: string := "You must agree to the terms of service and privacy policy"

  /** The session asks for the login-failed message. */
  predicate LoginFailed(vars: map<string, Value>)
  {
    LoginFailedKey in vars && Truthy(vars[LoginFailedKey])
  }

  /** Lines 128-130 of the login page: show the message if the flag is set,
      then clear the flag, so that one failure is reported on one page run. */
  method ShowLoginFailed(s: SessionState) returns (shown: bool)
    modifies s
    ensures shown <==> LoginFailed(old(s.vars))
    ensures s.vars == if shown then old(s.vars)[LoginFailedKey := Bool(false)] else old(s.vars)
    ensures !LoginFailed(s.vars)
  {
    shown := LoginFailedKey in s.vars && Truthy(s.vars[LoginFailedKey]);
    if shown {
      s.vars := s.vars[LoginFailedKey := Bool(false)];
    }
  }

  /** The session keys a successful login writes. */
  function LoggedInVars(vars: map<string, Value>, u: User): map<string, Value>
  {
    vars["logged_in" := Bool(true)]["username" := Str(u.username)]["user_id" := Int(u.id)]
        ["user_role" := Str(u.role)]["user_fullname" := Str(u.fullName)]
  }

  /** The Login button (lines 161-181): on success the session is logged in
      with the account's role; on failure only the login-failed flag is set. */
  method RecordLogin(s: SessionState, users: seq<User>, hash: string -> string, username: string,
                     password: string) returns (user: Option<User>)
    modifies s
    ensures user == LoginUser(users, hash, username, password)
    ensures user.Some? ==> s.vars == LoggedInVars(old(s.vars), user.value)
                           && CheckAuth(s.vars) == (true, Some(Str(user.value.role)))
                           && (RequireAdmin(s.vars, ()).Some? <==> user.value.role == "admin")
    ensures user.None? ==> s.vars == old(s.vars)[LoginFailedKey := Bool(true)]
                           && CheckAuth(s.vars) == CheckAuth(old(s.vars)) && LoginFailed(s.vars)
  {
    user := LoginUser(users, hash, username, password);
    if user.Some? {
      s.vars := LoggedInVars(s.vars, user.value);
    } else {
      s.vars := s.vars[LoginFailedKey := Bool(true)];
    }
  }

  /** Every check of the registration form that fails, in the order of the
      if/elif chain (lines 419-431). */
  function FormErrors(username: string, email: string, fullName: string, password: string,
                      confirmPassword: string, termsAgreed: bool): seq<string>
  {
    (if username == "" || email == "" || fullName == "" || password == "" || confirmPassword == ""
     then [AllFieldsRequired] else [])
    + (if ValidateEmail(email) then [] else [InvalidEmailFormat])
    + (if password == confirmPassword then [] else [PasswordsDiffer])
    + (if termsAgreed then [] else [TermsNotAgreed])
    + (if ValidatePassword(password).0 then [] else [ValidatePassword(password).1])
  }

  /** `st.session_state.get("terms_agree", False)`. */
  predicate TermsAgreed(vars: map<string, Value>)
  {
    Truthy(Get(vars, "terms_agree", Bool(false)))
  }

  /** The `error_message` the chain settles on. */
  function FormError(vars: map<string, Value>, username: string, email: string, fullName: string,
                     password: string, confirmPassword: string): (r: Option<string>)
    ensures var errs := FormErrors(username, email, fullName, password, confirmPassword, TermsAgreed(vars));
            (r.None? <==> errs == []) && (r.Some? ==> r.value == errs[0] && r.value != "")
  {
    if username == "" || email == "" || fullName == "" || password == "" || confirmPassword == "" then
      Some(AllFieldsRequired)
    else if !ValidateEmail(email) then Some(InvalidEmailFormat)
    else if password != confirmPassword then Some(PasswordsDiffer)
    else if !TermsAgreed(vars) then Some(TermsNotAgreed)
    else if !ValidatePassword(password).0 then Some(ValidatePassword(password).1)
    else None
  }

  /** What submitting the registration form does. */
  datatype Submission =
    | ShowError(msg: string)
    | CallRegister(username: string, password: string, email: string, fullName: string)

  /** Lines 415-452: report the first error, or call `register_user` with the
      form's values in the order (username, password, email, full_name). */
  function SubmitRegistration(vars: map<string, Value>, username: string, email: string, fullName: string,
                              password: string, confirmPassword: string): (r: Submission)
    ensures r.CallRegister? <==> FormErrors(username, email, fullName, password, confirmPassword, TermsAgreed(vars)) == []
    ensures r.CallRegister? ==> r == CallRegister(username, password, email, fullName)
    ensures r.ShowError? ==> r.msg == FormErrors(username, email, fullName, password, confirmPassword, TermsAgreed(vars))[0]
  {
    var error := FormError(vars, username, email, fullName, password, confirmPassword);
    if error.Some? then ShowError(error.value) else CallRegister(username, password, email, fullName)
  }

  /** A form that gets through the page's checks passes every check of
      `register_user` except the uniqueness check against the table. */
  lemma SubmittedFormPassesRegisterChecks(vars: map<string, Value>, users: seq<User>, username: string,
                                          email: string, fullName: string, password: string,
                                          confirmPassword: string)
    requires SubmitRegistration(vars, username, email, fullName, password, confirmPassword).CallRegister?
    ensures var check := RegistrationCheck(users, username, password, email, fullName);
            check.None? || check == Some(AccountExists)
    ensures RegistrationCheck(users, username, password, email, fullName).None? <==>
              !HasUsername(users, username) && !HasEmail(users, email)
  {
  }

  /** The page checks that the passwords agree before the terms box and the
      password's strength: once the fields are filled and the email is valid,
      two different passwords are always reported as a mismatch. */
  lemma MismatchReportedBeforeStrength(vars: map<string, Value>, username: string, email: string,
                                       fullName: string, password: string, confirmPassword: string)
    requires username != "" && email != "" && fullName != "" && password != "" && confirmPassword != ""
    requires ValidateEmail(email) && password != confirmPassword
    ensures SubmitRegistration(vars, username, email, fullName, password, confirmPassword) == ShowError(PasswordsDiffer)
  {
  }

  /** For example, the weak password "abc" confirmed as "abd". */
  lemma MismatchExample(vars: map<string, Value>)
    ensures SubmitRegistration(vars, "ann", "ann@example.com", "Ann", "abc", "abd") == ShowError(PasswordsDiffer)
  {
    var s := "ann@example.com";
    assert ShapeAt(s, 3, 11);
    MismatchReportedBeforeStrength(vars, "ann", s, "Ann", "abc", "abd");
  }
}
