/** Account rules of modules/auth.py: the email and password validators, the
    login gate, registration, and the session checks behind the page guards. */
module Auth {
  import opened Wrappers
  import opened Text
  import opened Database
  import opened Session

  /** PASSWORD_MIN_LENGTH in config.py. */
  const PasswordMinLength: nat := 8

  // ---------------------------------------------------------------- email

  /** `[a-zA-Z0-9_.+-]`, the local part. */
  predicate LocalChar(c: char) { IsAlnum(c) || c == '_' || c == '.' || c == '+' || c == '-' }
  /** `[a-zA-Z0-9-]`, the label after '@'. */
  predicate LabelChar(c: char) { IsAlnum(c) || c == '-' }
  /** `[a-zA-Z0-9-.]`, the tail after the first '.' of the domain. */
  predicate TailChar(c: char) { IsAlnum(c) || c == '-' || c == '.' }

  /** Positions lo..hi-1 of `s` are local-part characters. */
  predicate LocalRange(s: string, lo: int, hi: int)
    requires 0 <= lo <= hi <= |s|
  {
    forall k :: lo <= k < hi ==> LocalChar(s[k])
  }

  predicate LabelRange(s: string, lo: int, hi: int)
    requires 0 <= lo <= hi <= |s|
  {
    forall k :: lo <= k < hi ==> LabelChar(s[k])
  }

  predicate TailRange(s: string, lo: int, hi: int)
    requires 0 <= lo <= hi <= |s|
  {
    forall k :: lo <= k < hi ==> TailChar(s[k])
  }

  /** `s` is local '@' label '.' tail with its '@' at `at` and that '.' at `dot`,
      each part non-empty. */
  predicate ShapeAt(s: string, at: int, dot: int)
  {
    && 0 < at && at + 1 < dot < |s| - 1 && s[at] == '@' && s[dot] == '.'
    && LocalRange(s, 0, at) && LabelRange(s, at + 1, dot) && TailRange(s, dot + 1, |s|)
  }

  /** The whole string has the shape of the pattern for some split. */
  ghost predicate EmailShape(s: string)
  {
    exists at, dot :: ShapeAt(s, at, dot)
  }

  /** The first position at or after `from` where `s` holds `c`. */
  function IndexFrom(s: string, c: char, from: nat): (r: Option<nat>)
    ensures r.Some? ==> from <= r.value < |s| && s[r.value] == c
                        && forall k :: from <= k < r.value ==> s[k] != c
    ensures r.None? ==> forall k :: from <= k < |s| ==> s[k] != c
    decreases |s| - from
  {
    if from >= |s| then None
    else if s[from] == c then Some(from)
    else IndexFrom(s, c, from + 1)
  }

  /** The pattern matched against the whole string, by hand: the first '@',
      then the first '.' after it, then the three character classes. */
  function FullMatch(s: string): bool
  {
    match IndexFrom(s, '@', 0)
    case None => false
    case Some(at) =>
      match IndexFrom(s, '.', at + 1)
      case None => false
      case Some(dot) =>
        0 < at && at + 1 < dot && dot + 1 < |s|
        && LocalRange(s, 0, at) && LabelRange(s, at + 1, dot) && TailRange(s, dot + 1, |s|)
  }

  /** The hand-written match succeeds exactly when the string has the shape:
      the local part cannot hold '@' and the label cannot hold '.', so the
      first ones are the only possible split points. */
  lemma FullMatchIsShape(s: string)
    ensures FullMatch(s) <==> EmailShape(s)
  {
    if FullMatch(s) {
      var at := IndexFrom(s, '@', 0).value;
      var dot := IndexFrom(s, '.', at + 1).value;
      assert ShapeAt(s, at, dot);
    }
    if EmailShape(s) {
      var at, dot :| ShapeAt(s, at, dot);
      assert forall k :: 0 <= k < at ==> LocalChar(s[k]);
      assert IndexFrom(s, '@', 0) == Some(at);
      assert forall k :: at + 1 <= k < dot ==> LabelChar(s[k]);
      assert IndexFrom(s, '.', at + 1) == Some(dot);
    }
  }

  /** `validate_email`: `re.match` with `^...$`, where `$` also matches just
      before a final newline. */
  function ValidateEmail(email: string): (ok: bool)
    ensures ok <==> EmailShape(email)
                    || (|email| > 0 && email[|email| - 1] == '\n' && EmailShape(email[..|email| - 1]))
  {
    FullMatchIsShape(email);
    if |email| > 0 && email[|email| - 1] == '\n' then
      FullMatchIsShape(email[..|email| - 1]);
      FullMatch(email) || FullMatch(email[..|email| - 1])
    else FullMatch(email)
  }

  /** No character class of the pattern contains '@'. */
  lemma ShapeHasOneAt(s: string, at: int, dot: int)
    requires ShapeAt(s, at, dot)
    ensures forall k :: 0 <= k < |s| && k != at ==> s[k] != '@'
  {
    forall k | 0 <= k < |s| && k != at
      ensures s[k] != '@'
    {
      if k < at {
        assert LocalChar(s[k]);
      } else if k < dot {
        assert LabelChar(s[k]);
      } else if k > dot {
        assert TailChar(s[k]);
      }
    }
  }

  /** An accepted address holds exactly one '@', with something on each side. */
  lemma AcceptedEmailHasOneAt(email: string)
    requires ValidateEmail(email)
    ensures exists at :: 0 < at < |email| - 1 && email[at] == '@'
              && forall k :: 0 <= k < |email| && k != at ==> email[k] != '@'
  {
    if EmailShape(email) {
      var at, dot :| ShapeAt(email, at, dot);
      ShapeHasOneAt(email, at, dot);
    } else {
      var s := email[..|email| - 1];
      var at, dot :| ShapeAt(s, at, dot);
      ShapeHasOneAt(s, at, dot);
      assert forall k :: 0 <= k < |s| ==> email[k] == s[k];
      assert email[|email| - 1] == '\n';
    }
  }

  /** The default administrator's address is accepted, also with a trailing
      newline; an address without a dot after '@' or without a local part is not. */
  lemma EmailExamples()
    ensures ValidateEmail("admin@example.com")
    ensures ValidateEmail("admin@example.com\n")
    ensures !ValidateEmail("a@b")
    ensures !ValidateEmail("@example.com")
  {
    var s := "admin@example.com";
    assert ShapeAt(s, 5, 13);
    assert "admin@example.com\n"[..17] == s;
    assert !FullMatch("a@b") && !FullMatch("@example.com");
    FullMatchIsShape("a@b");
    FullMatchIsShape("@example.com");
  }

  // ---------------------------------------------------------------- password

  predicate HasUpper(p: string) { exists k :: 0 <= k < |p| && IsUpper(p[k]) }
  predicate HasLower(p: string) { exists k :: 0 <= k < |p| && IsLower(p[k]) }
  predicate HasDigit(p: string) { exists k :: 0 <= k < |p| && IsDigit(p[k]) }

  const TooShort: string := "Password must be at least 8 characters"
  const NoUpper: string := "Password must contain at least one uppercase letter"
  const NoLower: string := "Password must contain at least one lowercase letter"
  const NoDigit: string := "Password must contain at least one number"

  /** Every rule the password breaks, in the order the checks are written. */
  function PasswordErrors(p: string): (errs: seq<string>)
    ensures |errs| <= 4
  {
    (if |p| < PasswordMinLength then [TooShort] else [])
    + (if HasUpper(p) then [] else [NoUpper])
    + (if HasLower(p) then [] else [NoLower])
    + (if HasDigit(p) then [] else [NoDigit])
  }

  /** `validate_password`: accepted exactly when the password breaks no rule;
      otherwise the message is the first rule it breaks. */
  function ValidatePassword(p: string): (r: (bool, string))
    ensures r.0 <==> PasswordErrors(p) == []
    ensures r.0 <==> |p| >= PasswordMinLength && HasUpper(p) && HasLower(p) && HasDigit(p)
    ensures r.0 ==> r.1 == ""
    ensures !r.0 ==> r.1 == PasswordErrors(p)[0]
  {
    if |p| < PasswordMinLength then (false, TooShort)
    else if !HasUpper(p) then (false, NoUpper)
    else if !HasLower(p) then (false, NoLower)
    else if !HasDigit(p) then (false, NoDigit)
    else (true, "")
  }

  /** A short password is reported as short even when it breaks every other rule. */
  lemma ShortPasswordReportsLength(p: string)
    requires |p| < PasswordMinLength
    ensures ValidatePassword(p) == (false, TooShort)
  {
  }

  /** Three passwords, one for each of the length rule, the uppercase rule
      and acceptance. */
  lemma PasswordExamples()
    ensures ValidatePassword("abc") == (false, TooShort)
    ensures ValidatePassword("abcdefgh") == (false, NoUpper)
    ensures ValidatePassword("Abcdefgh1") == (true, "")
  {
    assert IsUpper("Abcdefgh1"[0]) && IsLower("Abcdefgh1"[1]) && IsDigit("Abcdefgh1"[8]);
  }

  // ---------------------------------------------------------------- login

  /** `SELECT * FROM users WHERE username = ?`, first row. */
  function FindUser(users: seq<User>, username: string): (r: Option<User>)
    ensures r.Some? <==> HasUsername(users, username)
    ensures r.Some? ==> r.value in users && r.value.username == username
  {
    if users == [] then None
    else if users[0].username == username then Some(users[0])
    else
      var r := FindUser(users[1..], username);
      assert forall i :: 0 <= i < |users| - 1 ==> users[1..][i] == users[i + 1];
      r
  }

  /** `login_user`: the row, only for a known username whose password verifies
      and whose status is 'approved'. */
  function LoginUser(users: seq<User>, hash: string -> string, username: string, password: string): (r: Option<User>)
    ensures r.Some? ==> r.value in users && r.value.username == username
                        && VerifyPassword(hash, password, r.value.password) && r.value.status == "approved"
  {
    var user := FindUser(users, username);
    if user.Some? && VerifyPassword(hash, password, user.value.password) then
      if user.value.status == "approved" then user else None
    else None
  }

  /** With unique usernames, login succeeds exactly for an approved account
      whose stored hash is the hash of the password given. */
  lemma LoginGate(users: seq<User>, hash: string -> string, username: string, password: string)
    requires UniqueAccounts(users)
    ensures LoginUser(users, hash, username, password).Some? <==>
              exists i :: 0 <= i < |users| && users[i].username == username
                && users[i].password == hash(password) && users[i].status == "approved"
  {
    var user := FindUser(users, username);
    if user.Some? {
      forall i | 0 <= i < |users| && users[i].username == username
        ensures users[i] == user.value
      {
        var j :| 0 <= j < |users| && users[j] == user.value;
      }
    }
  }

  // ---------------------------------------------------------------- registration

  const AllFieldsRequired: string := "All fields are required"
  const InvalidEmailFormat: string := "Invalid email format"
  const AccountExists: string := "Username or email already exists"
  const RegistrationSucceeded: string := "Registration successful. Please wait for admin approval."

  /** Every check `register_user` makes that fails, in the order it makes them. */
  function RegistrationErrors(users: seq<User>, username: string, password: string, email: string,
                              fullName: string): seq<string>
  {
    (if username == "" || password == "" || email == "" || fullName == "" then [AllFieldsRequired] else [])
    + (if ValidateEmail(email) then [] else [InvalidEmailFormat])
    + (if ValidatePassword(password).0 then [] else [ValidatePassword(password).1])
    + (if HasUsername(users, username) || HasEmail(users, email) then [AccountExists] else [])
  }

  /** The guards `register_user` runs before it opens the database: the
      message of the first that fails. */
  function InputCheck(username: string, password: string, email: string, fullName: string): (r: Option<string>)
    ensures r.None? <==> username != "" && password != "" && email != "" && fullName != ""
                         && ValidateEmail(email) && ValidatePassword(password).0
    ensures r.Some? ==> r.value != AccountExists
  {
    if username == "" || password == "" || email == "" || fullName == "" then Some(AllFieldsRequired)
    else if !ValidateEmail(email) then Some(InvalidEmailFormat)
    else if !ValidatePassword(password).0 then Some(ValidatePassword(password).1)
    else None
  }

  /** The guards of `register_user`: the message of the first that fails. */
  function RegistrationCheck(users: seq<User>, username: string, password: string, email: string,
                             fullName: string): (r: Option<string>)
    ensures var errs := RegistrationErrors(users, username, password, email, fullName);
            (r.None? <==> errs == []) && (r.Some? ==> r.value == errs[0])
  {
    var input := InputCheck(username, password, email, fullName);
    if input.Some? then input
    else if HasUsername(users, username) || HasEmail(users, email) then Some(AccountExists)
    else None
  }

  /** The row a successful registration inserts: role 'user', status 'pending'. */
  function NewUserRow(id: int, hash: string -> string, username: string, password: string, email: string,
                      fullName: string, now: int): User
  {
    User(id, username, MakePasswordHash(hash, password), email, fullName, "user", "pending", now)
  }

  /** `register_user`. `fault` is the text of an exception raised by the
      database inside the `try` block, if one is. */
  method RegisterUser(db: Db, username: string, password: string, email: string, fullName: string,
                      now: int, fault: Option<string>) returns (ok: bool, msg: string)
    requires db.Valid()
    modifies db
    ensures db.Valid() && db.items == old(db.items) && db.nextItemId == old(db.nextItemId)
    // the input guards come first, then the database, which may raise before
    // the uniqueness query runs
    ensures var input := InputCheck(username, password, email, fullName);
            && (input.Some? ==> !ok && msg == input.value)
            && (input.None? && fault.Some? ==> !ok && msg == "Registration failed: " + fault.value)
    ensures var check := RegistrationCheck(old(db.users), username, password, email, fullName);
            && (check.Some? && fault.None? ==> !ok && msg == check.value)
            && (ok <==> check.None? && fault.None?)
    ensures !ok ==> db.users == old(db.users) && db.nextUserId == old(db.nextUserId)
    ensures ok ==> msg == RegistrationSucceeded && db.nextUserId == old(db.nextUserId) + 1
                   && db.users == old(db.users)
                      + [NewUserRow(old(db.nextUserId), db.hash, username, password, email, fullName, now)]
  {
    var input := InputCheck(username, password, email, fullName);
    if input.Some? {
      return false, input.value;
    }
    if fault.Some? {
      return false, "Registration failed: " + fault.value;
    }
    if HasUsername(db.users, username) || HasEmail(db.users, email) {
      return false, AccountExists;
    }
    db.users := db.users + [NewUserRow(db.nextUserId, db.hash, username, password, email, fullName, now)];
    db.nextUserId := db.nextUserId + 1;
    ok, msg := true, RegistrationSucceeded;
  }

  /** A freshly registered account cannot log in until an administrator approves it. */
  lemma NewAccountCannotLogIn(users: seq<User>, id: int, hash: string -> string, username: string,
                              password: string, email: string, fullName: string, now: int)
    requires UniqueAccounts(users) && !HasUsername(users, username) && !HasEmail(users, email)
    ensures LoginUser(users + [NewUserRow(id, hash, username, password, email, fullName, now)],
                      hash, username, password).None?
  {
    var users' := users + [NewUserRow(id, hash, username, password, email, fullName, now)];
    assert UniqueAccounts(users');
    LoginGate(users', hash, username, password);
  }

  // ---------------------------------------------------------------- session guards

  /** `check_auth`: whether the session is logged in, and its role. */
  function CheckAuth(vars: map<string, Value>): (r: (bool, Option<Value>))
    ensures r.0 <==> "logged_in" in vars && Truthy(vars["logged_in"])
    ensures !r.0 ==> r.1 == None
    ensures r.0 ==> r.1 == Some(Get(vars, "user_role", Str("user")))
  {
    if "logged_in" !in vars || !Truthy(vars["logged_in"]) then (false, None)
    else (true, Some(Get(vars, "user_role", Str("user"))))
  }

  /** `require_auth(page)`: the page's result when logged in; otherwise the
      page does not run (an error is shown and the script reruns). */
  function RequireAuth<R>(vars: map<string, Value>, page: R): (r: Option<R>)
    ensures r.Some? <==> "logged_in" in vars && Truthy(vars["logged_in"])
    ensures r.Some? ==> r.value == page
  {
    if CheckAuth(vars).0 then Some(page) else None
  }

  /** `require_admin(page)`: the page runs only for a logged-in session whose
      role is 'admin'. */
  function RequireAdmin<R>(vars: map<string, Value>, page: R): (r: Option<R>)
    ensures r.Some? <==> "logged_in" in vars && Truthy(vars["logged_in"])
                         && "user_role" in vars && vars["user_role"] == Str("admin")
    ensures r.Some? ==> r.value == page
  {
    var (authenticated, role) := CheckAuth(vars);
    if authenticated && role == Some(Str("admin")) then Some(page) else None
  }

  /** Every page an administrator may open, a logged-in user may open too;
      a session without a role is an ordinary user. */
  lemma AdminPagesNeedLogin<R>(vars: map<string, Value>, page: R)
    ensures RequireAdmin(vars, page).Some? ==> RequireAuth(vars, page).Some?
    ensures "logged_in" in vars && Truthy(vars["logged_in"]) && "user_role" !in vars ==>
              CheckAuth(vars) == (true, Some(Str("user"))) && RequireAdmin(vars, page).None?
  {
  }
}
