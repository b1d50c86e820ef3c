/** User administration of modules/users.py: status and role changes, profile
    updates, and the two listing queries. */
module Users {
  import opened Wrappers
  import opened Seqs
  import opened Database
  import opened Auth

  /** The values `update_user_status` accepts. */
  const Statuses: seq<string> := ["pending", "approved", "rejected"]
  /** The values `update_user_role` accepts. */
  const Roles: seq<string> := ["user", "admin"]

  /** `UPDATE users SET status = ? WHERE id = ?`. */
  function SetStatus(users: seq<User>, id: int, status: string): (r: seq<User>)
    ensures |r| == |users|
    ensures forall i :: 0 <= i < |users| && users[i].id != id ==> r[i] == users[i]
    // the row with the id gets the new status and keeps every other column
    ensures forall i :: 0 <= i < |users| && users[i].id == id ==>
              r[i].status == status && r[i].(status := users[i].status) == users[i]
  {
    seq(|users|, i requires 0 <= i < |users| =>
      if users[i].id == id then users[i].(status := status) else users[i])
  }

  /** `UPDATE users SET role = ? WHERE id = ?`. */
  function SetRole(users: seq<User>, id: int, role: string): (r: seq<User>)
    ensures |r| == |users|
    ensures forall i :: 0 <= i < |users| && users[i].id != id ==> r[i] == users[i]
    // the row with the id gets the new role and keeps every other column
    ensures forall i :: 0 <= i < |users| && users[i].id == id ==>
              r[i].role == role && r[i].(role := users[i].role) == users[i]
  {
    seq(|users|, i requires 0 <= i < |users| =>
      if users[i].id == id then users[i].(role := role) else users[i])
  }

  /** `UPDATE users SET email = ?, full_name = ?[, password = ?] WHERE id = ?`;
      `password` is None when the password column is not written. */
  function SetProfile(users: seq<User>, id: int, email: string, fullName: string,
                      password: Option<string>): (r: seq<User>)
    ensures |r| == |users|
    ensures forall i :: 0 <= i < |users| && users[i].id != id ==> r[i] == users[i]
    // the row with the id gets the new email and name, the new password hash
    // only when one is given, and keeps id, username, role, status and date
    ensures forall i :: 0 <= i < |users| && users[i].id == id ==>
              r[i].email == email && r[i].fullName == fullName
              && r[i].password == (if password.Some? then password.value else users[i].password)
              && r[i].(email := users[i].email, fullName := users[i].fullName,
                       password := users[i].password) == users[i]
  {
    seq(|users|, i requires 0 <= i < |users| =>
      if users[i].id == id
      then users[i].(email := email, fullName := fullName,
                     password := if password.Some? then password.value else users[i].password)
      else users[i])
  }

  /** `SELECT ... FROM users WHERE id = ?`, first row. */
  function FindUserById(users: seq<User>, id: int): (r: Option<User>)
    ensures r.Some? <==> exists i :: 0 <= i < |users| && users[i].id == id
    ensures r.Some? ==> r.value in users && r.value.id == id
  {
    if users == [] then None
    else if users[0].id == id then Some(users[0])
    else
      var r := FindUserById(users[1..], id);
      assert forall i :: 0 <= i < |users| - 1 ==> users[1..][i] == users[i + 1];
      r
  }

  /** `SELECT id FROM users WHERE email = ? AND id != ?` finds a row. */
  predicate EmailTakenByOther(users: seq<User>, email: string, id: int)
  {
    exists i :: 0 <= i < |users| && users[i].email == email && users[i].id != id
  }

  /** An optional form value that Python treats as true. */
  predicate Given(o: Option<string>)
  {
    o.Some? && o.value != ""
  }

  /** Changing a field other than username and email keeps the table valid. */
  lemma SetStatusKeepsAccounts(users: seq<User>, id: int, status: string, role: string)
    requires UniqueAccounts(users) && UserIdsAscending(users)
    ensures var r := SetStatus(users, id, status);
            UniqueAccounts(r) && UserIdsAscending(r)
            && forall i :: 0 <= i < |r| ==> r[i].id == users[i].id
    ensures var r := SetRole(users, id, role);
            UniqueAccounts(r) && UserIdsAscending(r)
            && forall i :: 0 <= i < |r| ==> r[i].id == users[i].id
  {
  }

  /** Writing an email that no other account holds keeps the emails unique. */
  lemma SetProfileKeepsAccounts(users: seq<User>, id: int, email: string, fullName: string,
                                password: Option<string>)
    requires UniqueAccounts(users) && UserIdsAscending(users)
    requires !EmailTakenByOther(users, email, id)
    ensures var r := SetProfile(users, id, email, fullName, password);
            UniqueAccounts(r) && UserIdsAscending(r)
            && forall i :: 0 <= i < |r| ==> r[i].id == users[i].id
  {
    var r := SetProfile(users, id, email, fullName, password);
    forall i, j | 0 <= i < j < |r|
      ensures r[i].username != r[j].username && r[i].email != r[j].email
    {
      if users[i].id == id {
        assert users[j].id != id;
        assert users[j].email != email;
      } else if users[j].id == id {
        assert users[i].email != email;
      }
    }
  }

  /** `update_user_status`. `fault` is the text of an exception the UPDATE raises, if it does. */
  method UpdateUserStatus(db: Db, userId: int, status: string, fault: Option<string>)
    returns (ok: bool, msg: string)
    requires db.Valid()
    modifies db
    ensures db.Valid() && db.items == old(db.items)
    ensures db.nextUserId == old(db.nextUserId) && db.nextItemId == old(db.nextItemId)
    ensures status !in Statuses ==> !ok && msg == "Invalid status" && db.users == old(db.users)
    ensures status in Statuses && fault.Some? ==> !ok && msg == fault.value && db.users == old(db.users)
    ensures status in Statuses && fault.None? ==>
              ok && msg == "User status updated to " + status && db.users == SetStatus(old(db.users), userId, status)
  {
    if status !in Statuses {
      return false, "Invalid status";
    }
    if fault.Some? {
      return false, fault.value;
    }
    SetStatusKeepsAccounts(db.users, userId, status, "");
    db.users := SetStatus(db.users, userId, status);
    ok, msg := true, "User status updated to " + status;
  }

  /** `update_user_role`. `fault` is the text of an exception the UPDATE raises, if it does. */
  method UpdateUserRole(db: Db, userId: int, role: string, fault: Option<string>)
    returns (ok: bool, msg: string)
    requires db.Valid()
    modifies db
    ensures db.Valid() && db.items == old(db.items)
    ensures db.nextUserId == old(db.nextUserId) && db.nextItemId == old(db.nextItemId)
    ensures role !in Roles ==> !ok && msg == "Invalid role" && db.users == old(db.users)
    ensures role in Roles && fault.Some? ==> !ok && msg == fault.value && db.users == old(db.users)
    ensures role in Roles && fault.None? ==>
              ok && msg == "User role updated to " + role && db.users == SetRole(old(db.users), userId, role)
  {
    if role !in Roles {
      return false, "Invalid role";
    }
    if fault.Some? {
      return false, fault.value;
    }
    SetStatusKeepsAccounts(db.users, userId, "", role);
    db.users := SetRole(db.users, userId, role);
    ok, msg := true, "User role updated to " + role;
  }

  /** `update_user_profile`. `fault` is the text of an exception a database
      statement raises inside the `try` block, if one does. */
  method UpdateUserProfile(db: Db, userId: int, email: string, fullName: string,
                           currentPassword: Option<string>, newPassword: Option<string>,
                           fault: Option<string>) returns (ok: bool, msg: string)
    requires db.Valid()
    modifies db
    ensures db.Valid() && db.items == old(db.items)
    ensures db.nextUserId == old(db.nextUserId) && db.nextItemId == old(db.nextItemId)
    ensures !ok ==> db.users == old(db.users)
    ensures !ValidateEmail(email) ==> !ok && msg == InvalidEmailFormat
    ensures ValidateEmail(email) && fault.Some? ==> !ok && msg == fault.value
    ensures ValidateEmail(email) && fault.None? && EmailTakenByOther(old(db.users), email, userId) ==>
              !ok && msg == "Email already in use by another account"
    ensures ValidateEmail(email) && fault.None? && !EmailTakenByOther(old(db.users), email, userId) ==>
              var row := FindUserById(old(db.users), userId);
              if Given(newPassword) && Given(currentPassword) then
                if row.Some? && VerifyPassword(db.hash, currentPassword.value, row.value.password) then
                  ok && msg == "Profile updated successfully"
                  && db.users == SetProfile(old(db.users), userId, email, fullName,
                                            Some(MakePasswordHash(db.hash, newPassword.value)))
                else !ok && msg == "Current password is incorrect"
              else
                ok && msg == "Profile updated successfully"
                && db.users == SetProfile(old(db.users), userId, email, fullName, None)
  {
    if !ValidateEmail(email) {
      return false, InvalidEmailFormat;
    }
    if fault.Some? {
      return false, fault.value;
    }
    if EmailTakenByOther(db.users, email, userId) {
      return false, "Email already in use by another account";
    }
    var password: Option<string> := None;
    if Given(newPassword) && Given(currentPassword) {
      var row := FindUserById(db.users, userId);
      if row.None? || !VerifyPassword(db.hash, currentPassword.value, row.value.password) {
        return false, "Current password is incorrect";
      }
      password := Some(MakePasswordHash(db.hash, newPassword.value));
    }
    var updated := SetProfile(db.users, userId, email, fullName, password);
    SetProfileKeepsAccounts(db.users, userId, email, fullName, password);
    SameUserIdsInRange(db.users, updated, db.nextUserId);
    db.users := updated;
    ok, msg := true, "Profile updated successfully";
  }

  /** An UPDATE that keeps every row's id keeps the ids below the counter. */
  lemma SameUserIdsInRange(users: seq<User>, r: seq<User>, next: int)
    requires forall i :: 0 <= i < |users| ==> 1 <= users[i].id < next
    requires |r| == |users| && forall i :: 0 <= i < |users| ==> r[i].id == users[i].id
    ensures forall i :: 0 <= i < |r| ==> 1 <= r[i].id < next
  {
  }

  /** Approving an account lets its owner log in with the right password. */
  lemma ApprovalEnablesLogin(users: seq<User>, hash: string -> string, i: int, password: string)
    requires UniqueAccounts(users) && UserIdsAscending(users)
    requires 0 <= i < |users| && users[i].password == hash(password)
    ensures LoginUser(SetStatus(users, users[i].id, "approved"), hash, users[i].username, password).Some?
    ensures LoginUser(SetStatus(users, users[i].id, "rejected"), hash, users[i].username, password).None?
  {
    SetStatusKeepsAccounts(users, users[i].id, "approved", "");
    SetStatusKeepsAccounts(users, users[i].id, "rejected", "");
    var approved := SetStatus(users, users[i].id, "approved");
    var rejected := SetStatus(users, users[i].id, "rejected");
    LoginGate(approved, hash, users[i].username, password);
    LoginGate(rejected, hash, users[i].username, password);
    assert approved[i].status == "approved";
    forall j | 0 <= j < |rejected| && rejected[j].username == users[i].username
      ensures rejected[j].status != "approved"
    {
      assert j == i;
    }
  }

  predicate IsPending(u: User)
  {
    u.status == "pending"
  }

  /** `get_pending_users()`: exactly the pending accounts, newest first. */
  function GetPendingUsers(users: seq<User>): (r: seq<User>)
    ensures forall i :: 0 <= i < |r| ==> IsPending(r[i])
    ensures multiset(r) <= multiset(users)
    ensures forall u | u in multiset(users) && IsPending(u) :: multiset(r)[u] == multiset(users)[u]
    ensures forall i, j :: 0 <= i < j < |r| ==> r[i].createdDate >= r[j].createdDate
  {
    Select(users, IsPending, UserRecency)
  }

  /** The columns `get_user_contributions` selects. */
  datatype Contribution = Contribution(id: int, title: string, category: string, createdDate: int, lastUpdated: int)

  function Summary(it: Item): Contribution
  {
    Contribution(it.id, it.title, it.category, it.createdDate, it.lastUpdated)
  }

  /** The rows of `get_user_contributions`: exactly the user's items, most
      recently updated first. */
  function AuthoredBy(items: seq<Item>, userId: int): (r: seq<Item>)
    ensures forall i :: 0 <= i < |r| ==> r[i].authorId == userId
    ensures multiset(r) <= multiset(items)
    ensures forall x | x in multiset(items) && x.authorId == userId :: multiset(r)[x] == multiset(items)[x]
    ensures forall i, j :: 0 <= i < j < |r| ==> r[i].lastUpdated >= r[j].lastUpdated
  {
    Select(items, (it: Item) => it.authorId == userId, ItemRecency)
  }

  /** `get_user_contributions(user_id)`. */
  function GetUserContributions(items: seq<Item>, userId: int): (r: seq<Contribution>)
    ensures |r| == |AuthoredBy(items, userId)|
    ensures forall i :: 0 <= i < |r| ==> r[i] == Summary(AuthoredBy(items, userId)[i])
  {
    var rows := AuthoredBy(items, userId);
    seq(|rows|, i requires 0 <= i < |rows| => Summary(rows[i]))
  }
}
