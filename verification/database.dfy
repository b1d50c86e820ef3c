/** The SQLite database of modules/database.py: the `users` and
    `knowledge_items` tables as sequences of rows in rowid order, the
    AUTOINCREMENT counters, and the password hash.

    SHA-256 is replaced by the abstract function `hash` that a `Db` is created
    with; timestamps are integers (the source's "%Y-%m-%d %H:%M:%S" strings
    sort the same way). */
module Database {
  import opened Wrappers

  const DefaultAdminUsername: string := "admin"
  const DefaultAdminPassword: string := "admin123"
  const DefaultAdminEmail: string := "admin@example.com"

  /** A `users` row. */
  datatype User = User(id: int, username: string, password: string, email: string, fullName: string,
                       role: string, status: string, createdDate: int)

  /** A `knowledge_items` row; `vector_indexed` is the boolean 0/1 column. */
  datatype Item = Item(id: int, title: string, content: string, category: string, tags: string,
                       createdDate: int, lastUpdated: int, authorId: int, filePath: Option<string>,
                       vectorIndexed: bool)

  /** `make_password_hash`. */
  function MakePasswordHash(hash: string -> string, password: string): string
  {
    hash(password)
  }

  /** `verify_password`: the password hashes to the stored hash. */
  predicate VerifyPassword(hash: string -> string, password: string, hashed: string)
  {
    MakePasswordHash(hash, password) == hashed
  }

  /** A password always verifies against its own hash, and verification
      accepts exactly the passwords whose hash is the stored one. */
  lemma VerifyOwnHash(hash: string -> string, password: string, hashed: string)
    ensures VerifyPassword(hash, password, MakePasswordHash(hash, password))
    ensures VerifyPassword(hash, password, hashed) <==> hash(password) == hashed
  {
  }

  predicate UserIdsAscending(users: seq<User>)
  {
    forall i, j :: 0 <= i < j < |users| ==> users[i].id < users[j].id
  }

  predicate ItemIdsAscending(items: seq<Item>)
  {
    forall i, j :: 0 <= i < j < |items| ==> items[i].id < items[j].id
  }

  /** The UNIQUE constraints on `users.username` and `users.email`. */
  predicate UniqueAccounts(users: seq<User>)
  {
    forall i, j :: 0 <= i < j < |users| ==>
      users[i].username != users[j].username && users[i].email != users[j].email
  }

  predicate HasUsername(users: seq<User>, name: string)
  {
    exists i :: 0 <= i < |users| && users[i].username == name
  }

  predicate HasEmail(users: seq<User>, email: string)
  {
    exists i :: 0 <= i < |users| && users[i].email == email
  }

  /** The row `init_database` inserts for the default administrator. */
  function AdminRow(id: int, hash: string -> string, now: int): User
  {
    User(id, DefaultAdminUsername, MakePasswordHash(hash, DefaultAdminPassword), DefaultAdminEmail,
         "System Administrator", "admin", "approved", now)
  }

  /** The seeding step of `init_database`: the users table afterwards, or None
      when the INSERT violates the UNIQUE constraint on `email` and raises. */
  function SeedAdmin(users: seq<User>, nextId: int, hash: string -> string, now: int): (r: Option<seq<User>>)
    ensures HasUsername(users, DefaultAdminUsername) ==> r == Some(users)
    ensures r.None? <==> !HasUsername(users, DefaultAdminUsername) && HasEmail(users, DefaultAdminEmail)
    ensures r.Some? ==> HasUsername(r.value, DefaultAdminUsername)
    ensures r.Some? && !HasUsername(users, DefaultAdminUsername) ==>
              r.value == users + [AdminRow(nextId, hash, now)]
              && r.value[|users|].role == "admin" && r.value[|users|].status == "approved"
  {
    if HasUsername(users, DefaultAdminUsername) then Some(users)
    else if HasEmail(users, DefaultAdminEmail) then None
    else
      var u := users + [AdminRow(nextId, hash, now)];
      assert u[|users|].username == DefaultAdminUsername;
      Some(u)
  }

  /** Seeding twice is seeding once, whatever the second call's id and time. */
  lemma SeedAdminIdempotent(users: seq<User>, nextId: int, hash: string -> string, now: int,
                            nextId2: int, now2: int)
    requires SeedAdmin(users, nextId, hash, now).Some?
    ensures SeedAdmin(SeedAdmin(users, nextId, hash, now).value, nextId2, hash, now2)
            == SeedAdmin(users, nextId, hash, now)
  {
  }

  /** With unique usernames, a seeded table holds exactly one admin row. */
  lemma {:induction false} SeedAdminLeavesOneAdmin(users: seq<User>, nextId: int, hash: string -> string, now: int)
    requires UniqueAccounts(users)
    requires forall i :: 0 <= i < |users| ==> users[i].id < nextId
    requires SeedAdmin(users, nextId, hash, now).Some?
    ensures var u := SeedAdmin(users, nextId, hash, now).value;
            UniqueAccounts(u)
            && exists i :: 0 <= i < |u| && u[i].username == DefaultAdminUsername
                 && forall j :: 0 <= j < |u| && u[j].username == DefaultAdminUsername ==> j == i
  {
    var u := SeedAdmin(users, nextId, hash, now).value;
    if HasUsername(users, DefaultAdminUsername) {
      var i :| 0 <= i < |users| && users[i].username == DefaultAdminUsername;
      assert forall j :: 0 <= j < |u| && u[j].username == DefaultAdminUsername ==> j == i;
    } else {
      assert u == users + [AdminRow(nextId, hash, now)];
      var i := |users|;
      assert forall j :: 0 <= j < |u| && u[j].username == DefaultAdminUsername ==> j == i;
      assert forall j :: 0 <= j < |users| ==> u[j].email != DefaultAdminEmail;
    }
  }

  /** ORDER BY last_updated DESC, as an ascending key. */
  function ItemRecency(it: Item): int
  {
    -it.lastUpdated
  }

  /** ORDER BY created_date DESC, as an ascending key. */
  function UserRecency(u: User): int
  {
    -u.createdDate
  }

  /** The database file. `CREATE TABLE IF NOT EXISTS` is idempotent, so a `Db`
      starts with both tables present and empty. */
  class Db {
    var users: seq<User>
    var items: seq<Item>
    var nextUserId: int
    var nextItemId: int
    const hash: string -> string

    /** Row ids are positive, ascending in rowid order and below the
        AUTOINCREMENT counters; usernames and emails are unique. */
    ghost predicate Valid()
      reads this
    {
      && 1 <= nextUserId && 1 <= nextItemId
      && UserIdsAscending(users) && (forall i :: 0 <= i < |users| ==> 1 <= users[i].id < nextUserId)
      && ItemIdsAscending(items) && (forall i :: 0 <= i < |items| ==> 1 <= items[i].id < nextItemId)
      && UniqueAccounts(users)
    }

    constructor (hash: string -> string)
      ensures Valid() && users == [] && items == [] && this.hash == hash
    {
      users, items := [], [];
      nextUserId, nextItemId := 1, 1;
      this.hash := hash;
    }

    /** `init_database()`: true when it returns, false when the admin INSERT raises. */
    method InitDatabase(now: int) returns (ok: bool)
      requires Valid()
      modifies this
      ensures Valid() && items == old(items) && nextItemId == old(nextItemId)
      ensures ok == SeedAdmin(old(users), old(nextUserId), hash, now).Some?
      ensures ok ==> users == SeedAdmin(old(users), old(nextUserId), hash, now).value
      ensures !ok ==> users == old(users)
      ensures nextUserId == old(nextUserId) + |users| - |old(users)|
    {
      var adminExists := HasUsername(users, DefaultAdminUsername);
      if !adminExists {
        if HasEmail(users, DefaultAdminEmail) {
          return false;  // IntegrityError on users.email
        }
        users := users + [AdminRow(nextUserId, hash, now)];
        nextUserId := nextUserId + 1;
      }
      ok := true;
    }
  }
}
