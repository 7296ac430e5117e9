/** `app/routers/auth.py`: registration, login and the profile update of the
    signed-in user. Token issuing, refresh and `GET /me` only wrap a user row
    and are not part of this model; password hashing and its check are the
    parameters `hash` and `verify`. */
module AuthRouter {
  import opened Common
  import opened Text
  import opened Records
  import opened Constraints
  import opened Store
  import opened Enumeration
  import opened AuthSchemas

  /** `.lower().strip()`, applied to every e-mail and username the router
      stores or looks up. */
  function Normalize(s: string): (r: string)
    ensures Lower(r) == r && Strip(r) == r
    ensures |r| <= |s|
  {
    LowerStripCommute(Lower(s));
    LowerIdempotent(s);
    StripIdempotent(Lower(s));
    StripIsTrimmedSlice(Lower(s));
    Strip(Lower(s))
  }

  lemma NormalizeIdempotent(s: string)
    ensures Normalize(Normalize(s)) == Normalize(s)
  {
    var n := Normalize(s);
    assert Normalize(n) == Strip(Lower(n)) == Strip(n);
  }

  /** `select(User).where(User.email == email)` finds a row. */
  predicate EmailTaken(users: Users, email: string) {
    exists u :: u in users && users[u].email == email
  }

  /** `select(User).where(func.lower(User.username) == username)`, leaving
      out the row `except` when one is given; a NULL username matches nothing. */
  predicate UsernameTaken(users: Users, username: string, except: Option<Id>) {
    exists u :: u in users && Some(u) != except && users[u].username.Some?
      && Lower(users[u].username.value) == username
  }

  /** The row found by e-mail, if any (at most one: `email` is unique). */
  function FindByEmail(users: Users, email: string): (r: Option<Id>)
    ensures r.Some? <==> EmailTaken(users, email)
    ensures r.Some? ==> r.value in users && users[r.value].email == email
  {
    var hits := set u | u in users && users[u].email == email;
    if hits == {} then
      assert forall u :: u in users && users[u].email == email ==> u in hits;
      None
    else Some(Minimum(hits))
  }

  /** The 409 of account creation: the normalised e-mail, or the username
      whatever its case, is already held by some row. */
  predicate AccountTaken(users: Users, account: NewAccount) {
    EmailTaken(users, Normalize(account.email)) || UsernameTaken(users, Normalize(account.username), None)
  }

  /** The insert shared by `register` and the admin's `create_user`: both
      normalise the e-mail and the username, refuse a taken one with 409 and
      insert the row, whose role the `set_first_user_admin` trigger makes
      "admin" when the table is empty. The `IntegrityError` branch cannot be
      reached here: the two lookups rule out both unique violations. */
  method CreateAccount(db: Database, account: NewAccount, newId: Id, hash: string -> string, now: Timestamp)
    returns (r: Result<User>)
    requires db.Valid() && newId !in db.users
    modifies db`users
    ensures db.Valid()
    ensures r.Err? <==> AccountTaken(old(db.users), account)
    ensures r.Err? ==> r.status == Conflict && db.users == old(db.users)
    ensures r.Ok? ==> r.value == User(newId, Normalize(account.email), Some(Strip(account.name)),
      Some(Normalize(account.username)), hash(account.password),
      FirstUserRole(|old(db.users)|, account.role), now, now)
    ensures r.Ok? ==> db.users == old(db.users)[newId := r.value]
  {
    var email := Normalize(account.email);
    var username := Normalize(account.username);
    if EmailTaken(db.users, email) {
      return Err(Conflict);
    }
    if UsernameTaken(db.users, username, None) {
      return Err(Conflict);
    }
    var row := User(newId, email, Some(Strip(account.name)), Some(username), hash(account.password),
      account.role, now, now);
    var inserted := db.InsertUser(row);
    r := Ok(inserted);
  }

  /** `POST /api/auth/register`: a validated body (422 otherwise) becomes a
      row with the role "user", unless it is the very first user. */
  method Register(db: Database, email: string, name: string, username: string, password: string,
                  newId: Id, hash: string -> string, now: Timestamp)
    returns (r: Result<User>)
    requires db.Valid() && newId !in db.users
    modifies db`users
    ensures db.Valid()
    ensures r == Err(Unprocessable) <==> ValidateNewAccount(email, name, username, password, UserRole).Err?
    ensures r == Err(Conflict) <==>
      ValidateNewAccount(email, name, username, password, UserRole).Ok? &&
      AccountTaken(old(db.users), ValidateNewAccount(email, name, username, password, UserRole).value)
    ensures r.Err? ==> db.users == old(db.users) && r.status in {Unprocessable, Conflict}
    ensures r.Ok? ==> var account := ValidateNewAccount(email, name, username, password, UserRole).value;
      && r.value.email == Normalize(email)
      && r.value.username == Some(account.username)
      && r.value.name == Some(account.name)
      && r.value.passwordHash == hash(password)
      && (r.value.role == AdminRole <==> old(db.users) == map[])
      && db.users == old(db.users)[newId := r.value]
  {
    var body := ValidateNewAccount(email, name, username, password, UserRole);
    if body.Err? {
      return Err(Unprocessable);
    }
    var account := body.value;
    UsernameCharsShape(username);
    StripOfTrimmed(account.name);
    r := CreateAccount(db, account, newId, hash, now);
    EmptyMapSize(old(db.users));
  }

  /** `POST /api/auth/login`: the same 401 whether the e-mail is unknown or
      the password does not match, so the answer does not reveal which. */
  function Login(users: Users, email: string, password: string, verify: (string, string) -> bool)
    : (r: Result<User>)
    requires EmailsUnique(users)
    ensures ValidateLoginPassword(password).Err? ==> r == Err(Unprocessable)
    ensures ValidateLoginPassword(password).Ok? ==>
      (r.Ok? <==> PasswordMatches(users, Normalize(email), password, verify))
    ensures r.Ok? ==> r.value in users.Values && r.value.email == Normalize(email)
    ensures r.Err? ==> r.status in {Unprocessable, Unauthorized}
  {
    if ValidateLoginPassword(password).Err? then Err(Unprocessable)
    else
      match FindByEmail(users, Normalize(email))
      case None =>
        NoHolderNoMatch(users, Normalize(email), password, verify);
        Err(Unauthorized)
      case Some(u) =>
        OnlyHolderCounts(users, Normalize(email), password, verify, u);
        if verify(password, users[u].passwordHash) then Ok(users[u]) else Err(Unauthorized)
  }

  /** Some row holds the address and the hash the password verifies against. */
  predicate PasswordMatches(users: Users, email: string, password: string, verify: (string, string) -> bool) {
    exists u :: u in users && users[u].email == email && verify(password, users[u].passwordHash)
  }

  /** An address no row holds matches no password. */
  lemma NoHolderNoMatch(users: Users, email: string, password: string, verify: (string, string) -> bool)
    requires !EmailTaken(users, email)
    ensures !PasswordMatches(users, email, password, verify)
  {
  }

  /** With unique e-mails, the password is checked against the one row that
      holds the address. */
  lemma OnlyHolderCounts(users: Users, email: string, password: string,
                         verify: (string, string) -> bool, holder: Id)
    requires EmailsUnique(users) && holder in users && users[holder].email == email
    ensures verify(password, users[holder].passwordHash) <==> PasswordMatches(users, email, password, verify)
    ensures users[holder] in users.Values
  {
  }

  /** A user whose row holds the hash of their password can log in with it
      and gets their own row back, whatever spelling of the e-mail they type. */
  lemma RegisteredCanLogin(users: Users, id: Id, email: string, password: string,
                           hash: string -> string, verify: (string, string) -> bool)
    requires EmailsUnique(users)
    requires id in users && users[id].email == Normalize(email)
    requires users[id].passwordHash == hash(password) && verify(password, hash(password))
    requires ValidatePassword(password).Ok?
    ensures Login(users, email, password, verify) == Ok(users[id])
  {
    PasswordPassesLogin(password);
    HolderFound(users, Normalize(email), id);
  }

  /** A password that registration accepts passes the login bound. */
  lemma PasswordPassesLogin(password: string)
    requires ValidatePassword(password).Ok?
    ensures ValidateLoginPassword(password).Ok?
  {
  }

  /** With unique e-mails, the lookup by address finds the row holding it. */
  lemma HolderFound(users: Users, email: string, id: Id)
    requires EmailsUnique(users) && id in users && users[id].email == email
    ensures FindByEmail(users, email) == Some(id)
  {
    assert EmailTaken(users, email);
  }

  /** The row `update_me` leaves in the session: the fields the body sets,
      and everything else as it was. */
  function Profiled(row: User, update: ProfileUpdate): (r: User)
    ensures r.name == (if update.name.Some? then update.name else row.name)
    ensures r.username == (if update.username.Some? then update.username else row.username)
    ensures r.(name := row.name, username := row.username) == row
  {
    var withUsername := if update.username.Some? then row.(username := update.username) else row;
    if update.name.Some? then withUsername.(name := update.name) else withUsername
  }

  /** The edited row keeps the e-mail, and its username clashes with no other
      row once the lookup has found none. */
  lemma ProfiledKeepsUnique(users: Users, caller: Id, update: ProfileUpdate)
    requires UsersValid(users) && caller in users
    requires update.username.Some? ==>
      Lower(update.username.value) == update.username.value
      && !UsernameTaken(users, update.username.value, Some(caller))
    ensures forall u :: u in users && u != caller ==> users[u].email != Profiled(users[caller], update).email
    ensures Profiled(users[caller], update).username.Some? ==>
      forall u :: u in users && u != caller && users[u].username.Some? ==>
        Lower(users[u].username.value) != Lower(Profiled(users[caller], update).username.value)
  {
  }

  /** The commit of `update_me`: the row is written back only when the
      profile actually changed. */
  method ApplyProfile(db: Database, caller: Id, update: ProfileUpdate, now: Timestamp) returns (row: User)
    requires db.Valid() && caller in db.users
    requires update.username.Some? ==>
      Lower(update.username.value) == update.username.value
      && !UsernameTaken(db.users, update.username.value, Some(caller))
    modifies db`users
    ensures db.Valid()
    ensures var edited := Profiled(old(db.users)[caller], update);
      row == (if edited == old(db.users)[caller] then edited else edited.(updatedAt := now))
    ensures db.users == old(db.users)[caller := row]
  {
    var current := db.users[caller];
    var edited := Profiled(current, update);
    if edited == current {
      row := current;
      assert db.users == old(db.users)[caller := current];
    } else {
      ProfiledKeepsUnique(db.users, caller, update);
      db.UpdateUserRow(edited, now);
      row := edited.(updatedAt := now);
    }
  }

  /** `PATCH /api/auth/me`: 422 for a bad or empty body, 409 when another
      user's username matches case-insensitively, otherwise the new fields.
      Only a net change reaches the table (and so the `updated_at` trigger). */
  method UpdateMe(db: Database, caller: Id, name: Option<string>, username: Option<string>, now: Timestamp)
    returns (r: Result<User>)
    requires db.Valid() && caller in db.users
    modifies db`users
    ensures db.Valid()
    ensures r == Err(Unprocessable) <==> ValidateProfile(name, username).Err?
    ensures r == Err(Conflict) <==>
      && ValidateProfile(name, username).Ok?
      && ValidateProfile(name, username).value.username.Some?
      && UsernameTaken(old(db.users), ValidateProfile(name, username).value.username.value, Some(caller))
    ensures r.Err? ==> db.users == old(db.users) && r.status in {Unprocessable, Conflict}
    ensures r.Ok? ==>
      var edited := Profiled(old(db.users)[caller], ValidateProfile(name, username).value);
      && r.value == (if edited == old(db.users)[caller] then edited else edited.(updatedAt := now))
      && db.users == old(db.users)[caller := r.value]
  {
    var body := ValidateProfile(name, username);
    if body.Err? {
      return Err(Unprocessable);
    }
    var update := body.value;
    if update.username.Some? {
      if UsernameTaken(db.users, update.username.value, Some(caller)) {
        return Err(Conflict);
      }
      ProfileUsernameLower(name, username);
    }
    var row := ApplyProfile(db, caller, update, now);
    r := Ok(row);
  }
}
