/** `app/routers/admin.py`: the user administration endpoints, open to
    admins only. */
module AdminRouter {
  import opened Common
  import opened Records
  import opened Constraints
  import opened Store
  import opened Sorting
  import opened Enumeration
  import opened AuthSchemas
  import opened AuthRouter

  /** `_require_admin`: 403 unless the caller's role is "admin". */
  function RequireAdmin(users: Users, caller: Id): (r: Result<()>)
    ensures r.Ok? <==> IsAdmin(users, caller)
    ensures r.Err? ==> r.status == Forbidden
  {
    if IsAdmin(users, caller) then Ok(()) else Err(Forbidden)
  }

  /** `ORDER BY email ASC`; e-mails are unique, the id only makes the key total. */
  function EmailThenId(u: User): Key {
    Key(u.email, u.id)
  }

  /** Every user row, each once. */
  function AllUsers(users: Users): (rows: seq<User>)
    requires UsersKeyed(users)
    ensures |rows| == |users|
    ensures forall u :: u in rows ==> u.id in users && users[u.id] == u
    ensures forall k :: k in users ==> users[k] in rows
  {
    var ids := Ascending(users.Keys);
    AscendingSize(users.Keys);
    var rows := RowsAt(users, ids);
    RowsOfAllIds(users, ids, rows);
    rows
  }

  lemma RowsOfAllIds(users: Users, ids: seq<Id>, rows: seq<User>)
    requires UsersKeyed(users)
    requires forall x :: x in ids <==> x in users
    requires |rows| == |ids| && forall j :: 0 <= j < |rows| ==> rows[j] == users[ids[j]]
    ensures forall u :: u in rows ==> u.id in users && users[u.id] == u
    ensures forall k :: k in users ==> users[k] in rows
  {
    forall u | u in rows ensures u.id in users && users[u.id] == u {
      var j :| 0 <= j < |rows| && rows[j] == u;
      assert ids[j] in ids;
    }
    forall k | k in users ensures users[k] in rows {
      var j :| 0 <= j < |ids| && ids[j] == k;
      assert rows[j] == users[k];
    }
  }

  /** `GET /api/admin/users`: every user, by e-mail, for an admin; 403 for
      anyone else. */
  function ListUsers(users: Users, caller: Id): (r: Result<seq<User>>)
    requires UsersKeyed(users)
    ensures r.Err? <==> !IsAdmin(users, caller)
    ensures r.Err? ==> r.status == Forbidden
    ensures r.Ok? ==> |r.value| == |users|
    ensures r.Ok? ==> forall u :: u in r.value <==> u in users.Values
    ensures r.Ok? ==> SortedBy(r.value, EmailThenId)
  {
    if RequireAdmin(users, caller).Err? then Err(Forbidden)
    else
      var rows := AllUsers(users);
      var sorted := SortBy(rows, EmailThenId);
      SameRowsAsTable(users, rows, sorted);
      Ok(sorted)
  }

  /** A permutation of every row holds exactly the table's values. */
  lemma SameRowsAsTable(users: Users, rows: seq<User>, sorted: seq<User>)
    requires multiset(sorted) == multiset(rows)
    requires forall u :: u in rows ==> u.id in users && users[u.id] == u
    requires forall k :: k in users ==> users[k] in rows
    ensures forall u :: u in sorted <==> u in users.Values
  {
    forall u | u in users.Values ensures u in sorted {
      var k :| k in users && users[k] == u;
      assert u in multiset(rows);
    }
    forall u | u in sorted ensures u in users.Values {
      assert u in multiset(sorted);
      assert users[u.id] in users.Values;
    }
  }

  /** `POST /api/admin/users`: like registration, but with the requested
      role; the caller exists, so the first-user trigger never overrides it. */
  method CreateUser(db: Database, caller: Id, email: string, name: string, username: string,
                    password: string, role: Role, newId: Id, hash: string -> string, now: Timestamp)
    returns (r: Result<User>)
    requires db.Valid() && caller in db.users && newId !in db.users
    modifies db`users
    ensures db.Valid()
    ensures r == Err(Unprocessable) <==> ValidateNewAccount(email, name, username, password, role).Err?
    ensures r == Err(Forbidden) <==>
      ValidateNewAccount(email, name, username, password, role).Ok? && !IsAdmin(old(db.users), caller)
    ensures r == Err(Conflict) <==>
      ValidateNewAccount(email, name, username, password, role).Ok? && IsAdmin(old(db.users), caller) &&
      AccountTaken(old(db.users), ValidateNewAccount(email, name, username, password, role).value)
    ensures r.Err? ==> db.users == old(db.users) && r.status in {Unprocessable, Forbidden, Conflict}
    ensures r.Ok? ==> var account := ValidateNewAccount(email, name, username, password, role).value;
      && r.value.email == Normalize(email)
      && r.value.username == Some(Normalize(account.username))
      && r.value.name == Some(account.name)
      && r.value.passwordHash == hash(password)
      && r.value.role == role
      && db.users == old(db.users)[newId := r.value]
  {
    var body := ValidateNewAccount(email, name, username, password, role);
    if body.Err? {
      return Err(Unprocessable);
    }
    if RequireAdmin(db.users, caller).Err? {
      return Err(Forbidden);
    }
    EmptyMapSize(db.users);
    r := CreateAccount(db, body.value, newId, hash, now);
  }

  /** `SELECT count(*) FROM users WHERE role = 'admin'`. */
  function Admins(users: Users): set<Id> {
    set u | u in users && users[u].role == AdminRole
  }

  function AdminCount(users: Users): nat {
    |Admins(users)|
  }

  /** The last-admin guard of `delete_user` never fires: by then the caller
      is an admin and the target is another one, so there are two. */
  lemma LastAdminGuardUnreachable(users: Users, caller: Id, target: Id)
    requires IsAdmin(users, caller) && IsAdmin(users, target) && caller != target
    ensures AdminCount(users) >= 2
  {
    var admins := Admins(users);
    var rest := admins - {caller};
    assert target in rest;
    assert |rest| != 0;
    assert admins == rest + {caller} && caller !in rest;
    assert |rest + {caller}| == |rest| + 1;
  }

  /** `DELETE /api/admin/users/{user_id}`: 403 for a non-admin, 404 for an
      unknown user, 400 for the caller's own account or the last admin;
      otherwise the user goes with all their pages and every share naming
      them or one of those pages. */
  method DeleteUser(db: Database, caller: Id, target: Id) returns (r: Result<()>)
    requires db.Valid() && caller in db.users
    modifies db
    ensures db.Valid()
    ensures r == Err(Forbidden) <==> !IsAdmin(old(db.users), caller)
    ensures r == Err(NotFound) <==> IsAdmin(old(db.users), caller) && target !in old(db.users)
    ensures r == Err(BadRequest) <==>
      && IsAdmin(old(db.users), caller) && target in old(db.users)
      && (target == caller || (IsAdmin(old(db.users), target) && AdminCount(old(db.users)) <= 1))
    ensures r.Ok? <==>
      && IsAdmin(old(db.users), caller) && target in old(db.users) && target != caller
      && !(IsAdmin(old(db.users), target) && AdminCount(old(db.users)) <= 1)
    ensures r.Err? ==> r.status in {Forbidden, NotFound, BadRequest}
    ensures r.Err? ==> db.users == old(db.users) && db.pages == old(db.pages) && db.shares == old(db.shares)
    ensures r.Ok? ==>
      && db.users == old(db.users) - {target}
      && db.pages == CascadePages(old(db.pages), OwnedBy(old(db.pages), target))
      && db.shares == CascadeShares(old(db.shares), db.pages, db.users)
  {
    if RequireAdmin(db.users, caller).Err? {
      return Err(Forbidden);
    }
    if target !in db.users {
      return Err(NotFound);
    }
    if target == caller {
      return Err(BadRequest);
    }
    if db.users[target].role == AdminRole {
      var admins := AdminCount(db.users);
      if admins <= 1 {
        return Err(BadRequest);
      }
    }
    db.DeleteUserRow(target);
    r := Ok(());
  }

  /** An admin can delete any other account: with the guard above
      unreachable, the only 400 is self-deletion. */
  lemma DeleteOtherAllowed(users: Users, caller: Id, target: Id)
    requires IsAdmin(users, caller) && target in users && target != caller
    ensures !(IsAdmin(users, target) && AdminCount(users) <= 1)
  {
    if IsAdmin(users, target) {
      LastAdminGuardUnreachable(users, caller, target);
    }
  }
}
