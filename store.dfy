/** The database the services talk to: the three tables, the row writes with
    the BEFORE triggers of migrations 003 and 006 and the constraints of
    001/002/005/007 checked, and the ON DELETE CASCADE deletes. Each request
    is one transaction: a write that the database refuses leaves every table
    as it was. */
module Store {
  import opened Common
  import opened Text
  import opened Records
  import opened Hierarchy
  import opened Constraints

  /** `assign_first_user_admin`: the row inserted into an empty users table
      becomes an admin whatever role was asked for; any later row keeps it. */
  function FirstUserRole(userCount: nat, requested: Role): (r: Role)
    ensures userCount == 0 ==> r == AdminRole
    ensures userCount > 0 ==> r == requested
  {
    if userCount == 0 then AdminRole else requested
  }

  /** A page row write goes through: the trigger accepts it, the title fits
      VARCHAR(500), and both foreign keys resolve. */
  predicate PageWriteAllowed(pages: Pages, users: Users, row: Page) {
    && CycleCheck(pages, row) == Accept
    && |row.title| <= MaxTitleLength
    && row.userId in users
    && (row.parentId.Some? ==> row.parentId.value in pages)
  }

  lemma EmptyMapSize<K, V>(m: map<K, V>)
    ensures |m| == 0 <==> m == map[]
  {
    if m != map[] {
      var k :| k in m;
      assert k in m.Keys;
    }
  }

  lemma WriteKeepsPagesValid(pages: Pages, users: Users, row: Page)
    requires PagesValid(pages, users)
    requires PageWriteAllowed(pages, users, row)
    ensures PagesValid(pages[row.id := row], users)
  {
    var newer := pages[row.id := row];
    AcceptIff(pages, row);
    AcceptPreservesAcyclic(pages, row);
    assert NoSelfReference(newer);
    assert ParentsExist(newer);
  }

  lemma SharesSurviveGrowth(shares: Shares, pages: Pages, newer: Pages, users: Users)
    requires SharesValid(shares, pages, users)
    requires pages.Keys <= newer.Keys
    ensures SharesValid(shares, newer, users)
  {
  }

  lemma WriteKeepsTablesValid(users: Users, pages: Pages, shares: Shares, row: Page)
    requires TablesValid(users, pages, shares)
    requires PageWriteAllowed(pages, users, row)
    ensures TablesValid(users, pages[row.id := row], shares)
  {
    WriteKeepsPagesValid(pages, users, row);
    SharesSurviveGrowth(shares, pages, pages[row.id := row], users);
  }

  lemma CascadeKeepsPagesValid(pages: Pages, users: Users, newUsers: Users, doomed: set<Id>)
    requires PagesValid(pages, users)
    requires forall k :: k in pages && pages[k].userId !in newUsers ==> k in doomed
    ensures PagesValid(CascadePages(pages, doomed), newUsers)
  {
    var r := CascadePages(pages, doomed);
    RemovalPreservesAcyclic(pages, r);
    forall k | k in r && r[k].parentId.Some? ensures r[k].parentId.value in r {
      assert ParentOf(pages, k) == r[k].parentId;
    }
    forall k | k in r ensures r[k].userId in newUsers {
      assert k !in doomed;
    }
  }

  lemma CascadeKeepsSharesValid(shares: Shares, pages: Pages, users: Users)
    requires SharesKeyed(shares) && NoSelfShare(shares)
    ensures SharesValid(CascadeShares(shares, pages, users), pages, users)
  {
  }

  lemma ShareWriteKeepsValid(shares: Shares, pages: Pages, users: Users, row: Share)
    requires SharesValid(shares, pages, users)
    requires row.pageId in pages && row.ownerId in users && row.sharedWithUserId in users
    requires row.ownerId != row.sharedWithUserId
    ensures SharesValid(shares[KeyOf(row) := row], pages, users)
  {
  }

  lemma ShareRemovalKeepsValid(shares: Shares, pages: Pages, users: Users, key: ShareKey)
    requires SharesValid(shares, pages, users)
    ensures SharesValid(shares - {key}, pages, users)
  {
  }

  /** Writing the user row `row` keeps the keys and both UNIQUE rules when
      no other row has its e-mail or its case-folded username. */
  lemma UserWriteKeepsUnique(users: Users, row: User)
    requires UsersKeyed(users) && EmailsUnique(users) && UsernamesUnique(users)
    requires forall u :: u in users && u != row.id ==> users[u].email != row.email
    requires row.username.Some? ==> forall u :: u in users && u != row.id && users[u].username.Some? ==>
      Lower(users[u].username.value) != Lower(row.username.value)
    ensures var newer := users[row.id := row];
      UsersKeyed(newer) && EmailsUnique(newer) && UsernamesUnique(newer)
  {
  }

  /** Page and share rows only need their users to exist. */
  lemma UsersGrowKeepsReferences(pages: Pages, shares: Shares, users: Users, newer: Users)
    requires PagesValid(pages, users) && SharesValid(shares, pages, users)
    requires users.Keys <= newer.Keys
    ensures PagesValid(pages, newer) && SharesValid(shares, pages, newer)
  {
  }

  /** Removing a user other than the admin `a` keeps the users table valid. */
  lemma UserRemovalKeepsUsersValid(users: Users, id: Id, a: Id)
    requires UsersValid(users) && a != id && IsAdmin(users, a)
    ensures UsersValid(users - {id})
  {
    assert IsAdmin(users - {id}, a);
  }

  class Database {
    var users: Users
    var pages: Pages
    var shares: Shares

    ghost predicate Valid()
      reads this
    {
      TablesValid(users, pages, shares)
    }

    constructor ()
      ensures Valid()
      ensures users == map[] && pages == map[] && shares == map[]
    {
      users, pages, shares := map[], map[], map[];
    }

    /** INSERT or UPDATE of the page row `row.id`. */
    method WritePage(row: Page) returns (ok: bool)
      requires Valid()
      modifies this`pages
      ensures Valid()
      ensures users == old(users) && shares == old(shares)
      ensures ok == PageWriteAllowed(old(pages), users, row)
      ensures pages == if ok then old(pages)[row.id := row] else old(pages)
    {
      var verdict;
      ghost var steps;
      verdict, steps := CheckPageHierarchyCycle(pages, row);
      ok := verdict == Accept && |row.title| <= MaxTitleLength && row.userId in users
        && (row.parentId.Some? ==> row.parentId.value in pages);
      if ok {
        WriteKeepsTablesValid(users, pages, shares, row);
        pages := pages[row.id := row];
      }
    }

    /** DELETE of the page `id`: its subtree goes with it (`parent_id` ON
        DELETE CASCADE) and so do the share rows of every deleted page. */
    method DeletePageRow(id: Id)
      requires Valid()
      modifies this`pages, this`shares
      ensures Valid()
      ensures pages == CascadePages(old(pages), {id})
      ensures shares == CascadeShares(old(shares), pages, users)
    {
      CascadeKeepsPagesValid(pages, users, users, {id});
      CascadeKeepsSharesValid(shares, CascadePages(pages, {id}), users);
      pages := CascadePages(pages, {id});
      shares := CascadeShares(shares, pages, users);
    }

    /** INSERT of a user row through the `set_first_user_admin` trigger. The
        callers have already ruled out a taken email or username. */
    method InsertUser(row: User) returns (inserted: User)
      requires Valid()
      requires row.id !in users
      requires forall u :: u in users ==> users[u].email != row.email
      requires row.username.Some? ==> forall u :: u in users && users[u].username.Some? ==>
        Lower(users[u].username.value) != Lower(row.username.value)
      modifies this`users
      ensures Valid()
      ensures inserted == row.(role := FirstUserRole(|old(users)|, row.role))
      ensures users == old(users)[row.id := inserted]
    {
      EmptyMapSize(users);
      inserted := row.(role := FirstUserRole(|users|, row.role));
      UserWriteKeepsUnique(users, inserted);
      UsersGrowKeepsReferences(pages, shares, users, users[row.id := inserted]);
      if users != map[] {
        var a :| IsAdmin(users, a);
        assert IsAdmin(users[row.id := inserted], a);
      } else {
        assert IsAdmin(users[row.id := inserted], row.id);
      }
      users := users[row.id := inserted];
    }

    /** UPDATE of a user row; `update_users_updated_at` stamps it. */
    method UpdateUserRow(row: User, now: Timestamp)
      requires Valid()
      requires row.id in users && row.role == users[row.id].role
      requires forall u :: u in users && u != row.id ==> users[u].email != row.email
      requires row.username.Some? ==> forall u :: u in users && u != row.id && users[u].username.Some? ==>
        Lower(users[u].username.value) != Lower(row.username.value)
      modifies this`users
      ensures Valid()
      ensures users == old(users)[row.id := row.(updatedAt := now)]
    {
      var a :| IsAdmin(users, a);
      var stamped := row.(updatedAt := now);
      UserWriteKeepsUnique(users, stamped);
      UsersGrowKeepsReferences(pages, shares, users, users[row.id := stamped]);
      assert IsAdmin(users[row.id := stamped], a);
      users := users[row.id := stamped];
    }

    /** DELETE of the user `id`: their pages go (`user_id` ON DELETE CASCADE),
        with the subtrees below them, and every share row that names the user
        or a deleted page. The caller keeps another admin. */
    method DeleteUserRow(id: Id)
      requires Valid() && id in users
      requires exists a :: a != id && IsAdmin(users, a)
      modifies this
      ensures Valid()
      ensures users == old(users) - {id}
      ensures pages == CascadePages(old(pages), OwnedBy(old(pages), id))
      ensures shares == CascadeShares(old(shares), pages, users)
    {
      var a :| a != id && IsAdmin(users, a);
      var remaining := CascadePages(pages, OwnedBy(pages, id));
      CascadeKeepsPagesValid(pages, users, users - {id}, OwnedBy(pages, id));
      CascadeKeepsSharesValid(shares, remaining, users - {id});
      UserRemovalKeepsUsersValid(users, id, a);
      users := users - {id};
      pages := remaining;
      shares := CascadeShares(shares, pages, users);
    }
  }
}
