/** The declarative constraints of the schema: primary and foreign keys,
    CHECK and UNIQUE constraints and column bounds of `users` (001, 007),
    `pages` (002) and `page_shares` (005), and the ON DELETE CASCADE rules. */
module Constraints {
  import opened Common
  import opened Text
  import opened Records
  import opened Hierarchy

  /** `title VARCHAR(500) NOT NULL`. */
  const MaxTitleLength: nat := 500

  // ---- pages (002) ----

  ghost predicate PagesKeyed(pages: Pages) {
    forall k :: k in pages ==> pages[k].id == k
  }

  /** CHECK `id != parent_id` (`no_self_reference`). */
  ghost predicate NoSelfReference(pages: Pages) {
    forall k :: k in pages ==> pages[k].parentId != Some(k)
  }

  /** FOREIGN KEY `parent_id` REFERENCES `pages(id)`. */
  ghost predicate ParentsExist(pages: Pages) {
    forall k :: k in pages && pages[k].parentId.Some? ==> pages[k].parentId.value in pages
  }

  /** FOREIGN KEY `user_id` REFERENCES `users(id)`. */
  ghost predicate PageOwnersExist(pages: Pages, users: Users) {
    forall k :: k in pages ==> pages[k].userId in users
  }

  ghost predicate TitlesFit(pages: Pages) {
    forall k :: k in pages ==> |pages[k].title| <= MaxTitleLength
  }

  ghost predicate PagesValid(pages: Pages, users: Users) {
    && PagesKeyed(pages)
    && NoSelfReference(pages)
    && ParentsExist(pages)
    && PageOwnersExist(pages, users)
    && TitlesFit(pages)
    && Acyclic(pages)
  }

  // ---- page_shares (005) ----

  /** Keyed by `(page_id, shared_with_user_id)`: UNIQUE `unique_page_share`. */
  ghost predicate SharesKeyed(shares: Shares) {
    forall k :: k in shares ==> KeyOf(shares[k]) == k
  }

  /** CHECK `owner_id != shared_with_user_id` (`no_self_share`). */
  ghost predicate NoSelfShare(shares: Shares) {
    forall k :: k in shares ==> shares[k].ownerId != shares[k].sharedWithUserId
  }

  /** FOREIGN KEYs `page_id`, `owner_id` and `shared_with_user_id`. */
  ghost predicate ShareReferencesExist(shares: Shares, pages: Pages, users: Users) {
    forall k :: k in shares ==>
      && shares[k].pageId in pages
      && shares[k].ownerId in users
      && shares[k].sharedWithUserId in users
  }

  ghost predicate SharesValid(shares: Shares, pages: Pages, users: Users) {
    SharesKeyed(shares) && NoSelfShare(shares) && ShareReferencesExist(shares, pages, users)
  }

  // ---- users (001, 007) ----

  ghost predicate UsersKeyed(users: Users) {
    forall k :: k in users ==> users[k].id == k
  }

  /** `email` UNIQUE. */
  ghost predicate EmailsUnique(users: Users) {
    forall a, b :: a in users && b in users && users[a].email == users[b].email ==> a == b
  }

  /** UNIQUE INDEX on `LOWER(username)` WHERE `username IS NOT NULL`. */
  ghost predicate UsernamesUnique(users: Users) {
    forall a, b ::
      (a in users && b in users && users[a].username.Some? && users[b].username.Some? &&
       Lower(users[a].username.value) == Lower(users[b].username.value)) ==> a == b
  }

  predicate IsAdmin(users: Users, u: Id) {
    u in users && users[u].role == AdminRole
  }

  /** A non-empty users table always holds an admin. */
  ghost predicate HasAdmin(users: Users) {
    users != map[] ==> exists u :: IsAdmin(users, u)
  }

  ghost predicate UsersValid(users: Users) {
    UsersKeyed(users) && EmailsUnique(users) && UsernamesUnique(users) && HasAdmin(users)
  }

  ghost predicate TablesValid(users: Users, pages: Pages, shares: Shares) {
    UsersValid(users) && PagesValid(pages, users) && SharesValid(shares, pages, users)
  }

  // ---- ON DELETE CASCADE ----

  /** The pages a user owns: the rows the `user_id` cascade deletes first. */
  function OwnedBy(pages: Pages, u: Id): (r: set<Id>)
    ensures forall k :: k in r <==> k in pages && pages[k].userId == u
  {
    set k | k in pages && pages[k].userId == u
  }

  /** The rows left after deleting the rows `hit`. */
  function Without(pages: Pages, hit: set<Id>): (rest: Pages)
    ensures rest.Keys == pages.Keys - hit
    ensures SubTable(rest, pages)
    ensures hit * pages.Keys != {} ==> |rest| < |pages|
  {
    var rest := map k | k in pages && k !in hit :: pages[k];
    assert rest.Keys == pages.Keys - hit;
    ShrinksWhenHit(pages.Keys, hit);
    rest
  }

  lemma ShrinksWhenHit(keys: set<Id>, hit: set<Id>)
    ensures hit * keys != {} ==> |keys - hit| < |keys|
  {
    if hit * keys != {} {
      var h :| h in hit * keys;
      assert keys - hit <= keys - {h};
    }
  }

  /** The rows of `rest` whose parent was among the rows `hit` just deleted. */
  function Orphans(rest: Pages, hit: set<Id>): set<Id> {
    set k | k in rest && rest[k].parentId.Some? && rest[k].parentId.value in hit
  }

  /** The `parent_id` cascade: deleting the rows `doomed` deletes every row
      whose parent was deleted, round after round. */
  function CascadePages(pages: Pages, doomed: set<Id>): (r: Pages)
    ensures SubTable(r, pages)
    ensures forall d :: d in doomed ==> d !in r
    ensures forall y, q :: y in r && ParentOf(pages, y) == Some(q) && q in pages ==> q in r
    decreases |pages|
  {
    var hit := doomed * pages.Keys;
    if hit == {} then pages
    else
      var rest := Without(pages, hit);
      var r := CascadePages(rest, Orphans(rest, hit));
      CascadeStepClosed(pages, hit, rest, Orphans(rest, hit), r);
      r
  }

  /** A round keeps the parents of what is left: a row whose parent was hit
      is itself an orphan of the round, so it is not left either. */
  lemma CascadeStepClosed(pages: Pages, hit: set<Id>, rest: Pages, orphans: set<Id>, r: Pages)
    requires rest.Keys == pages.Keys - hit && SubTable(rest, pages)
    requires orphans == Orphans(rest, hit)
    requires SubTable(r, rest) && forall d :: d in orphans ==> d !in r
    requires forall y, q :: y in r && ParentOf(rest, y) == Some(q) && q in rest ==> q in r
    ensures forall y, q :: y in r && ParentOf(pages, y) == Some(q) && q in pages ==> q in r
  {
    forall y, q | y in r && ParentOf(pages, y) == Some(q) && q in pages ensures q in r {
      assert ParentOf(rest, y) == ParentOf(pages, y);
    }
  }

  /** Page `x` lies in the subtree of one of the pages `roots`. */
  ghost predicate InSubtreeOf(pages: Pages, x: Id, roots: set<Id>) {
    exists k: nat :: Hop(pages, Some(x), k).Some? && Hop(pages, Some(x), k).value in roots * pages.Keys
  }

  lemma {:induction false} SubHop(newer: Pages, older: Pages, c: Option<Id>, k: nat)
    requires SubTable(newer, older)
    requires Hop(newer, c, k).Some?
    ensures Hop(older, c, k) == Hop(newer, c, k)
    decreases k
  {
    if k > 0 && c.Some? {
      SubHop(newer, older, ParentOf(newer, c.value), k - 1);
    }
  }

  /** One more step up from an orphan of `rest` reaches a deleted row. */
  lemma OrphanStep(pages: Pages, hit: set<Id>, x: Id, k: nat)
    requires hit <= pages.Keys
    requires var rest := Without(pages, hit);
      Hop(rest, Some(x), k).Some? && Hop(rest, Some(x), k).value in Orphans(rest, hit) * rest.Keys
    ensures InSubtreeOf(pages, x, hit)
  {
    var rest := Without(pages, hit);
    var n := Hop(rest, Some(x), k).value;
    SubHop(rest, pages, Some(x), k);
    HopAdd(pages, Some(x), k, 1);
    assert Hop(pages, Some(x), k + 1) == rest[n].parentId;
    assert Hop(pages, Some(x), k + 1).value in hit * pages.Keys;
  }

  lemma {:induction false} CascadeRemovesOnlySubtrees(pages: Pages, doomed: set<Id>, x: Id)
    requires x in pages && x !in CascadePages(pages, doomed)
    ensures InSubtreeOf(pages, x, doomed)
    decreases |pages|
  {
    var hit := doomed * pages.Keys;
    if x in hit {
      assert Hop(pages, Some(x), 0) == Some(x);
    } else {
      var rest := Without(pages, hit);
      var next := Orphans(rest, hit);
      CascadeRemovesOnlySubtrees(rest, next, x);
      var k: nat :| Hop(rest, Some(x), k).Some? && Hop(rest, Some(x), k).value in next * rest.Keys;
      OrphanStep(pages, hit, x, k);
      var j: nat :| Hop(pages, Some(x), j).Some? && Hop(pages, Some(x), j).value in hit * pages.Keys;
      assert Hop(pages, Some(x), j).value in doomed * pages.Keys;
    }
  }

  lemma {:induction false} CascadeRemovesWholeSubtrees(pages: Pages, doomed: set<Id>, x: Id, k: nat)
    requires x in CascadePages(pages, doomed)
    requires Hop(pages, Some(x), k).Some? && Hop(pages, Some(x), k).value in pages
    ensures Hop(pages, Some(x), k).value in CascadePages(pages, doomed)
    decreases k
  {
    ClosedUpward(pages, CascadePages(pages, doomed), x, k);
  }

  /** Rows that keep the stored parent of each of their rows keep every
      stored ancestor too. */
  lemma {:induction false} ClosedUpward(pages: Pages, r: Pages, x: Id, k: nat)
    requires forall y, q :: y in r && ParentOf(pages, y) == Some(q) && q in pages ==> q in r
    requires x in r
    requires Hop(pages, Some(x), k).Some? && Hop(pages, Some(x), k).value in pages
    ensures Hop(pages, Some(x), k).value in r
    decreases k
  {
    if k > 0 {
      var p := ParentOf(pages, x);
      assert Hop(pages, Some(x), k) == Hop(pages, p, k - 1);
      var q := p.value;
      HopStartsInside(pages, q, k - 1);
      ClosedUpward(pages, r, q, k - 1);
    }
  }

  /** A walk that ends at a stored row starts at one. */
  lemma HopStartsInside(pages: Pages, c: Id, n: nat)
    requires Hop(pages, Some(c), n).Some? && Hop(pages, Some(c), n).value in pages
    ensures c in pages
  {
  }

  /** The cascade deletes exactly the subtrees below the deleted rows. */
  lemma CascadeDeletesExactlySubtrees(pages: Pages, doomed: set<Id>, x: Id)
    requires x in pages
    ensures x !in CascadePages(pages, doomed) <==> InSubtreeOf(pages, x, doomed)
  {
    var r := CascadePages(pages, doomed);
    if x !in r {
      CascadeRemovesOnlySubtrees(pages, doomed, x);
    }
    if x in r && InSubtreeOf(pages, x, doomed) {
      var k: nat :| Hop(pages, Some(x), k).Some? && Hop(pages, Some(x), k).value in doomed * pages.Keys;
      CascadeRemovesWholeSubtrees(pages, doomed, x, k);
    }
  }

  /** The share rows that survive when the rows they reference are gone:
      `page_id`, `owner_id` and `shared_with_user_id` all cascade. */
  function CascadeShares(shares: Shares, pages: Pages, users: Users): (r: Shares)
    ensures forall k :: k in r <==> (k in shares && shares[k].pageId in pages
      && shares[k].ownerId in users && shares[k].sharedWithUserId in users)
    ensures forall k :: k in r ==> r[k] == shares[k]
  {
    map k | k in shares && shares[k].pageId in pages
      && shares[k].ownerId in users && shares[k].sharedWithUserId in users :: shares[k]
  }
}
