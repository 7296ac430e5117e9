/** `app/services/sharing_service.py`: resolving a user's access to a page
    from ownership and share rows, and the owner-only share management. */
module SharingService {
  import opened Common
  import opened Records
  import opened Constraints
  import opened Store
  import opened Sorting
  import opened Enumeration

  function LevelOf(p: Permission): AccessLevel {
    match p
    case ViewOnly => ViewOnlyAccess
    case Edit => EditAccess
  }

  /** `check_page_access`: no access to a missing page; "owner" for the page's
      owner; otherwise the level of the share row for `(page, user)`, if any. */
  function CheckPageAccess(pages: Pages, shares: Shares, pageId: Id, userId: Id): (a: Option<AccessLevel>)
    ensures pageId !in pages ==> a == None
    ensures a == Some(OwnerAccess) <==> pageId in pages && pages[pageId].userId == userId
    ensures a == None <==>
      (pageId !in pages || (pages[pageId].userId != userId && ShareKey(pageId, userId) !in shares))
    ensures a == Some(EditAccess) <==>
      (pageId in pages && pages[pageId].userId != userId && ShareKey(pageId, userId) in shares
       && shares[ShareKey(pageId, userId)].permission == Edit)
    ensures a == Some(ViewOnlyAccess) <==>
      (pageId in pages && pages[pageId].userId != userId && ShareKey(pageId, userId) in shares
       && shares[ShareKey(pageId, userId)].permission == ViewOnly)
  {
    if pageId !in pages then None
    else if pages[pageId].userId == userId then Some(OwnerAccess)
    else if ShareKey(pageId, userId) in shares then Some(LevelOf(shares[ShareKey(pageId, userId)].permission))
    else None
  }

  /** `_require_page_owner`: 403 unless the page exists and `ownerId` owns it
      (a missing page is indistinguishable from someone else's). */
  function RequirePageOwner(pages: Pages, pageId: Id, ownerId: Id): (r: Result<Page>)
    ensures r.Ok? <==> pageId in pages && pages[pageId].userId == ownerId
    ensures r.Ok? ==> r.value == pages[pageId]
    ensures r.Err? ==> r.status == Forbidden
  {
    if pageId in pages && pages[pageId].userId == ownerId then Ok(pages[pageId]) else Err(Forbidden)
  }

  /** `share_page`: an upsert of the share row for `(pageId, targetId)`. */
  method SharePage(db: Database, pageId: Id, ownerId: Id, targetId: Id, permission: Permission,
                   newShareId: Id, now: Timestamp) returns (r: Result<Share>)
    requires db.Valid()
    modifies db`shares
    ensures db.Valid()
    ensures db.users == old(db.users) && db.pages == old(db.pages)
    ensures var owned := pageId in db.pages && db.pages[pageId].userId == ownerId;
      && (r == Err(Forbidden) <==> !owned)
      && (r == Err(NotFound) <==> owned && targetId !in db.users)
      && (r == Err(Unprocessable) <==> owned && targetId in db.users && targetId == ownerId)
      && (r.Ok? <==> owned && targetId in db.users && targetId != ownerId)
    ensures r.Err? ==> db.shares == old(db.shares)
    ensures r.Ok? ==> db.shares == old(db.shares)[ShareKey(pageId, targetId) := r.value]
    ensures r.Ok? ==> KeyOf(r.value) == ShareKey(pageId, targetId) && r.value.permission == permission
    ensures r.Ok? && ShareKey(pageId, targetId) in old(db.shares) ==>
      r.value == old(db.shares)[ShareKey(pageId, targetId)].(permission := permission)
    ensures r.Ok? && ShareKey(pageId, targetId) !in old(db.shares) ==>
      r.value == Share(newShareId, pageId, ownerId, targetId, permission, now)
  {
    var owner := RequirePageOwner(db.pages, pageId, ownerId);
    if owner.Err? {
      return Err(owner.status);
    }
    var target := Fetch(db.users, targetId);
    if target.Err? {
      return Err(target.status);
    }
    if ownerId == targetId {
      return Err(Unprocessable);
    }
    var key := ShareKey(pageId, targetId);
    var share;
    if key !in db.shares {
      share := Share(newShareId, pageId, ownerId, targetId, permission, now);
    } else {
      share := db.shares[key].(permission := permission);
    }
    ShareWriteKeepsValid(db.shares, db.pages, db.users, share);
    db.shares := db.shares[key := share];
    r := Ok(share);
  }

  /** `revoke_share`: 403 unless the caller owns the page, 404 when there is no
      share row for the pair, otherwise exactly that row is deleted. */
  method RevokeShare(db: Database, pageId: Id, ownerId: Id, targetId: Id) returns (r: Result<()>)
    requires db.Valid()
    modifies db`shares
    ensures db.Valid()
    ensures db.users == old(db.users) && db.pages == old(db.pages)
    ensures var owned := pageId in db.pages && db.pages[pageId].userId == ownerId;
      && (r == Err(Forbidden) <==> !owned)
      && (r == Err(NotFound) <==> owned && ShareKey(pageId, targetId) !in old(db.shares))
      && (r.Ok? <==> owned && ShareKey(pageId, targetId) in old(db.shares))
    ensures db.shares == if r.Ok? then old(db.shares) - {ShareKey(pageId, targetId)} else old(db.shares)
  {
    var owner := RequirePageOwner(db.pages, pageId, ownerId);
    if owner.Err? {
      return Err(owner.status);
    }
    var key := ShareKey(pageId, targetId);
    if key !in db.shares {
      return Err(NotFound);
    }
    ShareRemovalKeepsValid(db.shares, db.pages, db.users, key);
    db.shares := db.shares - {key};
    r := Ok(());
  }

  /** A row of `get_page_shares`: the share joined with its target's email. */
  datatype ShareView = ShareView(share: Share, email: string)

  function EmailKey(v: ShareView): Key {
    Key(v.email, v.share.sharedWithUserId)
  }

  /** The targets of the share rows of `pageId` that join with a user row. */
  function ShareTargets(users: Users, shares: Shares, pageId: Id): set<Id> {
    set t | t in users && ShareKey(pageId, t) in shares
  }

  function Joined(users: Users, shares: Shares, pageId: Id, targets: seq<Id>): (rows: seq<ShareView>)
    requires forall t :: t in targets ==> t in users && ShareKey(pageId, t) in shares
    ensures |rows| == |targets|
    ensures forall i :: 0 <= i < |rows| ==>
      rows[i] == ShareView(shares[ShareKey(pageId, targets[i])], users[targets[i]].email)
  {
    if targets == [] then []
    else
      [ShareView(shares[ShareKey(pageId, targets[0])], users[targets[0]].email)]
      + Joined(users, shares, pageId, targets[1..])
  }

  /** A joined row is the share row of its own key, with its target's email. */
  ghost predicate JoinedRow(users: Users, shares: Shares, pageId: Id, v: ShareView) {
    var k := KeyOf(v.share);
    k.pageId == pageId && k in shares && shares[k] == v.share
    && k.sharedWithUserId in users && v.email == users[k.sharedWithUserId].email
  }

  lemma JoinedRowsSound(users: Users, shares: Shares, pageId: Id, targets: seq<Id>)
    requires SharesKeyed(shares)
    requires forall t :: t in targets ==> t in users && ShareKey(pageId, t) in shares
    ensures forall v :: v in Joined(users, shares, pageId, targets) ==> JoinedRow(users, shares, pageId, v)
  {
    var rows := Joined(users, shares, pageId, targets);
    forall v | v in rows ensures JoinedRow(users, shares, pageId, v) {
      var i :| 0 <= i < |rows| && rows[i] == v;
      assert KeyOf(shares[ShareKey(pageId, targets[i])]) == ShareKey(pageId, targets[i]);
    }
  }

  lemma JoinedRowsComplete(users: Users, shares: Shares, pageId: Id, targets: seq<Id>, k: ShareKey)
    requires forall t :: t in targets ==> t in users && ShareKey(pageId, t) in shares
    requires k in shares && k.pageId == pageId && k.sharedWithUserId in targets
    ensures exists v :: v in Joined(users, shares, pageId, targets) && v.share == shares[k]
  {
    var rows := Joined(users, shares, pageId, targets);
    var i :| 0 <= i < |targets| && targets[i] == k.sharedWithUserId;
    assert k == ShareKey(pageId, targets[i]);
    assert rows[i] in rows;
  }

  /** The share rows of `pageId` joined with their targets, by target id. */
  function ShareRows(users: Users, shares: Shares, pageId: Id): (rows: seq<ShareView>)
    requires SharesKeyed(shares)
    ensures |rows| == |ShareTargets(users, shares, pageId)|
    ensures forall v :: v in rows ==> JoinedRow(users, shares, pageId, v)
    ensures forall k :: k in shares && k.pageId == pageId && k.sharedWithUserId in users ==>
      exists v :: v in rows && v.share == shares[k]
  {
    var ts := ShareTargets(users, shares, pageId);
    var targets := Ascending(ts);
    AscendingSize(ts);
    JoinedRowsSound(users, shares, pageId, targets);
    forall k | k in shares && k.pageId == pageId && k.sharedWithUserId in users
      ensures exists v :: v in Joined(users, shares, pageId, targets) && v.share == shares[k]
    {
      assert k == ShareKey(pageId, k.sharedWithUserId);
      JoinedRowsComplete(users, shares, pageId, targets, k);
    }
    Joined(users, shares, pageId, targets)
  }

  /** `get_page_shares`: 403 unless the caller owns the page; otherwise every
      share row of the page with its target's email, by email ascending. */
  function GetPageShares(users: Users, pages: Pages, shares: Shares, pageId: Id, ownerId: Id)
    : (r: Result<seq<ShareView>>)
    requires SharesKeyed(shares)
    ensures r.Err? <==> !(pageId in pages && pages[pageId].userId == ownerId)
    ensures r.Err? ==> r.status == Forbidden
    ensures r.Ok? ==> SortedBy(r.value, EmailKey)
    ensures r.Ok? ==> |r.value| == |ShareTargets(users, shares, pageId)|
    ensures r.Ok? ==> forall v :: v in r.value ==> JoinedRow(users, shares, pageId, v)
    ensures r.Ok? ==> forall k :: k in shares && k.pageId == pageId && k.sharedWithUserId in users ==>
      exists v :: v in r.value && v.share == shares[k]
  {
    var owner := RequirePageOwner(pages, pageId, ownerId);
    if owner.Err? then Err(owner.status)
    else
      var rows := ShareRows(users, shares, pageId);
      var sorted := SortBy(rows, EmailKey);
      assert forall v :: v in sorted <==> v in multiset(rows);
      Ok(sorted)
  }
}
