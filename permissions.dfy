/** `app/core/permissions.py`: the gate every page endpoint passes through. */
module Permissions {
  import opened Common
  import opened Records
  import opened SharingService

  /** `RequiredPageAccess`: what an endpoint asks of its caller. */
  datatype Required = NeedView | NeedEdit | NeedOwner

  /** The order owner > edit > view_only on granted levels. */
  function Grants(a: AccessLevel): nat {
    match a
    case ViewOnlyAccess => 1
    case EditAccess => 2
    case OwnerAccess => 3
  }

  function Demands(r: Required): nat {
    match r
    case NeedView => 1
    case NeedEdit => 2
    case NeedOwner => 3
  }

  /** `require_page_access` after the lookup: 404 when there is no access at
      all, 403 when the level is below what is required, else the level. */
  function Gate(access: Option<AccessLevel>, required: Required): (r: Result<AccessLevel>)
    ensures r == Err(NotFound) <==> access == None
    ensures r == Err(Forbidden) <==> access.Some? && Grants(access.value) < Demands(required)
    ensures r.Ok? <==> access.Some? && Grants(access.value) >= Demands(required)
    ensures r.Ok? ==> r.value == access.value
  {
    if access == None then Err(NotFound)
    else if required == NeedOwner && access.value != OwnerAccess then Err(Forbidden)
    else if required == NeedEdit && access.value !in {OwnerAccess, EditAccess} then Err(Forbidden)
    else Ok(access.value)
  }

  /** `require_page_access`: resolve the caller's access, then gate it. */
  function RequirePageAccess(pages: Pages, shares: Shares, pageId: Id, userId: Id, required: Required)
    : (r: Result<AccessLevel>)
    ensures r == Err(NotFound) <==> CheckPageAccess(pages, shares, pageId, userId) == None
    ensures r.Ok? ==> r.value == CheckPageAccess(pages, shares, pageId, userId).value
  {
    Gate(CheckPageAccess(pages, shares, pageId, userId), required)
  }

  /** Passing a stricter gate implies passing every weaker one, with the same level. */
  lemma GateMonotone(access: Option<AccessLevel>, weaker: Required, stronger: Required)
    requires Demands(weaker) <= Demands(stronger)
    requires Gate(access, stronger).Ok?
    ensures Gate(access, weaker) == Gate(access, stronger)
  {
  }

  /** What each gate lets through, in terms of ownership and share rows. */
  lemma GateMeaning(pages: Pages, shares: Shares, pageId: Id, userId: Id)
    ensures RequirePageAccess(pages, shares, pageId, userId, NeedOwner).Ok? <==>
      (pageId in pages && pages[pageId].userId == userId)
    ensures RequirePageAccess(pages, shares, pageId, userId, NeedEdit).Ok? <==>
      (pageId in pages && (pages[pageId].userId == userId ||
        (ShareKey(pageId, userId) in shares && shares[ShareKey(pageId, userId)].permission == Edit)))
    ensures RequirePageAccess(pages, shares, pageId, userId, NeedView).Ok? <==>
      (pageId in pages && (pages[pageId].userId == userId || ShareKey(pageId, userId) in shares))
    ensures RequirePageAccess(pages, shares, pageId, userId, NeedView).Err? ==>
      RequirePageAccess(pages, shares, pageId, userId, NeedView).status == NotFound
  {
    var a := CheckPageAccess(pages, shares, pageId, userId);
    if pageId in pages && pages[pageId].userId != userId && ShareKey(pageId, userId) in shares {
      assert a == Some(LevelOf(shares[ShareKey(pageId, userId)].permission));
    }
  }
}
