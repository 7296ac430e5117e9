/** `app/routers/pages.py`: which access gate each page endpoint applies
    before it calls the page service, and the request-body bounds of
    `app/schemas/page.py` that are checked before the handler runs. */
module PagesRouter {
  import opened Common
  import opened Text
  import opened Records
  import opened Hierarchy
  import opened Constraints
  import opened Store
  import opened SharingService
  import opened Permissions
  import opened PagesService

  /** `CreatePageRequest`. */
  datatype CreatePageRequest = CreatePageRequest(title: string, content: Option<string>, parentId: Option<Id>)

  /** A title in a request body: between 1 and 500 characters. */
  predicate TitleInBounds(t: string) {
    1 <= |t| <= MaxTitleLength
  }

  /** An `UpdatePageRequest` body whose title, when given and not null, is out of bounds. */
  predicate UpdateBodyInvalid(u: PageUpdates) {
    u.title.Set? && u.title.value.Some? && !TitleInBounds(u.title.value.value)
  }

  /** `POST /api/pages`: the caller becomes the owner. Within the request
      bounds the only refusal by the database is the trigger's depth bound. */
  method CreatePageEndpoint(db: Database, caller: Id, req: CreatePageRequest, newId: Id, now: Timestamp)
    returns (r: Result<Page>)
    requires db.Valid() && caller in db.users && newId !in db.pages
    modifies db`pages
    ensures db.Valid()
    ensures db.users == old(db.users) && db.shares == old(db.shares)
    ensures !TitleInBounds(req.title) ==> r == Err(Unprocessable)
    ensures TitleInBounds(req.title) ==>
      r == CreateOutcome(old(db.pages), db.users, caller, req.title, req.content, req.parentId, newId, now)
    ensures r.Err? ==> db.pages == old(db.pages)
    ensures r.Ok? ==> r.value.userId == caller && r.value.id == newId && r.value.title == Strip(req.title)
    ensures r.Ok? ==> db.pages == old(db.pages)[newId := r.value]
    ensures r == Err(InternalError) ==>
      CycleCheck(old(db.pages), Page(newId, caller, req.parentId, Strip(req.title), req.content, now, now)) == TooDeep
  {
    if !TitleInBounds(req.title) {
      return Err(Unprocessable);
    }
    var row := Page(newId, caller, req.parentId, Strip(req.title), req.content, now, now);
    ghost var before := db.pages;
    StripIsTrimmedSlice(req.title);
    r := CreatePage(db, caller, req.title, req.content, req.parentId, newId, now);
    if r == Err(InternalError) {
      RefusedCreateIsTooDeep(before, db.users, row);
    }
  }

  /** A fresh row whose title fits and whose keys resolve is refused only
      for the depth bound. */
  lemma RefusedCreateIsTooDeep(pages: Pages, users: Users, row: Page)
    requires ParentsExist(pages) && row.id !in pages
    requires |row.title| <= MaxTitleLength && row.userId in users
    requires row.parentId.Some? ==> row.parentId.value in pages
    requires !PageWriteAllowed(pages, users, row)
    ensures CycleCheck(pages, row) == TooDeep
  {
    FreshPageNeverCycles(pages, row);
  }

  /** `GET /api/pages/{id}`: view access, then the page; every failure is 404. */
  function GetPageEndpoint(pages: Pages, shares: Shares, caller: Id, pageId: Id): (r: Result<Page>)
    ensures r.Ok? <==> pageId in pages && (pages[pageId].userId == caller || ShareKey(pageId, caller) in shares)
    ensures r.Ok? ==> r.value == pages[pageId]
    ensures r.Err? ==> r.status == NotFound
  {
    GateMeaning(pages, shares, pageId, caller);
    var access := RequirePageAccess(pages, shares, pageId, caller, NeedView);
    if access.Err? then Err(access.status) else Fetch(pages, pageId)
  }

  /** `GET /api/pages/{id}/children`: view access on the parent only; the
      children are then listed whatever the caller's access to each. */
  function ChildrenEndpoint(pages: Pages, shares: Shares, caller: Id, pageId: Id): (r: Result<seq<Page>>)
    requires PagesKeyed(pages)
    ensures r.Ok? <==> pageId in pages && (pages[pageId].userId == caller || ShareKey(pageId, caller) in shares)
    ensures r.Err? ==> r.status == NotFound
    ensures r.Ok? ==> forall k :: k in pages && pages[k].parentId == Some(pageId) ==> pages[k] in r.value
    ensures r.Ok? ==> forall p :: p in r.value ==> p.id in pages && pages[p.id] == p && p.parentId == Some(pageId)
  {
    GateMeaning(pages, shares, pageId, caller);
    var access := RequirePageAccess(pages, shares, pageId, caller, NeedView);
    if access.Err? then Err(access.status) else Ok(GetChildPages(pages, pageId))
  }

  /** `PUT /api/pages/{id}`: edit access, then the update with the resolved
      level passed on, so that only the owner may move the page. */
  method UpdatePageEndpoint(db: Database, caller: Id, pageId: Id, updates: PageUpdates, now: Timestamp)
    returns (r: Result<Page>)
    requires db.Valid()
    modifies db`pages
    ensures db.Valid()
    ensures db.users == old(db.users) && db.shares == old(db.shares)
    ensures db.pages == if r.Ok? then old(db.pages)[pageId := r.value] else old(db.pages)
    ensures UpdateBodyInvalid(updates) ==> r == Err(Unprocessable)
    ensures !UpdateBodyInvalid(updates) && RequirePageAccess(old(db.pages), db.shares, pageId, caller, NeedEdit).Err? ==>
      r == Err(RequirePageAccess(old(db.pages), db.shares, pageId, caller, NeedEdit).status)
    ensures !UpdateBodyInvalid(updates) && RequirePageAccess(old(db.pages), db.shares, pageId, caller, NeedEdit).Ok? ==>
      r == UpdateOutcome(old(db.pages), db.users, pageId, caller,
                         RequirePageAccess(old(db.pages), db.shares, pageId, caller, NeedEdit).value, updates, now)
    ensures r.Ok? ==>
      && pageId in old(db.pages)
      && (old(db.pages)[pageId].userId == caller ||
          (ShareKey(pageId, caller) in db.shares && db.shares[ShareKey(pageId, caller)].permission == Edit))
    ensures r.Ok? && updates.parentId.Set? ==> old(db.pages)[pageId].userId == caller
  {
    if UpdateBodyInvalid(updates) {
      return Err(Unprocessable);
    }
    GateMeaning(db.pages, db.shares, pageId, caller);
    var access := RequirePageAccess(db.pages, db.shares, pageId, caller, NeedEdit);
    if access.Err? {
      return Err(access.status);
    }
    r := UpdatePage(db, pageId, caller, access.value, updates, now);
  }

  /** `DELETE /api/pages/{id}`: owner access (404 without any access, 403
      with a share only), then the cascade delete. */
  method DeletePageEndpoint(db: Database, caller: Id, pageId: Id) returns (r: Result<()>)
    requires db.Valid()
    modifies db`pages, db`shares
    ensures db.Valid()
    ensures db.users == old(db.users)
    ensures r.Ok? <==> pageId in old(db.pages) && old(db.pages)[pageId].userId == caller
    ensures r == Err(NotFound) <==> CheckPageAccess(old(db.pages), old(db.shares), pageId, caller) == None
    ensures r.Err? && r != Err(NotFound) ==> r == Err(Forbidden)
    ensures r.Err? ==> db.pages == old(db.pages) && db.shares == old(db.shares)
    ensures r.Ok? ==> db.pages == CascadePages(old(db.pages), {pageId})
    ensures r.Ok? ==> db.shares == CascadeShares(old(db.shares), db.pages, db.users)
  {
    GateMeaning(db.pages, db.shares, pageId, caller);
    var access := RequirePageAccess(db.pages, db.shares, pageId, caller, NeedOwner);
    if access.Err? {
      return Err(access.status);
    }
    r := DeletePage(db, pageId, caller);
  }
}
