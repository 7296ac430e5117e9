/** `app/services/pages_service.py`: creating, editing, deleting and looking
    up pages. The forest listing is in module PageListing. */
module PagesService {
  import opened Common
  import opened Text
  import opened Records
  import opened Hierarchy
  import opened Constraints
  import opened Store
  import opened Sorting
  import opened Enumeration

  /** `_get_owned_page_or_none`: the page, if it exists and `userId` owns it. */
  function OwnedPageOrNone(pages: Pages, pageId: Id, userId: Id): (r: Option<Page>)
    ensures r.Some? <==> pageId in pages && pages[pageId].userId == userId
    ensures r.Some? ==> r.value == pages[pageId]
  {
    if pageId in pages && pages[pageId].userId == userId then Some(pages[pageId]) else None
  }

  /** `get_page`: an owned page or 404. */
  function GetPage(pages: Pages, pageId: Id, userId: Id): (r: Result<Page>)
    ensures r.Ok? <==> pageId in pages && pages[pageId].userId == userId
    ensures r.Ok? ==> r.value == pages[pageId]
    ensures r.Err? ==> r.status == NotFound
  {
    match OwnedPageOrNone(pages, pageId, userId)
    case None => Err(NotFound)
    case Some(p) => Ok(p)
  }

  /** `ORDER BY title ASC, id ASC` (code-point order, no case folding). */
  function TitleThenId(p: Page): Key {
    Key(p.title, p.id)
  }

  /** The pages whose `parent_id` is `pageId`. */
  function ChildIds(pages: Pages, pageId: Id): set<Id> {
    set k | k in pages && pages[k].parentId == Some(pageId)
  }

  lemma RowsOfIds(pages: Pages, ids: seq<Id>, s: set<Id>)
    requires PagesKeyed(pages)
    requires forall i :: i in ids <==> i in s && i in pages
    ensures forall p :: p in RowsAt(pages, ids) ==> p.id in s && p.id in pages && pages[p.id] == p
    ensures forall k :: k in s && k in pages ==> pages[k] in RowsAt(pages, ids)
  {
    var rows := RowsAt(pages, ids);
    forall p | p in rows ensures p.id in s && p.id in pages && pages[p.id] == p {
      var j :| 0 <= j < |rows| && rows[j] == p;
      assert ids[j] in ids;
    }
    forall k | k in s && k in pages ensures pages[k] in rows {
      var j :| 0 <= j < |ids| && ids[j] == k;
      assert rows[j] == pages[k];
    }
  }

  /** The child rows of `pageId`, in id order. */
  function ChildRows(pages: Pages, pageId: Id): (rows: seq<Page>)
    requires PagesKeyed(pages)
    ensures |rows| == |ChildIds(pages, pageId)|
    ensures forall p :: p in rows ==> p.id in pages && pages[p.id] == p && p.parentId == Some(pageId)
    ensures forall k :: k in pages && pages[k].parentId == Some(pageId) ==> pages[k] in rows
  {
    var kids := ChildIds(pages, pageId);
    var ids := Ascending(kids);
    AscendingSize(kids);
    RowsOfIds(pages, ids, kids);
    RowsAt(pages, ids)
  }

  /** `get_child_pages`: every page whose parent is `pageId`, each once, by
      title and then id. */
  function GetChildPages(pages: Pages, pageId: Id): (r: seq<Page>)
    requires PagesKeyed(pages)
    ensures |r| == |ChildIds(pages, pageId)|
    ensures forall p :: p in r ==> p.id in pages && pages[p.id] == p && p.parentId == Some(pageId)
    ensures forall k :: k in pages && pages[k].parentId == Some(pageId) ==> pages[k] in r
    ensures SortedBy(r, TitleThenId)
  {
    var rows := ChildRows(pages, pageId);
    var sorted := SortBy(rows, TitleThenId);
    assert forall p :: p in sorted <==> p in multiset(rows);
    sorted
  }

  /** A new page never closes a cycle: its id is not yet in the table, so the
      trigger's walk cannot meet it and can only accept or hit the depth bound. */
  lemma {:induction false} FreshWalk(pages: Pages, id: Id, cur: Option<Id>, depth: nat)
    requires ParentsExist(pages) && id !in pages
    requires depth <= MaxDepth
    requires cur.Some? ==> cur.value in pages
    ensures Walk(pages, id, cur, depth) in {Accept, TooDeep}
    decreases MaxDepth - depth
  {
    if cur.Some? && depth < MaxDepth {
      FreshWalk(pages, id, ParentOf(pages, cur.value), depth + 1);
    }
  }

  lemma FreshPageNeverCycles(pages: Pages, row: Page)
    requires ParentsExist(pages) && row.id !in pages
    requires row.parentId.Some? ==> row.parentId.value in pages
    ensures CycleCheck(pages, row) in {Accept, TooDeep}
  {
    if row.parentId.Some? {
      FreshWalk(pages, row.id, row.parentId, 0);
    }
  }

  /** What `create_page` answers, in source order. */
  function CreateOutcome(pages: Pages, users: Users, userId: Id, title: string, content: Option<string>,
                         parentId: Option<Id>, newId: Id, now: Timestamp): Result<Page>
  {
    var row := Page(newId, userId, parentId, Strip(title), content, now, now);
    if Strip(title) == [] then Err(Unprocessable)
    else if parentId.Some? && OwnedPageOrNone(pages, parentId.value, userId).None? then Err(NotFound)
    else if PageWriteAllowed(pages, users, row) then Ok(row)
    else Err(InternalError)
  }

  /** `create_page`: the stripped title must be non-empty (422), a parent must
      be one of the caller's own pages (404), and then the row is inserted;
      the database refuses it (500) only past the depth bound, an over-long
      title or an unknown owner. */
  method CreatePage(db: Database, userId: Id, title: string, content: Option<string>,
                    parentId: Option<Id>, newId: Id, now: Timestamp) returns (r: Result<Page>)
    requires db.Valid()
    requires newId !in db.pages
    modifies db`pages
    ensures db.Valid()
    ensures db.users == old(db.users) && db.shares == old(db.shares)
    ensures var row := Page(newId, userId, parentId, Strip(title), content, now, now);
      var parentOk := parentId.Some? ==> OwnedPageOrNone(old(db.pages), parentId.value, userId).Some?;
      && (r == Err(Unprocessable) <==> Strip(title) == [])
      && (r == Err(NotFound) <==> Strip(title) != [] && !parentOk)
      && (r == Err(InternalError) <==>
            Strip(title) != [] && parentOk && !PageWriteAllowed(old(db.pages), db.users, row))
      && (r.Ok? ==> r.value == row && db.pages == old(db.pages)[newId := row])
    ensures r == CreateOutcome(old(db.pages), db.users, userId, title, content, parentId, newId, now)
    ensures r.Err? ==> db.pages == old(db.pages)
  {
    var normalized := Strip(title);
    if normalized == [] {
      return Err(Unprocessable);
    }
    if parentId.Some? {
      var parentPage := OwnedPageOrNone(db.pages, parentId.value, userId);
      if parentPage.None? {
        return Err(NotFound);
      }
    }
    var page := Page(newId, userId, parentId, normalized, content, now, now);
    var ok := db.WritePage(page);
    if !ok {
      return Err(InternalError);
    }
    r := Ok(page);
  }

  /** The fields `update_page` was asked to change: a key absent from
      `updates` is `Unset`. */
  datatype PageUpdates = PageUpdates(
    title: Field<Option<string>>,
    content: Field<Option<string>>,
    parentId: Field<Option<Id>>)

  /** A present title that is null or blank after stripping. */
  predicate TitleRejected(u: PageUpdates) {
    u.title.Set? && (u.title.value.None? || Strip(u.title.value.value) == [])
  }

  /** A hierarchy change asked for by someone other than the owner. */
  predicate HierarchyForbidden(u: PageUpdates, access: AccessLevel) {
    u.parentId.Set? && access != OwnerAccess
  }

  predicate OwnParent(u: PageUpdates, pageId: Id) {
    u.parentId == Set(Some(pageId))
  }

  /** The row with the present title and content replaced (the title
      stripped): what the session holds when `update_page` reaches the
      parent lookup. */
  function Retexted(row: Page, u: PageUpdates): Page
    requires !TitleRejected(u)
  {
    row.(title := if u.title.Set? then Strip(u.title.value.value) else row.title,
         content := if u.content.Set? then u.content.value else row.content)
  }

  /** The row with every present field replaced. */
  function Edited(row: Page, u: PageUpdates): Page
    requires !TitleRejected(u)
  {
    Retexted(row, u).(parentId := if u.parentId.Set? then u.parentId.value else row.parentId)
  }

  /** Only the fields present in the updates differ from the stored row. */
  lemma EditedChangesOnlyPresent(row: Page, u: PageUpdates)
    requires !TitleRejected(u)
    ensures var e := Edited(row, u);
      && e.id == row.id && e.userId == row.userId
      && e.createdAt == row.createdAt && e.updatedAt == row.updatedAt
      && (u.title.Unset? ==> e.title == row.title)
      && (u.title.Set? ==> e.title == Strip(u.title.value.value) && e.title != [])
      && (u.content.Unset? ==> e.content == row.content)
      && (u.parentId.Unset? ==> e.parentId == row.parentId)
  {
  }

  /** The commit of `update_page`. With no net change the ORM issues no
      UPDATE, so no trigger runs; otherwise the row is written with
      `updated_at` stamped. */
  function CommitOutcome(pages: Pages, users: Users, stored: Page, page: Page, now: Timestamp): Result<Page>
  {
    if page == stored then Ok(stored)
    else if PageWriteAllowed(pages, users, page.(updatedAt := now)) then Ok(page.(updatedAt := now))
    else Err(InternalError)
  }

  /** The parent lookup of `update_page` runs a query while the title and
      content edits are still pending, and the session's autoflush writes them
      first, under the old `parent_id`: the trigger then walks the old chain.
      The flush aborts the request when that write is refused. */
  predicate FlushRefused(pages: Pages, users: Users, stored: Page, page: Page, now: Timestamp)
  {
    page != stored && !PageWriteAllowed(pages, users, page.(updatedAt := now))
  }

  /** A move under a non-null `parent`: the autoflush of `page`, the lookup
      of the parent among the caller's pages, then the commit. */
  function MoveOutcome(pages: Pages, users: Users, stored: Page, page: Page, parent: Id, userId: Id,
                       now: Timestamp): Result<Page>
  {
    if FlushRefused(pages, users, stored, page, now) then Err(InternalError)
    else if OwnedPageOrNone(pages, parent, userId).None? then Err(NotFound)
    else CommitOutcome(pages, users, stored, page.(parentId := Some(parent)), now)
  }

  /** What `update_page` answers once the page is found and the title is
      accepted, in source order. */
  function EditOutcome(pages: Pages, users: Users, stored: Page, userId: Id, access: AccessLevel,
                       u: PageUpdates, now: Timestamp): Result<Page>
    requires !TitleRejected(u)
  {
    if HierarchyForbidden(u, access) then Err(Forbidden)
    else if OwnParent(u, stored.id) then Err(Unprocessable)
    else if u.parentId.Set? && u.parentId.value.Some?
    then MoveOutcome(pages, users, stored, Retexted(stored, u), u.parentId.value.value, userId, now)
    else CommitOutcome(pages, users, stored, Edited(stored, u), now)
  }

  /** What `update_page` answers. */
  function UpdateOutcome(pages: Pages, users: Users, pageId: Id, userId: Id, access: AccessLevel,
                         u: PageUpdates, now: Timestamp): Result<Page>
  {
    if pageId !in pages then Err(NotFound)
    else if TitleRejected(u) then Err(Unprocessable)
    else EditOutcome(pages, users, pages[pageId], userId, access, u, now)
  }

  /** A successful update passed every check and is the edited row:
      unchanged when nothing changed, otherwise stamped. */
  lemma UpdateOkIsEdit(pages: Pages, users: Users, pageId: Id, userId: Id, access: AccessLevel,
                       u: PageUpdates, now: Timestamp)
    ensures var r := UpdateOutcome(pages, users, pageId, userId, access, u, now);
      r.Ok? ==>
        && pageId in pages && !TitleRejected(u)
        && (u.parentId.Set? ==> access == OwnerAccess)
        && (u.parentId.Set? && u.parentId.value.Some? ==>
              OwnedPageOrNone(pages, u.parentId.value.value, userId).Some?)
        && r.value == (if Edited(pages[pageId], u) == pages[pageId] then pages[pageId]
                       else Edited(pages[pageId], u).(updatedAt := now))
  {
    if pageId in pages && !TitleRejected(u) && u.parentId.Set? && u.parentId.value.Some? {
      var s := pages[pageId];
      assert Retexted(s, u).(parentId := u.parentId.value) == Edited(s, u);
    }
  }

  /** A successful update returns the stored row with exactly the sent
      fields replaced, stamped when anything changed. */
  lemma UpdateOutcomeMeaning(pages: Pages, users: Users, pageId: Id, userId: Id, access: AccessLevel,
                             u: PageUpdates, now: Timestamp)
    ensures var r := UpdateOutcome(pages, users, pageId, userId, access, u, now);
      r.Ok? ==>
        && pageId in pages
        && var s := pages[pageId];
        && r.value.id == s.id && r.value.userId == s.userId && r.value.createdAt == s.createdAt
        && r.value.title == (if u.title.Set? then Strip(u.title.value.value) else s.title)
        && r.value.content == (if u.content.Set? then u.content.value else s.content)
        && r.value.parentId == (if u.parentId.Set? then u.parentId.value else s.parentId)
        && r.value.updatedAt == (if r.value == s then s.updatedAt else now)
  {
    UpdateOkIsEdit(pages, users, pageId, userId, access, u, now);
    var r := UpdateOutcome(pages, users, pageId, userId, access, u, now);
    if r.Ok? {
      EditedChangesOnlyPresent(pages[pageId], u);
    }
  }

  /** Rewriting a stored row under its own parent never closes a cycle. */
  lemma {:induction false} StoredWalk(pages: Pages, id: Id, cur: Option<Id>, depth: nat)
    requires Acyclic(pages) && id in pages && depth <= MaxDepth
    requires cur == Hop(pages, Some(id), depth + 1)
    ensures Walk(pages, id, cur, depth) in {Accept, TooDeep}
    decreases MaxDepth - depth
  {
    if cur.Some? && depth < MaxDepth {
      NoWayBack(pages, id, depth + 1);
      HopAdd(pages, Some(id), depth + 1, 1);
      StoredWalk(pages, id, ParentOf(pages, cur.value), depth + 1);
    }
  }

  /** The autoflush is refused only for the depth bound of the old chain (or
      an over-long title). */
  lemma FlushRefusedOnlyByDepth(pages: Pages, users: Users, pageId: Id, u: PageUpdates, now: Timestamp)
    requires PagesValid(pages, users) && pageId in pages && !TitleRejected(u)
    requires |Retexted(pages[pageId], u).title| <= MaxTitleLength
    requires FlushRefused(pages, users, pages[pageId], Retexted(pages[pageId], u), now)
    ensures CycleCheck(pages, Retexted(pages[pageId], u).(updatedAt := now)) == TooDeep
  {
    var row := Retexted(pages[pageId], u).(updatedAt := now);
    assert row.id == pageId && row.parentId == pages[pageId].parentId;
    if row.parentId.Some? {
      StoredWalk(pages, pageId, row.parentId, 0);
    }
  }

  /** A page whose old chain is at the depth bound cannot be retitled and
      moved in one request, wherever it is moved to. */
  lemma DeepChainBlocksRetitledMove(pages: Pages, users: Users, pageId: Id, userId: Id,
                                    u: PageUpdates, now: Timestamp)
    requires pageId in pages && pages[pageId].id == pageId && pages[pageId].parentId.Some?
    requires Hop(pages, pages[pageId].parentId, MaxDepth - 1) != None
    requires u.title.Set? && u.title.value.Some? && Strip(u.title.value.value) != []
    requires Strip(u.title.value.value) != pages[pageId].title
    requires u.parentId.Set? && u.parentId.value.Some? && u.parentId.value.value != pageId
    ensures UpdateOutcome(pages, users, pageId, userId, OwnerAccess, u, now) == Err(InternalError)
  {
    var stored := pages[pageId];
    var page := Retexted(stored, u);
    assert page.title != stored.title;
    DepthBoundRejected(pages, page.(updatedAt := now));
    assert FlushRefused(pages, users, stored, page, now);
  }

  /** The flushed row keeps the parent links, so the final write is judged
      as it would be on the table before the flush. */
  lemma FlushKeepsWriteVerdict(pages: Pages, users: Users, mid: Page, row: Page)
    requires mid.id in pages && mid.parentId == pages[mid.id].parentId
    ensures PageWriteAllowed(pages[mid.id := mid], users, row) == PageWriteAllowed(pages, users, row)
  {
    var newer := pages[mid.id := mid];
    assert forall x :: ParentOf(newer, x) == ParentOf(pages, x);
    if row.parentId.Some? && row.parentId.value != row.id {
      SameLinksSameWalk(newer, pages, row.id, row.parentId, 0);
    }
  }

  /** `update_page`, step by step: the lookup, the title and content edits,
      then the hierarchy change and the commit. */
  method UpdatePage(db: Database, pageId: Id, userId: Id, access: AccessLevel,
                    updates: PageUpdates, now: Timestamp) returns (r: Result<Page>)
    requires db.Valid()
    modifies db`pages
    ensures db.Valid()
    ensures db.users == old(db.users) && db.shares == old(db.shares)
    ensures r == UpdateOutcome(old(db.pages), db.users, pageId, userId, access, updates, now)
    ensures db.pages == if r.Ok? then old(db.pages)[pageId := r.value] else old(db.pages)
  {
    var found := Fetch(db.pages, pageId);
    if found.Err? {
      return Err(found.status);
    }
    var stored := found.value;
    var page := stored;
    if updates.title.Set? {
      var t := updates.title.value;
      var normalized := if t.Some? then Strip(t.value) else [];
      if normalized == [] {
        return Err(Unprocessable);
      }
      page := page.(title := normalized);
    }
    if updates.content.Set? {
      page := page.(content := updates.content.value);
    }
    r := EditPage(db, stored, page, userId, access, updates, now);
  }

  /** The hierarchy change of `update_page`, then the commit. */
  method EditPage(db: Database, stored: Page, page: Page, userId: Id, access: AccessLevel,
                  updates: PageUpdates, now: Timestamp) returns (r: Result<Page>)
    requires db.Valid() && stored.id in db.pages && db.pages[stored.id] == stored
    requires !TitleRejected(updates) && page == Retexted(stored, updates)
    modifies db`pages
    ensures db.Valid()
    ensures db.users == old(db.users) && db.shares == old(db.shares)
    ensures r == EditOutcome(old(db.pages), db.users, stored, userId, access, updates, now)
    ensures db.pages == if r.Ok? then old(db.pages)[stored.id := r.value] else old(db.pages)
  {
    var edited := page;
    if updates.parentId.Set? {
      if access != OwnerAccess {
        return Err(Forbidden);
      }
      var newParent := updates.parentId.value;
      if newParent.None? {
        edited := page.(parentId := None);
      } else if newParent.value == page.id {
        return Err(Unprocessable);
      } else {
        r := MoveUnder(db, stored, page, newParent.value, userId, now);
        return;
      }
    }
    RewriteSame(db.pages, stored.id);
    r := Commit(db, db.pages, stored, stored, edited, now);
  }

  /** A move under `parent`: the pending title and content edits are
      flushed first, then the new parent must be one of the caller's pages,
      then the commit. Every failure rolls the flushed write back. */
  method MoveUnder(db: Database, stored: Page, page: Page, parent: Id, userId: Id, now: Timestamp)
    returns (r: Result<Page>)
    requires db.Valid() && stored.id in db.pages && db.pages[stored.id] == stored
    requires page.id == stored.id && page.parentId == stored.parentId && page.updatedAt == stored.updatedAt
    requires parent != stored.id
    modifies db`pages
    ensures db.Valid()
    ensures db.users == old(db.users) && db.shares == old(db.shares)
    ensures r == MoveOutcome(old(db.pages), db.users, stored, page, parent, userId, now)
    ensures db.pages == if r.Ok? then old(db.pages)[stored.id := r.value] else old(db.pages)
  {
    var before := db.pages;
    var flushed, mid := Flush(db, stored, page, now);
    if !flushed {
      return Err(InternalError);
    }
    r := PlaceUnder(db, before, mid, stored, page, parent, userId, now);
  }

  /** The rest of a move, on the table after the flush wrote `mid`: the
      lookup of the parent among the caller's pages (a 404 rolls the flush
      back), then the commit. */
  method PlaceUnder(db: Database, before: Pages, ghost mid: Page, stored: Page, page: Page, parent: Id,
                    userId: Id, now: Timestamp) returns (r: Result<Page>)
    requires db.Valid() && TablesValid(db.users, before, db.shares)
    requires stored.id in before && before[stored.id] == stored
    requires page.id == stored.id && page.parentId == stored.parentId && page.updatedAt == stored.updatedAt
    requires parent != stored.id
    requires mid == (if page != stored then page.(updatedAt := now) else stored)
    requires db.pages == before[stored.id := mid]
    requires mid == stored || PageWriteAllowed(before, db.users, mid)
    modifies db`pages
    ensures db.Valid()
    ensures db.users == old(db.users) && db.shares == old(db.shares)
    ensures r == if OwnedPageOrNone(before, parent, userId).None? then Err(NotFound)
                 else CommitOutcome(before, db.users, stored, page.(parentId := Some(parent)), now)
    ensures db.pages == if r.Ok? then before[stored.id := r.value] else before
  {
    LookupPastFlush(before, mid, parent, userId);
    ReparentedDiffers(stored, page, Some(parent));
    var parentPage := OwnedPageOrNone(db.pages, parent, userId);
    if parentPage.None? {
      db.pages := before;
      return Err(NotFound);
    }
    r := Commit(db, before, mid, stored, page.(parentId := Some(parent)), now);
  }

  /** An edit that keeps the parent still differs from the stored row
      once it is moved. */
  lemma ReparentedDiffers(stored: Page, page: Page, parentId: Option<Id>)
    requires page.parentId == stored.parentId
    ensures page != stored ==> page.(parentId := parentId) != stored
  {
    assert page.(parentId := parentId).(parentId := stored.parentId) == page;
  }

  /** The flushed row is not the parent looked up, so the lookup sees what
      it would have seen before the flush. */
  lemma LookupPastFlush(pages: Pages, row: Page, parent: Id, userId: Id)
    requires parent != row.id
    ensures OwnedPageOrNone(pages[row.id := row], parent, userId) == OwnedPageOrNone(pages, parent, userId)
  {
  }

  /** The autoflush: the pending edits of `stored` are written, if there
      are any. */
  method Flush(db: Database, stored: Page, page: Page, now: Timestamp) returns (ok: bool, ghost mid: Page)
    requires db.Valid() && stored.id in db.pages && db.pages[stored.id] == stored && page.id == stored.id
    modifies db`pages
    ensures db.Valid()
    ensures db.users == old(db.users) && db.shares == old(db.shares)
    ensures ok == !FlushRefused(old(db.pages), db.users, stored, page, now)
    ensures mid == if page != stored then page.(updatedAt := now) else stored
    ensures db.pages == if ok then old(db.pages)[stored.id := mid] else old(db.pages)
  {
    ok, mid := true, stored;
    if page != stored {
      var row := page.(updatedAt := now);
      ok := db.WritePage(row);
      mid := row;
    } else {
      RewriteSame(db.pages, stored.id);
    }
  }

  /** The commit of `update_page`, on a table that may hold the flushed
      row `mid`: no UPDATE without a net change, otherwise the row with
      `updated_at` stamped. */
  method Commit(db: Database, before: Pages, ghost mid: Page, stored: Page, page: Page, now: Timestamp)
    returns (r: Result<Page>)
    requires db.Valid() && TablesValid(db.users, before, db.shares)
    requires stored.id in before && before[stored.id] == stored
    requires page.id == stored.id && page.updatedAt == stored.updatedAt
    requires mid.id == stored.id && mid.parentId == stored.parentId && db.pages == before[stored.id := mid]
    requires mid == stored || (page != stored && PageWriteAllowed(before, db.users, mid))
    modifies db`pages
    ensures db.Valid()
    ensures db.users == old(db.users) && db.shares == old(db.shares)
    ensures r == CommitOutcome(before, db.users, stored, page, now)
    ensures db.pages == if r.Ok? then before[stored.id := r.value] else before
  {
    if page == stored {
      RewriteSame(before, stored.id);
      return Ok(page);
    }
    StampedDiffers(stored, page, now);
    r := Rewrite(db, before, mid, page.(updatedAt := now));
  }

  /** A stamped edit still differs from the row it edits. */
  lemma StampedDiffers(stored: Page, page: Page, now: Timestamp)
    requires page.updatedAt == stored.updatedAt && page != stored
    ensures page.(updatedAt := now) != stored
  {
    assert page.(updatedAt := now).(updatedAt := stored.updatedAt) == page;
  }

  /** The UPDATE of the commit, over the flushed row `mid`: nothing to do
      when the flush already wrote exactly `row`; a refused write rolls the
      flush back too. */
  method Rewrite(db: Database, before: Pages, ghost mid: Page, row: Page) returns (r: Result<Page>)
    requires db.Valid() && TablesValid(db.users, before, db.shares)
    requires row.id in before && row != before[row.id]
    requires mid.id == row.id && mid.parentId == before[row.id].parentId && db.pages == before[row.id := mid]
    requires mid == before[row.id] || PageWriteAllowed(before, db.users, mid)
    modifies db`pages
    ensures db.Valid()
    ensures db.users == old(db.users) && db.shares == old(db.shares)
    ensures r == if PageWriteAllowed(before, db.users, row) then Ok(row) else Err(InternalError)
    ensures db.pages == if r.Ok? then before[row.id := row] else before
  {
    if db.pages[row.id] == row {
      return Ok(row);
    }
    FlushKeepsWriteVerdict(before, db.users, mid, row);
    RewriteTwice(before, row.id, mid, row);
    var ok := db.WritePage(row);
    if !ok {
      db.pages := before;
      return Err(InternalError);
    }
    r := Ok(row);
  }

  /** `delete_page`: 404 for a missing page; otherwise the page, its whole
      subtree and every share row of a deleted page are removed. */
  method DeletePage(db: Database, pageId: Id, userId: Id) returns (r: Result<()>)
    requires db.Valid()
    modifies db`pages, db`shares
    ensures db.Valid()
    ensures db.users == old(db.users)
    ensures r.Err? <==> pageId !in old(db.pages)
    ensures r.Err? ==> r.status == NotFound && db.pages == old(db.pages) && db.shares == old(db.shares)
    ensures r.Ok? ==> db.pages == CascadePages(old(db.pages), {pageId})
    ensures r.Ok? ==> db.shares == CascadeShares(old(db.shares), db.pages, db.users)
  {
    var found := Fetch(db.pages, pageId);
    if found.Err? {
      return Err(found.status);
    }
    db.DeletePageRow(pageId);
    r := Ok(());
  }
}
