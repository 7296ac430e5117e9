# MemoryEngine pages, sharing and accounts — a Dafny model

MemoryEngine keeps each user's notes as a forest of pages. A page may have a
parent page, and its owner may share it with other users, either view-only or
with edit rights. This project models the backend core behind that:

- **The tables and their rules.** The `users`, `pages` and `page_shares`
  tables are modelled with their keys, foreign keys, CHECK and UNIQUE
  constraints and ON DELETE CASCADE rules. Also modelled are the
  `check_page_hierarchy_cycle` trigger (migration 003) and the `updated_at`
  and first-user-admin triggers (migration 006). Each is a class
  `Store.Database` whose methods perform one write each. The invariant
  `Valid()` collects every constraint, and every write keeps it.
- **The hierarchy.** The trigger's walk up the parent chain is a method with
  a loop, proved against a function. The lemmas prove three things:
  - the trigger accepts a write exactly when the walk reaches a root within
    100 steps without meeting the page itself;
  - an accepted write keeps the forest acyclic;
  - a cascading delete removes exactly the subtrees of the deleted pages.
- **Access.** `check_page_access` resolves a user's access to a page as
  owner, edit or view-only. `require_page_access` gates it. The page
  endpoints apply one gate each.
- **The pages service.** Modelled operations: create, get, update, delete,
  children, and `list_pages`. `list_pages` returns the caller's own pages
  and the pages shared with them as a forest sorted by case-folded title.
  The model proves that this forest is built correctly, and that building it
  terminates because the hierarchy is acyclic.
- **The sharing service.** Modelled operations: share (an upsert), revoke,
  and the list of a page's shares joined with each target's e-mail.
- **Accounts.** Modelled parts:
  - the request validators of `schemas/auth.py`;
  - registration, login and profile update;
  - the admin's user list, user creation and user deletion, which never
    removes the last admin.

Identifiers are naturals. The order of UUID strings is the numeric order of
their 128-bit values. Timestamps, new identifiers, the password hash and the
password check are parameters of the operations. Text is a sequence of
characters with ASCII case and whitespace rules. Each request is one
transaction: when the database refuses a write, no table changes.

Nothing catches the exception the hierarchy trigger raises for a cyclic or
too-deep write, so such a request ends in 500 (`InternalError` here).

## Model

| member | source | states |
|---|---|---|
| Hierarchy.CheckPageHierarchyCycle | backend/alembic/versions/003_add_circular_reference_prevention.py:17-70 | the trigger's walk up the parent chain, at most 100 steps, returns the verdict of `CycleCheck`: null parent accepted, own parent rejected |
| Hierarchy.AcceptIff | backend/alembic/versions/003_add_circular_reference_prevention.py:38-57 | the trigger accepts exactly when the chain above the new parent reaches null within 100 hops without meeting the page |
| Hierarchy.ReparentIntoSubtreeRejected | backend/alembic/versions/003_add_circular_reference_prevention.py:40-44 | moving a page under one of its own descendants is always rejected |
| Hierarchy.DepthBoundRejected | backend/alembic/versions/003_add_circular_reference_prevention.py:54-57 | a parent chain of 100 or more pages is rejected even without a cycle |
| Hierarchy.AcceptPreservesAcyclic | backend/alembic/versions/003_add_circular_reference_prevention.py:64-70 | a write the trigger accepts keeps every parent chain finite |
| Hierarchy.RemovalPreservesAcyclic | backend/alembic/versions/002_create_pages_table.py:33 | removing pages keeps the forest acyclic |
| Hierarchy.SameLinksSameWalk | backend/alembic/versions/003_add_circular_reference_prevention.py:38-57 | the trigger's walk depends only on the parent links of the table, not on the other columns |
| Hierarchy.NoWayBack | backend/alembic/versions/003_add_circular_reference_prevention.py:40-44 | in an acyclic table no page is its own ancestor |
| Constraints.OwnedBy | backend/alembic/versions/002_create_pages_table.py:32 | exactly the pages whose `user_id` is the user |
| Constraints.CascadePages | backend/alembic/versions/002_create_pages_table.py:32-33 | the result is a part of the table, unchanged row by row, that holds no doomed page and is closed under the stored parent links; that it removes exactly the doomed subtrees is `CascadeDeletesExactlySubtrees` |
| Constraints.CascadeDeletesExactlySubtrees | backend/alembic/versions/002_create_pages_table.py:33 | a page is removed by the cascade exactly when it lies in the subtree of a deleted page |
| Constraints.CascadeShares | backend/alembic/versions/005_create_page_shares_table.py:34-36 | a share row survives exactly when its page, its owner and its target all survive |
| Store.FirstUserRole | backend/alembic/versions/006_add_database_triggers.py:54-79 | the row inserted into an empty users table becomes admin; any later row keeps the requested role |
| Store.WriteKeepsPagesValid | backend/alembic/versions/002_create_pages_table.py:21-37 | a page write that passes the trigger and the constraints keeps every page constraint |
| Store.CascadeKeepsPagesValid | backend/alembic/versions/002_create_pages_table.py:32-33 | after a cascade every parent and every owner of a remaining page still exists |
| Store.CascadeKeepsSharesValid | backend/alembic/versions/005_create_page_shares_table.py:34-42 | after a cascade every share row still names an existing page, owner and target |
| Store.ShareWriteKeepsValid | backend/alembic/versions/005_create_page_shares_table.py:24-43 | writing a share row whose page, owner and target exist and whose owner is not the target keeps the share constraints |
| Store.Database.WritePage | backend/alembic/versions/003_add_circular_reference_prevention.py:64-70 | the row is stored exactly when the trigger accepts it, the title fits 500 characters and both foreign keys resolve; otherwise nothing changes |
| Store.Database.DeletePageRow | backend/alembic/versions/002_create_pages_table.py:33 | deleting a page removes its subtree and every share of a removed page |
| Store.Database.InsertUser | backend/alembic/versions/006_add_database_triggers.py:54-79 | the user row is added, admin when the table was empty; the table keeps an admin |
| Store.Database.UpdateUserRow | backend/alembic/versions/006_add_database_triggers.py:19-35 | the row is replaced and its `updated_at` set to the clock |
| Store.Database.DeleteUserRow | backend/alembic/versions/002_create_pages_table.py:32 | the user goes, with their pages, the subtrees below them and every share naming a removed user or page |
| SharingService.CheckPageAccess | backend/app/services/sharing_service.py:121-147 | no access to a missing page; owner exactly for the page's owner; otherwise the level of the caller's share row, or none |
| SharingService.RequirePageOwner | backend/app/services/sharing_service.py:150-165 | 403 unless the page exists and the caller owns it |
| SharingService.SharePage | backend/app/services/sharing_service.py:25-63 | 403 unless owner, then 404 for an unknown target, then 422 for sharing with oneself; otherwise the share for (page, target) is created, or its permission replaced |
| SharingService.RevokeShare | backend/app/services/sharing_service.py:66-89 | 403 unless owner, 404 when no share exists; otherwise exactly that share row is removed |
| SharingService.JoinedRowsSound | backend/app/services/sharing_service.py:100-106 | every joined row is the share row of its own key with its target's e-mail |
| SharingService.GetPageShares | backend/app/services/sharing_service.py:92-118 | 403 unless owner; otherwise every share of the page, each once, joined with its target's e-mail and sorted by it |
| Permissions.Gate | backend/app/core/permissions.py:20-39 | 404 without access, 403 when the level is below what is required, otherwise the level unchanged |
| Permissions.RequirePageAccess | backend/app/core/permissions.py:13-39 | the gate applied to the resolved access: 404 exactly when there is no access |
| Permissions.GateMonotone | backend/app/core/permissions.py:27-37 | passing a stricter requirement implies passing every weaker one |
| Permissions.GateMeaning | backend/app/core/permissions.py:13-39 | the owner gate admits only the owner; the edit gate admits the owner or an edit share; the view gate admits the owner or any share, and its only error is 404 |
| PagesService.OwnedPageOrNone | backend/app/services/pages_service.py:245-254 | the page exactly when it exists and the user owns it |
| PagesService.GetPage | backend/app/services/pages_service.py:48-60 | an owned page, or 404 |
| Common.Fetch | backend/app/services/pages_service.py:63-75 | the row under the key, whoever owns it, exactly when it exists, otherwise 404; `_require_target_user` of sharing_service.py (lines 168-180) is the same lookup on the users table |
| PagesService.GetChildPages | backend/app/services/pages_service.py:232-242 | exactly the pages whose parent is the page, each once, sorted by title and id |
| PagesService.FreshPageNeverCycles | backend/app/services/pages_service.py:13-45 | a new page under an existing parent can never close a cycle, so the trigger can only accept it or hit the depth bound |
| PagesService.CreatePage | backend/app/services/pages_service.py:13-45 | 422 exactly for a blank title, 404 exactly for a parent the caller does not own, 500 exactly when the database refuses the row; otherwise the row with the stripped title and the clock is stored; the answer is `CreateOutcome`, which the endpoint is tied to |
| PagesService.EditedChangesOnlyPresent | backend/app/services/pages_service.py:78-128 | the edited row differs from the stored one only in the fields the request sent |
| PagesService.UpdatePage | backend/app/services/pages_service.py:78-128 | the answer is `UpdateOutcome`, in source order: 404, 422 (blank title), 403 (hierarchy change by a non-owner), 422 (own parent); for a move, 500 when the autoflush of the pending title and content edits is refused, then 404 (parent not owned); an edit with no net change leaves the row untouched; otherwise the edited row with a new `updated_at`, or 500 when the trigger refuses; the table changes only on success |
| PagesService.UpdateOkIsEdit | backend/app/services/pages_service.py:86-128 | a successful update found the page, accepted the title, had the owner for a hierarchy change and an owned new parent, and returns the edited row, stamped exactly when it changed |
| PagesService.UpdateOutcomeMeaning | backend/app/services/pages_service.py:86-128 | a successful update keeps the id, owner and creation time, takes the title (stripped), content and parent exactly when they were sent, and keeps the rest |
| PagesService.EditPage | backend/app/services/pages_service.py:101-128 | after the title and content edits: 403 for a hierarchy change by a non-owner, 422 for the page as its own parent, a move to a non-null parent through `MoveUnder`, otherwise the commit; the table changes only on success |
| PagesService.MoveUnder | backend/app/services/pages_service.py:116-124 | the parent lookup first flushes the pending edits under the old parent (500 when the trigger refuses them), then needs a parent the caller owns (404), then commits; every failure restores the table |
| PagesService.PlaceUnder | backend/app/services/pages_service.py:116-128 | after the flush, the parent lookup answers as on the table before it; a 404 rolls the flushed row back; otherwise the commit of the moved row |
| PagesService.Flush | backend/app/services/pages_service.py:116-118 | the pending edits are written, stamped, exactly when there are some; the write fails exactly when the trigger or a constraint refuses it, and then nothing changes |
| PagesService.Commit | backend/app/services/pages_service.py:126-128 | no net change: no UPDATE and the row as stored; otherwise the row with a new `updated_at`, or 500 with the table as it was before the request |
| PagesService.Rewrite | backend/app/services/pages_service.py:126-128 | the UPDATE over the flushed row is judged as on the table before the flush; a refusal rolls the flush back too |
| PagesService.StoredWalk | backend/alembic/versions/003_add_circular_reference_prevention.py:40-57 | writing a stored row back under its own parent never meets the row itself: the walk can only accept or reach the depth bound |
| PagesService.FlushRefusedOnlyByDepth | backend/app/services/pages_service.py:116-118 | the autoflush, which keeps the old parent, is refused only for the depth bound of the old chain |
| PagesService.DeepChainBlocksRetitledMove | backend/app/services/pages_service.py:88-124 | a page whose old parent chain is at the depth bound cannot be retitled and moved in one request: the answer is 500 whatever the new parent |
| PagesService.FlushKeepsWriteVerdict | backend/alembic/versions/003_add_circular_reference_prevention.py:38-57 | a flushed row that keeps its parent does not change how the trigger judges the final write |
| PagesService.LookupPastFlush | backend/app/services/pages_service.py:245-254 | the flushed row is not the parent looked up, so the lookup answers as before the flush |
| PagesService.DeletePage | backend/app/services/pages_service.py:131-139 | 404 for a missing page; otherwise the page, its subtree and their shares are removed |
| PageListing.WithParent | backend/app/services/pages_service.py:192-196 | exactly the listed pages with that parent, in order |
| PageListing.Serialize | backend/app/services/pages_service.py:198-216 | the node shows the page as stored with its metadata, and its children are exactly its visible children, sorted, each well formed |
| PageListing.SerializeAll | backend/app/services/pages_service.py:215 | one well-formed node per child, in order |
| PageListing.CollectOwned | backend/app/services/pages_service.py:164-170 | every owned page is listed once, with no sharing metadata |
| PageListing.CollectShared | backend/app/services/pages_service.py:172-180 | each shared page is added once with its permission and owner e-mail, unless it is already listed |
| PageListing.CollectVisible | backend/app/services/pages_service.py:148-180 | the metadata map is exactly the caller's own and shared pages with their metadata |
| PageListing.IndexPages | backend/app/services/pages_service.py:192-196 | `by_id` holds every listed page; `by_parent` holds each parent's pages in list order |
| PageListing.RootsOf | backend/app/services/pages_service.py:219-223 | the listed pages whose parent is null or not listed |
| PageListing.RootNodes | backend/app/services/pages_service.py:218-225 | the visible roots, each once, sorted, each well formed |
| PageListing.ChildNodes | backend/app/services/pages_service.py:227-229 | the visible children of the parent, each once, sorted, each well formed |
| PageListing.ListPages | backend/app/services/pages_service.py:142-229 | 404 when a parent is given and is not visible to the caller; otherwise the visible roots, or the parent's visible children, as a sorted forest of well-formed nodes |
| PagesRouter.CreatePageEndpoint | backend/app/routers/pages.py:45-58 | 422 for a title outside 1 to 500 characters; otherwise exactly the answer of `create_page` for the caller as owner; the only 500 comes from the depth bound |
| PagesRouter.GetPageEndpoint | backend/app/routers/pages.py:61-74 | the page exactly for its owner or a user it is shared with; every failure is 404 |
| PagesRouter.ChildrenEndpoint | backend/app/routers/pages.py:77-90 | view access on the parent, then all of its children, with no access check per child |
| PagesRouter.UpdatePageEndpoint | backend/app/routers/pages.py:93-114 | 422 for a bad body; the edit gate's error otherwise; once the gate passes, exactly the answer of `update_page` at the resolved level; a success needs the owner or an edit share, and moving a page needs the owner |
| PagesRouter.DeletePageEndpoint | backend/app/routers/pages.py:117-130 | succeeds exactly for the owner; 404 exactly without any access, 403 with a share only; the subtree and its shares go |
| AuthSchemas.ValidatePassword | backend/app/schemas/auth.py:19-30 | 8 to 72 characters with a letter and a digit, returned unchanged; otherwise 422 |
| AuthSchemas.ValidateName | backend/app/schemas/auth.py:17-38 | the raw name has 1 to 255 characters and is not blank; the result is its trimmed form |
| AuthSchemas.UsernameCharsShape | backend/app/schemas/auth.py:40-50 | a username that passes the character checks is lower-case letters, digits and inner underscores, and is its own normal form |
| AuthSchemas.ValidateUsername | backend/app/schemas/auth.py:18-50 | as written: 3 to 30 raw characters, then stripped and lower-cased, letters, digits and underscores only, no leading or trailing underscore |
| AuthSchemas.ShortUsernameAccepted | backend/app/schemas/auth.py:18-50 | " ab " is accepted as "ab", while "ab" itself is refused |
| AuthSchemas.ValidateUsernameChecked | backend/app/schemas/auth.py:18-50 | the same checks, with the 3 to 30 bound also holding for the normalised username |
| AuthSchemas.UsernameCheckedAgrees | backend/app/schemas/auth.py:18-50 | the corrected username check differs from the check as written only on usernames the latter accepts with a normal form shorter than 3 characters |
| AuthSchemas.UsernameIdempotent | backend/app/schemas/auth.py:40-50 | validating an accepted username again gives it back unchanged |
| AuthSchemas.ValidateOptionalName | backend/app/schemas/auth.py:73-84 | a null name passes as null; a present one is validated like a required one |
| AuthSchemas.ValidateOptionalUsername | backend/app/schemas/auth.py:74-98 | a null username passes as null; a present one goes through the corrected username check |
| AuthSchemas.ValidateNewAccount | backend/app/schemas/auth.py:15-50 | the registration body is accepted exactly when name and password are valid and the username passes the corrected check, and carries their normal forms |
| AuthSchemas.ValidateProfile | backend/app/schemas/auth.py:72-104 | 422 when both fields are null or one is invalid (the username by the corrected check); otherwise the normal forms of the fields that were sent |
| AuthSchemas.ProfileUsernameLower | backend/app/schemas/auth.py:86-98 | a username in an accepted profile body is already lower case |
| AuthSchemas.ValidateLoginPassword | backend/app/schemas/auth.py:53-55 | the login password has 1 to 128 characters |
| AuthRouter.Normalize | backend/app/routers/auth.py:52-53 | the lower-cased, stripped form is lower case and trimmed |
| AuthRouter.NormalizeIdempotent | backend/app/routers/auth.py:52-53 | normalising twice is normalising once |
| AuthRouter.FindByEmail | backend/app/routers/auth.py:96-97 | finds a user exactly when one has that e-mail |
| AuthRouter.CreateAccount | backend/app/routers/auth.py:52-89 | 409 exactly when the normalised e-mail or the case-folded username is taken; otherwise the new row with normalised fields, the hash and the trigger's role |
| AuthRouter.Register | backend/app/routers/auth.py:43-89 | 422 exactly for an invalid body; 409 exactly when a valid body's e-mail or case-folded username is taken; a new user is admin exactly when the table was empty |
| AuthRouter.Login | backend/app/routers/auth.py:92-107 | succeeds exactly when a user has the normalised e-mail and the password matches their hash; an unknown e-mail and a wrong password get the same 401 |
| AuthRouter.RegisteredCanLogin | backend/app/routers/auth.py:92-107 | a user stored with the hash of their password logs in with it and gets their own row |
| AuthRouter.Profiled | backend/app/routers/auth.py:156-170 | only the fields sent change |
| AuthRouter.ProfiledKeepsUnique | backend/app/routers/auth.py:156-168 | after the lookup finds no clash, the edited row keeps e-mails and case-folded usernames unique |
| AuthRouter.ApplyProfile | backend/app/routers/auth.py:172-176 | the row is written, with a new `updated_at`, only when it changed |
| AuthRouter.UpdateMe | backend/app/routers/auth.py:151-176 | 422 for an invalid or empty body (the username by the corrected check), 409 exactly when another user's case-folded username matches; otherwise the edited row |
| AdminRouter.RequireAdmin | backend/app/routers/admin.py:17-22 | 403 unless the caller is an admin |
| AdminRouter.AllUsers | backend/app/routers/admin.py:31-32 | every user row, each once |
| AdminRouter.ListUsers | backend/app/routers/admin.py:25-34 | 403 for a non-admin; otherwise every user, each once, sorted by e-mail |
| AdminRouter.CreateUser | backend/app/routers/admin.py:37-87 | 422 for an invalid body, then 403 for a non-admin, then 409 exactly for a taken e-mail or case-folded username; otherwise the user with the normalised e-mail and username, the trimmed name, the hash of the password and the requested role |
| AdminRouter.LastAdminGuardUnreachable | backend/app/routers/admin.py:112-121 | when an admin deletes another admin there are at least two admins, so the last-admin guard never fires |
| AdminRouter.DeleteUser | backend/app/routers/admin.py:90-124 | 403, then 404, then 400 for oneself or the last admin, and no other error; it succeeds exactly when no guard fires, and then the user, their pages and the shares naming either go, and an admin remains |
| AdminRouter.DeleteOtherAllowed | backend/app/routers/admin.py:106-124 | for an admin and another existing user the last-admin guard does not hold, so by the success condition of `DeleteUser` an admin can delete any other existing user |

## Left out

- Flashcards, search and the other services are not part of this model.
- Tokens are left out: JWT issuing and checking, the `/refresh` and `GET /me` endpoints, and `get_current_user`. The caller is an existing user id.
- bcrypt hashing and checking are the parameters `hash` and `verify`.
- `EmailStr` syntax validation is left out. An e-mail is any text the router normalises.
- Python's Unicode `lower`, `casefold`, `isalpha`, `isdigit`, `isalnum` and `strip` are modelled on ASCII only. SQL `ORDER BY` on text is code-point order; database collations are left out.
- Concurrency is left out. Requests run one at a time, so the `IntegrityError` branches of `register` and `create_user` cannot be reached. Races between requests, and the 409 they would give, are not modelled.
- Migration downgrades, indexes and the full-text index are left out.
- `list_pages_endpoint` (routers/pages.py 31-42) forwards to `list_pages` unchanged, so it is modelled only as `PageListing.ListPages`.
- The share endpoints (routers/pages.py 133-191) call the sharing service directly, so they are modelled only as `SharingService.SharePage`, `SharingService.RevokeShare` and `SharingService.GetPageShares`.
- Response shaping (`PageResponse`, `UserResponse`, `AuthResponse`) is left out. The operations return the rows.
- AuthSchemas.ValidateOptionalUsername: a present username goes through the corrected check `ValidateUsernameChecked` of the finding below. As written, the source also accepts a username of 3 to 30 raw characters whose normal form is shorter (" ab " is stored as "ab"). `AuthSchemas.UsernameCheckedAgrees` proves this is the only difference.
- AuthSchemas.ValidateNewAccount: uses the corrected username check, so it answers 422 where the source as written accepts a username whose normal form has fewer than 3 characters.
- AuthSchemas.ValidateProfile: uses the corrected username check, with the same single difference.
- AuthRouter.Register: inherits the corrected check. For such a username the source answers 201 and stores the short name; the model answers 422.
- AuthRouter.UpdateMe: inherits the corrected check. For such a username the source answers 200 and stores the short name; the model answers 422.
- AdminRouter.CreateUser: inherits the corrected check. For such a username the source answers 201 and stores the short name; the model answers 422.
- The share permission is assumed to be stored and read back as the labels 'view_only' and 'edit' that migration 005 (lines 21 and 30) gives the `permission_level` type. The ORM mapping of `PageShare.permission_level` (app/models/page_share.py:44-48), unlike that of `User.role`, has no `values_callable`, so SQLAlchemy would send the member names 'VIEW_ONLY' and 'EDIT'. The database would then refuse every share write, and could not read a stored label back. This mismatch between the mapping and the migration is not modelled.
- Hierarchy.Acyclic: the depth bound of 100 is not an invariant of the table. Moving a subtree under a deep parent can make its pages deeper than 100, and the trigger only checks the written row. Only acyclicity is proved to be preserved.

## Findings

| source | as written | input that shows it | evidently intended | confidence | as-written member | corrected member |
|---|---|---|---|---|---|---|
| backend/app/schemas/auth.py:18-50 | the 3-character minimum is checked on the raw username, before `strip().lower()` | username " ab " is accepted and stored as "ab", which is refused when submitted as is | a stored username has at least 3 characters, and validating it again accepts it unchanged | not executed | AuthSchemas.ShortUsernameAccepted | AuthSchemas.UsernameIdempotent |
