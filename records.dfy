/** The rows of the three tables the core works on: `users` (migrations 001
    and 007), `pages` (002) and `page_shares` (005). A table is a map from its
    primary key to its row. */
module Records {
  import opened Common

  /** `UserRole`: "admin" or "user"; the column default is "user". */
  datatype Role = AdminRole | UserRole

  datatype User = User(
    id: Id,
    email: string,
    name: Option<string>,
    username: Option<string>,
    passwordHash: string,
    role: Role,
    createdAt: Timestamp,
    updatedAt: Timestamp)

  datatype Page = Page(
    id: Id,
    userId: Id,
    parentId: Option<Id>,
    title: string,
    content: Option<string>,
    createdAt: Timestamp,
    updatedAt: Timestamp)

  /** The `permission_level` enum: "view_only" or "edit". */
  datatype Permission = ViewOnly | Edit

  datatype Share = Share(
    id: Id,
    pageId: Id,
    ownerId: Id,
    sharedWithUserId: Id,
    permission: Permission,
    createdAt: Timestamp)

  /** The unique pair `(page_id, shared_with_user_id)`: keying the share table
      by it makes the `unique_page_share` constraint hold by construction. */
  datatype ShareKey = ShareKey(pageId: Id, sharedWithUserId: Id)

  function KeyOf(s: Share): ShareKey {
    ShareKey(s.pageId, s.sharedWithUserId)
  }

  type Users = map<Id, User>
  type Pages = map<Id, Page>
  type Shares = map<ShareKey, Share>

  /** What `check_page_access` resolves: "owner", "edit" or "view_only". */
  datatype AccessLevel = OwnerAccess | EditAccess | ViewOnlyAccess
}
