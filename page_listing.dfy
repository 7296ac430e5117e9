/** `list_pages` of `app/services/pages_service.py`: the caller's pages and
    the pages shared with them, as a forest sorted by case-folded title. */
module PageListing {
  import opened Common
  import opened Text
  import opened Records
  import opened Hierarchy
  import opened Constraints
  import opened Sorting
  import opened Enumeration

  /** The per-page metadata: `is_shared`, `permission`, `owner_email`. */
  datatype Meta = Meta(isShared: bool, permission: Option<Permission>, ownerEmail: Option<string>)

  const OwnedMeta: Meta := Meta(false, None, None)

  /** A `PageTreeResponse`: the page's columns, its metadata, its subtree. */
  datatype Node = Node(page: Page, meta: Meta, children: seq<Node>)

  /** `(page.title.casefold(), str(page.id))`. */
  function FoldedTitleThenId(p: Page): Key {
    Key(Lower(p.title), p.id)
  }

  function NodeKey(n: Node): Key {
    FoldedTitleThenId(n.page)
  }

  // ---- what the caller can see ----

  /** The rows of the shared-pages query: shared with `userId`, owned by
      someone else, and joined with the owner's user row. */
  function SharedIds(users: Users, pages: Pages, shares: Shares, userId: Id): set<Id> {
    set p | p in pages && ShareKey(p, userId) in shares
      && pages[p].userId != userId && pages[p].userId in users
  }

  function VisibleIds(users: Users, pages: Pages, shares: Shares, userId: Id): set<Id> {
    OwnedBy(pages, userId) + SharedIds(users, pages, shares, userId)
  }

  /** Owned pages carry no sharing metadata; a shared page carries the share's
      level and its owner's email. */
  function ExpectedMeta(users: Users, pages: Pages, shares: Shares, userId: Id, x: Id): Meta
    requires x in VisibleIds(users, pages, shares, userId)
  {
    if pages[x].userId == userId then OwnedMeta
    else Meta(true, Some(shares[ShareKey(x, userId)].permission), Some(users[pages[x].userId].email))
  }

  ghost function Visible(users: Users, pages: Pages, shares: Shares, userId: Id): map<Id, Meta> {
    map x | x in VisibleIds(users, pages, shares, userId) :: ExpectedMeta(users, pages, shares, userId, x)
  }

  // ---- the shape of the answer ----

  ghost predicate IdsDistinct(s: seq<Page>) {
    forall i, j :: 0 <= i < |s| && 0 <= j < |s| && i != j ==> s[i].id != s[j].id
  }

  ghost predicate AreRows(pages: Pages, s: seq<Page>) {
    forall p :: p in s ==> p.id in pages && pages[p.id] == p
  }

  /** The visible pages whose parent is `x`. */
  ghost function VisibleChildren(pages: Pages, visible: set<Id>, x: Id): set<Id> {
    set v | v in visible && v in pages && pages[v].parentId == Some(x)
  }

  /** The visible pages whose parent is null or not visible. */
  ghost function VisibleRoots(pages: Pages, visible: set<Id>): set<Id> {
    set v | v in visible && v in pages && (pages[v].parentId.None? || pages[v].parentId.value !in visible)
  }

  /** A sibling list: exactly the pages `ids`, each once, in key order. */
  ghost predicate Level(ns: seq<Node>, ids: set<Id>) {
    && SortedBy(ns, NodeKey)
    && (forall i, j :: 0 <= i < |ns| && 0 <= j < |ns| && i != j ==> ns[i].page.id != ns[j].page.id)
    && (forall i :: 0 <= i < |ns| ==> ns[i].page.id in ids)
    && (forall x :: x in ids ==> exists i :: 0 <= i < |ns| && ns[i].page.id == x)
  }

  /** A node shows a visible page as stored, with its metadata, and below it
      exactly its visible children, recursively. */
  ghost predicate WellFormed(n: Node, pages: Pages, visible: map<Id, Meta>)
    decreases n
  {
    && n.page.id in visible && n.page.id in pages && pages[n.page.id] == n.page
    && n.meta == visible[n.page.id]
    && Level(n.children, VisibleChildren(pages, visible.Keys, n.page.id))
    && forall c :: c in n.children ==> WellFormed(c, pages, visible)
  }

  // ---- `by_parent` ----

  /** The pages of `s` whose parent is `k`, in order: `by_parent[k]`. */
  function WithParent(s: seq<Page>, k: Option<Id>): (r: seq<Page>)
    ensures forall p :: p in r <==> p in s && p.parentId == k
  {
    if s == [] then []
    else WithParent(s[..|s| - 1], k) + (if s[|s| - 1].parentId == k then [s[|s| - 1]] else [])
  }

  lemma {:induction false} WithParentDistinct(s: seq<Page>, k: Option<Id>)
    requires IdsDistinct(s)
    ensures IdsDistinct(WithParent(s, k))
  {
    if s != [] {
      var init := s[..|s| - 1];
      assert IdsDistinct(init);
      WithParentDistinct(init, k);
      var last := s[|s| - 1];
      if last.parentId == k {
        var r := WithParent(s, k);
        var w := WithParent(init, k);
        forall i, j | 0 <= i < |r| && 0 <= j < |r| && i != j ensures r[i].id != r[j].id {
          if i < |w| && j < |w| {
          } else if i < |w| {
            assert r[i] in init;
          } else {
            assert r[j] in init;
          }
        }
      }
    }
  }

  /** The `by_parent` index over the visible rows. */
  ghost predicate Index(pages: Pages, visible: set<Id>, byParent: map<Option<Id>, seq<Page>>) {
    && (forall k, p :: k in byParent && p in byParent[k] ==>
          p.id in visible && p.id in pages && pages[p.id] == p && p.parentId == k)
    && (forall k :: k in byParent ==> IdsDistinct(byParent[k]))
    && (forall v :: v in visible && v in pages ==>
          pages[v].parentId in byParent && pages[v] in byParent[pages[v].parentId])
  }

  /** `by_parent.get(node.id, [])`. */
  function ChildrenOf(byParent: map<Option<Id>, seq<Page>>, x: Id): seq<Page> {
    if Some(x) in byParent then byParent[Some(x)] else []
  }

  // ---- permutations keep ids distinct ----

  lemma {:induction false} CountAtMostOne(s: seq<Page>, pages: Pages, x: Page)
    requires IdsDistinct(s)
    ensures multiset(s)[x] <= 1
  {
    if s != [] {
      assert s == [s[0]] + s[1..];
      assert IdsDistinct(s[1..]);
      CountAtMostOne(s[1..], pages, x);
      if s[0] == x {
        assert x !in s[1..];
      }
    }
  }

  lemma CountTwo(s: seq<Page>, i: nat, j: nat)
    requires i < j < |s| && s[i] == s[j]
    ensures multiset(s)[s[i]] >= 2
  {
    assert s == s[..j] + s[j..];
    assert s[i] in s[..j];
    assert s[j] in s[j..];
  }

  lemma DistinctAfterSort(a: seq<Page>, b: seq<Page>, pages: Pages)
    requires multiset(a) == multiset(b)
    requires IdsDistinct(a) && AreRows(pages, a)
    ensures IdsDistinct(b) && AreRows(pages, b)
  {
    forall p | p in b ensures p.id in pages && pages[p.id] == p {
      assert p in multiset(a);
    }
    forall i, j | 0 <= i < |b| && 0 <= j < |b| && i != j ensures b[i].id != b[j].id {
      if b[i].id == b[j].id {
        assert b[i] == pages[b[i].id] == b[j];
        if i < j { CountTwo(b, i, j); } else { CountTwo(b, j, i); }
        CountAtMostOne(a, pages, b[i]);
      }
    }
  }

  // ---- `serialize` ----

  /** Every id of `anc` lies strictly above `x` on its parent chain. */
  ghost predicate AncestorsOf(pages: Pages, x: Id, anc: set<Id>) {
    forall a :: a in anc ==> exists k: nat :: k > 0 && Hop(pages, Some(x), k) == Some(a)
  }

  lemma NotOwnAncestor(pages: Pages, x: Id, anc: set<Id>)
    requires Acyclic(pages) && x in pages && AncestorsOf(pages, x, anc)
    ensures x !in anc
  {
    if x in anc {
      var k: nat :| k > 0 && Hop(pages, Some(x), k) == Some(x);
      NoWayBack(pages, x, k);
    }
  }

  lemma ChildAncestors(pages: Pages, x: Id, c: Id, anc: set<Id>)
    requires c in pages && pages[c].parentId == Some(x)
    requires AncestorsOf(pages, x, anc)
    ensures AncestorsOf(pages, c, anc + {x})
  {
    forall a | a in anc + {x} ensures exists k: nat :: k > 0 && Hop(pages, Some(c), k) == Some(a) {
      if a == x {
        assert Hop(pages, Some(c), 1) == Hop(pages, Some(x), 0);
      } else {
        var k: nat :| k > 0 && Hop(pages, Some(x), k) == Some(a);
        assert Hop(pages, Some(c), k + 1) == Hop(pages, Some(x), k);
      }
    }
  }

  lemma OneFewer(visible: set<Id>, anc: set<Id>, x: Id)
    requires x in visible && x !in anc
    ensures |visible - (anc + {x})| + 1 == |visible - anc|
  {
    assert visible - anc == (visible - (anc + {x})) + {x};
  }

  /** `serialize(node)`: the node with its children, sorted, serialized in
      turn. It terminates because the parent links are acyclic: `anc` holds
      the ancestors already on the path, and the node is never one of them. */
  function Serialize(node: Page, byParent: map<Option<Id>, seq<Page>>, meta: map<Id, Meta>,
                     ghost pages: Pages, ghost anc: set<Id>): (r: Node)
    requires PagesKeyed(pages) && Acyclic(pages) && Index(pages, meta.Keys, byParent)
    requires node.id in meta && node.id in pages && pages[node.id] == node
    requires AncestorsOf(pages, node.id, anc)
    ensures r.page == node
    ensures WellFormed(r, pages, meta)
    decreases |meta.Keys - anc|, 1, 0
  {
    NotOwnAncestor(pages, node.id, anc);
    OneFewer(meta.Keys, anc, node.id);
    var entry := ChildrenOf(byParent, node.id);
    var kids := SortBy(entry, FoldedTitleThenId);
    assert forall p :: p in kids <==> p in multiset(entry);
    DistinctAfterSort(entry, kids, pages);
    forall c | c in kids ensures AncestorsOf(pages, c.id, anc + {node.id}) {
      ChildAncestors(pages, node.id, c.id, anc);
    }
    var children := SerializeAll(kids, byParent, meta, pages, anc + {node.id});
    ChildrenLevel(node, entry, kids, children, byParent, meta, pages);
    Node(node, meta[node.id], children)
  }

  /** `[serialize(child) for child in children]`. */
  function SerializeAll(kids: seq<Page>, byParent: map<Option<Id>, seq<Page>>, meta: map<Id, Meta>,
                        ghost pages: Pages, ghost anc: set<Id>): (r: seq<Node>)
    requires PagesKeyed(pages) && Acyclic(pages) && Index(pages, meta.Keys, byParent)
    requires forall c :: c in kids ==>
      c.id in meta && c.id in pages && pages[c.id] == c && AncestorsOf(pages, c.id, anc)
    ensures |r| == |kids|
    ensures forall i :: 0 <= i < |r| ==> r[i].page == kids[i] && WellFormed(r[i], pages, meta)
    decreases |meta.Keys - anc| + 1, 0, |kids|
  {
    if kids == [] then []
    else
      assert kids[0] in kids;
      var head := Serialize(kids[0], byParent, meta, pages, anc);
      assert forall c :: c in kids[1..] ==> c in kids;
      var tail := SerializeAll(kids[1..], byParent, meta, pages, anc);
      ConsNodes(kids, head, tail, pages, meta);
      [head] + tail
  }

  lemma ConsNodes(kids: seq<Page>, head: Node, tail: seq<Node>, pages: Pages, meta: map<Id, Meta>)
    requires kids != [] && head.page == kids[0] && WellFormed(head, pages, meta)
    requires |tail| == |kids| - 1
    requires forall i :: 0 <= i < |tail| ==> tail[i].page == kids[1..][i] && WellFormed(tail[i], pages, meta)
    ensures var r := [head] + tail;
      forall i :: 0 <= i < |r| ==> r[i].page == kids[i] && WellFormed(r[i], pages, meta)
  {
    var r := [head] + tail;
    forall i | 0 <= i < |r| ensures r[i].page == kids[i] && WellFormed(r[i], pages, meta) {
      if i > 0 {
        assert r[i] == tail[i - 1];
      }
    }
  }

  /** Nodes over distinct, sorted pages that are exactly `ids` form a level. */
  lemma NodesLevel(kids: seq<Page>, nodes: seq<Node>, ids: set<Id>)
    requires SortedBy(kids, FoldedTitleThenId) && IdsDistinct(kids)
    requires |nodes| == |kids| && forall i :: 0 <= i < |nodes| ==> nodes[i].page == kids[i]
    requires forall p :: p in kids ==> p.id in ids
    requires forall x :: x in ids ==> exists p :: p in kids && p.id == x
    ensures Level(nodes, ids)
  {
    forall i | 0 <= i < |nodes| ensures nodes[i].page.id in ids {
      assert kids[i] in kids;
    }
    forall x | x in ids ensures exists i :: 0 <= i < |nodes| && nodes[i].page.id == x {
      var p :| p in kids && p.id == x;
      var i :| 0 <= i < |kids| && kids[i] == p;
      assert nodes[i].page.id == x;
    }
  }

  /** The serialized children of `node` form its sibling level. */
  lemma ChildrenLevel(node: Page, entry: seq<Page>, kids: seq<Page>, children: seq<Node>,
                      byParent: map<Option<Id>, seq<Page>>, meta: map<Id, Meta>, pages: Pages)
    requires PagesKeyed(pages) && Index(pages, meta.Keys, byParent)
    requires entry == ChildrenOf(byParent, node.id)
    requires multiset(kids) == multiset(entry) && SortedBy(kids, FoldedTitleThenId) && IdsDistinct(kids)
    requires |children| == |kids| && forall i :: 0 <= i < |children| ==> children[i].page == kids[i]
    ensures Level(children, VisibleChildren(pages, meta.Keys, node.id))
  {
    var ids := VisibleChildren(pages, meta.Keys, node.id);
    forall p | p in kids ensures p.id in ids {
      assert p in multiset(entry);
    }
    forall x | x in ids ensures exists p :: p in kids && p.id == x {
      assert pages[x] in entry;
      assert pages[x] in multiset(kids);
    }
    NodesLevel(kids, children, ids);
  }

  /** `[page for page in pages if page.parent_id is None or page.parent_id
      not in by_id]`. */
  function RootsOf(s: seq<Page>, byId: map<Id, Page>): (r: seq<Page>)
    ensures forall p :: p in r <==> p in s && (p.parentId.None? || p.parentId.value !in byId)
  {
    if s == [] then []
    else
      var last := s[|s| - 1];
      RootsOf(s[..|s| - 1], byId) + (if last.parentId.None? || last.parentId.value !in byId then [last] else [])
  }

  lemma {:induction false} RootsOfDistinct(s: seq<Page>, byId: map<Id, Page>)
    requires IdsDistinct(s)
    ensures IdsDistinct(RootsOf(s, byId))
  {
    if s != [] {
      var init := s[..|s| - 1];
      assert IdsDistinct(init);
      RootsOfDistinct(init, byId);
      var r := RootsOf(s, byId);
      var w := RootsOf(init, byId);
      forall i, j | 0 <= i < |r| && 0 <= j < |r| && i != j ensures r[i].id != r[j].id {
        if i < |w| && j < |w| {
        } else if i < |w| {
          assert r[i] in init;
        } else {
          assert r[j] in init;
        }
      }
    }
  }

  /** The two fill loops leave `pages` and `metadata` holding each visible
      page once, with the metadata the caller is owed. */
  ghost predicate Collected(users: Users, pages: Pages, shares: Shares, userId: Id,
                            list: seq<Page>, meta: map<Id, Meta>) {
    && IdsDistinct(list) && AreRows(pages, list)
    && (forall p :: p in list ==> p.id in meta)
    && (forall x :: x in meta ==> x in pages && pages[x] in list)
    && (forall x :: x in meta ==>
          x in VisibleIds(users, pages, shares, userId) && meta[x] == ExpectedMeta(users, pages, shares, userId, x))
  }

  lemma CollectStep(users: Users, pages: Pages, shares: Shares, userId: Id,
                    list: seq<Page>, meta: map<Id, Meta>, x: Id)
    requires PagesKeyed(pages)
    requires Collected(users, pages, shares, userId, list, meta)
    requires x in VisibleIds(users, pages, shares, userId) && x !in meta
    ensures Collected(users, pages, shares, userId, list + [pages[x]],
                      meta[x := ExpectedMeta(users, pages, shares, userId, x)])
  {
    var list' := list + [pages[x]];
    forall i, j | 0 <= i < |list'| && 0 <= j < |list'| && i != j ensures list'[i].id != list'[j].id {
      if i < |list| && j < |list| {
      } else if i < |list| {
        assert list[i] in list;
      } else {
        assert list[j] in list;
      }
    }
  }

  /** `list_pages`: with no `parentId`, the visible roots; with one, 404 unless
      that page is visible, else its visible children. Every node is shown
      with its metadata and its visible subtree, siblings sorted by
      case-folded title and then id. */
  method ListPages(users: Users, pages: Pages, shares: Shares, userId: Id, parentId: Option<Id>)
    returns (r: Result<seq<Node>>)
    requires PagesValid(pages, users)
    ensures var visible := Visible(users, pages, shares, userId);
      && (r.Err? <==> parentId.Some? && parentId.value !in visible)
      && (r.Err? ==> r.status == NotFound)
      && (r.Ok? && parentId.None? ==> Level(r.value, VisibleRoots(pages, visible.Keys)))
      && (r.Ok? && parentId.Some? ==> Level(r.value, VisibleChildren(pages, visible.Keys, parentId.value)))
      && (r.Ok? ==> forall n :: n in r.value ==> WellFormed(n, pages, visible))
  {
    var list, meta := CollectVisible(users, pages, shares, userId);
    var sorted := SortBy(list, FoldedTitleThenId);
    DistinctAfterSort(list, sorted, pages);
    assert forall p :: p in sorted <==> p in multiset(list);
    if parentId.Some? {
      VisibleInSorted(pages, meta, sorted, parentId.value);
      var parentExists := exists j :: 0 <= j < |sorted| && sorted[j].id == parentId.value;
      if !parentExists {
        return Err(NotFound);
      }
    }
    var nodes := BuildForest(pages, meta, sorted, parentId);
    return Ok(nodes);
  }

  lemma VisibleInSorted(pages: Pages, meta: map<Id, Meta>, sorted: seq<Page>, x: Id)
    requires PagesKeyed(pages) && AreRows(pages, sorted)
    requires forall y :: y in meta ==> y in pages && pages[y] in sorted
    requires forall p :: p in sorted ==> p.id in meta
    ensures x in meta <==> exists j :: 0 <= j < |sorted| && sorted[j].id == x
  {
    if x in meta {
      var j :| 0 <= j < |sorted| && sorted[j] == pages[x];
    }
    if exists j :: 0 <= j < |sorted| && sorted[j].id == x {
      var j :| 0 <= j < |sorted| && sorted[j].id == x;
      assert sorted[j] in sorted;
    }
  }

  /** The part of `list_pages` after the parent check: index the sorted
      pages by parent, pick the top level, and serialize it. */
  method BuildForest(pages: Pages, meta: map<Id, Meta>, sorted: seq<Page>, parentId: Option<Id>)
    returns (nodes: seq<Node>)
    requires PagesKeyed(pages) && Acyclic(pages)
    requires IdsDistinct(sorted) && AreRows(pages, sorted) && SortedBy(sorted, FoldedTitleThenId)
    requires forall x :: x in meta ==> x in pages && pages[x] in sorted
    requires forall p :: p in sorted ==> p.id in meta
    requires parentId.Some? ==> parentId.value in meta
    ensures parentId.None? ==> Level(nodes, VisibleRoots(pages, meta.Keys))
    ensures parentId.Some? ==> Level(nodes, VisibleChildren(pages, meta.Keys, parentId.value))
    ensures forall n :: n in nodes ==> WellFormed(n, pages, meta)
  {
    var byParent, byId := IndexPages(pages, sorted);
    IndexComplete(pages, meta, sorted, byParent);
    if parentId.None? {
      nodes := RootNodes(pages, meta, sorted, byParent, byId);
    } else {
      nodes := ChildNodes(pages, meta, byParent, parentId.value);
    }
  }

  /** `roots = [...]; roots.sort(...); [serialize(page) for page in roots]`. */
  method RootNodes(pages: Pages, meta: map<Id, Meta>, sorted: seq<Page>,
                   byParent: map<Option<Id>, seq<Page>>, byId: map<Id, Page>)
    returns (nodes: seq<Node>)
    requires PagesKeyed(pages) && Acyclic(pages) && Index(pages, meta.Keys, byParent)
    requires IdsDistinct(sorted) && AreRows(pages, sorted)
    requires forall x :: x in meta ==> x in pages && pages[x] in sorted
    requires forall p :: p in sorted ==> p.id in meta
    requires forall x :: x in byId <==> exists p :: p in sorted && p.id == x
    ensures Level(nodes, VisibleRoots(pages, meta.Keys))
    ensures forall n :: n in nodes ==> WellFormed(n, pages, meta)
  {
    var roots := RootsOf(sorted, byId);
    RootsOfDistinct(sorted, byId);
    var rootsSorted := SortBy(roots, FoldedTitleThenId);
    DistinctAfterSort(roots, rootsSorted, pages);
    forall c | c in rootsSorted
      ensures c.id in meta && c.id in pages && pages[c.id] == c && AncestorsOf(pages, c.id, {})
    {
      assert c in multiset(roots);
    }
    nodes := SerializeAll(rootsSorted, byParent, meta, pages, {});
    RootsLevel(pages, meta, sorted, byId, roots, rootsSorted, nodes);
  }

  /** `children = by_parent.get(parent_id, []); children.sort(...)`, serialized. */
  method ChildNodes(pages: Pages, meta: map<Id, Meta>, byParent: map<Option<Id>, seq<Page>>, parentId: Id)
    returns (nodes: seq<Node>)
    requires PagesKeyed(pages) && Acyclic(pages) && Index(pages, meta.Keys, byParent)
    requires parentId in meta && parentId in pages
    ensures Level(nodes, VisibleChildren(pages, meta.Keys, parentId))
    ensures forall n :: n in nodes ==> WellFormed(n, pages, meta)
  {
    var entry := ChildrenOf(byParent, parentId);
    var children := SortBy(entry, FoldedTitleThenId);
    assert forall p :: p in children <==> p in multiset(entry);
    DistinctAfterSort(entry, children, pages);
    nodes := SerializeAll(children, byParent, meta, pages, {});
    ChildrenLevel(pages[parentId], entry, children, nodes, byParent, meta, pages);
  }

  lemma CollectedAll(users: Users, pages: Pages, shares: Shares, userId: Id,
                     list: seq<Page>, meta: map<Id, Meta>, sharedIds: seq<Id>)
    requires Collected(users, pages, shares, userId, list, meta)
    requires forall x :: x in sharedIds <==> x in SharedIds(users, pages, shares, userId)
    requires forall x :: x in meta <==> x in OwnedBy(pages, userId) || x in sharedIds
    ensures meta == Visible(users, pages, shares, userId)
  {
    assert meta.Keys == VisibleIds(users, pages, shares, userId);
  }

  /** The two loops of `list_pages` over the owned and the shared rows. */
  method CollectVisible(users: Users, pages: Pages, shares: Shares, userId: Id)
    returns (list: seq<Page>, meta: map<Id, Meta>)
    requires PagesKeyed(pages)
    ensures Collected(users, pages, shares, userId, list, meta)
    ensures meta == Visible(users, pages, shares, userId)
  {
    var ownedIds := Ascending(OwnedBy(pages, userId));
    var sharedIds := Ascending(SharedIds(users, pages, shares, userId));
    list, meta := CollectOwned(users, pages, shares, userId, ownedIds);
    list, meta := CollectShared(users, pages, shares, userId, sharedIds, list, meta);
    CollectedAll(users, pages, shares, userId, list, meta, sharedIds);
  }

  /** `for page in owned_pages`: each owned page, with no sharing metadata. */
  method CollectOwned(users: Users, pages: Pages, shares: Shares, userId: Id, ownedIds: seq<Id>)
    returns (list: seq<Page>, meta: map<Id, Meta>)
    requires PagesKeyed(pages)
    requires forall x :: x in ownedIds <==> x in OwnedBy(pages, userId)
    requires forall i, j :: 0 <= i < j < |ownedIds| ==> ownedIds[i] < ownedIds[j]
    ensures Collected(users, pages, shares, userId, list, meta)
    ensures forall x :: x in meta <==> x in OwnedBy(pages, userId)
  {
    list, meta := [], map[];
    for i := 0 to |ownedIds|
      invariant Collected(users, pages, shares, userId, list, meta)
      invariant forall x :: x in meta <==> x in ownedIds[..i]
    {
      assert ownedIds[i] in ownedIds;
      var page := pages[ownedIds[i]];
      assert ownedIds[i] !in ownedIds[..i];
      assert ownedIds[..i + 1] == ownedIds[..i] + [ownedIds[i]];
      CollectStep(users, pages, shares, userId, list, meta, ownedIds[i]);
      list := list + [page];
      meta := meta[page.id := OwnedMeta];
    }
    assert ownedIds[..|ownedIds|] == ownedIds;
  }

  /** `for page, permission_level, owner_email in shared_rows`: a shared
      page not already listed, with the share's level and the owner's email. */
  method CollectShared(users: Users, pages: Pages, shares: Shares, userId: Id, sharedIds: seq<Id>,
                       list0: seq<Page>, meta0: map<Id, Meta>)
    returns (list: seq<Page>, meta: map<Id, Meta>)
    requires PagesKeyed(pages)
    requires forall x :: x in sharedIds ==> x in SharedIds(users, pages, shares, userId)
    requires Collected(users, pages, shares, userId, list0, meta0)
    ensures Collected(users, pages, shares, userId, list, meta)
    ensures forall x :: x in meta <==> x in meta0 || x in sharedIds
  {
    list, meta := list0, meta0;
    for i := 0 to |sharedIds|
      invariant Collected(users, pages, shares, userId, list, meta)
      invariant forall x :: x in meta <==> x in meta0 || x in sharedIds[..i]
    {
      assert sharedIds[..i + 1] == sharedIds[..i] + [sharedIds[i]];
      assert sharedIds[i] in sharedIds;
      var page := pages[sharedIds[i]];
      assert page.id == sharedIds[i];
      var permission := shares[ShareKey(page.id, userId)].permission;
      var ownerEmail := users[page.userId].email;
      if page.id in meta {
        continue;
      }
      CollectStep(users, pages, shares, userId, list, meta, page.id);
      list := list + [page];
      meta := meta[page.id := Meta(true, Some(permission), Some(ownerEmail))];
    }
    assert sharedIds[..|sharedIds|] == sharedIds;
  }

  /** The loop filling `by_id` and `by_parent` (`setdefault(...).append`). */
  method IndexPages(pages: Pages, sorted: seq<Page>)
    returns (byParent: map<Option<Id>, seq<Page>>, byId: map<Id, Page>)
    ensures forall x :: x in byId <==> exists p :: p in sorted && p.id == x
    ensures forall k :: k in byParent ==> byParent[k] == WithParent(sorted, k)
    ensures forall k :: k !in byParent ==> WithParent(sorted, k) == []
  {
    byParent, byId := map[], map[];
    for i := 0 to |sorted|
      invariant forall x :: x in byId <==> exists p :: p in sorted[..i] && p.id == x
      invariant forall k :: k in byParent ==> byParent[k] == WithParent(sorted[..i], k)
      invariant forall k :: k !in byParent ==> WithParent(sorted[..i], k) == []
    {
      var page := sorted[i];
      assert sorted[..i + 1][..i] == sorted[..i];
      assert sorted[..i + 1] == sorted[..i] + [page];
      byId := byId[page.id := page];
      var siblings := if page.parentId in byParent then byParent[page.parentId] else [];
      byParent := byParent[page.parentId := siblings + [page]];
    }
    assert sorted[..|sorted|] == sorted;
  }

  lemma IndexComplete(pages: Pages, meta: map<Id, Meta>, sorted: seq<Page>,
                      byParent: map<Option<Id>, seq<Page>>)
    requires IdsDistinct(sorted) && AreRows(pages, sorted)
    requires forall x :: x in meta ==> x in pages && pages[x] in sorted
    requires forall p :: p in sorted ==> p.id in meta
    requires forall k :: k in byParent ==> byParent[k] == WithParent(sorted, k)
    requires forall k :: k !in byParent ==> WithParent(sorted, k) == []
    ensures Index(pages, meta.Keys, byParent)
  {
    forall k | k in byParent ensures IdsDistinct(byParent[k]) {
      WithParentDistinct(sorted, k);
    }
    forall v | v in meta && v in pages
      ensures pages[v].parentId in byParent && pages[v] in byParent[pages[v].parentId]
    {
      assert pages[v] in WithParent(sorted, pages[v].parentId);
    }
  }

  lemma RootsLevel(pages: Pages, meta: map<Id, Meta>, sorted: seq<Page>, byId: map<Id, Page>,
                   roots: seq<Page>, rootsSorted: seq<Page>, nodes: seq<Node>)
    requires PagesKeyed(pages) && AreRows(pages, sorted)
    requires forall x :: x in meta ==> x in pages && pages[x] in sorted
    requires forall p :: p in sorted ==> p.id in meta
    requires forall x :: x in byId <==> exists p :: p in sorted && p.id == x
    requires roots == RootsOf(sorted, byId)
    requires multiset(rootsSorted) == multiset(roots)
    requires SortedBy(rootsSorted, FoldedTitleThenId) && IdsDistinct(rootsSorted)
    requires |nodes| == |rootsSorted| && forall i :: 0 <= i < |nodes| ==> nodes[i].page == rootsSorted[i]
    ensures Level(nodes, VisibleRoots(pages, meta.Keys))
  {
    var ids := VisibleRoots(pages, meta.Keys);
    assert forall x :: x in byId <==> x in meta;
    forall p | p in rootsSorted ensures p.id in ids {
      assert p in multiset(roots);
    }
    forall x | x in ids ensures exists p :: p in rootsSorted && p.id == x {
      assert pages[x] in roots;
      assert pages[x] in multiset(rootsSorted);
    }
    NodesLevel(rootsSorted, nodes, ids);
  }
}
