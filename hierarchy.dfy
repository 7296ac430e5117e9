/** The `check_page_hierarchy_cycle` trigger of migration 003, which runs
    before every INSERT and every UPDATE of a page row, and the acyclicity of
    the `parent_id` forest that it protects. */
module Hierarchy {
  import opened Common
  import opened Records

  /** `max_depth` of the trigger. */
  const MaxDepth: nat := 100

  /** The parent of `x` as the trigger reads it: `SELECT parent_id INTO ...`
      sets the variable to NULL when no row matches. */
  function ParentOf(pages: Pages, x: Id): Option<Id> {
    if x in pages then pages[x].parentId else None
  }

  /** Where `n` steps up the parent links from `cur` lead. */
  function Hop(pages: Pages, cur: Option<Id>, n: nat): Option<Id>
    decreases n
  {
    if n == 0 then cur
    else match cur
      case None => None
      case Some(x) => Hop(pages, ParentOf(pages, x), n - 1)
  }

  /** Walking up from `cur` reaches NULL after finitely many steps. */
  ghost predicate Terminates(pages: Pages, cur: Option<Id>) {
    exists n: nat :: Hop(pages, cur, n) == None
  }

  /** The forest invariant: from every page the parent chain ends. */
  ghost predicate Acyclic(pages: Pages) {
    forall x :: x in pages ==> Terminates(pages, Some(x))
  }

  /** The outcome of the trigger: the row is written, or one of its three
      RAISE EXCEPTION branches aborts the statement. */
  datatype Verdict = Accept | SelfParent | Cycle | TooDeep

  /** The WHILE loop of the trigger from `cur` at `depth`. */
  function Walk(pages: Pages, id: Id, cur: Option<Id>, depth: nat): Verdict
    requires depth <= MaxDepth
    decreases MaxDepth - depth
  {
    if cur.Some? && depth < MaxDepth then
      if cur.value == id then Cycle
      else Walk(pages, id, ParentOf(pages, cur.value), depth + 1)
    else if depth >= MaxDepth then TooDeep
    else Accept
  }

  /** The trigger's decision for the new row `row` against the table `pages`
      as it is before the write. */
  function CycleCheck(pages: Pages, row: Page): (v: Verdict)
    ensures row.parentId.None? ==> v == Accept
    ensures row.parentId == Some(row.id) ==> v == SelfParent
  {
    match row.parentId
    case None => Accept
    case Some(p) => if p == row.id then SelfParent else Walk(pages, row.id, row.parentId, 0)
  }

  /** Two tables with the same parent links give the same verdict. */
  lemma {:induction false} SameLinksSameWalk(a: Pages, b: Pages, id: Id, cur: Option<Id>, depth: nat)
    requires depth <= MaxDepth
    requires forall x :: ParentOf(a, x) == ParentOf(b, x)
    ensures Walk(a, id, cur, depth) == Walk(b, id, cur, depth)
    decreases MaxDepth - depth
  {
    if cur.Some? && depth < MaxDepth && cur.value != id {
      SameLinksSameWalk(a, b, id, ParentOf(a, cur.value), depth + 1);
    }
  }

  /** The trigger body. The loop runs at most `MaxDepth` times. */
  method CheckPageHierarchyCycle(pages: Pages, row: Page) returns (v: Verdict, ghost iterations: nat)
    ensures v == CycleCheck(pages, row)
    ensures iterations <= MaxDepth
  {
    iterations := 0;
    if row.parentId.None? {
      return Accept, iterations;
    }
    if row.id == row.parentId.value {
      return SelfParent, iterations;
    }
    var current := row.parentId;
    var depth: nat := 0;
    while current.Some? && depth < MaxDepth
      invariant depth <= MaxDepth && iterations == depth
      invariant Walk(pages, row.id, current, depth) == Walk(pages, row.id, row.parentId, 0)
      decreases MaxDepth - depth
    {
      if current.value == row.id {
        return Cycle, iterations;
      }
      current := ParentOf(pages, current.value);
      depth := depth + 1;
      iterations := iterations + 1;
    }
    if depth >= MaxDepth {
      return TooDeep, iterations;
    }
    return Accept, iterations;
  }

  /** Walking `d` steps from `start` reaches NULL without meeting `id`. */
  ghost predicate ClearWithin(pages: Pages, id: Id, start: Option<Id>, d: nat) {
    Hop(pages, start, d) == None && forall k :: 0 <= k < d ==> Hop(pages, start, k) != Some(id)
  }

  lemma {:induction false} WalkAccepts(pages: Pages, id: Id, cur: Option<Id>, depth: nat)
    requires depth <= MaxDepth
    ensures Walk(pages, id, cur, depth) == Accept <==>
            exists d: nat :: d < MaxDepth - depth && ClearWithin(pages, id, cur, d)
    decreases MaxDepth - depth
  {
    if cur.Some? && depth < MaxDepth {
      var next := ParentOf(pages, cur.value);
      if cur.value != id {
        WalkAccepts(pages, id, next, depth + 1);
        if Walk(pages, id, cur, depth) == Accept {
          var d: nat :| d < MaxDepth - depth - 1 && ClearWithin(pages, id, next, d);
          forall k | 0 <= k < d + 1 ensures Hop(pages, cur, k) != Some(id) {
            if k > 0 { assert Hop(pages, cur, k) == Hop(pages, next, k - 1); }
          }
          assert ClearWithin(pages, id, cur, d + 1);
        }
        if exists d: nat :: d < MaxDepth - depth && ClearWithin(pages, id, cur, d) {
          var d: nat :| d < MaxDepth - depth && ClearWithin(pages, id, cur, d);
          assert d > 0;
          forall k | 0 <= k < d - 1 ensures Hop(pages, next, k) != Some(id) {
            assert Hop(pages, cur, k + 1) == Hop(pages, next, k);
          }
          assert ClearWithin(pages, id, next, d - 1);
        }
      } else {
        forall d: nat | d < MaxDepth - depth ensures !ClearWithin(pages, id, cur, d) {
          assert Hop(pages, cur, 0) == Some(id);
        }
      }
    } else if cur.None? && depth < MaxDepth {
      assert ClearWithin(pages, id, cur, 0);
    }
  }

  /** The trigger accepts a row exactly when its parent is NULL, or its parent
      is another page whose chain reaches NULL in fewer than `MaxDepth` hops
      without passing the row's own id. */
  lemma AcceptIff(pages: Pages, row: Page)
    ensures CycleCheck(pages, row) == Accept <==>
      (row.parentId.None? ||
       (row.parentId != Some(row.id) &&
        exists d: nat :: d < MaxDepth && ClearWithin(pages, row.id, row.parentId, d)))
  {
    if row.parentId.Some? && row.parentId != Some(row.id) {
      WalkAccepts(pages, row.id, row.parentId, 0);
    }
  }

  lemma {:induction false} HopAdd(pages: Pages, c: Option<Id>, a: nat, b: nat)
    ensures Hop(pages, c, a + b) == Hop(pages, Hop(pages, c, a), b)
    decreases a
  {
    if a > 0 && c.Some? {
      HopAdd(pages, ParentOf(pages, c.value), a - 1, b);
    } else if a > 0 {
      assert Hop(pages, None, b) == None by { if b > 0 { } }
    }
  }

  /** Making a page a child of one of its own descendants (or of itself) is
      rejected: the upward walk from the new parent meets the page. */
  lemma ReparentIntoSubtreeRejected(pages: Pages, row: Page, k: nat)
    requires row.parentId.Some?
    requires Hop(pages, row.parentId, k) == Some(row.id)
    ensures CycleCheck(pages, row) != Accept
  {
    AcceptIff(pages, row);
    if CycleCheck(pages, row) == Accept {
      var d: nat :| d < MaxDepth && ClearWithin(pages, row.id, row.parentId, d);
      if k >= d {
        HopAdd(pages, row.parentId, d, k - d);
      }
    }
  }

  /** A parent with `MaxDepth` non-null links on its chain (itself included)
      is rejected, even when the chain would end exactly at the next step:
      the trigger compares `depth >= max_depth`. */
  lemma DepthBoundRejected(pages: Pages, row: Page)
    requires row.parentId.Some?
    requires Hop(pages, row.parentId, MaxDepth - 1) != None
    ensures CycleCheck(pages, row) != Accept
  {
    AcceptIff(pages, row);
    if CycleCheck(pages, row) == Accept {
      var d: nat :| d < MaxDepth && ClearWithin(pages, row.id, row.parentId, d);
      HopAdd(pages, row.parentId, d, MaxDepth - 1 - d);
    }
  }

  /** Two tables that agree on every parent link except that of `x`. */
  ghost predicate SameLinksExcept(older: Pages, newer: Pages, x: Id) {
    forall y :: y != x ==> ParentOf(newer, y) == ParentOf(older, y)
  }

  lemma {:induction false} ChainUnchanged(older: Pages, newer: Pages, x: Id, c: Option<Id>, n: nat)
    requires SameLinksExcept(older, newer, x)
    requires forall k :: 0 <= k < n ==> Hop(older, c, k) != Some(x)
    ensures Hop(newer, c, n) == Hop(older, c, n)
    decreases n
  {
    if n > 0 && c.Some? {
      assert Hop(older, c, 0) != Some(x);
      var next := ParentOf(older, c.value);
      forall k | 0 <= k < n - 1 ensures Hop(older, next, k) != Some(x) {
        assert Hop(older, c, k + 1) == Hop(older, next, k);
      }
      ChainUnchanged(older, newer, x, next, n - 1);
    }
  }

  lemma {:induction false} TerminatesAfter(older: Pages, newer: Pages, x: Id, c: Option<Id>, n: nat)
    requires SameLinksExcept(older, newer, x)
    requires Terminates(newer, Some(x))
    requires Hop(older, c, n) == None
    ensures Terminates(newer, c)
    decreases n
  {
    if c == None {
      assert Hop(newer, c, 0) == None;
    } else if c != Some(x) {
      var next := ParentOf(older, c.value);
      TerminatesAfter(older, newer, x, next, n - 1);
      var m: nat :| Hop(newer, next, m) == None;
      assert Hop(newer, c, m + 1) == None;
    }
  }

  /** A write the trigger accepts keeps an acyclic table acyclic, whether it
      inserts a new row or replaces an existing one. */
  lemma AcceptPreservesAcyclic(pages: Pages, row: Page)
    requires Acyclic(pages)
    requires CycleCheck(pages, row) == Accept
    ensures Acyclic(pages[row.id := row])
  {
    var newer := pages[row.id := row];
    var x := row.id;
    assert SameLinksExcept(pages, newer, x);
    AcceptIff(pages, row);
    if row.parentId.None? {
      assert Hop(newer, Some(x), 1) == None;
    } else {
      var d: nat :| d < MaxDepth && ClearWithin(pages, x, row.parentId, d);
      ChainUnchanged(pages, newer, x, row.parentId, d);
      assert Hop(newer, Some(x), d + 1) == None;
    }
    forall y | y in newer ensures Terminates(newer, Some(y)) {
      if y != x {
        var n: nat :| Hop(pages, Some(y), n) == None;
        TerminatesAfter(pages, newer, x, Some(y), n);
      }
    }
  }

  /** `newer` keeps some of the rows of `older`, unchanged. */
  ghost predicate SubTable(newer: Pages, older: Pages) {
    forall y :: y in newer ==> y in older && newer[y] == older[y]
  }

  lemma {:induction false} SubTerminates(older: Pages, newer: Pages, c: Option<Id>, n: nat)
    requires SubTable(newer, older)
    requires Hop(older, c, n) == None
    ensures Terminates(newer, c)
    decreases n
  {
    if c == None {
      assert Hop(newer, c, 0) == None;
    } else if c.value !in newer {
      assert Hop(newer, c, 1) == None;
    } else {
      var next := ParentOf(older, c.value);
      SubTerminates(older, newer, next, n - 1);
      var m: nat :| Hop(newer, next, m) == None;
      assert Hop(newer, c, m + 1) == None;
    }
  }

  /** Deleting rows (the cascades do nothing else) keeps the table acyclic. */
  lemma RemovalPreservesAcyclic(older: Pages, newer: Pages)
    requires Acyclic(older)
    requires SubTable(newer, older)
    ensures Acyclic(newer)
  {
    forall y | y in newer ensures Terminates(newer, Some(y)) {
      var n: nat :| Hop(older, Some(y), n) == None;
      SubTerminates(older, newer, Some(y), n);
    }
  }

  /** In an acyclic table no walk leads from a page back to itself. */
  lemma NoWayBack(pages: Pages, x: Id, k: nat)
    requires Acyclic(pages) && x in pages && k > 0
    ensures Hop(pages, Some(x), k) != Some(x)
  {
    if Hop(pages, Some(x), k) == Some(x) {
      var n: nat :| Hop(pages, Some(x), n) == None;
      NeverNull(pages, x, k, n);
    }
  }

  lemma {:induction false} NeverNull(pages: Pages, x: Id, k: nat, n: nat)
    requires k > 0 && Hop(pages, Some(x), k) == Some(x)
    ensures Hop(pages, Some(x), n) != None
    decreases n
  {
    if n < k {
      HopAdd(pages, Some(x), n, k - n);
    } else {
      HopAdd(pages, Some(x), k, n - k);
      NeverNull(pages, x, k, n - k);
    }
  }
}
