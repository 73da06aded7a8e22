/** The depth-bounded walk over a workspace's page tree, as a pair of
    mutually recursive functions over an immutable snapshot of the
    workspace, and what it reports: exactly the pages newer than the
    watermark that are reachable from the root within the depth bound,
    the root's own entry before those of its children, the children in
    listing order, and nothing for a page that cannot be read. */
module PageTree {
  import opened Wrappers
  import opened Blocks

  type PageId = string

  /** What `pages.retrieve` and `blocks.children.list` give for one page:
      its last-edited time (as an integer timestamp), the runs of its
      `title` property if it has one, and its first page of blocks. */
  datatype Page = Page(lastEditedTime: int, titleRuns: Option<seq<string>>, blocks: seq<Block>)

  /** A snapshot of the workspace. An id without an entry is a page
      whose retrieval or block listing fails. */
  type Store = map<PageId, Page>

  /** One changed page as reported by the walk. */
  datatype PageUpdate = PageUpdate(pageId: PageId, title: string, lastEditedTime: int, content: string)

  /** The update a page gives when it is newer than the watermark. */
  function UpdateOf(id: PageId, page: Page): PageUpdate {
    PageUpdate(id, PageTitle(page.titleRuns), page.lastEditedTime, Content(page.blocks))
  }

  /** The ids of the `child_page` blocks of a listing, in listing order. */
  function ChildPageIds(blocks: seq<Block>): seq<PageId> {
    if blocks == [] then []
    else (if blocks[0].kind.ChildPage? then [blocks[0].id] else []) + ChildPageIds(blocks[1..])
  }

  /** Recursion levels left at `depth`: zero once `depth > maxDepth`. */
  function Fuel(depth: nat, maxDepth: nat): nat {
    if depth > maxDepth then 0 else maxDepth - depth + 1
  }

  /** The updates found from `pageId` at `depth`: nothing past the depth
      bound or for a page that cannot be read; otherwise the page's own
      update if it was edited strictly after `watermark`, followed by the
      updates found from each of its child pages one level deeper. */
  function Walk(store: Store, watermark: int, pageId: PageId, depth: nat, maxDepth: nat): seq<PageUpdate>
    decreases Fuel(depth, maxDepth), 0, 0
  {
    if depth > maxDepth || pageId !in store then []
    else
      var page := store[pageId];
      (if page.lastEditedTime > watermark then [UpdateOf(pageId, page)] else [])
      + WalkAll(store, watermark, ChildPageIds(page.blocks), depth + 1, maxDepth)
  }

  /** The walks from each id in turn, concatenated in order and without
      removing duplicates. */
  function WalkAll(store: Store, watermark: int, ids: seq<PageId>, depth: nat, maxDepth: nat): seq<PageUpdate>
    decreases Fuel(depth, maxDepth), 1, |ids|
  {
    if ids == [] then []
    else Walk(store, watermark, ids[0], depth, maxDepth) + WalkAll(store, watermark, ids[1..], depth, maxDepth)
  }

  /** `to` is `steps` child-page links below `from`, every page on the
      way (all but possibly `to`) being readable. */
  ghost predicate Reaches(store: Store, from: PageId, to: PageId, steps: nat)
    decreases steps
  {
    if steps == 0 then from == to
    else from in store && exists c :: c in ChildPageIds(store[from].blocks) && Reaches(store, c, to, steps - 1)
  }

  /** `u` is what the readable page `u.pageId` reports, and that page was
      edited strictly after `watermark`. */
  ghost predicate IsFreshUpdate(store: Store, watermark: int, u: PageUpdate) {
    u.pageId in store && store[u.pageId].lastEditedTime > watermark && u == UpdateOf(u.pageId, store[u.pageId])
  }

  // ---- Structure of the listings and of WalkAll ----

  lemma {:induction false} ChildPageIdsAppend(a: seq<Block>, b: seq<Block>)
    ensures ChildPageIds(a + b) == ChildPageIds(a) + ChildPageIds(b)
    decreases |a|
  {
    if a != [] {
      assert (a + b)[0] == a[0];
      assert (a + b)[1..] == a[1..] + b;
      ChildPageIdsAppend(a[1..], b);
    } else {
      assert a + b == b;
    }
  }

  /** Walking two lists of roots one after the other gives the two
      results one after the other. */
  lemma {:induction false} WalkAllAppend(store: Store, watermark: int, a: seq<PageId>, b: seq<PageId>, depth: nat, maxDepth: nat)
    ensures WalkAll(store, watermark, a + b, depth, maxDepth)
         == WalkAll(store, watermark, a, depth, maxDepth) + WalkAll(store, watermark, b, depth, maxDepth)
    decreases |a|
  {
    if a != [] {
      assert (a + b)[0] == a[0];
      assert (a + b)[1..] == a[1..] + b;
      WalkAllAppend(store, watermark, a[1..], b, depth, maxDepth);
    } else {
      assert a + b == b;
    }
  }

  /** One more block at the end of a listing adds its id when it is a
      child page. */
  lemma ChildPageIdsSnoc(blocks: seq<Block>, b: Block)
    ensures ChildPageIds(blocks + [b]) == ChildPageIds(blocks) + (if b.kind.ChildPage? then [b.id] else [])
  {
    ChildPageIdsAppend(blocks, [b]);
    assert ChildPageIds([b]) == (if b.kind.ChildPage? then [b.id] else []) + ChildPageIds([]);
  }

  /** One more id at the end adds its walk at the end. */
  lemma WalkAllSnoc(store: Store, watermark: int, ids: seq<PageId>, id: PageId, depth: nat, maxDepth: nat)
    ensures WalkAll(store, watermark, ids + [id], depth, maxDepth)
         == WalkAll(store, watermark, ids, depth, maxDepth) + Walk(store, watermark, id, depth, maxDepth)
  {
    WalkAllAppend(store, watermark, ids, [id], depth, maxDepth);
    assert WalkAll(store, watermark, [id], depth, maxDepth)
        == Walk(store, watermark, id, depth, maxDepth) + WalkAll(store, watermark, [], depth, maxDepth);
  }

  /** One more block of a listing adds the walk of its page at the end
      when it is a child page, and nothing otherwise. */
  lemma WalkChildrenStep(store: Store, watermark: int, blocks: seq<Block>, i: nat, depth: nat, maxDepth: nat)
    requires i < |blocks|
    ensures WalkAll(store, watermark, ChildPageIds(blocks[..i + 1]), depth, maxDepth)
         == WalkAll(store, watermark, ChildPageIds(blocks[..i]), depth, maxDepth)
            + (if blocks[i].kind.ChildPage? then Walk(store, watermark, blocks[i].id, depth, maxDepth) else [])
  {
    var done := ChildPageIds(blocks[..i]);
    assert blocks[..i + 1] == blocks[..i] + [blocks[i]];
    ChildPageIdsSnoc(blocks[..i], blocks[i]);
    if blocks[i].kind.ChildPage? {
      WalkAllSnoc(store, watermark, done, blocks[i].id, depth, maxDepth);
    } else {
      assert done + [] == done;
    }
  }

  /** The results of the i-th id form the segment between the results of
      the ids before it and those after it. */
  lemma WalkAllSegment(store: Store, watermark: int, ids: seq<PageId>, i: nat, depth: nat, maxDepth: nat)
    requires i < |ids|
    ensures var before := |WalkAll(store, watermark, ids[..i], depth, maxDepth)|;
            var upTo := |WalkAll(store, watermark, ids[..i + 1], depth, maxDepth)|;
            && before <= upTo <= |WalkAll(store, watermark, ids, depth, maxDepth)|
            && WalkAll(store, watermark, ids, depth, maxDepth)[before..upTo] == Walk(store, watermark, ids[i], depth, maxDepth)
  {
    var w := Walk(store, watermark, ids[i], depth, maxDepth);
    assert ids == ids[..i] + ids[i..];
    assert ids[..i + 1] == ids[..i] + [ids[i]];
    assert ids[i..] == [ids[i]] + ids[i + 1..];
    WalkAllAppend(store, watermark, ids[..i], ids[i..], depth, maxDepth);
    WalkAllAppend(store, watermark, ids[..i], [ids[i]], depth, maxDepth);
    WalkAllAppend(store, watermark, [ids[i]], ids[i + 1..], depth, maxDepth);
    assert WalkAll(store, watermark, [ids[i]], depth, maxDepth) == w + WalkAll(store, watermark, [], depth, maxDepth);
    assert WalkAll(store, watermark, [ids[i]], depth, maxDepth) == w;
  }

  // ---- Depth bound ----

  /** Past the depth bound nothing is reported, for any list of ids and
      any workspace. */
  lemma {:induction false} BeyondMaxDepthEmpty(store: Store, watermark: int, ids: seq<PageId>, depth: nat, maxDepth: nat)
    requires depth > maxDepth
    ensures WalkAll(store, watermark, ids, depth, maxDepth) == []
    decreases |ids|
  {
    if ids != [] {
      BeyondMaxDepthEmpty(store, watermark, ids[1..], depth, maxDepth);
    }
  }

  // ---- Exactly the fresh reachable pages ----

  lemma {:induction false} WalkAllFrom(store: Store, watermark: int, ids: seq<PageId>, depth: nat, maxDepth: nat, u: PageUpdate)
      returns (i: nat)
    requires u in WalkAll(store, watermark, ids, depth, maxDepth)
    ensures i < |ids| && u in Walk(store, watermark, ids[i], depth, maxDepth)
    decreases |ids|
  {
    if u in Walk(store, watermark, ids[0], depth, maxDepth) {
      i := 0;
    } else {
      var j := WalkAllFrom(store, watermark, ids[1..], depth, maxDepth, u);
      i := j + 1;
    }
  }

  lemma {:induction false} WalkAllHas(store: Store, watermark: int, ids: seq<PageId>, i: nat, depth: nat, maxDepth: nat, u: PageUpdate)
    requires i < |ids| && u in Walk(store, watermark, ids[i], depth, maxDepth)
    ensures u in WalkAll(store, watermark, ids, depth, maxDepth)
    decreases |ids|
  {
    if i > 0 {
      WalkAllHas(store, watermark, ids[1..], i - 1, depth, maxDepth, u);
    }
  }

  /** Every reported update is fresh and comes from a page at most
      `maxDepth - depth` links below the root. */
  lemma {:induction false} WalkSound(store: Store, watermark: int, root: PageId, depth: nat, maxDepth: nat, u: PageUpdate)
      returns (steps: nat)
    requires u in Walk(store, watermark, root, depth, maxDepth)
    ensures IsFreshUpdate(store, watermark, u)
    ensures depth + steps <= maxDepth && Reaches(store, root, u.pageId, steps)
    decreases Fuel(depth, maxDepth)
  {
    assert depth <= maxDepth && root in store;
    var page := store[root];
    var ids := ChildPageIds(page.blocks);
    var own := if page.lastEditedTime > watermark then [UpdateOf(root, page)] else [];
    var rest := WalkAll(store, watermark, ids, depth + 1, maxDepth);
    assert Walk(store, watermark, root, depth, maxDepth) == own + rest;
    if u in own {
      steps := 0;
      OwnUpdateFresh(store, watermark, root, u);
    } else {
      assert u in rest;
      var i := WalkAllFrom(store, watermark, ids, depth + 1, maxDepth, u);
      var below := WalkSound(store, watermark, ids[i], depth + 1, maxDepth, u);
      steps := below + 1;
      ReachesStep(store, root, ids[i], u.pageId, below);
    }
  }

  /** A page's own entry is a fresh update of that page. */
  lemma OwnUpdateFresh(store: Store, watermark: int, root: PageId, u: PageUpdate)
    requires root in store && store[root].lastEditedTime > watermark
    requires u == UpdateOf(root, store[root])
    ensures IsFreshUpdate(store, watermark, u) && Reaches(store, root, u.pageId, 0)
  {
  }

  /** One more link in front of a path. */
  lemma ReachesStep(store: Store, from: PageId, c: PageId, to: PageId, steps: nat)
    requires from in store && c in ChildPageIds(store[from].blocks)
    requires Reaches(store, c, to, steps)
    ensures Reaches(store, from, to, steps + 1)
  {
  }

  /** Every fresh page reachable within the depth bound through readable
      pages is reported. */
  lemma {:induction false} WalkComplete(store: Store, watermark: int, root: PageId, depth: nat, maxDepth: nat, steps: nat, u: PageUpdate)
    requires IsFreshUpdate(store, watermark, u)
    requires depth + steps <= maxDepth && Reaches(store, root, u.pageId, steps)
    ensures u in Walk(store, watermark, root, depth, maxDepth)
    decreases steps
  {
    if steps > 0 {
      var page := store[root];
      var ids := ChildPageIds(page.blocks);
      var c :| c in ids && Reaches(store, c, u.pageId, steps - 1);
      var i :| 0 <= i < |ids| && ids[i] == c;
      WalkComplete(store, watermark, c, depth + 1, maxDepth, steps - 1, u);
      WalkAllHas(store, watermark, ids, i, depth + 1, maxDepth, u);
    }
  }

  /** The walk reports an update if and only if it is fresh and its page
      lies within the depth bound below the root. */
  lemma WalkReportsExactly(store: Store, watermark: int, root: PageId, depth: nat, maxDepth: nat, u: PageUpdate)
    ensures u in Walk(store, watermark, root, depth, maxDepth)
        <==> IsFreshUpdate(store, watermark, u)
             && exists steps: nat :: depth + steps <= maxDepth && Reaches(store, root, u.pageId, steps)
  {
    if u in Walk(store, watermark, root, depth, maxDepth) {
      var steps := WalkSound(store, watermark, root, depth, maxDepth, u);
      assert depth + steps <= maxDepth && Reaches(store, root, u.pageId, steps);
    } else if IsFreshUpdate(store, watermark, u) {
      forall steps: nat | depth + steps <= maxDepth
        ensures !Reaches(store, root, u.pageId, steps)
      {
        if Reaches(store, root, u.pageId, steps) {
          WalkComplete(store, watermark, root, depth, maxDepth, steps, u);
        }
      }
    }
  }

  // ---- Strict filter ----

  /** A page edited at or before the watermark (an equal time included)
      never shows up in the result, wherever it sits in the tree. */
  lemma StalePageNeverReported(store: Store, watermark: int, root: PageId, depth: nat, maxDepth: nat, p: PageId)
    requires p in store && store[p].lastEditedTime <= watermark
    ensures forall u :: u in Walk(store, watermark, root, depth, maxDepth) ==> u.pageId != p
  {
    forall u | u in Walk(store, watermark, root, depth, maxDepth)
      ensures u.pageId != p
    {
      var _ := WalkSound(store, watermark, root, depth, maxDepth, u);
    }
  }

  /** A stale page's own entry is missing, but its children are still
      walked: its result is exactly theirs. */
  lemma StalePageKeepsChildren(store: Store, watermark: int, root: PageId, depth: nat, maxDepth: nat)
    requires root in store && store[root].lastEditedTime <= watermark && depth <= maxDepth
    ensures Walk(store, watermark, root, depth, maxDepth)
         == WalkAll(store, watermark, ChildPageIds(store[root].blocks), depth + 1, maxDepth)
  {
  }

  /** A workspace in which nothing was edited after the watermark gives
      no update, from any list of roots. */
  lemma QuietWorkspaceNoUpdates(store: Store, watermark: int, ids: seq<PageId>, depth: nat, maxDepth: nat)
    requires forall p :: p in store ==> store[p].lastEditedTime <= watermark
    ensures WalkAll(store, watermark, ids, depth, maxDepth) == []
  {
    var all := WalkAll(store, watermark, ids, depth, maxDepth);
    if all != [] {
      var i := WalkAllFrom(store, watermark, ids, depth, maxDepth, all[0]);
      var _ := WalkSound(store, watermark, ids[i], depth, maxDepth, all[0]);
      assert false;
    }
  }

  // ---- Output order ----

  /** One step of the walk: a readable page within the bound gives its
      own entry, if it is newer than the watermark, and then its child
      pages' walks. */
  lemma WalkUnfold(store: Store, watermark: int, root: PageId, depth: nat, maxDepth: nat)
    requires root in store && depth <= maxDepth
    ensures Walk(store, watermark, root, depth, maxDepth)
         == (if store[root].lastEditedTime > watermark then [UpdateOf(root, store[root])] else [])
            + WalkAll(store, watermark, ChildPageIds(store[root].blocks), depth + 1, maxDepth)
  {
  }

  /** A readable page within the bound gives at most one entry of its
      own: it opens the result when the page is newer than the
      watermark, and everything after it comes from the child pages. */
  lemma WalkOwnFirst(store: Store, watermark: int, root: PageId, depth: nat, maxDepth: nat)
    requires root in store && depth <= maxDepth
    ensures var page := store[root];
            var w := Walk(store, watermark, root, depth, maxDepth);
            var own := if page.lastEditedTime > watermark then 1 else 0;
            var rest := WalkAll(store, watermark, ChildPageIds(page.blocks), depth + 1, maxDepth);
            && |w| == own + |rest|
            && (own == 1 ==> w[0] == UpdateOf(root, page))
            && w[own..] == rest
  {
  }

  /** The result of a readable page within the bound is its own entry
      (if any) followed by the results of its child pages in listing
      order, and nothing else: the i-th child page's results sit right
      after those of the children listed before it. */
  lemma WalkOrder(store: Store, watermark: int, root: PageId, depth: nat, maxDepth: nat, i: nat)
    requires root in store && depth <= maxDepth
    requires i < |ChildPageIds(store[root].blocks)|
    ensures var page := store[root];
            var ids := ChildPageIds(page.blocks);
            var w := Walk(store, watermark, root, depth, maxDepth);
            var own := if page.lastEditedTime > watermark then 1 else 0;
            var before := own + |WalkAll(store, watermark, ids[..i], depth + 1, maxDepth)|;
            var upTo := own + |WalkAll(store, watermark, ids[..i + 1], depth + 1, maxDepth)|;
            && |w| == own + |WalkAll(store, watermark, ids, depth + 1, maxDepth)|
            && (own == 1 ==> w[0] == UpdateOf(root, page))
            && before <= upTo <= |w|
            && w[before..upTo] == Walk(store, watermark, ids[i], depth + 1, maxDepth)
  {
    var page := store[root];
    var ids := ChildPageIds(page.blocks);
    var rest := WalkAll(store, watermark, ids, depth + 1, maxDepth);
    var ownSeq := if page.lastEditedTime > watermark then [UpdateOf(root, page)] else [];
    var w := Walk(store, watermark, root, depth, maxDepth);
    assert w == ownSeq + rest;
    WalkAllSegment(store, watermark, ids, i, depth + 1, maxDepth);
    SliceAfterPrefix(ownSeq, rest,
      |WalkAll(store, watermark, ids[..i], depth + 1, maxDepth)|,
      |WalkAll(store, watermark, ids[..i + 1], depth + 1, maxDepth)|);
  }

  lemma SliceAfterPrefix<T>(a: seq<T>, b: seq<T>, lo: nat, hi: nat)
    requires lo <= hi <= |b|
    ensures (a + b)[|a| + lo..|a| + hi] == b[lo..hi]
  {
  }

  // ---- Failure collapse ----

  /** A page that cannot be read contributes nothing and leaves the
      results of the ids around it as they are. */
  lemma FailedPageIsolated(store: Store, watermark: int, ids: seq<PageId>, i: nat, depth: nat, maxDepth: nat)
    requires i < |ids| && ids[i] !in store
    ensures WalkAll(store, watermark, ids, depth, maxDepth)
         == WalkAll(store, watermark, ids[..i], depth, maxDepth) + WalkAll(store, watermark, ids[i + 1..], depth, maxDepth)
  {
    assert ids == ids[..i] + ([ids[i]] + ids[i + 1..]);
    WalkAllAppend(store, watermark, ids[..i], [ids[i]] + ids[i + 1..], depth, maxDepth);
    assert ([ids[i]] + ids[i + 1..])[1..] == ids[i + 1..];
  }

  // ---- Cycles ----

  /** A page listing itself as a child page is walked once per level
      until the depth bound: with the default bound of 2 it is reported
      three times. */
  lemma SelfLinkedPageRepeats(id: PageId, page: Page, watermark: int)
    requires page.blocks == [Block(id, ChildPage, [])] && page.lastEditedTime > watermark
    ensures var u := UpdateOf(id, page);
            Walk(map[id := page], watermark, id, 0, 2) == [u, u, u]
  {
    var store := map[id := page];
    var u := UpdateOf(id, page);
    assert ChildPageIds(page.blocks) == [id];
    assert Walk(store, watermark, id, 3, 2) == [];
    assert WalkAll(store, watermark, [id], 3, 2) == [];
    assert Walk(store, watermark, id, 2, 2) == [u];
    assert WalkAll(store, watermark, [id], 2, 2) == [u];
    assert Walk(store, watermark, id, 1, 2) == [u, u];
    assert WalkAll(store, watermark, [id], 1, 2) == [u, u];
  }
}
