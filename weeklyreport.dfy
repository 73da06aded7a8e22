/** The stateful part: the module-level watermark `lastCheckedDate`,
    the recursive page walk that reads it, and the scan over the
    configured roots that overwrites it. */
module WeeklyReport {
  import opened Text
  import opened Seqs
  import opened Blocks
  import opened PageTree

  /** The depth bound every root walk starts with. */
  const MaxDepth: nat := 2

  /** `config.split(',').map(id => id.trim())`: the configured root ids,
      the i-th being the i-th comma-separated piece with its surrounding
      whitespace removed. */
  function ParseRootIds(config: string): (ids: seq<PageId>)
    ensures |ids| == multiset(config)[','] + 1
    ensures |ids| == |Split(config, ',')|
    ensures forall i :: 0 <= i < |ids| ==> ids[i] == Trim(Split(config, ',')[i])
    ensures forall i :: 0 <= i < |ids| ==> ',' !in ids[i] && IsTrimmed(ids[i])
  {
    var pieces := Split(config, ',');
    SplitCount(config, ',');
    forall i | 0 <= i < |pieces|
      ensures ',' !in Trim(pieces[i])
    {
      TrimKeepsOut(pieces[i], ',');
    }
    seq(|pieces|, i requires 0 <= i < |pieces| => Trim(pieces[i]))
  }

  /** Ids that have no comma and no surrounding whitespace, written
      separated by commas, parse back to exactly those ids. */
  lemma ParseRootIdsRoundTrip(ids: seq<PageId>)
    requires |ids| >= 1
    requires forall i :: 0 <= i < |ids| ==> ',' !in ids[i]
    requires forall i :: 0 <= i < |ids| ==> IsTrimmed(ids[i])
    ensures ParseRootIds(Join(ids, ',')) == ids
  {
    SplitJoin(ids, ',');
    forall i | 0 <= i < |ids|
      ensures Trim(ids[i]) == ids[i]
    {
      TrimUnchanged(ids[i]);
    }
  }

  /** Each id written with whitespace on either side: `l[i] + ids[i] + r[i]`. */
  function Padded(ids: seq<PageId>, l: seq<string>, r: seq<string>): (padded: seq<string>)
    requires |l| == |ids| && |r| == |ids|
    ensures |padded| == |ids|
    ensures forall i :: 0 <= i < |ids| ==> padded[i] == l[i] + ids[i] + r[i]
  {
    seq(|ids|, i requires 0 <= i < |ids| => l[i] + ids[i] + r[i])
  }

  /** The case the trimming is there for: ids with no comma and no
      surrounding whitespace of their own, written with any whitespace
      around them (`"a, b"`) and separated by commas, parse back to
      exactly those ids. */
  lemma ParsePaddedRootIds(ids: seq<PageId>, l: seq<string>, r: seq<string>)
    requires |ids| >= 1 && |l| == |ids| && |r| == |ids|
    requires forall i :: 0 <= i < |ids| ==> ',' !in ids[i] && IsTrimmed(ids[i])
    requires forall i :: 0 <= i < |ids| ==> AllWhitespace(l[i]) && AllWhitespace(r[i])
    ensures ParseRootIds(Join(Padded(ids, l, r), ',')) == ids
  {
    var padded := Padded(ids, l, r);
    assert !IsJsWhitespace(',');
    forall i | 0 <= i < |padded|
      ensures ',' !in padded[i]
    {
      assert ',' !in l[i] && ',' !in r[i];
    }
    SplitJoin(padded, ',');
    forall i | 0 <= i < |ids|
      ensures Trim(padded[i]) == ids[i]
    {
      TrimPadded(l[i], ids[i], r[i]);
    }
  }

  class Reporter {
    /** The comma-separated root page ids (`NOTION_PAGE_ID`). */
    const pageIdConfig: string
    /** The watermark: only pages edited strictly after it are reported. */
    var lastCheckedDate: int

    /** `initialWatermark` is the start-up time minus seven days, as the
        caller computes it. */
    constructor (pageIdConfig: string, initialWatermark: int)
      ensures this.pageIdConfig == pageIdConfig && lastCheckedDate == initialWatermark
    {
      this.pageIdConfig := pageIdConfig;
      lastCheckedDate := initialWatermark;
    }

    /** The page's own entry: when it was edited strictly after the
        watermark, its content lines and title make one update;
        otherwise there is none. */
    method OwnUpdate(pageId: PageId, page: Page) returns (own: seq<PageUpdate>)
      ensures page.lastEditedTime > lastCheckedDate ==> own == [UpdateOf(pageId, page)]
      ensures page.lastEditedTime <= lastCheckedDate ==> own == []
    {
      own := [];
      if page.lastEditedTime > lastCheckedDate {
        var content := ExtractContent(page.blocks);
        var title := PageTitle(page.titleRuns);
        own := [PageUpdate(pageId, title, page.lastEditedTime, content)];
      }
    }

    /** `explorePageStructure`: the updates found from `pageId` against
        the current watermark; it changes nothing. */
    method ExplorePageStructure(store: Store, pageId: PageId, depth: nat, maxDepth: nat)
        returns (updates: seq<PageUpdate>)
      ensures updates == Walk(store, lastCheckedDate, pageId, depth, maxDepth)
      decreases Fuel(depth, maxDepth), 2
    {
      if depth > maxDepth {
        return [];
      }
      if pageId !in store {
        // retrieving the page or listing its blocks failed: logged, and the
        // whole subtree contributes nothing
        return [];
      }
      updates := ExploreReadablePage(store, pageId, depth, maxDepth);
    }

    /** The `try` block of `explorePageStructure` once the page and its
        blocks have been read: the page's own entry, then the walks of
        its child pages in listing order. */
    method ExploreReadablePage(store: Store, pageId: PageId, depth: nat, maxDepth: nat)
        returns (updates: seq<PageUpdate>)
      requires pageId in store && depth <= maxDepth
      ensures updates == Walk(store, lastCheckedDate, pageId, depth, maxDepth)
      decreases Fuel(depth, maxDepth), 1
    {
      var page := store[pageId];
      var own := OwnUpdate(pageId, page);
      var childUpdates := ExploreChildren(store, page.blocks, depth + 1, maxDepth);
      updates := own + childUpdates;
      WalkUnfold(store, lastCheckedDate, pageId, depth, maxDepth);
    }

    /** The loop over a page's blocks: each `child_page` block's walk at
        `depth`, one level below the page, appended in listing order. */
    method ExploreChildren(store: Store, blocks: seq<Block>, depth: nat, maxDepth: nat)
        returns (updates: seq<PageUpdate>)
      requires 1 <= depth <= maxDepth + 1
      ensures updates == WalkAll(store, lastCheckedDate, ChildPageIds(blocks), depth, maxDepth)
      decreases Fuel(depth - 1, maxDepth), 0
    {
      updates := [];
      for i := 0 to |blocks|
        invariant updates == WalkAll(store, lastCheckedDate, ChildPageIds(blocks[..i]), depth, maxDepth)
      {
        var block := blocks[i];
        WalkChildrenStep(store, lastCheckedDate, blocks, i, depth, maxDepth);
        if block.kind.ChildPage? {
          var childUpdates := ExplorePageStructure(store, block.id, depth, maxDepth);
          updates := updates + childUpdates;
        } else {
          assert updates + [] == updates;
        }
      }
      SliceAll(blocks);
    }

    /** `getNotionUpdates`: walks each configured root in order against
        the watermark as it was on entry, then moves the watermark to
        `now`, the time read after the last walk. */
    method GetNotionUpdates(store: Store, now: int) returns (allUpdates: seq<PageUpdate>)
      modifies this
      ensures allUpdates == WalkAll(store, old(lastCheckedDate), ParseRootIds(pageIdConfig), 0, MaxDepth)
      ensures lastCheckedDate == now
    {
      var pageIds := ParseRootIds(pageIdConfig);
      ghost var watermark := lastCheckedDate;
      allUpdates := [];
      for i := 0 to |pageIds|
        invariant lastCheckedDate == watermark
        invariant allUpdates == WalkAll(store, watermark, pageIds[..i], 0, MaxDepth)
      {
        var updates := ExplorePageStructure(store, pageIds[i], 0, MaxDepth);
        SliceSnoc(pageIds, i);
        WalkAllSnoc(store, watermark, pageIds[..i], pageIds[i], 0, MaxDepth);
        allUpdates := allUpdates + updates;
      }
      SliceAll(pageIds);
      lastCheckedDate := now;
    }
  }

  /** Two scans in a row over a workspace in which nothing was edited
      after the first scan's `now`: the second finds nothing and moves
      the watermark on again. */
  method ScanTwice(reporter: Reporter, store: Store, now1: int, now2: int)
      returns (first: seq<PageUpdate>, second: seq<PageUpdate>)
    requires forall p :: p in store ==> store[p].lastEditedTime <= now1
    modifies reporter
    ensures first == WalkAll(store, old(reporter.lastCheckedDate), ParseRootIds(reporter.pageIdConfig), 0, MaxDepth)
    ensures second == [] && reporter.lastCheckedDate == now2
  {
    first := reporter.GetNotionUpdates(store, now1);
    second := reporter.GetNotionUpdates(store, now2);
    QuietWorkspaceNoUpdates(store, now1, ParseRootIds(reporter.pageIdConfig), 0, MaxDepth);
  }
}
