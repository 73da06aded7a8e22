# notion-weekly-report: the page walk and the watermark, in Dafny

The program scans a list of Notion pages and their child pages for
pages edited since the last scan (the *watermark*). It turns each
changed page into a title and a plain-text body and hands the list to
a text-generation service for a weekly report. This project models the
deterministic part of `index.js`:

- **Block-to-text extraction** (`Blocks`). A paragraph, heading 1–3,
  bulleted item, numbered item or to-do block that has at least one
  rich-text run yields one line. The line is its type's marker
  (`""`, `"# "`, `"## "`, `"### "`, `"• "`, `"1. "`, `"[x] "` / `"[ ] "`)
  followed by the first run's plain text. Every other block yields
  nothing. The lines are joined with a line feed. A page's title is the
  first run of its `title` property, else `"Untitled"`.
- **The depth-bounded walk** (`PageTree`). The Notion API becomes an
  immutable snapshot `Store = map<PageId, Page>`. An id with no entry is
  a page whose `pages.retrieve` or `blocks.children.list` call fails,
  and its whole subtree yields `[]`. The functions `Walk`/`WalkAll` say
  what `explorePageStructure` returns. The lemmas prove:
  - it reports exactly the pages newer than the watermark that can be
    reached within the depth bound;
  - it reports nothing past the bound;
  - a stale page never appears, but its children are still walked;
  - a page's own entry comes first, and its children's results follow
    in listing order;
  - an unreadable page does not disturb its siblings;
  - a self-linked page is reported once per level.
- **The watermark** (`WeeklyReport`). A class `Reporter` holds
  `lastCheckedDate`. `ExplorePageStructure` is the recursive walk,
  proved equal to `Walk`. Its body is split into three methods: the two
  early returns, the page's own entry (`OwnUpdate`, which runs the
  content loop) and the loop over child pages (`ExploreChildren`). `GetNotionUpdates` splits
  the configured ids on `,`, trims each one, and concatenates the walks
  of the roots in order, without deduplication. It then sets the
  watermark to the `now` it is given.
- **The empty-report short-circuit** (`Report`). With no updates the
  report is the fixed message and the generator is never consulted.
- **JavaScript string primitives** (`Text`). `split` (one-character
  separator), `join` and `trim`, with ECMAScript's whitespace set
  written out. They come with their round trips.

Timestamps are integers supplied by the caller. "Now" and the initial
watermark (start-up time minus seven days) are parameters. The
generator's answer is a parameter (`Completion`).

Two details of `index.js` the model keeps as written:
- the new watermark is the time read after all root walks have finished
  (`index.js:107-108`);
- the no-updates message is returned bare, without any prefix
  (`index.js:114-116`).

## Model

| member | source | states |
|---|---|---|
| `Text.Split` | index.js:97 | `split(',')` always gives at least one piece, and no piece contains the separator |
| `Text.JoinSplit` | index.js:97 | joining the pieces of a split with the separator gives back the original string |
| `Text.Join` | index.js:74 | `parts.join(sep)`; its meaning is given by `Text.JoinSplit` and `Text.SplitJoin`, which make it the inverse of `split` on separator-free parts |
| `Text.SplitJoin` | index.js:74 | splitting a join of separator-free parts (at least one) gives back exactly those parts |
| `Text.SplitCount` | index.js:97 | a string splits into one more piece than it has separators |
| `Text.TrimStartSpec` | index.js:97 | the result is a suffix of the input, what was dropped is all whitespace, and it does not start with whitespace |
| `Text.TrimEndSpec` | index.js:97 | the result is a prefix of the input, what was dropped is all whitespace, and it does not end with whitespace |
| `Text.Trim` | index.js:97 | the result is an infix with only whitespace on either side, and it neither starts nor ends with whitespace |
| `Text.TrimKeepsOut` | index.js:97 | trimming never introduces a character the piece did not contain, so a trimmed id has no comma |
| `Text.TrimmedAtUnique` | index.js:97 | at most one string without surrounding whitespace sits in the input with only whitespace on either side, so `Text.Trim`'s contract fixes its result |
| `Text.TrimPadded` | index.js:97 | whitespace put on either side of a string without surrounding whitespace is exactly what trimming removes |
| `Text.TrimIdempotent` | index.js:97 | trimming twice is trimming once |
| `Text.TrimUnchanged` | index.js:97 | a string without surrounding whitespace is its own trim |
| `Blocks.Prefix` | index.js:44-57 | the marker of each of the seven text types (`""`, `"# "`, `"## "`, `"### "`, `"• "`, `"1. "`, `"[x] "`/`"[ ] "`); its use is stated by `Blocks.ContentLinesExact` |
| `Blocks.LineOf` | index.js:44-57 | the line one block contributes, if any; `Blocks.ContentLinesExact` states that the content is exactly these lines in block order |
| `Blocks.ContentLines` | index.js:42-59 | the lines pushed onto `pageContent`; characterised by `Blocks.ContentLinesExact` and computed by `Blocks.ExtractContent` |
| `Blocks.Content` | index.js:74 | the `content` field, the lines joined by a line feed; `Blocks.ExtractContent` is proved equal to it and `Blocks.ContentSplitsIntoLines` recovers the lines from it |
| `Blocks.ExtractContent` | index.js:42-59 | the content-building loop returns the lines of the contributing blocks joined by a line feed |
| `Blocks.ContentLinesExact` | index.js:43-58 | the j-th line is the marker and first run of the j-th block of a text type with at least one rich-text run; these blocks appear in block order, and every other block contributes nothing |
| `Blocks.ContentSplitsIntoLines` | index.js:74 | when no run holds a line feed, a non-empty content splits back into exactly its lines |
| `Blocks.PageTitle` | index.js:62-68 | the first title run when the property exists and has one, otherwise "Untitled" |
| `PageTree.ChildPageIds` | index.js:79-80 | the ids of the `child_page` blocks in listing order; `PageTree.WalkOrder` and `PageTree.StalePageKeepsChildren` state how the walk uses them |
| `PageTree.UpdateOf` | index.js:70-75 | the update record of a changed page: its id, `Blocks.PageTitle`, its last-edited time and `Blocks.Content` of its blocks |
| `PageTree.Walk` | index.js:27-92 | what `explorePageStructure` returns; `WeeklyReport.Reporter.ExplorePageStructure` is proved equal to it, and `PageTree.WalkReportsExactly`, `PageTree.WalkOrder` and `PageTree.BeyondMaxDepthEmpty` state what it contains |
| `PageTree.WalkAll` | index.js:79-85 | the child-page loop's concatenation of walks; `PageTree.WalkAllAppend` and `PageTree.WalkAllSegment` state it is the in-order concatenation without deduplication |
| `PageTree.WalkAllAppend` | index.js:79-85 | walking two lists of ids in turn gives the two results concatenated, with no deduplication |
| `PageTree.WalkAllSegment` | index.js:79-85 | the i-th id's walk is the contiguous segment after the results of the ids before it |
| `PageTree.BeyondMaxDepthEmpty` | index.js:27-28 | past the depth bound every list of ids yields nothing, in every workspace |
| `PageTree.WalkSound` | index.js:27-91 | every reported update is what a readable page newer than the watermark reports, and that page lies at most `maxDepth - depth` child-page links below the root |
| `PageTree.WalkComplete` | index.js:27-91 | every page newer than the watermark that is reachable within the depth bound through readable pages is reported |
| `PageTree.WalkReportsExactly` | index.js:27-91 | an update is reported if and only if it is fresh and its page lies within the depth bound below the root |
| `PageTree.StalePageNeverReported` | index.js:40 | a page edited at or before the watermark, an equal time included, never appears in the result |
| `PageTree.StalePageKeepsChildren` | index.js:40-85 | a stale page's result is exactly its children's results |
| `PageTree.QuietWorkspaceNoUpdates` | index.js:40 | if nothing was edited after the watermark, no list of roots yields an update |
| `PageTree.WalkOwnFirst` | index.js:40-85 | a readable page gives at most one entry of its own, first, when it is newer than the watermark; the rest of its result is exactly its children's walks |
| `PageTree.WalkOrder` | index.js:70-85 | the result's length is the own entry plus the children's results; a newer page's own update comes first; the i-th child page's results follow right after those of the children listed before it |
| `PageTree.FailedPageIsolated` | index.js:88-91 | an unreadable id contributes nothing and leaves the results of the ids before and after it unchanged |
| `PageTree.SelfLinkedPageRepeats` | index.js:82 | a page that lists itself as a child is reported three times with the default bound, so the walk stops even on cycles |
| `Report.AnalyzeWeeklyUpdates` | index.js:113-150 | no updates gives the fixed message; otherwise the report is the service's answer or the fixed error text plus the error message |
| `Report.EmptyReportIgnoresGenerator` | index.js:114-116 | with no updates the report is the fixed message, whatever the service would answer |
| `Report.QuietWeekReport` | index.js:114-116 | a scan of a workspace with nothing newer than the watermark finds no update and ends in the fixed message |
| `WeeklyReport.ParseRootIds` | index.js:97 | one id per comma-separated piece, the i-th id being the i-th piece trimmed; no id contains a comma or has surrounding whitespace |
| `WeeklyReport.ParseRootIdsRoundTrip` | index.js:97 | ids without commas or surrounding whitespace, joined by commas, parse back to exactly those ids |
| `WeeklyReport.ParsePaddedRootIds` | index.js:97 | the same ids written with any whitespace around each one (`"a, b"`) parse back to exactly those ids |
| `WeeklyReport.Reporter.constructor` | index.js:23-24 | the watermark starts at the value supplied for start-up minus seven days |
| `WeeklyReport.Reporter.ExplorePageStructure` | index.js:27-92 | the recursive walk returns `Walk` for the current watermark and changes nothing: `[]` past the depth bound or for a page that cannot be read |
| `WeeklyReport.Reporter.ExploreReadablePage` | index.js:30-87 | for a readable page within the bound, its own entry followed by its child pages' walks equals `Walk` |
| `WeeklyReport.Reporter.OwnUpdate` | index.js:40-76 | one update, built from the content loop and the title, exactly when the page was edited strictly after the watermark; none otherwise |
| `WeeklyReport.Reporter.ExploreChildren` | index.js:79-85 | the loop over the blocks returns the in-order concatenation of the child pages' walks, `WalkAll` of the child-page ids |
| `WeeklyReport.Reporter.GetNotionUpdates` | index.js:95-110 | returns the in-order concatenation of the root walks against the watermark on entry; afterwards the watermark is `now` and nothing else has changed |
| `WeeklyReport.ScanTwice` | index.js:95-110 | a second scan of a workspace with nothing edited after the first scan's `now` finds nothing |

## Left out

- Notion SDK calls (`pages.retrieve`, `blocks.children.list`, `pages.create`) are modelled only as lookups in the `Store` snapshot. Notion accepts ids with or without hyphens; the model looks ids up exactly as written.
- Only the first page of block results is fetched (`index.js:36`). The store holds whatever listing the API returns, and pagination is not modelled.
- A recognised block without its `rich_text` array, or an unparsable `last_edited_time`, makes the JavaScript throw or compare `NaN`. The model assumes listings are well formed and timestamps are integers.
- `writeWeeklyReportToNotion` (`index.js:154-216`) is not modelled: it builds a payload for a foreign API and has no logic of its own.
- The prompt text, the OpenAI request and `toLocaleString` formatting (`index.js:118-144`) are left out: the request's outcome is a `Completion` parameter, and locale formatting cannot be modelled.
- Express routes and streaming (`index.js:218-283`, `305-309`), the cron job and its zero-update skip (`index.js:285-303`), dotenv and `console` logging are left out as I/O plumbing.
- JavaScript `Date` and `setDate` calendar arithmetic (`index.js:23-24`) are left out: timestamps are integers, and the initial watermark is given.
- Overlapping manual and scheduled runs on the shared watermark are left out: that is concurrency, so the model has a single sequential caller.
- An undefined `NOTION_PAGE_ID` (where `split` throws) is left out: the configuration is always a string.
