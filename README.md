# Gen AI Global org chart and member-post feed, in Dafny

This project models the deterministic core of the Gen AI Global community
site. It covers two features.

**The organisational chart viewer:**

- the org-chart data (`orgChart`, `CATEGORY_ICON`);
- the neon graph: `flattenGroups`, the radial `computeLayout`, the
  search-to-focus of `handleFocusSearch`, and the member-count label;
- the collapsible list view (`hierarchicalData`, the per-group member
  filter, `hasMatches`, `open`, `flatCount`, `dataPending`);
- the group node card (`isExpandable`, `handleToggle`, styles, handles,
  title truncation, count labels);
- the pillar tab strip.

**The LinkedIn member-post feed:**

- the scrape function's `parseLinkedInPosts` and `extractHashtags`: which
  records become posts, their type, member name, title, cleaned
  description, link, date, author and id, and the 15-post cap;
- `BrightDataService.scrapeLinkedInPosts`: the mapping from errors to
  results, the merge with the fallback posts, the `findIndex` dedup, and
  the newest-first sort;
- the nine fallback posts as concrete data.

There is one Dafny module per source file:

| module | source file |
|---|---|
| `OrgData` | `src/data/orgChart.ts` |
| `NeonGraph` | `src/components/NeonOrgGraph.tsx` |
| `OrgList` | `src/components/OrgChart3D.tsx` |
| `GroupNodeView` | `src/components/nodes/GroupNode.tsx` |
| `OrgTabs` | `src/components/OrgTabs.tsx` |
| `PostModel` and `BrightData` | `src/utils/BrightDataService.ts` |
| `FallbackPosts` | `src/data/fallbackMemberPosts.ts` |
| `Hashtags` and `ScrapeLinkedIn` | `supabase/functions/scrape-linkedin/index.ts` |

Two shared modules support them. `Common` holds the optional values, JS
truthiness, and order-preserving filters with their subsequence witnesses.
`Text` holds ASCII case mapping, JavaScript's whitespace set, `includes`,
`trim`, `substring` and decimal rendering.

The model takes the source's own form.

- **Loops become methods.** These are proved against specification
  functions whose properties are lemmas:
  - `flattenGroups`'s push loop (`NeonGraph.FlattenGroups`);
  - the `byDepth` map and the ring placement loop
    (`NeonGraph.GroupByDepth`, `NeonGraph.PlaceRing`,
    `NeonGraph.ComputeLayout`);
  - the name and title loops with `break` (`ScrapeLinkedIn.PickName`,
    `ScrapeLinkedIn.PickTitle`);
  - the `forEach` that pushes posts (`ScrapeLinkedIn.ParseLinkedInPosts`).
- **The in-place `uniquePosts.sort` stays in place.** It is an array
  insertion sort (`BrightData.SortNewestFirst`).
- **Everything else is functions over datatypes.** The filter, `find` and
  `some` chains, the `switch` mappings and the constant data are modelled
  this way.

**Inputs the model takes as parameters.**

- **Regular expressions.** Each pattern list becomes what it yields for a
  given text (`ScrapeLinkedIn.Matchers`): whether a spotlight pattern
  matches, each name pattern's `match()[1]`, each title pattern's
  `match()[0]`, the URL and the date found in the text.
- **The clock.** `Date.now()` and today's date are inputs.
- **Date order.** The `Date` comparison of the sort is an abstract key
  function.
- **π.** The radius bound takes π as a positive real.

**Behaviour of the code worth knowing.**

- **Search priority.** The code takes the first candidate that matches by
  name or through a member, in the order "each top-level group, then its
  direct children". It does not rank name matches first, and it never
  searches grandchildren (`NeonGraph.SearchIsNotNameFirst`).
- **Expand/collapse.** The modelled files contain no tree layout and no
  expand/collapse controller: `GroupNode.tsx` only calls `onToggle`. The
  model therefore states only the toggle guard.
- **The unit list.** `OrgChart3D.tsx` imports `ORG_UNITS` and `OrgUnit`,
  which `src/data/orgChart.ts` does not export. The unit list is a
  parameter, and `OrgUnit` has exactly the fields the view reads.

**Dedup against dropped posts.** The dedup compares each post with every
earlier post, dropped ones included. A post can therefore be dropped even
though it duplicates no post that is kept: on the three-post list of
`BrightData.DropCascades`, the third post duplicates only the dropped
second one and is dropped too. This follows from the code as written and
is stated as a property, not claimed as a bug.

## Model

| member | source | states |
|---|---|---|
| `Common.FirstTruthy` | supabase/functions/scrape-linkedin/index.ts:116-117 | `a \|\| b \|\| …` over optional strings is present exactly when some candidate is present and non-empty, and then it is the first such candidate |
| `Common.FilterSubsequence` | src/components/OrgChart3D.tsx:143 | `Array.prototype.filter` keeps an order-preserving subsequence of its input. The witness lists exactly the positions that pass the test, so every passing element is kept as often as it occurs |
| `Common.FilterMembership` | src/components/OrgChart3D.tsx:146 | an element survives a filter iff it occurs in the input and passes the test |
| `Common.PushedPositions` | supabase/functions/scrape-linkedin/index.ts:115-116 | a `forEach` that pushes for accepted elements pushes exactly one value per accepted index, in increasing index order, and misses none |
| `Text.Lower` | src/components/NeonOrgGraph.tsx:192 | `toLowerCase` keeps the length and lower-cases each character on its own, by the ASCII case mapping |
| `Text.IncludesIffOccurs` | src/components/NeonOrgGraph.tsx:202 | `s.includes(q)` holds iff `q` occurs at some position of `s` |
| `Text.IncludesInConcat` | src/components/NeonOrgGraph.tsx:204 | text joined on either side keeps every occurrence of the query |
| `Text.Trim` | src/components/NeonOrgGraph.tsx:192 | `trim` never lengthens a string and leaves no whitespace at either end |
| `Text.TrimIsSlice` | src/components/NeonOrgGraph.tsx:192 | `trim` keeps exactly the contiguous part of the string between a whitespace-only prefix and a whitespace-only suffix |
| `Text.TrimmedIsFixed` | supabase/functions/scrape-linkedin/index.ts:171 | a string with no whitespace at either end is its own trim |
| `Text.Take` | src/utils/BrightDataService.ts:71 | `substring(0, n)` is the prefix of length `min(n, length)` |
| `Text.NatToStringRoundTrip` | src/components/nodes/GroupNode.tsx:107 | a count rendered in decimal reads back as the same number |
| `Text.NatToStringInjective` | supabase/functions/scrape-linkedin/index.ts:235 | distinct numbers render as distinct strings |
| `OrgData.IconFor` | src/components/NeonOrgGraph.tsx:103 | an icon key of the registry gives its glyph; any other key gives the Users glyph |
| `OrgData.MemberCount` | src/components/NeonOrgGraph.tsx:43 | a node's count is the length of `members`, or 0 when `members` is absent |
| `OrgData.OrgChartShape` | src/data/orgChart.ts:32-76 | the chart has 13 top-level groups; none has children, every member list is present and empty, and every icon key is in `CATEGORY_ICON` |
| `OrgData.OrgChartIdsDistinct` | src/data/orgChart.ts:32-76 | the group ids of the chart are pairwise distinct |
| `OrgData.OrgChartHasNoMembers` | src/data/orgChart.ts:31-76 | the chart counts zero members in all |
| `NeonGraph.FlattenGroups` | src/components/NeonOrgGraph.tsx:38-53 | the push loop with recursion returns exactly the recursively defined node list (each group's node, then its subtree one level deeper) and edge list (an edge from a truthy parent id to each group, then each subtree's edges) |
| `NeonGraph.FlatNodesArePreOrder` | src/components/NeonOrgGraph.tsx:42-49 | the flattened nodes are the textbook pre-order of the tree: each group once, before its children, siblings in source order |
| `NeonGraph.GroupsAreNodes` | src/components/NeonOrgGraph.tsx:43 | every group of a list appears as a node carrying that list's depth |
| `NeonGraph.EdgeCount` | src/components/NeonOrgGraph.tsx:44-48 | with non-empty ids, #edges + #top-level groups = #nodes below a missing parent; with a truthy parent, #edges = #nodes |
| `NeonGraph.EdgesLocated` | src/components/NeonOrgGraph.tsx:44-48 | each edge either joins two flattened nodes (the parent earlier, the child one level deeper) or comes from the enclosing parent into a node at the list's depth |
| `NeonGraph.EdgesJoinNodes` | src/components/NeonOrgGraph.tsx:132 | flattened from the top, every edge joins an earlier parent node to a child node one level deeper |
| `NeonGraph.FlattenOrgChart` | src/components/NeonOrgGraph.tsx:132 | the published chart flattens to 13 nodes, all at depth 0 with count 0, and no edges |
| `NeonGraph.BucketInInputOrder` | src/components/NeonOrgGraph.tsx:61-66 | each depth's bucket lists exactly the ids of the items at that depth, in input order |
| `NeonGraph.SlotOfDistinctId` | src/components/NeonOrgGraph.tsx:90-95 | with distinct ids, an item's ring index is its rank among the earlier items of the same depth |
| `NeonGraph.MaxKey` | src/components/NeonOrgGraph.tsx:70 | `Math.max` over the keys returns one of the keys, at least as large as every key |
| `NeonGraph.GroupByDepth` | src/components/NeonOrgGraph.tsx:61-66 | the `byDepth` map has a key exactly for each depth that occurs, mapped to that depth's non-empty bucket |
| `NeonGraph.PlaceRing` | src/components/NeonOrgGraph.tsx:87-95 | every id of a ring gets the slot of its last position in the ring, the write that overwrites the others, with the ring's radius and the slot's angle; other positions are unchanged |
| `NeonGraph.ComputeLayout` | src/components/NeonOrgGraph.tsx:56-99 | exactly the ids with a non-negative depth get a position; each is the id's last entry in the bucket of the deepest depth holding it, with that ring's radius and angle; empty input gives an empty record |
| `NeonGraph.RingRadiusBounds` | src/components/NeonOrgGraph.tsx:73-85 | a ring's radius is at least `baseRadius + d·ringGap` and at least `count·(nodeWidth+minMargin)/(2π)`, and `ringGap ≥ 112` |
| `NeonGraph.NoOverlapOnRing` | src/components/NeonOrgGraph.tsx:83-85 | the arc each node of a ring gets is at least a node width plus the margin |
| `NeonGraph.MeasuredRadiusPositive` | src/components/NeonOrgGraph.tsx:147 | with the size clamped to at least 300×300, every ring radius is at least 60 |
| `NeonGraph.LayoutGraph` | src/components/NeonOrgGraph.tsx:132-147 | flattening then laying out gives every node id a position, each with a radius of at least 60 |
| `NeonGraph.CandidatesMembership` | src/components/NeonOrgGraph.tsx:199-200 | the search looks exactly at the top-level groups and their direct children |
| `NeonGraph.FindFirstMatch` | src/components/NeonOrgGraph.tsx:201-207 | `find` returns the first candidate whose lower-cased name or some member's lower-cased "name role" contains the query, or none if no candidate matches |
| `NeonGraph.FindNode` | src/components/NeonOrgGraph.tsx:211 | the node lookup returns a node with the id, or none when no node has it |
| `NeonGraph.ResolveFocus` | src/components/NeonOrgGraph.tsx:191-217 | a query that is empty after trimming fits the view; otherwise the view centres exactly when the first matching candidate has a non-empty id that is among the nodes, and then on that candidate |
| `NeonGraph.FirstMatchUnique` | src/components/NeonOrgGraph.tsx:201 | the first match is unique |
| `NeonGraph.CandidateIsNode` | src/components/NeonOrgGraph.tsx:199-211 | every search candidate is a node of the flattened chart |
| `NeonGraph.FocusTargetIsNode` | src/components/NeonOrgGraph.tsx:199-216 | with the graph's own nodes, a non-empty query centres on a node iff its first match has a non-empty id: the node lookup never fails |
| `NeonGraph.FocusOnFirstMatch` | src/components/NeonOrgGraph.tsx:209-216 | a non-empty query whose first match has a non-empty id present among the nodes centres on that match |
| `NeonGraph.SearchIsNotNameFirst` | src/components/NeonOrgGraph.tsx:199-207 | a group listed earlier that matches only through a member wins over a later group whose name matches |
| `NeonGraph.MemberCountLabel` | src/components/NeonOrgGraph.tsx:119 | the label says "member" exactly for a count of 1 and "members" otherwise |
| `OrgList.HierarchyShape` | src/components/OrgChart3D.tsx:142-148 | the entries are exactly the units with no truthy `parentId`, in source order. Every such position is listed, duplicates included. Each entry carries exactly the units whose `parentId` is its id |
| `OrgList.ChildrenInOrder` | src/components/OrgChart3D.tsx:146 | an entry's children keep the order of the flat list. They are exactly the units naming it as parent, each as often as it occurs |
| `OrgList.ChildIsNotTopLevel` | src/components/OrgChart3D.tsx:143-146 | a unit listed under a parent with a non-empty id is never itself top-level |
| `OrgList.GroupView` | src/components/OrgChart3D.tsx:82-106 | a member is shown iff the lower-cased query is in its lower-cased name or role; `hasMatches` iff some member is shown or some child's member has "name role" containing it; `open` is `hasMatches` for a non-empty query and `defaultOpen` otherwise; the header count is the member-list length |
| `OrgList.ShownInOrder` | src/components/OrgChart3D.tsx:88-90 | in every group view, the shown members are the matching members of the group, in order. Every matching member is shown as often as it occurs |
| `OrgList.EmptyQueryShowsAll` | src/components/OrgChart3D.tsx:88-100 | an empty query shows every member and leaves `open` at `defaultOpen` |
| `OrgList.FieldMatchImpliesJoined` | src/components/OrgChart3D.tsx:89-95 | a match in a member's name or role is also a match in its joined "name role" text |
| `OrgList.JoinedDoesNotImplyField` | src/components/OrgChart3D.tsx:89-95 | the converse fails: a query spanning the space matches the joined text but neither field |
| `OrgList.MatchingGroupOpens` | src/components/OrgChart3D.tsx:93-100 | a group with a member matching a non-empty query shows that member and starts open |
| `OrgList.DataPendingIffNoMembers` | src/components/OrgChart3D.tsx:168 | `dataPending` holds iff `flatCount` is 0 |
| `OrgList.FlatCountBounds` | src/components/OrgChart3D.tsx:139 | every unit's members are counted in `flatCount` |
| `GroupNodeView.Toggle` | src/components/nodes/GroupNode.tsx:24-31 | the toggle calls `onToggle(id)` iff a handler is attached and the node is a pillar with a positive team count (absent reads 0); otherwise it calls nothing; the click's propagation is stopped either way |
| `GroupNodeView.ToggleButton` | src/components/nodes/GroupNode.tsx:90-101 | the chevron button is drawn iff the node is expandable, pointing down iff it is also expanded |
| `GroupNodeView.ShownButtonToggles` | src/components/nodes/GroupNode.tsx:26-31 | a button that is drawn always reaches `onToggle` when a handler is attached |
| `GroupNodeView.NodeStylesDistinct` | src/components/nodes/GroupNode.tsx:33-57 | the node and text styles are total in the type and tell the three types apart |
| `GroupNodeView.HandlesByType` | src/components/nodes/GroupNode.tsx:66-123 | a target handle iff not a director, a source handle iff not a team, so only a pillar has both |
| `GroupNodeView.Title` | src/components/nodes/GroupNode.tsx:87 | a name of at most 38 characters is shown unchanged; a longer one becomes its first 35 plus "...", exactly 38 |
| `GroupNodeView.NodeIcon` | src/components/nodes/GroupNode.tsx:23 | the card draws the registry's glyph for its icon key |
| `GroupNodeView.TeamsSlot` | src/components/nodes/GroupNode.tsx:106-108 | the corrected teams slot shows "N teams" iff the count is positive, and never a bare number |
| `GroupNodeView.TeamsSlotAsWritten` | src/components/nodes/GroupNode.tsx:106-108 | the teams slot as written shows "N teams" iff the count is positive, and a bare "0" exactly when the count is 0 |
| `GroupNodeView.TeamsSlotStrayZero` | src/components/nodes/GroupNode.tsx:106-108 | as written, a team count of 0 renders a bare "0", where the corrected slot renders nothing |
| `GroupNodeView.TeamsSlotAgreesElsewhere` | src/components/nodes/GroupNode.tsx:106-108 | on every team count except 0, the code as written and the corrected slot agree |
| `GroupNodeView.MembersSlot` | src/components/nodes/GroupNode.tsx:109-111 | "N members" is shown iff the member count is positive |
| `GroupNodeView.RenderCard` | src/components/nodes/GroupNode.tsx:59-131 | the card as the code renders it: a target handle iff not a director and a source handle iff not a team (both iff a pillar), the registry's icon for the node's key, a button iff expandable, the name as title when at most 38 characters and otherwise its first 35 plus "...", a teams label iff the count is positive, a bare "0" exactly for a team count of 0, the members label iff the member count is positive, and a description iff it is truthy |
| `GroupNodeView.RenderCardIntended` | src/components/nodes/GroupNode.tsx:106-108 | the card with the corrected teams slot never shows a bare number, and equals the card as written exactly when the team count is not 0 |
| `OrgTabs.PillarLabel` | src/components/OrgTabs.tsx:27 | a name of at most 20 characters is the label; a longer one becomes its first 17 plus "..."; a label never exceeds 20 |
| `OrgTabs.Tabs` | src/components/OrgTabs.tsx:15-29 | there are pillars+1 triggers: "all" first, then each pillar's id in input order, labelled with that pillar's name cut by `PillarLabel`, every label at most 20 long |
| `OrgTabs.TabsSelectPillars` | src/components/OrgTabs.tsx:21-24 | a value after the first tab is some pillar's id iff a pillar has that id |
| `FallbackPosts.FallbackShape` | src/data/fallbackMemberPosts.ts:3-103 | there are 9 fallback posts, each a member spotlight with a member name |
| `FallbackPosts.FallbackIdsDistinct` | src/data/fallbackMemberPosts.ts:3-103 | the fallback ids are pairwise distinct |
| `FallbackPosts.FallbackNamesDistinct` | src/data/fallbackMemberPosts.ts:11-99 | the fallback member names are pairwise distinct |
| `FallbackPosts.FallbackOpeningsDistinct` | src/data/fallbackMemberPosts.ts:6-94 | no two fallback posts agree on their first 100 characters |
| `FallbackPosts.DistinctOpeningsDistinctPrefixes` | src/utils/BrightDataService.ts:71 | posts whose first four characters differ also differ in their first 100 |
| `FallbackPosts.FallbackDatesWellFormed` | src/data/fallbackMemberPosts.ts:8-96 | every fallback date is written YYYY-MM-DD |
| `FallbackPosts.FallbackUrlsAreLinkedInPosts` | src/data/fallbackMemberPosts.ts:10-98 | every fallback link starts with "https://www.linkedin.com/posts/" |
| `BrightData.Merge` | src/utils/BrightDataService.ts:64-65 | the merged list is the scraped posts (none if absent), followed by the fallback posts |
| `BrightData.FindDup` | src/utils/BrightDataService.ts:69-72 | `findIndex` returns the first position holding a duplicate (same member name or same 100-character prefix), or -1 when there is none |
| `BrightData.KeptIff` | src/utils/BrightDataService.ts:68-73 | the post at index i is kept iff no earlier post duplicates it |
| `BrightData.DedupPositions` | src/utils/BrightDataService.ts:68-73 | the dedup result is an order-preserving subsequence of the merged list, consisting of exactly the kept positions |
| `BrightData.DedupPairwiseDistinct` | src/utils/BrightDataService.ts:67-73 | no two kept posts duplicate each other |
| `BrightData.DroppedHasEarlierDup` | src/utils/BrightDataService.ts:68-73 | every dropped post duplicates an earlier post |
| `BrightData.DedupKeepsFirst` | src/utils/BrightDataService.ts:68-73 | a non-empty list keeps its first post, in first place |
| `BrightData.AtMostOneUnnamed` | src/utils/BrightDataService.ts:70 | posts without a member name all count as duplicates (undefined === undefined), so at most one survives |
| `BrightData.DropCascades` | src/utils/BrightDataService.ts:68-73 | on a three-post list, a post that duplicates only a dropped post is dropped too; the general rule is `BrightData.KeptIff` |
| `BrightData.DedupIdentity` | src/utils/BrightDataService.ts:68-73 | the dedup of a prefix with no duplicates is that prefix |
| `BrightData.DistinctPostsSurvive` | src/utils/BrightDataService.ts:68-73 | posts with pairwise different names and different 100-character prefixes all survive, in order |
| `BrightData.FallbackSurvivesDedup` | src/utils/BrightDataService.ts:63-73 | with nothing scraped, all nine fallback posts survive the dedup unchanged |
| `BrightData.SortNewestFirst` | src/utils/BrightDataService.ts:76 | the in-place sort leaves the posts in non-increasing date order and is a permutation |
| `BrightData.InsertLeft` | src/utils/BrightDataService.ts:76 | one insertion pass makes the first i+1 posts newest first, holding the same posts as before, and leaves the posts after them untouched |
| `BrightData.ScrapeLinkedInPosts` | src/utils/BrightDataService.ts:18-90 | a missing client, an invoke error (the "not deployed" text when the message contains "Function not found", else the message or a fixed text), a `data.error`, or a thrown value each give failure with that error and no posts; otherwise success with the deduplicated merge, newest first |
| `BrightData.EmptyScrapeGivesFallback` | src/utils/BrightDataService.ts:63-81 | when nothing is scraped, the feed holds exactly the nine fallback posts, each once |
| `Hashtags.RunEnd` | supabase/functions/scrape-linkedin/index.ts:257 | the tag name after a `#` is the longest run of `[A-Za-z0-9_]` |
| `Hashtags.TagSpansOrdered` | supabase/functions/scrape-linkedin/index.ts:257-258 | the global match finds tags in text order, without overlap |
| `Hashtags.EveryTagIsFound` | supabase/functions/scrape-linkedin/index.ts:257-258 | every `#` followed by a word character is the start of some found tag |
| `Hashtags.ExtractHashtags` | supabase/functions/scrape-linkedin/index.ts:256-260 | there is one tag per match; each is non-empty, free of upper-case letters, and made of word characters only (so no `#`) |
| `Hashtags.HashtagPositions` | supabase/functions/scrape-linkedin/index.ts:256-260 | the tags are exactly the lower-cased maximal word runs after each `#` followed by a word character, in order of occurrence |
| `Hashtags.NoTagsIffNoHashtags` | supabase/functions/scrape-linkedin/index.ts:258-259 | the result is empty iff no `#` is followed by a word character |
| `Hashtags.RemoveTagsFrom` | supabase/functions/scrape-linkedin/index.ts:210 | deleting `#\w+` matches never lengthens the text |
| `Hashtags.RemovalLeavesNoTag` | supabase/functions/scrape-linkedin/index.ts:210 | after removal, no `#` is followed by a word character |
| `Hashtags.RemovalKeepsTagless` | supabase/functions/scrape-linkedin/index.ts:210 | text without tags is left as it is |
| `Hashtags.RemoveTagsIdempotent` | supabase/functions/scrape-linkedin/index.ts:210 | removing the tags twice removes nothing more |
| `Hashtags.RemovalKeepsOutsideTags` | supabase/functions/scrape-linkedin/index.ts:210 | removal keeps exactly the characters outside the `#\w+` matches, in their order, with a position witness |
| `Hashtags.CollapseSpaces` | supabase/functions/scrape-linkedin/index.ts:212 | collapsing whitespace runs never lengthens the text and turns a leading whitespace character into one space. `Hashtags.CollapseRun` states that every run becomes exactly one space |
| `Hashtags.CollapseIsSingleSpaced` | supabase/functions/scrape-linkedin/index.ts:212 | after collapsing, every whitespace character is a plain space and none follows another |
| `Hashtags.CollapseKeepsTagless` | supabase/functions/scrape-linkedin/index.ts:212 | collapsing creates no tag |
| `Hashtags.CollapseKeepsSingleSpaced` | supabase/functions/scrape-linkedin/index.ts:212 | single-spaced text is left as it is |
| `Hashtags.CollapseKeepsWords` | supabase/functions/scrape-linkedin/index.ts:212 | collapsing keeps every non-whitespace character, in order: only whitespace is dropped or replaced |
| `Hashtags.CollapseAppend` | supabase/functions/scrape-linkedin/index.ts:212 | text ending in a non-space collapses independently of what follows it |
| `Hashtags.CollapseRun` | supabase/functions/scrape-linkedin/index.ts:212 | each whitespace run becomes exactly one space between the collapsed text on either side |
| `Hashtags.CapLength` | supabase/functions/scrape-linkedin/index.ts:214-216 | text of at most 400 characters is kept; longer text becomes its first 400 plus "...", so it is never over 403 |
| `Hashtags.TrimKeepsClean` | supabase/functions/scrape-linkedin/index.ts:210-212 | trimming tagless, single-spaced text leaves it clean |
| `Hashtags.CapKeepsClean` | supabase/functions/scrape-linkedin/index.ts:214-216 | cutting a clean description keeps it clean |
| `Hashtags.CollapsedIsClean` | supabase/functions/scrape-linkedin/index.ts:208-212 | the description before the cut has no tag, no whitespace at either end, and only single spaces |
| `Hashtags.CleanDescriptionShape` | supabase/functions/scrape-linkedin/index.ts:208-216 | every description is clean and at most 403 characters, and one over 400 ends in "..." |
| `Hashtags.CleanIsFixed` | supabase/functions/scrape-linkedin/index.ts:208-216 | cleaning a clean description of at most 400 characters changes nothing |
| `Hashtags.CleanDescriptionIdempotent` | supabase/functions/scrape-linkedin/index.ts:208-216 | cleaning a cleaned description, even a cut one, changes nothing |
| `ScrapeLinkedIn.CarriedTagsWin` | supabase/functions/scrape-linkedin/index.ts:141-148 | a record carrying a hashtag array is judged by it alone, so an empty array hides the tags in its text |
| `ScrapeLinkedIn.TextTagCounts` | supabase/functions/scrape-linkedin/index.ts:141-148 | without a carried array, a relevant tag in the text counts, whatever its case |
| `ScrapeLinkedIn.StopWordsAreOnePiece` | supabase/functions/scrape-linkedin/index.ts:173-175 | a stop word splits into one piece, so the 2–4 word test alone already rejects it |
| `ScrapeLinkedIn.LongNamesAreNotStopWords` | supabase/functions/scrape-linkedin/index.ts:173 | names longer than nine characters are never stop words |
| `ScrapeLinkedIn.TwoWordsTwoPieces` | supabase/functions/scrape-linkedin/index.ts:174-175 | two space-free words joined by one space split into two pieces |
| `ScrapeLinkedIn.DefaultNameIsValid` | supabase/functions/scrape-linkedin/index.ts:167 | the default "Community Member" would itself pass the name test |
| `ScrapeLinkedIn.NameIsDefaultOrMatch` | supabase/functions/scrape-linkedin/index.ts:167-180 | the name is "Community Member" or the trimmed text of an accepted match |
| `ScrapeLinkedIn.NameFromIsValid` | supabase/functions/scrape-linkedin/index.ts:167-180 | the chosen name always has 2–4 space-separated pieces and is not a stop word |
| `ScrapeLinkedIn.PickName` | supabase/functions/scrape-linkedin/index.ts:167-180 | the loop with `break` settles on the first accepted match, else the default |
| `ScrapeLinkedIn.FirstValidNameWins` | supabase/functions/scrape-linkedin/index.ts:168-178 | the first accepted match wins over every later one |
| `ScrapeLinkedIn.Capitalize` | supabase/functions/scrape-linkedin/index.ts:200 | capitalising keeps the length and the tail and leaves no lower-case first letter |
| `ScrapeLinkedIn.TitleOf` | supabase/functions/scrape-linkedin/index.ts:198-200 | a match's title is no longer than the match, starts with no lower-case letter and ends with no whitespace |
| `ScrapeLinkedIn.Titles` | supabase/functions/scrape-linkedin/index.ts:195-200 | there is a title exactly for each pattern that matched |
| `ScrapeLinkedIn.TitleFrom` | supabase/functions/scrape-linkedin/index.ts:194-205 | the title is the current one or some match's title, and is under 100 characters whenever some match's title is |
| `ScrapeLinkedIn.FirstShortTitleWins` | supabase/functions/scrape-linkedin/index.ts:195-203 | the first match whose title is under 100 characters ends the loop and becomes the title, whatever later matches give |
| `ScrapeLinkedIn.PickTitle` | supabase/functions/scrape-linkedin/index.ts:194-205 | the loop with `break` computes the title the specification function gives from "Community Member" |
| `ScrapeLinkedIn.LongTitlesKeepLastMatch` | supabase/functions/scrape-linkedin/index.ts:195-205 | when every match's title is 100 characters or more, the loop never breaks and the last one stays |
| `ScrapeLinkedIn.NoMatchKeepsTitle` | supabase/functions/scrape-linkedin/index.ts:194-205 | with no match the title stays "Community Member" |
| `ScrapeLinkedIn.RemoveFirst` | supabase/functions/scrape-linkedin/index.ts:224 | `replace` with a string pattern removes a leading occurrence and leaves text without one unchanged |
| `ScrapeLinkedIn.RemoveFirstOccurrence` | supabase/functions/scrape-linkedin/index.ts:224 | wherever the first occurrence of the pattern sits, exactly that occurrence is cut out and the text on both sides is kept |
| `ScrapeLinkedIn.RemoveFirstInMiddle` | supabase/functions/scrape-linkedin/index.ts:224 | an `https://` inside a captured URL is removed too, not only a leading one |
| `ScrapeLinkedIn.LinkOf` | supabase/functions/scrape-linkedin/index.ts:219-225 | the link is `url` when truthy, else `post_url`, else `link`, else the URL found in the text with one leading "https://", else the company posts page; without the first three it starts with "https://" |
| `ScrapeLinkedIn.HttpsUrlKept` | supabase/functions/scrape-linkedin/index.ts:219-224 | a URL found in the text with its "https://" comes out unchanged |
| `ScrapeLinkedIn.DateOf` | supabase/functions/scrape-linkedin/index.ts:228-232 | the date is `date` when truthy, else `published_date`, else `created_date`, else the date found in the text, else today |
| `ScrapeLinkedIn.AuthorOf` | supabase/functions/scrape-linkedin/index.ts:237 | the author is the record's truthy author, else "Gen AI Global", and is never empty |
| `ScrapeLinkedIn.PostIdsDistinct` | supabase/functions/scrape-linkedin/index.ts:235 | records at different indices get different ids, whatever the clock reads |
| `ScrapeLinkedIn.PostTypeRule` | supabase/functions/scrape-linkedin/index.ts:150-239 | a post is a member spotlight iff a pattern or relevant hashtag matched; a general post has content longer than 100 |
| `ScrapeLinkedIn.ContentOf` | supabase/functions/scrape-linkedin/index.ts:116-117 | a record's text is `text` when truthy, else `content`, else `post_text`, else `description`, and absent when none is truthy; it is never empty |
| `ScrapeLinkedIn.PostContent` | supabase/functions/scrape-linkedin/index.ts:116-117 | a post's content is the record's text, the first non-empty of its four text fields, and is never empty |
| `ScrapeLinkedIn.PostNameIsValid` | supabase/functions/scrape-linkedin/index.ts:167-180 | every post carries a valid member name |
| `ScrapeLinkedIn.PostDescriptionIsClean` | supabase/functions/scrape-linkedin/index.ts:207-216 | every post carries a clean description of at most 403 characters |
| `ScrapeLinkedIn.FirstNull` | supabase/functions/scrape-linkedin/index.ts:115-116 | the `forEach` reaches every record up to the first null one, where reading a field throws |
| `ScrapeLinkedIn.Reached` | supabase/functions/scrape-linkedin/index.ts:115-116 | the records processed are exactly those before the first null one |
| `ScrapeLinkedIn.CollectedFromRecords` | supabase/functions/scrape-linkedin/index.ts:115-245 | the collected posts are those of the included records, in record order, with none missing |
| `ScrapeLinkedIn.CollectedIdsDistinct` | supabase/functions/scrape-linkedin/index.ts:235 | no two collected posts share an id |
| `ScrapeLinkedIn.Parsed` | supabase/functions/scrape-linkedin/index.ts:253 | parsing returns at most 15 posts |
| `ScrapeLinkedIn.ParseRecord` | supabase/functions/scrape-linkedin/index.ts:116-245 | a record yields a post iff it has text and is a spotlight or longer than 100 characters, and then the post built from it |
| `ScrapeLinkedIn.ParseLinkedInPosts` | supabase/functions/scrape-linkedin/index.ts:108-254 | the `forEach` that pushes, then `slice(0, 15)`, returns the parsed posts; a non-array body is parsed as a one-record list |
| `ScrapeLinkedIn.ParsedIsPrefix` | supabase/functions/scrape-linkedin/index.ts:253 | the result is a prefix of all collected posts, the whole of them when there are at most 15 |
| `ScrapeLinkedIn.NullFirstYieldsNothing` | supabase/functions/scrape-linkedin/index.ts:113-115 | a null body, or an array starting with null, yields no posts |

## Left out

- The HTTP handler, CORS, environment lookup and the request to Bright Data (supabase/functions/scrape-linkedin/index.ts:16-106): network I/O.
- The Supabase client and `functions.invoke`: the call's outcome is the input `BrightData.Invocation`. The logging calls are left out too.
- The regular-expression pattern lists and `extractDateFromText`: each is replaced by what it yields for a text (`ScrapeLinkedIn.Matchers`). The model does not state which texts a pattern matches, nor the `/g` semantics of `match()`.
- `Date.now()`, `new Date()` and the `Date` comparator of the sort: clock values and an abstract date key are inputs.
- BrightData.SortNewestFirst: it promises order and permutation, but not the stability of `Array.prototype.sort`, so equal dates may end up in a different order than the source's sort leaves them.
- BrightData.SortNewestFirst: the date key is a total function, so every date is assumed to parse. In the source, `new Date(d).getTime()` is NaN for a date `Date` cannot parse, such as a relative "3 days ago" carried over from a record's `date` field. The comparator then returns NaN, which `sort` reads as 0; the comparator is inconsistent and the resulting order is implementation-defined. The newest-first promise of this member and of `BrightData.ScrapeLinkedInPosts` holds only for dates that parse.
- BrightData.ScrapeLinkedInPosts: its posts are stated up to permutation (newest first, the same multiset as the dedup result), for the same reason.
- NeonGraph.ComputeLayout: positions are ring slots (ring, index, radius, angle); the x/y coordinates from `Math.cos` and `Math.sin` are not modelled, because floating point and trigonometry are outside the model. π is a positive real input.
- NeonGraph.ComputeLayout: depths are integers. A fractional depth, which `flattenGroups` never produces, is not modelled.
- NeonGraph.ResolveFocus: it returns the id to centre on, not the viewport coordinates passed to `setCenter`.
- The viewport calls (`fitView`, `setCenter`), the ResizeObserver, the React effects and state, zoom/pan, and the PNG/PDF export: presentation and browser APIs.
- The `highlight` helper of the list view: a regex split used only for presentation.
- The dagre wrapper and the hierarchical-tree layout: a foreign library call. The expand/collapse and filter-tab controller is not in the modelled files.
- `ORG_UNITS` is not part of this model: `OrgChart3D.tsx` imports it, but the modelled `orgChart.ts` does not define it, so the unit list is a parameter.
- String lengths and indices count Unicode code points, where JavaScript counts UTF-16 code units. The cuts at 100, 400, 38 and 20 therefore differ from the source's for text outside the Basic Multilingual Plane, such as the emoji that open the fallback posts.
- Case mapping covers the ASCII letters only; `toLowerCase` and `toUpperCase` on other letters are not modelled.
- Exceptions other than reading a field of a null record, such as a non-string `text` field, are not modelled; the records' fields are typed.

## Findings

| source | as written | input that shows it | evidently intended | confidence | as-written member | corrected member |
|---|---|---|---|---|---|---|
| src/components/nodes/GroupNode.tsx:106-108 | `{data.teamCount && data.teamCount > 0 && <span>…</span>}` stops at the number 0 when the count is 0, and React renders that number | a node with `teamCount: 0` shows a bare "0" in its count line | show the teams label only for a positive count, and nothing otherwise | not executed | `GroupNodeView.RenderCard`, with `GroupNodeView.TeamsSlotAsWritten` (exhibited by `GroupNodeView.TeamsSlotStrayZero`) | `GroupNodeView.RenderCardIntended`, with `GroupNodeView.TeamsSlot` |
