# Blog content pipeline, modelled in Dafny

This project models the `BlogSystem` class of `blog.js`, the script behind a
personal site's blog page. The model covers four parts:

- **Catalog.** `loadPosts` reads the manifest of posts and sorts it newest first. The sort is stable. Any failure leaves an empty catalog. `renderBlogList` then shows either the cards or the "No blog posts found" notice, and `posts.find` looks a post up by its slug.
- **Outline builder.** `generateTOC` slugifies each heading's text. It writes the id `heading-<index>-<slug>` on every heading that has no id. It places the level-1 to level-3 headings in a forest by pushing onto its rightmost spine, and `renderTOC` renders that forest as nested links.
- **Scroll spy and outline clicks.** These keep the "active" class on the outline links.
- **Navigation controller.** It tracks the list view and the post view, the current post, and the entries pushed with `history.pushState`. Its transitions are `showBlogList`, `loadPost`, `showPostView`, `showError`, the `popstate` handler and the deep-link handler.

Modules:

- `wrappers.dfy`: the `Option` type.
- `catalog.dfy`, module `Catalog`: `Post` and the date order. `SortNewestFirst` is an in-place stable insertion sort on an array. The file also holds the lemmas about it, `FindPost` and `RenderBlogList`.
- `slug.dfy`, module `Slug`: the slugifier, the decimal rendering of the heading index, the heading id and `ParseHeadingId`, which reads an id back into its index and slug.
- `outline.dfy`, module `Outline`:
  - the outline's data: `Heading`, `Node`, `Link`, `Toc`;
  - `Expected`, a reference definition of the outline as a flat list of links with depths;
  - `Render`, the model of `renderTOC`;
  - the placement step `Place` and the loop `BuildOutline`;
  - `GenerateToc`.
- `scrollspy.dfy`, module `ScrollSpy`: class `TocLinks`, one active flag per outline link, with the observer callback and the click handler. Its `ids` are the `.toc-link` elements that `renderTOC` writes, in document order: the `headingId`s of `Expected(headings)` for the post shown.
- `blog.dfy`, module `Blog`: class `BlogSystem` and the navigation state machine.

Modelling choices:

- A date is an integer day number.
- A heading is its level, its text and its existing id. An empty id counts as no id, as `!heading.id` does.
- Some effects are passed in as parameters:
  - the outcome of fetching and converting a post (`Fetch`: the converted content's headings, or a failure);
  - the parsed manifest (`Option`);
  - the batch of `(heading id, isIntersecting)` entries the observer delivers;
  - whether a clicked link's target element exists;
  - the `post` query parameter.

Behaviour kept as the code has it:

- The `popstate` handler pushes a new history entry. It calls `loadPost` or `showBlogList`, and both call `pushState`.
- A level-4 heading matches no branch of the placement chain, so it gets no outline entry.
- A level-3 heading goes under the last child of the last top-level entry, whatever that child's level.
- A top-level entry can be a level-2 or level-3 heading when no entry exists yet.
- An unknown slug in `loadPost` changes nothing visible.
- A failed fetch still makes the post the current one. It writes the error panel into the post container but does not switch views. When the list is showing, that panel stays hidden.
- When several entries of an observer batch intersect, the last one wins.

## Model

| member | source | states |
|---|---|---|
| `Catalog.SortNewestFirst` | blog.js:43 | After the sort, no post is followed by a newer one. The posts of each date keep their manifest order. The result is a permutation of the input. |
| `Catalog.SinkNewer` | blog.js:43 | One insertion pass makes the first i+1 posts newest first, keeps each date's order and leaves the posts after position i where they were. |
| `Catalog.SinkStep` | blog.js:43 | One exchange during an insertion pass keeps the pass's invariant: the prefix around the moving post stays newest first. |
| `Catalog.SinkDone` | blog.js:43 | When the moving post meets one at least as new, the first i+1 posts are newest first. |
| `Catalog.SwapKeepsDateOrder` | blog.js:43 | Exchanging two neighbouring posts with different dates keeps the order within every date. |
| `Catalog.SameDateOrderIsPermutation` | blog.js:43 | Keeping the order within every date implies the same multiset of posts. |
| `Catalog.SameNewestPost` | blog.js:43 | Two newest-first sequences with the same order within every date start with the same post. |
| `Catalog.StableNewestFirstIsUnique` | blog.js:43 | Two newest-first sequences with the same order within every date are equal. So every stable sort yields the same catalog. |
| `Catalog.NewerPostFirstExample` | blog.js:43 | The manifest [a (older), b (newer)] always becomes [b, a]. |
| `Catalog.FindPost` | blog.js:121 | The result is the index of the first post with the slug, or None exactly when no post has it. |
| `Catalog.RenderBlogList` | blog.js:85-117 | An empty catalog shows the "No blog posts found" notice. Otherwise there is one card per post, in catalog order, each opening its post's slug. |
| `Slug.LowerAll` | blog.js:192 | The result has the input's length, and each character is the ASCII lower-case of the input's character at the same position. |
| `Slug.DropRun` | blog.js:193 | The rest of the text after its leading run outside `[a-z0-9]`: a suffix that starts with a kept character or is empty, and keeps every `[a-z0-9]` character. |
| `Slug.Collapse` | blog.js:193 | The output keeps the input's `[a-z0-9]` characters in order and adds only `-`. It never holds `--`, is empty only for empty input, and starts with `-` exactly when the input starts with a character outside `[a-z0-9]`. |
| `Slug.CollapseIsSqueezedDashes` | blog.js:193 | Collapsing equals the independent two-step reading of the pattern: every character outside `[a-z0-9]` becomes `-`, then each run of `-` is squeezed to one. |
| `Slug.SqueezeLeadingRun` | blog.js:193 | A `-` followed by a run of characters outside `[a-z0-9]` squeezes to that single `-`. |
| `Slug.TrimDashes` | blog.js:194 | The input is the result with at most one `-` added at the front and at most one at the end, so every `[a-z0-9]` character is kept. On collapsed text (only `a-z`, `0-9` and `-`, never `--`) the result is a well-formed slug. |
| `Slug.AlnumDashSuffix` | blog.js:194 | A trailing `-` adds no `[a-z0-9]` character. |
| `Slug.Slugify` | blog.js:191-194 | Every slug holds only `a-z`, `0-9` and `-`, has no `-` at either end and never `--`. Its `[a-z0-9]` characters are exactly those of the lower-cased text, in order. |
| `Slug.LowerAllKeepsSlug` | blog.js:192 | Lower-casing leaves text of `a-z`, `0-9` and `-` unchanged. |
| `Slug.CollapseKeepsSlug` | blog.js:193 | Collapsing leaves text of `a-z`, `0-9` and `-` without `--` unchanged. |
| `Slug.SlugifyKeepsSlug` | blog.js:191-194 | Slugifying a well-formed slug returns it unchanged. |
| `Slug.SlugifyIdempotent` | blog.js:191-194 | Slugifying twice gives the same as slugifying once. |
| `Slug.DigitsRoundTrip` | blog.js:196 | Reading back the decimal digits of an index gives the index. |
| `Slug.HeadingId` | blog.js:196 | The id `heading-<index>-<slug>` always reads back through `ParseHeadingId` as the index and slug it was built from. |
| `Slug.GeneratedIdsDistinct` | blog.js:196 | Headings at different positions get different generated ids, whatever their slugs. |
| `Outline.FinalId` | blog.js:199-206 | A heading with a non-empty id keeps it. A heading without one gets an id that parses back to its index and a well-formed slug. |
| `Outline.PlacedIndicesExact` | blog.js:186-231 | The outline entries come from exactly the level-1 to level-3 headings, each once, in document order. |
| `Outline.ExpectedFollowsHeadings` | blog.js:203-231 | Entry k links to the k-th placed heading's final id and shows its text. Its depth follows the placement rule. |
| `Outline.ExpectedWellNested` | blog.js:210-231 | The first entry is top-level. Every depth is 1 to 3. No entry is more than one level deeper than the one before it. |
| `Outline.IntroSetupNextExample` | blog.js:210-217 | H1 "Intro", H2 "Setup", H1 "Next" give two top-level entries, with "Setup" under "Intro". |
| `Outline.NestedThirdLevelExample` | blog.js:218-231 | In H1, H3, H3, H4, the second H3 goes under the first H3, and the H4 gets no entry. |
| `Outline.Render` | blog.js:234-251 | The rendering is empty exactly for an empty forest. |
| `Outline.RenderDepthAtLeast` | blog.js:234-251 | No link is shallower than the depth the rendering starts at. |
| `Outline.RenderConcat` | blog.js:234-250 | Rendering two lists of items one after the other gives the concatenation of their renderings. |
| `Outline.RenderSnoc` | blog.js:234-250 | Appending one item to a forest appends its link, then the links of its subtree one level deeper. |
| `Outline.RenderLastDepth` | blog.js:219-226 | The last link is top-level exactly when the last top-level item has no children. |
| `Outline.RenderAppendToLast` | blog.js:214 | Pushing a new item onto the last item's children appends one link, one level deeper. |
| `Outline.RenderAppendToLastChild` | blog.js:220-224 | Pushing a new item under the last child of the last item appends one link, two levels deeper. |
| `Outline.Place` | blog.js:210-231 | Only the last top-level entry can change. A new top-level entry, the item itself, is added exactly for a level-1 item or for a level-2 or level-3 item when there is no entry yet. A level-4 item leaves the forest unchanged. What the step does to the rendering is stated by `PlaceRendersOneLink`. |
| `Outline.PlaceRendersOneLink` | blog.js:210-231 | A placed-level item adds exactly its own link to the rendering, at the depth the placement rule gives. Any other level leaves the forest unchanged. |
| `Outline.PlaceKeepsLevels` | blog.js:210-231 | After placing an item, every node of the forest still has level 1 to 3. |
| `Outline.PlaceExtendsOutline` | blog.js:186-231 | Placing heading i on a forest that renders the outline of the first i headings gives one that renders the outline of the first i+1, with every level still 1 to 3. |
| `Outline.IdsWrittenSnoc` | blog.js:199-201 | Writing heading i's final id extends the ids written on the first i headings. |
| `Outline.BuildOutline` | blog.js:184-232 | The forest renders exactly as the reference outline. Every node has level 1 to 3. Every heading gets its final id. |
| `Outline.GenerateToc` | blog.js:173-253 | No headings give the "No headings found" item. Otherwise the panel shows the reference outline. In both cases every heading carries its final id. |
| `ScrollSpy.FirstLinkFor` | blog.js:282-284 | The result is the first link whose `data-heading-id` is the id, or None when no link has it. |
| `ScrollSpy.LastIntersecting` | blog.js:276-277 | The result is the id of the last intersecting entry of the batch, or None exactly when no entry intersects. |
| `ScrollSpy.TocLinks.constructor` | blog.js:266 | The links of a new outline are all inactive, so at most one is active. |
| `ScrollSpy.TocLinks.ClearActive` | blog.js:279 | Afterwards no link is active. |
| `ScrollSpy.TocLinks.OnIntersections` | blog.js:275-289 | A batch with no intersecting entry changes nothing. Otherwise only the first link for the last intersecting entry's heading is active, or none. At most one link is active. |
| `ScrollSpy.TocLinks.OnClick` | blog.js:303-312 | When the target exists, exactly the clicked link is active. Otherwise nothing changes. Either way, at most one link is active if at most one was before. |
| `Blog.BlogSystem.constructor` | blog.js:3-7 | The catalog is empty, there is no current post and no pushed history, as they are before the un-awaited `init` runs. |
| `Blog.BlogSystem.LoadPosts` | blog.js:36-48 | A failure leaves an empty catalog and raises nothing. Otherwise the catalog is the manifest, newest first, stable and a permutation. |
| `Blog.BlogSystem.ShowBlogList` | blog.js:69-80 | The list is shown and the post hidden. The list is re-rendered from the catalog and `{}` is pushed. |
| `Blog.BlogSystem.ShowPostView` | blog.js:323-329 | The post is shown and the list hidden. |
| `Blog.BlogSystem.ShowError` | blog.js:331-340 | The post container shows the error panel with the message. |
| `Blog.BlogSystem.Init` | blog.js:9-34 | The catalog is loaded, the list is rendered from it and shown, and `{}` is pushed. With no manifest, the list shows the "No blog posts found" notice. |
| `Blog.BlogSystem.LoadPost` | blog.js:120-156 | An unknown slug changes nothing. A known slug becomes the current post. On a successful fetch: the post is rendered with its headings carrying their final ids, its outline is generated, the post view is shown and `{post: slug}` is pushed. On a failed fetch: the error panel is written, and the views and history are unchanged. The last pushed entry always names the view shown. |
| `Blog.BlogSystem.OnPopState` | blog.js:60-66 | A state without a post re-renders and shows the list and pushes `{}`, leaving the post, its panel and its outline alone. A state naming a post behaves as `loadPost` in each of its branches (unknown slug, successful fetch, failed fetch) and leaves the list view alone. |
| `Blog.BlogSystem.OpenDeepLink` | blog.js:350-359 | A missing or empty `post` parameter, or an unknown slug, changes nothing. Otherwise it behaves as `loadPost`: the post becomes current, and a successful fetch renders and shows it and pushes `{post: slug}`, while a failed one writes the error panel only. |
| `Blog.NavigationRoundTrip` | blog.js:69-156 | Going list, then a post of the manifest, then back to the list: first the post view shows with `{post: s}` on top, then the list view shows with `{}` on top. |

## Left out

- The markdown converter (`marked`) and the syntax highlighter (`hljs`) are foreign libraries. Their configuration (blog.js:11-24), `marked.parse` and `hljs.highlightAll` are not modelled. A fetched post is represented only by the headings of its converted content.
- `fetch`, `async`/`await` and the interleaving of overlapping `loadPost` calls are left out. A fetch outcome is an input, and every modelled method runs to completion. The constructor's `this.init()` is not awaited (blog.js:6); the model's constructor sets only the initial fields, and `init` is the separate method `Init`, which callers run after it. The code has no request token, so nothing here claims that stale responses are discarded.
- The geometry of the `IntersectionObserver` (root margin, threshold) is left out. Only the batch of `isIntersecting` flags it delivers is modelled. Observers from earlier renders are never disconnected in the code; they are not modelled either.
- `new Date` parsing, invalid dates (NaN in the comparator) and `toLocaleDateString` are left out. Dates are integers.
- A manifest that parses but is not an array is not modelled separately. The code catches the resulting error; here that case is the same as a failed fetch (`None`).
- Errors thrown after the fetch inside the `try` of `loadPost` (for example by the converter) are not modelled separately. They are the same as `FetchFailed`.
- HTML string building and escaping in `renderBlogList`, `renderPost`, `showError` and `renderTOC` are left out. A list card is modelled only by the slug it opens; its title, date, read time, tags and excerpt are not. A post panel is modelled by its slug and the ids its headings carry; the converted content itself is not.
- `querySelector` with an id that is not a valid selector would throw. It is not modelled: an id is matched as a string.
- `scrollIntoView` and `preventDefault`/`stopPropagation` in the click handler are left out. Whether the target element exists is an input.
- Event-listener wiring in `setupEventListeners` and `setupTOCLinks` is left out. The handlers themselves are the methods `ShowBlogList`, `OnPopState` and `TocLinks.OnClick`.
- The URL argument of `pushState` (`/blog.html` at blog.js:79, `/blog.html?post=<slug>` at blog.js:147-151) is not modelled: `history` records only the state object of each push. The deep-link handler's `post` parameter is an input to `OpenDeepLink`, not read back from a pushed URL.
- The browser's history cursor is left out. `OnPopState` receives the state of the entry the browser moved to, and `history` records the pushed states only.
- The 100 ms `setTimeout` that makes the deep-link handler race `init` is left out. `OpenDeepLink` is the lookup of the query parameter followed by `loadPost`.
- The cards of `populateProjects.js` are left out: it is templating with no logic.
- Slug.Lower: lower-cases ASCII only. Unicode `toLowerCase` mappings that produce ASCII letters (such as the Kelvin sign) are not modelled.
- Catalog.SortNewestFirst: an insertion sort stands in for the engine's own stable sort. `StableNewestFirstIsUnique` shows that every stable newest-first sort gives the same order.
- Outline.BuildOutline: the nested `children` arrays are modelled as values in a sequence rather than as objects updated in place. The builder never shares an item between two parents, so no aliasing is lost.
