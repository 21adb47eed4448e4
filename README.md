# Blog listing page: a verified model

This project models the logic of the blog listing page of a small
marketing site (`src/pages/blog.tsx`). The page fetches every post once,
keeps three pieces of state (the loaded `posts`, the `search` text and
`visibleCount`, the number of posts revealed), and derives from them on
every render:

- `filteredPosts`: the posts whose title contains the search text, ignoring
  case, or all posts when the search is empty;
- `visiblePosts`: the first `visibleCount` filtered posts;
- whether the "no results" message and the "load more" button appear;
- for each card, an excerpt of the post's rich-text body (`makeExcerpt`)
  and its date line (`formatDate`).

Modules, one per concern of the page:

- `Text` (text.dfy): ASCII lower-casing, substring search (`includes`) and
  `join`; `includes` is characterised by an occurrence index and `join` by
  its length and how it splits over concatenation.
- `Excerpt` (excerpt.dfy): the rich-text body as a tagged datatype and
  `makeExcerpt`, including the paths on which the JavaScript would throw a
  TypeError (a `null` entry, a `null` span, `children` that are not an
  array), which the model returns as `Throws`.
- `Dates` (dates.dfy): `formatDate`, with the locale formatter passed in.
- `Listing` (listing.dfy): a post, the filter, the visible window and the
  two visibility conditions, with lemmas on how they relate.
- `Page` (page.dfy): the component state as the class `BlogPage` and the
  events `Load`, `SetSearch`, `ClearSearch` and `LoadMore`.
- `Wrappers` (wrappers.dfy): the `Option` datatype.

The count reset runs in the source as an effect on `[search]`, so React
re-runs it only when the search text actually changes; an input event
that sets the same text again keeps the count. `SetSearch` follows this.

## Model

| member | source | states |
|---|---|---|
| Text.Lower | src/pages/blog.tsx:66 | `toLowerCase` keeps the length and lower-cases each character on its own (ASCII `A`..`Z`) |
| Text.Includes | src/pages/blog.tsx:66 | `includes` holds exactly when the needle occurs at some index of the haystack |
| Text.IncludesLowered | src/pages/blog.tsx:66 | a verbatim occurrence is still an occurrence once both sides are lower-cased |
| Text.IncludesTransitive | src/pages/blog.tsx:66 | a string containing `b` contains every string `b` contains |
| Text.IncludesPrefix | src/pages/blog.tsx:66 | a string containing `a + b` contains `a` |
| Text.LowerAppend | src/pages/blog.tsx:66 | lower-casing distributes over concatenation |
| Text.Join | src/pages/blog.tsx:56-59 | `join` of nothing is empty; otherwise its length is the parts' total length plus one separator per neighbouring pair, and it starts with the first part |
| Text.JoinAppend | src/pages/blog.tsx:56-59 | joining two non-empty lists puts exactly one separator between their joins |
| Excerpt.BlockChildren | src/pages/blog.tsx:57 | the block filter succeeds exactly when no entry is `null`, and keeps at most as many entries as there are |
| Excerpt.BlockChildrenAreBlocks | src/pages/blog.tsx:57 | every kept element is the children of some block entry, and the children of every block entry are kept (membership both ways) |
| Excerpt.BlockChildrenSingle | src/pages/blog.tsx:57 | on one entry the filter throws for `null`, keeps the children of a "block" entry and drops any other entry |
| Excerpt.BlockChildrenAppend | src/pages/blog.tsx:57 | the filter works entry by entry: the kept children of `a + b` are those of `a` followed by those of `b`, so together with the one-entry cases it keeps the block entries in body order, once each |
| Excerpt.SpanTexts | src/pages/blog.tsx:58 | mapping spans to `text` succeeds exactly when no span is `null`, giving one string per span, the empty string where `text` is missing |
| Excerpt.BlockTexts | src/pages/blog.tsx:58-59 | the mapping succeeds exactly when every kept block yields a segment, and then segment i is the text of block i |
| Excerpt.BlockText | src/pages/blog.tsx:58 | a block yields a segment exactly when its children are absent or an array without `null`; absent children and an empty children array yield the empty segment |
| Excerpt.FullText | src/pages/blog.tsx:56-59 | the untruncated text exists exactly when the body array is well-formed, and is empty when no block entry is kept |
| Excerpt.KeptBlocksWellFormed | src/pages/blog.tsx:57-59 | the kept blocks all yield segments exactly when every block entry of the body has well-formed children |
| Excerpt.AppendSpan | src/pages/blog.tsx:58 | appending a span to a block's children appends its text (or the empty string) to the block's segment, after one space when the array already had a span |
| Excerpt.AppendBlockText | src/pages/blog.tsx:56-59 | appending a block entry appends its segment to the text, after one space when a block precedes it |
| Excerpt.Truncate | src/pages/blog.tsx:60 | a text within the limit is returned unchanged; a longer one becomes its first `limit` characters followed by "...", `limit + 3` long |
| Excerpt.MakeExcerpt | src/pages/blog.tsx:54-61 | a missing or non-array body gives "", and any returned excerpt is at most `limit + 3` long |
| Excerpt.ExcerptThrowsIff | src/pages/blog.tsx:55-59 | on a body array `makeExcerpt` throws exactly when an entry is `null`, or a block's children are a non-array or contain `null` |
| Excerpt.NoBlocksExcerpt | src/pages/blog.tsx:56-60 | a body array without `null` entries and without blocks, such as `[]`, gives the empty excerpt |
| Excerpt.NullEntryThrows | src/pages/blog.tsx:57 | a `null` entry anywhere in the body makes `makeExcerpt` throw |
| Excerpt.OtherEntryKeepsBlocks | src/pages/blog.tsx:57 | splicing in an entry whose `_type` is not "block" leaves the kept blocks unchanged |
| Excerpt.OtherEntriesIgnored | src/pages/blog.tsx:56-59 | only "block" entries contribute: inserting any other entry anywhere leaves the excerpt unchanged |
| Excerpt.ExcerptTruncation | src/pages/blog.tsx:60 | on a well-formed body the excerpt is the full joined text when it fits, else its first `limit` characters plus "...", exactly `limit + 3` long |
| Excerpt.HelloWorldExample | src/pages/blog.tsx:54-61 | one block with spans "Hello" and "world" gives "Hello world" under the default limit 150 |
| Excerpt.EmptySegmentsExample | src/pages/blog.tsx:56-59 | a childless block and a span without text give empty segments whose separators remain; a non-block entry adds nothing |
| Dates.FormatDate | src/pages/blog.tsx:45-52 | an empty date string gives ""; any other is handed to the locale formatter |
| Listing.Matches | src/pages/blog.tsx:66 | the title test compares lower-cased title and search text; the empty search matches every title |
| Listing.KeepMatching | src/pages/blog.tsx:65-67 | every post the filter keeps matches, and the kept posts are an order-preserving subsequence of the loaded ones |
| Listing.KeepMatchingCounts | src/pages/blog.tsx:65-67 | each matching post is kept as often as it occurs among the loaded posts, and no other post is kept |
| Listing.KeepMatchingKeeps | src/pages/blog.tsx:65-67 | a loaded post is kept exactly when its lower-cased title contains the lower-cased search text |
| Listing.Filtered | src/pages/blog.tsx:64-68 | an empty search gives the posts unchanged; otherwise every kept post matches, every dropped one does not, multiplicities are kept, and the order is preserved |
| Listing.EmptySearchKeepsAll | src/pages/blog.tsx:64-68 | the empty-search shortcut changes nothing: filtering by "" would keep every post |
| Listing.FilterIdempotent | src/pages/blog.tsx:64-68 | filtering the filtered posts again by the same text changes nothing |
| Listing.VerbatimTitleKept | src/pages/blog.tsx:66 | a post whose title contains the search text verbatim is always kept |
| Listing.MatchesPrefix | src/pages/blog.tsx:66 | a title matching a search text also matches every prefix of it |
| Listing.MatchesContained | src/pages/blog.tsx:66 | a title matching a search text also matches every text the lower-cased search contains |
| Listing.NarrowingSearch | src/pages/blog.tsx:64-68 | refining the search to a text that contains the old one, ignoring case, only narrows the result to an order-preserving selection of the previous one |
| Listing.AppendingNarrows | src/pages/blog.tsx:64-68 | appending characters to the end of the search text only narrows the result to an order-preserving selection of the previous one |
| Listing.CaseInsensitiveSearch | src/pages/blog.tsx:64-68 | searching for the lower-cased search text finds exactly the posts the original text finds, in the same order |
| Listing.Visible | src/pages/blog.tsx:70 | the window is the prefix of the filtered posts of length min(visibleCount, number of filtered posts) |
| Listing.VisibleSelectsPosts | src/pages/blog.tsx:64-70 | the visible posts are an order-preserving selection of the loaded posts |
| Listing.VisibleGrows | src/pages/blog.tsx:70 | a larger count shows the same posts first |
| Listing.LoadMoreAppends | src/pages/blog.tsx:172 | adding 6 to the count appends the next at most 6 filtered posts to the window and keeps the rest |
| Listing.LoadMoreIffHidden | src/pages/blog.tsx:169 | the button is shown exactly while the window is not the whole filtered list |
| Listing.ShowsNoResults | src/pages/blog.tsx:156 | the message condition holds exactly when the filtered list is empty |
| Listing.ShowsLoadMore | src/pages/blog.tsx:169 | the button condition holds exactly when fewer posts are visible than pass the filter |
| Listing.NoResultsIffNothingVisible | src/pages/blog.tsx:156 | with a positive count, the message is shown exactly when the window is empty |
| Listing.NoResultsHidesLoadMore | src/pages/blog.tsx:156-169 | the message and the button never appear together |
| Page.BlogPage.constructor | src/pages/blog.tsx:18-20 | the page starts with no posts, an empty search and a count of 9 |
| Page.BlogPage.Load | src/pages/blog.tsx:35-36 | a successful fetch replaces the posts, a failed one changes nothing; search and count are kept |
| Page.BlogPage.SetSearch | src/pages/blog.tsx:40-42 | a different text replaces the search and resets the count to 9, whatever it was; the same text changes nothing; posts are kept |
| Page.BlogPage.ClearSearch | src/pages/blog.tsx:160 | the search becomes "" and every loaded post passes the filter again |
| Page.BlogPage.LoadMore | src/pages/blog.tsx:172 | the count grows by exactly 6, posts and search are kept, and the old window is a prefix of the new one with at most 6 more posts |
| Page.NoResultsIffEmptyWindow | src/pages/blog.tsx:156-169 | on a valid page the message appears exactly when nothing is visible, and never with the button |

`BlogPage.Valid()` is the invariant every event keeps: the count is 9
plus a whole number of steps of 6, so it never falls below 9.

## Left out

- The fetch itself (the query against the content store, src/pages/blog.tsx:24-34) is network I/O; `Load` takes its outcome as a parameter, `Some(data)` for success and `None` for a logged failure. That the effect runs once on mount is not enforced: `Load` may be called any number of times.
- React scheduling: the count reset is an effect that runs after the render that shows the new search text with the old count; the model makes the change and the reset one atomic step.
- Text.Lower: `toLowerCase` is modelled on ASCII letters only; full Unicode case mapping is not modelled.
- Text.IncludesLowered: is a property of per-character lower-casing and fails for context-dependent mappings such as the Greek final sigma (`"ΑΣΑ".toLowerCase()` is `"ασα"` but `"ΑΣ".toLowerCase()` is `"ας"`); there `"ΑΣΑ"` contains `"ΑΣ"` but `"ασα"` does not contain `"ας"`.
- Text.LowerAppend: is a property of per-character lower-casing and fails for context-dependent mappings such as the Greek final sigma (`"ΑΣΑ".toLowerCase()` is `"ασα"` but `"ΑΣ".toLowerCase()` is `"ας"`), which do not distribute over concatenation.
- Listing.MatchesPrefix: is a property of per-character lower-casing and fails for context-dependent mappings such as the Greek final sigma (`"ΑΣΑ".toLowerCase()` is `"ασα"` but `"ΑΣ".toLowerCase()` is `"ας"`); there a title can match a search text and not a prefix of it.
- Listing.AppendingNarrows: is a property of per-character lower-casing and fails for context-dependent mappings such as the Greek final sigma (`"ΑΣΑ".toLowerCase()` is `"ασα"` but `"ΑΣ".toLowerCase()` is `"ας"`); there a longer search can keep a post that a shorter one drops. Listing.NarrowingSearch, whose hypothesis is the containment of the lower-cased texts, does not depend on how lower-casing works.
- Listing.VerbatimTitleKept: is a property of per-character lower-casing and fails for context-dependent mappings such as the Greek final sigma (`"ΑΣΑ".toLowerCase()` is `"ασα"` but `"ΑΣ".toLowerCase()` is `"ας"`); there a title "ΑΣΑ" contains "ΑΣ" verbatim yet is dropped for that search.
- String lengths are counted in Dafny characters (Unicode scalar values), while JavaScript counts UTF-16 code units, so `slice` can split a surrogate pair in the source and cannot in the model.
- Excerpt.MakeExcerpt: `limit` is a natural number; the source's default 150 is the only value the page passes, so negative or fractional limits (and `slice` with a negative end) are not modelled.
- Excerpt.SpanTexts: a span's `text` is a string or missing; non-string values, which `join` would convert with `String(...)`, are not modelled. An entry whose `_type` is missing or which is a primitive is represented as a node with some type name other than "block".
- Listing.Filtered: titles are strings; a post whose title is `null` would throw in the source under a non-empty search, and that path is not modelled.
- Dates.FormatDate: the calendar conversion of `Date` and `toLocaleDateString("pl-PL", …)` is library and locale behaviour and is a parameter of the model; only the empty-input case is the page's own logic.
- The JSX rendering, links, images and the image-or-placeholder choice (src/pages/blog.tsx:72-182) are presentation.
- studio/schemaTypes/product.ts is a declarative descriptor whose validation rules are evaluated by the external authoring tool; it has no behaviour of its own here.
