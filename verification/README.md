# Blog core of the Web-portofolio site, in Dafny

This project models the blog logic of a Next.js portfolio site and proves properties about it.
Blog posts are MDX files with a frontmatter header (title, date, tags, summary and optional
image, author, `draft` and `featured` flags). The site turns them into:

- the list of published posts, newest first (`getAllBlogPosts`);
- the posts carrying a tag, compared case-insensitively (`getPostsByTag`);
- the tag cloud, each lowercased tag with its number of occurrences, most frequent first (`getAllTags`);
- featured posts, a substring search over title, summary and tags, and "related posts" ranked by
  the number of shared tags (`getFeaturedPosts`, `searchPosts`, `getRelatedPosts`);
- a table of contents read from the `##` and `###` headings of a post (`generateTOC`), whose
  anchor ids follow the same rule as the `id` attributes the MDX heading components render;
- on the blog index page, the search box, the "All Posts" button, the six most frequent tag
  buttons (each one toggles its tag), the list of matching posts and the "Featured Posts" section.

Modules:

- `Wrappers`: `Option`.
- `Posts`: the `BlogPost` and `BlogFrontmatter` records.
- `Seqs`: the array operations the site relies on. `Filter` is `Array.prototype.filter`.
  `SortDesc` is a stable sort by a descending integer key, which is what `sort((a, b) => key(b) - key(a))`
  does, since `Array.prototype.sort` is stable. `SliceEnd` is the end index `slice(0, n)` uses.
- `Text`: `toLowerCase`, `includes`, `trim` and the `\s` class of JavaScript regular expressions.
- `Mdx`: `src/lib/mdx.ts`. The directory listing is a parameter (`None` when `readdir` throws).
  Reading and parsing one post is an abstract function `load: string -> Option<Post>`.
- `Blog`: the post queries of `src/lib/blog.ts`.
- `Toc`: `generateTOC`. It is an executable scan (`GenerateToc`) proved equal to a functional
  model of the global, multiline regex `/^(#{2,3})\s+(.+)$/gm` (`Toc`). The id rule is `Slugify`.
  The regex model is also related to a reading of the content line by line (`LineToc`).
- `BlogPage`: `src/app/blog/page-client.tsx`. The component's state is the class `BlogClient`.

## Model

| member | source | states |
|---|---|---|
| Seqs.Filter | src/lib/blog.ts:11 | the result keeps exactly the elements satisfying the predicate, with their multiplicities, in input order |
| Seqs.SortDesc | src/lib/mdx.ts:94-96 | the result is a permutation of the input, sorted by descending key |
| Seqs.SortDescStable | src/lib/blog.ts:42 | the sort is stable: the elements with any one key keep their relative order |
| Text.LowerStrIdempotent | src/lib/mdx.ts:90 | lowercasing a lowercased string changes nothing, so each tag-table key is its own lowercase |
| Text.ContainsAt | src/lib/blog.ts:19 | `includes` holds exactly when the substring occurs at some index |
| Text.ContainsEmpty | src/lib/blog.ts:19 | every string includes the empty string |
| Text.Trim | src/lib/blog.ts:63 | the result is a substring of the input that neither starts nor ends with whitespace, and it is empty only for all-whitespace input |
| Text.TrimIdempotent | src/lib/blog.ts:63 | trimming twice is trimming once |
| Text.TrimIs | src/lib/blog.ts:63 | the trim of a string is the slice between its first and last non-whitespace characters |
| Text.TrimDropsSpace | src/lib/blog.ts:63 | dropping leading whitespace does not change the trim |
| Mdx.StripMdx | src/lib/mdx.ts:38 | the slug followed by `.mdx` is the file name |
| Mdx.BlogSlugs | src/lib/mdx.ts:35-42 | an unreadable directory gives no slugs; otherwise one slug per `.mdx` file, in listing order |
| Mdx.Published | src/lib/mdx.ts:69-70 | the loaded posts that are not `null` and not drafts, with their multiplicities |
| Mdx.PublishedInOrder | src/lib/mdx.ts:69-70 | the two filters keep the order of the loads: the survivors, read back as loads, are a subsequence of them |
| Mdx.AllBlogPosts | src/lib/mdx.ts:65-74 | no drafts; a permutation of the published loads; sorted newest first; posts with the same date keep the order `Published` gives them, which is listing order (`PublishedInOrder`) |
| Mdx.AllBlogPostsNoDirectory | src/lib/mdx.ts:39-41 | with no readable directory there are no posts |
| Mdx.HasTagMeans | src/lib/mdx.ts:80 | a post has a tag exactly when one of its tags lowercases to the tag's lowercase |
| Mdx.PostsByTag | src/lib/mdx.ts:79-81 | exactly the posts having the tag, in input order |
| Mdx.PostsByTagCaseInsensitive | src/lib/mdx.ts:80 | two tags with the same lowercase select the same posts |
| Mdx.GetPostsByTag | src/lib/mdx.ts:77-82 | an ordered subsequence of all published posts: each has the tag and is not a draft, and every published post with the tag is there |
| Mdx.Occurrences | src/lib/mdx.ts:88-93 | a lowercased tag occurs a positive number of times exactly when some post carries it |
| Mdx.CountPostTags | src/lib/mdx.ts:89-92 | the inner `forEach`: after one post's tags, the table counts every lowercased tag of the posts seen so far, and the total grows by the post's tag count |
| Mdx.CountTags | src/lib/mdx.ts:87-96 | one entry per distinct lowercased tag, each with its number of occurrences; distinct tags; counts sum to the number of tags; sorted by descending count |
| Mdx.EntriesOf | src/lib/mdx.ts:94-95 | `Object.entries(...).map(...)`: one `{tag, count}` per key, summing to the table's total |
| Mdx.SumCountsPermutation | src/lib/mdx.ts:96 | sorting the entries does not change the sum of the counts |
| Mdx.GetAllTags | src/lib/mdx.ts:85-97 | `CountTags` over the published posts |
| Blog.FeaturedPosts | src/lib/blog.ts:10-12 | exactly the featured posts, in input order |
| Blog.FeaturedAny | src/app/blog/page-client.tsx:31 | `featuredPosts.length > 0` exactly when some post is featured |
| Blog.SearchPosts | src/lib/blog.ts:15-27 | exactly the posts whose lowercased title, summary or some lowercased tag includes the lowercased query, in input order |
| Blog.SearchEmptyQuery | src/lib/blog.ts:16-26 | the empty query keeps every post |
| Blog.NoSpaceNoMatch | src/lib/blog.ts:18-26 | a post with no space in its title, summary or tags does not match the query `" "` |
| Blog.SearchSpaceNotIdentity | src/lib/blog.ts:15-27 | the query is not trimmed: `" "` drops a post without spaces |
| Blog.ScorePositive | src/lib/blog.ts:35-41 | a post's match count is positive exactly when it shares a tag with the current post, case-insensitively |
| Blog.ScoreCountsDuplicates | src/lib/blog.ts:36-39 | the match count counts repeated tags: `["CTF", "ctf"]` scores 2 against `["ctf"]` |
| Blog.RelatedCandidates | src/lib/blog.ts:33-41 | exactly the posts with another slug and a positive match count, in `allPosts` order |
| Blog.RelatedPosts | src/lib/blog.ts:30-47 | for `limit >= 0`, exactly `min(limit, number of candidates)` posts; `limit` defaults to 3; each is another post sharing a tag; sorted by descending match count; posts with equal counts appear in `allPosts` order |
| Blog.RelatedTopScored | src/lib/blog.ts:42-43 | a candidate left out means `limit` posts were returned, each scoring at least as much as it |
| Toc.Dashify | src/lib/blog.ts:66 | the result is made of `[a-z0-9-]` only, has no `--`, is empty only for empty text, and starts with `-` exactly when the text starts outside `[a-z0-9]` |
| Toc.DashifyIsTwoPass | src/lib/blog.ts:66 | the replacement equals an independent two-pass reading: every character outside `[a-z0-9]` becomes `-`, then each run of `-` becomes one |
| Toc.DashifyKeepsLetters | src/lib/blog.ts:66 | the `[a-z0-9]` characters are kept, in order |
| Toc.StripDashes | src/lib/blog.ts:67 | the result is the input with a first character removed exactly when it is `-` and a last character removed exactly when what remains ends with `-`; a string with no `-` at either end is unchanged; on a string without `--` the result neither starts nor ends with `-` |
| Toc.SlugifyIsSlug | src/lib/blog.ts:64-67 | every id is made of `[a-z0-9-]`, with no `--` and no `-` at either end |
| Toc.SlugifyFixes | src/components/blog/MDXComponents.tsx:7 | a well-formed id is its own id |
| Toc.SlugifySubHeading | src/lib/blog.ts:64-67 | the heading `Sub Heading` gets the id `sub-heading` |
| Toc.SlugifyIdempotent | src/components/blog/MDXComponents.tsx:20 | applying the id rule twice is applying it once |
| Toc.Hashes | src/lib/blog.ts:57 | `#{2,3}` at a position takes 3 hashes when there are 3, else 2, else fails |
| Toc.SpaceTaken | src/lib/blog.ts:57 | the whitespace `\s+` takes lies within the run after the hashes and, when any is taken, is followed by a character `.` matches |
| Toc.SpaceTakenLargest | src/lib/blog.ts:57 | no longer whitespace prefix is followed by a character `.` matches |
| Toc.MatchAt | src/lib/blog.ts:57 | a match starts at a line start, has level 2 or 3, and its text is non-empty, has no line terminator anywhere and runs to the line's end |
| Toc.NextMatch | src/lib/blog.ts:61 | `exec` from `lastIndex` finds the match at the first position where one starts |
| Toc.NextMatchFirst | src/lib/blog.ts:61 | no match starts between `lastIndex` and the match found |
| Toc.EntryValid | src/lib/blog.ts:62-69 | each item has level 2 or 3, trimmed text and the id derived from the text |
| Toc.GenerateToc | src/lib/blog.ts:56-73 | the loop returns the model `Toc(content)`, and every item is valid |
| Toc.LineMatch | src/lib/blog.ts:57 | at a line start that is not a bare `##` line, the regex matches exactly when the line is a heading line, and reads the same heading |
| Toc.TocIsLineToc | src/lib/blog.ts:56-73 | without bare `##` or `###` lines, the table of contents is one entry per heading line, in order |
| Toc.OneHashNoHeading | src/lib/blog.ts:57 | a line with a single `#` is not a heading |
| Toc.FourHashesNoHeading | src/lib/blog.ts:57 | a line starting with four `#` is not a heading |
| Toc.BareHeadingSpansLines | src/lib/blog.ts:57 | `\s+` crosses a line break: `"##\nfoo"` yields a level-2 heading `foo` |
| BlogPage.Listed | src/app/blog/page-client.tsx:19-29 | the posts passing the search and the selected tag, in input order |
| BlogPage.FilterPosts | src/app/blog/page-client.tsx:19-29 | the `useMemo` callback returns `Listed` |
| BlogPage.ListedEverything | src/app/blog/page-client.tsx:20-22 | with no query and no tag selected, every post is listed |
| BlogPage.ListedTagCaseInsensitive | src/app/blog/page-client.tsx:22-27 | tags with the same lowercase list the same posts |
| BlogPage.ShowFeatured | src/app/blog/page-client.tsx:95 | the section shows exactly when the query is empty, no tag is selected and some post is featured |
| BlogPage.FeaturedShownListsAll | src/app/blog/page-client.tsx:95-115 | when the featured section shows, the list below it holds every post |
| BlogPage.TagButtons | src/app/blog/page-client.tsx:76 | the first `min(6, n)` tags |
| BlogPage.TagButtonsMostFrequent | src/app/blog/page-client.tsx:76 | on a count-sorted tag list, every button's tag is at least as frequent as every tag without a button |
| BlogPage.Toggle | src/app/blog/page-client.tsx:79-81 | clicking the selected tag clears the selection; clicking another selects it |
| BlogPage.ToggleTwice | src/app/blog/page-client.tsx:79-81 | clicking the same tag twice restores the selection when it was that tag, else clears it |
| BlogPage.BlogClient.constructor | src/app/blog/page-client.tsx:15-17 | starts with an empty query and no tag selected |
| BlogPage.BlogClient.SetSearchQuery | src/app/blog/page-client.tsx:60 | sets the query and keeps the tag |
| BlogPage.BlogClient.ClickAllPosts | src/app/blog/page-client.tsx:67 | clears the tag and keeps the query |
| BlogPage.BlogClient.ClickTag | src/app/blog/page-client.tsx:76-81 | toggles the clicked button's tag and keeps the query |
| BlogPage.BlogClient.Posts | src/app/blog/page-client.tsx:19-29 | the posts on screen are `Listed` for the current query and tag |

## Left out

- Frontmatter is assumed complete and well-typed. The source only casts the untyped frontmatter that `gray-matter` returns (src/lib/mdx.ts:54). In the site, a post without `tags` or with a non-string `title` or `summary` makes `searchPosts` and `getAllTags` throw. A string such as `draft: "false"` is truthy, so that post is dropped as a draft. The model has none of these cases: every field has its declared type, and an absent `draft` or `featured` is `false`.
- File system, `gray-matter` and `reading-time`: `getBlogPostBySlug` (src/lib/mdx.ts:45-62) is the abstract `load` function. A failed read is `None`, which models `null`. The logged error is not modelled.
- `serializeMDX` and `formatDate`: they call MDX and date-formatting libraries. They are not part of this model.
- Mdx.AllBlogPosts: a date is the integer `getTime()` of a valid date. `Invalid Date` gives `NaN`, and a comparator returning `NaN` is not modelled.
- Mdx.CountTags: the order among tags with equal counts is not stated. It comes from `Object.entries`, which lists integer-like keys first in numeric order and then the others in insertion order.
- Mdx.CountTags: tags named like `Object.prototype` members (`constructor`, `__proto__`) behave differently on a plain object. The model treats them as ordinary keys.
- Mdx.GetAllTags: for the same reason, the order among tags with equal counts is not stated.
- Text.LowerStr: `toLowerCase` is modelled on ASCII letters only. Other Unicode case mappings are not modelled.
- Strings are sequences of characters. UTF-16 surrogate pairs, which JavaScript strings expose as two code units, are not modelled.
- Toc.TocIsLineToc: the line-by-line reading agrees with the regex only when no line is a bare `##` or `###` followed by nothing but whitespace. On such a line `\s+` runs into the next line, as `Toc.BareHeadingSpansLines` shows.
- The MDX heading components (src/components/blog/MDXComponents.tsx:7,20) turn `children` into a string with `toString()`. Only the id rule applied to that string is modelled (`Toc.Slugify`). Converting a React node to a string is not.
- The `async`/`await` plumbing and `Promise.all` are modelled as plain function composition.
- React rendering, animation and styling are not modelled. Neither is `useMemo` caching, which does not change the value computed.
- BlogPage.BlogClient.ClickTag: a click can only happen on a rendered button. So the tag must be one of `TagButtons(allTags)`.
