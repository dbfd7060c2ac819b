# A verified model of the blog's content pipeline

This project models the core of a SvelteKit blog that takes its posts from a
GitHub repository, and proves properties of that model in Dafny.

- **Freshness cache.** A string-keyed map of entries with an expiry instant.
  Reading an entry evicts it lazily once it has expired. Writing an entry
  overwrites it. Invalidation either clears everything or deletes every key
  that contains a pattern.
- **GitHub pipeline.** A post's slug comes from its file name. A markdown file
  splits into a front-matter header and a body. The repository listing is
  filtered to `.md` files. The `blog.json` manifest becomes summaries, sorted
  newest first. Drafts are hidden outside development. A post is looked up by
  slug and assembled. Every fetch consults the shared cache and fills it.
- **Static catalog.** Three shipped posts, looked up by slug and sorted in
  place by date.
- **Visitor counter.** A memoised record of the total and the known visitor
  ids, plus a map of last-seen instants pruned to one minute.
- **Timeline helpers.** Decade and century ranges, the lists of years and
  decades, the past/current/future progress rule, and the zoom-level dispatch.

One file per module:

- `wrappers.dfy`: `Option` and `Result`.
- `text.dfy`: ASCII white space, `trim`, `toLowerCase`, `includes`,
  `endsWith`, `indexOf`, `split`, integer printing and decimal literals.
- `ttl_cache.dfy`: the cache, as a class over a `map`.
- `slug.dfy`: `slugify`.
- `frontmatter.dfy`: the header regular expression, the line loop and the
  value coercion.
- `array_ops.dfy`:
  - `map`, `filter` and `find`;
  - the stable descending sort, specified as repeated insertion;
  - the in-place array sort proved equal to that specification.
- `dates.dfy`: the date sort key.
- `github.dfy`: addresses, cache keys, error texts, summaries, visibility,
  lookup, assembly, and the six cache-backed fetches.
- `blogs.dfy`: the static catalog, as a class over an `array`.
- `visitors.dfy`: the visitor counter, as a class.
- `time_utils.dfy`: the timeline helpers.

How external inputs enter the model:

- The remote is a parameter `fetch` that maps an address to a response: a
  status, a status text, and the body both as text and as decoded JSON.
- The clock is a parameter `now`.
- The visitor file is a parameter `stored`, which is `None` when reading or
  decoding the file fails.
- The repository coordinates (owner, repository, branch, content path) are a
  `Config` value.
- The development flag is a parameter `dev`.

Sorting follows `Array.prototype.sort`, which is stable. With the comparator
`key(b) - key(a)`, a stable sort is fully determined:
`ArrayOps.SortCharacterized` proves that any sequence that is descending and
has the same elements per key as the input equals `ArrayOps.Sort`. So
insertion sort is a faithful stand-in for the engine's own algorithm.

## Model

| member | source | states |
|---|---|---|
| TtlCache.Cache.Get | src/lib/cache.ts:8-18 | An absent key reads as null and changes nothing. A live entry (`now <= expiresAt`, the boundary included) gives its data and changes nothing. An expired entry reads as null and only that key is deleted. In general, the result is `Live(m, key, now)` and the new map is `Evicted(m, key, now)`. |
| TtlCache.Cache.Set | src/lib/cache.ts:20-25 | The new map is the old one with `key` overwritten by `{data, now + ttl}`. No other key changes. |
| TtlCache.Cache.Invalidate | src/lib/cache.ts:27-38 | The delete loop over the keys leaves exactly `Invalidated(old map, pattern)`. |
| TtlCache.SetThenRead | src/lib/cache.ts:9-25 | After a write, the key reads as the written data until `now + ttl` and as null afterwards. Every other key reads as before. With `ttl >= 0`, a read at the same instant returns the data. |
| TtlCache.EvictionUnobservable | src/lib/cache.ts:12-15 | Lazy eviction at `now` changes no read at `now`, of any key. |
| TtlCache.InvalidatedKeys | src/lib/cache.ts:33-37 | With a non-empty pattern, a key survives exactly when it was present and the pattern occurs nowhere in it. Survivors keep their data and expiry. |
| TtlCache.InvalidateAll | src/lib/cache.ts:28-31 | No pattern, and also the empty pattern (falsy), clears the map. Afterwards every key reads as null. |
| Slug.SlugifyIsSlug | src/lib/github.ts:31-39 | Every output uses only `[a-z0-9-]`, has no hyphen at either end and no two hyphens in a row. |
| Slug.SlugIsFixedPoint | src/lib/github.ts:31-39 | Each stage of the replace chain leaves a slug unchanged. |
| Slug.SlugifyIdempotent | src/lib/github.ts:31-39 | `slugify(slugify(x)) == slugify(x)`. |
| Slug.SlugifyNoAlnum | src/lib/github.ts:31-39 | Text with no ASCII letter or digit, the empty text included, gives `""`. |
| Slug.HyphenatedWordsIsSlug | src/lib/github.ts:31-39 | Two lower-case words joined by one hyphen form a slug. |
| Slug.SlugCollision | src/lib/github.ts:31-39 | The distinct names `a b` and `a-b` both give `a-b`, so slugs do not identify file names. |
| Frontmatter.MatchIffShaped | src/lib/github.ts:66-67 | The header pattern matches exactly the documents made of: `---`, white space, a newline, a header, a newline, `---`, white space, a newline, and the rest. |
| Frontmatter.FindCloseComplete | src/lib/github.ts:66 | The header block is lazy. The search for the closing marker misses none at or after its start, and it finds the first one. |
| Frontmatter.TryOpenComplete | src/lib/github.ts:66 | The opening `\s*` backtracks. The search succeeds whenever some newline of the leading white-space run is followed by a closing marker. |
| Frontmatter.ParseFrontmatter | src/lib/github.ts:62-108 | The result equals `Parse(markdown)`. It is a failure exactly when the pattern does not match, and then the message is "Invalid frontmatter format". |
| Frontmatter.DecodeHeader | src/lib/github.ts:78-102 | The line loop builds exactly `HeaderFields(lines)`: the fields declared by the lines, assigned in order. |
| Frontmatter.DecodeLineKey | src/lib/github.ts:81-85 | A line declares a key exactly when it has a colon. The key is the trimmed text before the first colon, so it holds no colon. |
| Frontmatter.FieldsKeys | src/lib/github.ts:80-102 | A key is a header field exactly when some line declares it. |
| Frontmatter.LastDeclarationWins | src/lib/github.ts:101 | With duplicate keys, the last declaring line's value wins. |
| Frontmatter.CoerceCases | src/lib/github.ts:95-99 | Exactly `true` and `false` become booleans. Exactly the non-empty numeric texts become numbers, with their value. Everything else stays the text it was. |
| Frontmatter.UnquoteQuoted | src/lib/github.ts:88-93 | One matching pair of double or single quotes comes off, whatever is inside. |
| Frontmatter.CoerceDecimal | src/lib/github.ts:99 | A trimmed decimal literal becomes the number it denotes. |
| Frontmatter.CoerceInteger | src/lib/github.ts:99 | A printed integer becomes that number. |
| Frontmatter.CoerceQuotedInteger | src/lib/github.ts:88-99 | Quote stripping comes before coercion: a quoted integer still becomes a number. |
| Frontmatter.HyphenatedDigitsStayText | src/lib/github.ts:99 | Digits with hyphens, such as an ISO date, are not numeric and stay text. |
| GitHub.RawPathShape | src/lib/github.ts:113-116 | With a content path, the path is `contentPath/slug.md`; without one, it is `slug.md`. Either way it ends in `.md`. |
| GitHub.RawUrlInjective | src/lib/github.ts:113-116 | Different slugs are fetched from different addresses. |
| GitHub.CacheKeysDistinct | src/lib/github.ts:138-250 | The three kinds of cache key never collide, and `blog-content:` keys are injective in the slug. |
| GitHub.MarkdownFilesKeeps | src/lib/github.ts:162-164 | The listing filter keeps exactly the entries that are files with a name ending in `.md`. It keeps them in order: filtering a concatenation filters each part. |
| GitHub.ContentErrorCases | src/lib/github.ts:184-189 | 404 maps to "Blog post not found". No other status maps to that message, and different statuses give different messages. |
| GitHub.AllSummariesFacts | src/lib/github.ts:262-278 | There is one summary per manifest entry. The summaries are a permutation of the entries' summaries, sorted newest first, and stable among equal dates. Each summary's slug is `slugify(filename)` and is a well-formed slug. |
| GitHub.VisibleKeeps | src/lib/github.ts:291-293 | In development every summary is kept. Otherwise exactly the public ones are kept, in order. |
| GitHub.FindBySlugFirst | src/lib/github.ts:204 | The lookup finds nothing exactly when no summary has the slug. Otherwise it finds the first summary that does. |
| GitHub.AssembleBlogFields | src/lib/github.ts:223-228 | `content` is always the parsed body. `slug` and `filename` come from the lookup unless the header declares them. Every other header key is carried over, and there are no other keys. |
| GitHub.FetchBlogList | src/lib/github.ts:135-168 | The result and the new cache are `ListResult` and `ListCache`. A cached list is served. Otherwise a non-ok status fails with the API error, and an ok one yields the `.md` files and caches them for five minutes. |
| GitHub.FetchBlogContent | src/lib/github.ts:173-194 | The result and the new cache are `ContentResult` and `ContentCache`. Cached non-empty text is served. Otherwise a fetch from the raw address maps a non-ok status through the error mapping, and ok text is cached. |
| GitHub.SortedSummaries | src/lib/github.ts:262-278 | Sorting the mapped summaries in an array yields `AllSummaries(entries)`. |
| GitHub.FetchAllBlogSummaries | src/lib/github.ts:247-282 | The result and the new cache are `SummariesResult` and `SummariesCache`. Cached summaries are served. Otherwise a non-ok status fails with the manifest error, and an ok manifest yields its sorted summaries and caches them. |
| GitHub.FetchPublicBlogSummaries | src/lib/github.ts:288-294 | The result is the summaries' failure, or the visible summaries. The cache changes as in `fetchAllBlogSummaries`. |
| GitHub.FindBlogBySlug | src/lib/github.ts:199-205 | The result is the summaries' failure, or the first summary with the slug. The cache changes as in `fetchAllBlogSummaries`. |
| GitHub.FetchBlog | src/lib/github.ts:210-229 | The result and the new cache are `BlogResult` and `BlogCache`. In order: the summaries are fetched, the slug is looked up, the content is fetched by the summary's file name, the text is parsed, and the post is assembled. Each failure is passed on. |
| GitHub.ListServedFromCache | src/lib/github.ts:138-166 | A freshly fetched listing is served from the cache for five minutes, whatever the remote would then say. |
| GitHub.ContentServedFromCache | src/lib/github.ts:177-192 | Fetched markdown is served from the cache for five minutes. The exception is empty text: it is falsy, so it is fetched again. |
| GitHub.SummariesServedFromCache | src/lib/github.ts:250-280 | Fetched summaries are served from the cache for five minutes. |
| GitHub.ListFailureNotCached | src/lib/github.ts:153-157 | With nothing cached, a non-ok listing fails with `GitHub API error: <status> <text>` and caches nothing. |
| GitHub.BlogUnknownSlug | src/lib/github.ts:215-218 | A slug that no summary carries is reported as "Blog post not found". |
| GitHub.BlogAssembled | src/lib/github.ts:215-228 | A post that is found and parses is the assembly of the lookup's slug, the summary's file name, and the parsed header and body. |
| ArrayOps.SortIsSorted | src/lib/github.ts:276-278 | The sort's output is descending by the key. |
| ArrayOps.SortIsPermutation | src/lib/github.ts:276-278 | The sort's output is a permutation of the input. |
| ArrayOps.SortIsStable | src/lib/github.ts:276-278 | For every key value, the elements with that key keep their input order. |
| ArrayOps.SortCharacterized | src/lib/data/blogs.ts:114-116 | A descending sequence with the same per-key subsequences as the input is the sort of the input. So any stable sort with this comparator gives `Sort`. |
| ArrayOps.SortInPlace | src/lib/data/blogs.ts:114-116 | The array ends up holding `Sort(old contents, key)`. |
| ArrayOps.InsertAt | src/lib/data/blogs.ts:114-116 | One insertion round moves `a[i]` left past its smaller-keyed neighbours. |
| ArrayOps.FilterMembers | src/lib/github.ts:293 | An element is kept exactly when it is in the input and satisfies the predicate. |
| ArrayOps.FindFirst | src/lib/data/blogs.ts:110 | `find` gives the first element that satisfies the predicate. |
| ArrayOps.FindNone | src/lib/data/blogs.ts:110 | `find` gives nothing exactly when no element satisfies the predicate. |
| Dates.DateKeyOrder | src/lib/data/blogs.ts:115 | Keys order ISO dates as the calendar does: by year, then month, then day. |
| BlogData.Catalog.GetBlogBySlug | src/lib/data/blogs.ts:109-111 | The result is undefined exactly when no post has the slug. Otherwise it is the first post that does. |
| BlogData.Catalog.GetAllBlogs | src/lib/data/blogs.ts:113-117 | The module array itself is sorted in place, newest first and stable, and that same array is returned. |
| BlogData.ShippedSlugsDistinct | src/lib/data/blogs.ts:12-107 | The three shipped slugs are pairwise distinct. |
| BlogData.ShippedSorted | src/lib/data/blogs.ts:12-107 | The shipped dates are already newest first. |
| BlogData.ShippedOrderKept | src/lib/data/blogs.ts:12-117 | Sorting the shipped catalog leaves the declared order. |
| BlogData.ShippedFoundBySlug | src/lib/data/blogs.ts:109-111 | Each shipped post is found by its own slug. |
| Visitors.Counter.Load | src/lib/server/visitors.ts:7-16 | Once a record is memoised, it is returned unchanged. Otherwise the stored record, or `{0, ∅}` when there is none, is memoised and returned. |
| Visitors.Counter.Visit | src/lib/server/visitors.ts:24-34 | The record becomes `Bump(loaded, id)`. The active map becomes the old one with `id` stamped at `now`, pruned to the window. The result is the active count and the total after the update. |
| Visitors.BumpNew | src/lib/server/visitors.ts:26-29 | A new id adds exactly one to the total and joins the known ids. |
| Visitors.BumpKnown | src/lib/server/visitors.ts:26 | A known id changes nothing. |
| Visitors.BumpConsistent | src/lib/server/visitors.ts:26-29 | A visit keeps `total == \|known\|`. |
| Visitors.VisitsConsistent | src/lib/server/visitors.ts:7-29 | From the fallback, any sequence of visits keeps `total == \|known\|`, and the known ids are exactly the visiting ids. |
| Visitors.PrunedWindow | src/lib/server/visitors.ts:31-32 | After a visit, `id` maps to `now`. An entry remains exactly when it is `id`, or was present and is at most 60000 ms old. Every remaining entry is within the window. |
| TimeUtils.DecadeStart | src/lib/time-utils.ts:209 | The decade start is a multiple of ten with `d <= year <= d + 9`. |
| TimeUtils.CenturyStart | src/lib/time-utils.ts:217 | The century start is a multiple of 100 with `c <= year <= c + 99`. |
| TimeUtils.DecadeStartUnique | src/lib/time-utils.ts:209 | The decade start is the only such multiple of ten. |
| TimeUtils.CenturyStartUnique | src/lib/time-utils.ts:217 | The century start is the only such multiple of 100. |
| TimeUtils.RangeStartOfText | src/lib/time-utils.ts:208-219 | A `lo-hi` label reads back as `lo`, for negative starts too. |
| TimeUtils.RangeLabelsReadBack | src/lib/time-utils.ts:208-219 | The decade label reads back as the decade start, and the century label as the century start. |
| TimeUtils.DecadeRangeIdentifies | src/lib/time-utils.ts:208-211 | Two years have the same decade label exactly when they are in the same decade. |
| TimeUtils.CenturyRangeIdentifies | src/lib/time-utils.ts:216-219 | Two years have the same century label exactly when they are in the same century. |
| TimeUtils.YearsInDecade | src/lib/time-utils.ts:224-227 | There are ten years, and element `i` is the decade start plus `i`. |
| TimeUtils.YearsInDecadeMembers | src/lib/time-utils.ts:224-227 | The list holds exactly the years of the same decade, the given year among them. |
| TimeUtils.DecadesInCentury | src/lib/time-utils.ts:232-235 | There are ten decades, and element `i` is the century start plus `10 * i`. |
| TimeUtils.DecadesInCenturyMembers | src/lib/time-utils.ts:232-235 | The list holds exactly the multiples of ten in the same century, the year's own decade among them. |
| TimeUtils.YearListProgress | src/lib/time-utils.ts:240-244 | Along the current decade's list, years before the current one show 100, the current one its progress, and later ones 0. |
| TimeUtils.DecadeListProgress | src/lib/time-utils.ts:249-258 | Along the current century's list, decades before the current one show 100, the current one its progress, and later ones 0. The current decade's position is between 0 and 9. |
| TimeUtils.YearProgressMonotone | src/lib/time-utils.ts:240-244 | With progress in `[0, 100]`, a later year never shows more progress. |
| TimeUtils.ZoomAgrees | src/lib/time-utils.ts:153-196 | The label switch and the progress switch pick the same unit for every level: 0 to 6 in order, anything else the year. |
| TimeUtils.SameLabelSameProgress | src/lib/time-utils.ts:153-196 | Levels with the same label show the same progress. |
| TimeUtils.OutOfRangeIsYear | src/lib/time-utils.ts:153-196 | A level outside 0 to 6 behaves exactly like level 4, "Year". |

## Left out

- HTTP is not modelled: a response is an input. So are request headers, the
  token, the `$env` constants and the JSON decoding of a body. A body that is
  not valid JSON, a throwing `fetch` and any field missing from the JSON are
  not modelled.
- `async`/`await` ordering is not modelled, and neither are concurrent callers
  sharing the cache. The model is sequential.
- Every `Date.now()` of one call is a single `now`. This covers the cache's
  reads and writes and the repeated calls inside the visitor pruning loop.
- Frontmatter.IsNumeric: `Number()` is modelled for trimmed optionally signed
  decimal literals and for blank text (which is 0). Hexadecimal, binary and
  octal literals, exponents and `Infinity` count as non-numeric and stay text.
  Numbers are exact reals, not doubles.
- White space and case are ASCII only. `\s`, `trim` and `toLowerCase` do not
  treat Unicode characters specially.
- Dates.DateKey: `new Date(date).getTime()` is replaced by a key that orders
  ISO `YYYY-MM-DD` dates as the calendar does. Any other text gets the key 0.
  The model does not capture the NaN comparisons of unparseable dates, or
  dates with a time part.
- The floating-point progress functions are inputs, not computations:
  `getYearProgress`, `getDecadeProgress`, the other `get*Progress` and the
  date-fns calls. The same goes for `formatDate` and the re-exports. A
  non-integer zoom level or year is not modelled.
- The visitor file is not modelled: `save`, `readFileSync`, `writeFileSync`,
  `mkdirSync` and JSON. A stored record is an input, and saving has no effect.
- The header record is a map from text to values. A header key such as
  `__proto__`, which a JavaScript object treats specially, is an ordinary key
  here.
- The cache holds one value type per key kind. Reading a key that holds
  another kind is treated as a miss. The three key kinds never collide
  (`GitHub.CacheKeysDistinct`), so this case cannot happen.
- The title, excerpt and body of each shipped post are opaque constructor
  arguments. The slugs, dates, categories, authors and reading times are
  written out.
- The routes under `src/routes` are not part of this model. They are
  framework glue that only calls the core.
