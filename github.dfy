/**
 * Blog resolution over the GitHub repository (src/lib/github.ts): the raw
 * and API addresses, the `.md` listing filter, the manifest summaries sorted
 * newest first, the public filter, the lookup by slug and the assembly of one
 * post, each fetch consulting and filling the shared freshness cache.
 *
 * The remote is a function `fetch` from an address to a response whose body
 * is given both as text and as decoded JSON; the clock is a parameter `now`.
 */
module GitHub {
  import opened Wrappers
  import opened Text
  import opened ArrayOps
  import opened Dates
  import opened TtlCache
  import opened Frontmatter
  import Slug

  /** The repository coordinates; `contentPath` is `GITHUB_CONTENT_PATH || ""`. */
  datatype Config = Config(owner: string, repo: string, branch: string, contentPath: string)

  /** `CACHE_TTL`: five minutes, in milliseconds. */
  const CacheTtl := 5 * 60 * 1000

  datatype FileType = File | Dir

  /** An entry of the contents listing. */
  datatype GitHubFile = GitHubFile(name: string, path: string, kind: FileType, downloadUrl: Option<string>)

  /** An entry of `blog.json`. */
  datatype ManifestEntry = ManifestEntry(
    filename: string, path: string, title: Option<string>, excerpt: Option<string>,
    date: string, category: string, author: string, readTime: Option<real>,
    isPublic: bool, image: Option<string>)

  /** `BlogSummary`: the manifest fields without `path`, plus the slug. */
  datatype Summary = Summary(
    slug: string, filename: string, title: Option<string>, excerpt: Option<string>,
    date: string, category: string, author: string, readTime: Option<real>,
    isPublic: bool, image: Option<string>)

  /** A response: status, status text, and the body read by `text()` and by `json()`. */
  datatype Response = Response(status: int, statusText: string, text: string, files: seq<GitHubFile>, blogs: seq<ManifestEntry>)

  /** `response.ok`. */
  predicate Ok(r: Response) {
    200 <= r.status <= 299
  }

  /** What the shared cache holds under the three kinds of key. */
  datatype CacheValue = FileList(files: seq<GitHubFile>) | Markdown(text: string) | Summaries(summaries: seq<Summary>)

  type Entries = map<string, Entry<CacheValue>>

  const NotFound := "Blog post not found"

  // ---------------------------------------------------------------------------
  // Addresses and cache keys

  /** The path of a post's markdown file: under the content path when there is one. */
  function RawPath(cfg: Config, slug: string): string {
    if cfg.contentPath != "" then cfg.contentPath + "/" + slug + ".md" else slug + ".md"
  }

  function RawBase(cfg: Config): string {
    "https://raw.githubusercontent.com/" + cfg.owner + "/" + cfg.repo + "/" + cfg.branch + "/"
  }

  /** `getRawUrl(slug)`. */
  function RawUrl(cfg: Config, slug: string): string {
    RawBase(cfg) + RawPath(cfg, slug)
  }

  /** `getApiUrl()`. */
  function ApiUrl(cfg: Config): string {
    "https://api.github.com/repos/" + cfg.owner + "/" + cfg.repo + "/contents/" + cfg.contentPath + "?ref=" + cfg.branch
  }

  /** `getBlogJsonUrl()`. */
  function BlogJsonUrl(cfg: Config): string {
    RawBase(cfg) + "blog.json"
  }

  const ListKey := "blog-list"
  const SummariesKey := "blog-summaries"

  function ContentKey(slug: string): string {
    "blog-content:" + slug
  }

  lemma CancelPrefix(p: string, a: string, b: string)
    requires p + a == p + b
    ensures a == b
  {
    assert a == (p + a)[|p|..];
    assert b == (p + b)[|p|..];
  }

  /** The path names the `.md` file of the slug, under the content path when one is set. */
  lemma RawPathShape(cfg: Config, slug: string)
    ensures EndsWith(RawPath(cfg, slug), ".md")
    ensures cfg.contentPath == "" ==> RawPath(cfg, slug) == slug + ".md"
    ensures cfg.contentPath != "" ==> RawPath(cfg, slug) == (cfg.contentPath + "/") + (slug + ".md")
  {
    var r := RawPath(cfg, slug);
    if cfg.contentPath != "" {
      assert r == (cfg.contentPath + "/" + slug) + ".md";
    }
    assert r[|r| - 3..] == ".md";
  }

  /** Different slugs are fetched from different addresses. */
  lemma RawUrlInjective(cfg: Config, a: string, b: string)
    requires RawUrl(cfg, a) == RawUrl(cfg, b)
    ensures a == b
  {
    CancelPrefix(RawBase(cfg), RawPath(cfg, a), RawPath(cfg, b));
    RawPathShape(cfg, a);
    RawPathShape(cfg, b);
    var pre := if cfg.contentPath != "" then cfg.contentPath + "/" else "";
    assert RawPath(cfg, a) == pre + (a + ".md") && RawPath(cfg, b) == pre + (b + ".md");
    CancelPrefix(pre, a + ".md", b + ".md");
    SnocCancel(a, b, ".md");
  }

  /** The cache keys never collide: one per post, and none equal to the two fixed keys. */
  lemma CacheKeysDistinct(a: string, b: string)
    ensures ContentKey(a) != ListKey && ContentKey(a) != SummariesKey && ListKey != SummariesKey
    ensures ContentKey(a) == ContentKey(b) ==> a == b
  {
    assert ContentKey(a)[5] == 'c' && ListKey[5] == 'l' && SummariesKey[5] == 's';
    if ContentKey(a) == ContentKey(b) {
      CancelPrefix("blog-content:", a, b);
    }
  }

  // ---------------------------------------------------------------------------
  // Pure pieces

  /** The listing filter of `fetchBlogList`: files whose name ends in `.md`. */
  predicate IsMarkdownEntry(f: GitHubFile) {
    f.kind == File && EndsWith(f.name, ".md")
  }

  function MarkdownFiles(files: seq<GitHubFile>): seq<GitHubFile> {
    Filter(files, IsMarkdownEntry)
  }

  /**
   * The filter keeps exactly the markdown files, each where it was: filtering
   * a concatenation filters each part in turn.
   */
  lemma MarkdownFilesKeeps(files: seq<GitHubFile>, more: seq<GitHubFile>, f: GitHubFile)
    ensures f in MarkdownFiles(files) <==> f in files && f.kind == File && EndsWith(f.name, ".md")
    ensures MarkdownFiles(files + more) == MarkdownFiles(files) + MarkdownFiles(more)
  {
    FilterMembers(files, IsMarkdownEntry, f);
    FilterAppend(files, more, IsMarkdownEntry);
  }

  /** `GitHub API error: ${status} ${statusText}`. */
  function ApiError(r: Response): string {
    "GitHub API error: " + IntToString(r.status) + " " + r.statusText
  }

  /** The error of a content fetch that is not ok. */
  function ContentError(status: int): string {
    if status == 404 then NotFound else "Failed to fetch blog content: " + IntToString(status)
  }

  /** `Failed to fetch blog.json: ${status}`. */
  function ManifestError(status: int): string {
    "Failed to fetch blog.json: " + IntToString(status)
  }

  /**
   * Only a 404 reads as a missing post; every other status is reported with
   * its number, so different statuses give different messages.
   */
  lemma ContentErrorCases(s1: int, s2: int)
    ensures ContentError(404) == NotFound
    ensures s1 != 404 ==> ContentError(s1) != NotFound
    ensures ContentError(s1) == ContentError(s2) ==> s1 == s2
  {
    var pre := "Failed to fetch blog content: ";
    if s1 != 404 {
      assert ContentError(s1)[0] == 'F' && NotFound[0] == 'B';
    }
    if s2 != 404 {
      assert ContentError(s2)[0] == 'F';
    }
    if ContentError(s1) == ContentError(s2) && s1 != 404 && s2 != 404 {
      CancelPrefix(pre, IntToString(s1), IntToString(s2));
      IntToStringInjective(s1, s2);
    }
  }

  /** A manifest entry's summary: its slug is the slugified file name. */
  function ToSummary(e: ManifestEntry): Summary {
    Summary(Slug.Slugify(e.filename), e.filename, e.title, e.excerpt, e.date, e.category,
      e.author, e.readTime, e.isPublic, e.image)
  }

  function BuildSummaries(entries: seq<ManifestEntry>): seq<Summary> {
    MapSeq(entries, ToSummary)
  }

  /** The comparator key: `new Date(summary.date).getTime()`. */
  function SummaryDate(s: Summary): int {
    DateKey(s.date)
  }

  /** The summaries `fetchAllBlogSummaries` produces: one per entry, sorted newest first, stably. */
  function AllSummaries(entries: seq<ManifestEntry>): seq<Summary> {
    Sort(BuildSummaries(entries), SummaryDate)
  }

  lemma SummaryOfEntry(entries: seq<ManifestEntry>, x: Summary)
    requires x in BuildSummaries(entries)
    ensures exists i :: 0 <= i < |entries| && x == ToSummary(entries[i])
  {
    var i :| 0 <= i < |BuildSummaries(entries)| && BuildSummaries(entries)[i] == x;
    MapSeqAt(entries, ToSummary, i);
  }

  /**
   * The summaries are a permutation of the entries' summaries, newest first,
   * keep the manifest order among equal dates, and each carries the slug of
   * its file name, a well-formed slug.
   */
  lemma AllSummariesFacts(entries: seq<ManifestEntry>, k: int, x: Summary)
    ensures |AllSummaries(entries)| == |entries|
    ensures multiset(AllSummaries(entries)) == multiset(BuildSummaries(entries))
    ensures SortedDesc(AllSummaries(entries), SummaryDate)
    ensures Filter(AllSummaries(entries), KeyIs(SummaryDate, k)) == Filter(BuildSummaries(entries), KeyIs(SummaryDate, k))
    ensures x in AllSummaries(entries) ==> x.slug == Slug.Slugify(x.filename) && Slug.IsSlug(x.slug)
  {
    var built := BuildSummaries(entries);
    SortIsPermutation(built, SummaryDate);
    SortIsSorted(built, SummaryDate);
    SortIsStable(built, SummaryDate, k);
    if x in AllSummaries(entries) {
      assert x in multiset(AllSummaries(entries));
      SummaryOfEntry(entries, x);
      Slug.SlugifyIsSlug(x.filename);
    }
  }

  predicate IsPublic(s: Summary) {
    s.isPublic
  }

  /** `fetchPublicBlogSummaries`' choice: everything in development, else the public ones in order. */
  function Visible(summaries: seq<Summary>, dev: bool): seq<Summary> {
    if dev then summaries else Filter(summaries, IsPublic)
  }

  lemma VisibleKeeps(summaries: seq<Summary>, more: seq<Summary>, dev: bool, x: Summary)
    ensures dev ==> Visible(summaries, dev) == summaries
    ensures !dev ==> (x in Visible(summaries, dev) <==> x in summaries && x.isPublic)
    ensures !dev ==> Visible(summaries + more, dev) == Visible(summaries, dev) + Visible(more, dev)
  {
    FilterMembers(summaries, IsPublic, x);
    FilterAppend(summaries, more, IsPublic);
  }

  function SummaryHasSlug(slug: string): Summary -> bool {
    (s: Summary) => s.slug == slug
  }

  /** `findBlogBySlug`'s search: the first summary with that slug. */
  function FindBySlug(summaries: seq<Summary>, slug: string): Option<Summary> {
    Find(summaries, SummaryHasSlug(slug))
  }

  lemma FindBySlugFirst(summaries: seq<Summary>, slug: string, i: nat)
    ensures FindBySlug(summaries, slug).None? <==> forall j :: 0 <= j < |summaries| ==> summaries[j].slug != slug
    ensures i < |summaries| && summaries[i].slug == slug && (forall j :: 0 <= j < i ==> summaries[j].slug != slug) ==>
      FindBySlug(summaries, slug) == Some(summaries[i])
  {
    FindNone(summaries, SummaryHasSlug(slug));
    if i < |summaries| && summaries[i].slug == slug && (forall j :: 0 <= j < i ==> summaries[j].slug != slug) {
      FindFirst(summaries, SummaryHasSlug(slug), i);
    }
  }

  /** `{ slug, filename, ...frontmatter, content }`: later keys win. */
  function AssembleBlog(slug: string, filename: string, parsed: Parsed): map<string, Value> {
    map["slug" := Str(slug), "filename" := Str(filename)] + parsed.frontmatter + map["content" := Str(parsed.content)]
  }

  /**
   * The body always comes from the parsed remainder; `slug` and `filename`
   * come from the lookup unless the header declares them; every other header
   * key is carried over; nothing else is present.
   */
  lemma AssembleBlogFields(slug: string, filename: string, parsed: Parsed, k: string)
    ensures var b := AssembleBlog(slug, filename, parsed);
      "content" in b && b["content"] == Str(parsed.content)
    ensures var b := AssembleBlog(slug, filename, parsed);
      "slug" in b && b["slug"] == (if "slug" in parsed.frontmatter then parsed.frontmatter["slug"] else Str(slug))
    ensures var b := AssembleBlog(slug, filename, parsed);
      "filename" in b && b["filename"] == (if "filename" in parsed.frontmatter then parsed.frontmatter["filename"] else Str(filename))
    ensures var b := AssembleBlog(slug, filename, parsed);
      k != "content" && k in parsed.frontmatter ==> k in b && b[k] == parsed.frontmatter[k]
    ensures var b := AssembleBlog(slug, filename, parsed);
      k in b <==> k in parsed.frontmatter || k == "slug" || k == "filename" || k == "content"
  {
  }

  // ---------------------------------------------------------------------------
  // What the cache serves (a JavaScript `if (cached)`: an array is always truthy, "" is not)

  function CachedFiles(m: Entries, now: int): Option<seq<GitHubFile>> {
    var v: Option<CacheValue> := Live(m, ListKey, now);
    if v.Some? && v.value.FileList? then Some(v.value.files) else None
  }

  function CachedMarkdown(m: Entries, slug: string, now: int): Option<string> {
    var v: Option<CacheValue> := Live(m, ContentKey(slug), now);
    if v.Some? && v.value.Markdown? && v.value.text != "" then Some(v.value.text) else None
  }

  function CachedSummaries(m: Entries, now: int): Option<seq<Summary>> {
    var v: Option<CacheValue> := Live(m, SummariesKey, now);
    if v.Some? && v.value.Summaries? then Some(v.value.summaries) else None
  }

  // ---------------------------------------------------------------------------
  // The specification of each fetch: its result and the cache it leaves

  function ListResult(m: Entries, cfg: Config, fetch: string -> Response, now: int): Result<seq<GitHubFile>> {
    if CachedFiles(m, now).Some? then Success(CachedFiles(m, now).value)
    else
      var resp := fetch(ApiUrl(cfg));
      if !Ok(resp) then Failure(ApiError(resp)) else Success(MarkdownFiles(resp.files))
  }

  function ListCache(m: Entries, cfg: Config, fetch: string -> Response, now: int): Entries {
    if CachedFiles(m, now).Some? then m
    else
      var resp := fetch(ApiUrl(cfg));
      var m1 := Evicted(m, ListKey, now);
      if !Ok(resp) then m1 else m1[ListKey := Entry(FileList(MarkdownFiles(resp.files)), now + CacheTtl)]
  }

  function ContentResult(m: Entries, cfg: Config, fetch: string -> Response, slug: string, now: int): Result<string> {
    if CachedMarkdown(m, slug, now).Some? then Success(CachedMarkdown(m, slug, now).value)
    else
      var resp := fetch(RawUrl(cfg, slug));
      if !Ok(resp) then Failure(ContentError(resp.status)) else Success(resp.text)
  }

  function ContentCache(m: Entries, cfg: Config, fetch: string -> Response, slug: string, now: int): Entries {
    if CachedMarkdown(m, slug, now).Some? then m
    else
      var resp := fetch(RawUrl(cfg, slug));
      var m1 := Evicted(m, ContentKey(slug), now);
      if !Ok(resp) then m1 else m1[ContentKey(slug) := Entry(Markdown(resp.text), now + CacheTtl)]
  }

  function SummariesResult(m: Entries, cfg: Config, fetch: string -> Response, now: int): Result<seq<Summary>> {
    if CachedSummaries(m, now).Some? then Success(CachedSummaries(m, now).value)
    else
      var resp := fetch(BlogJsonUrl(cfg));
      if !Ok(resp) then Failure(ManifestError(resp.status)) else Success(AllSummaries(resp.blogs))
  }

  function SummariesCache(m: Entries, cfg: Config, fetch: string -> Response, now: int): Entries {
    if CachedSummaries(m, now).Some? then m
    else
      var resp := fetch(BlogJsonUrl(cfg));
      var m1 := Evicted(m, SummariesKey, now);
      if !Ok(resp) then m1 else m1[SummariesKey := Entry(Summaries(AllSummaries(resp.blogs)), now + CacheTtl)]
  }

  /** The post `fetchBlog` assembles: look the slug up, fetch the file by its name, parse it. */
  function BlogResult(m: Entries, cfg: Config, fetch: string -> Response, slug: string, now: int): Result<map<string, Value>> {
    match SummariesResult(m, cfg, fetch, now)
    case Failure(e) => Failure(e)
    case Success(summaries) =>
      match FindBySlug(summaries, slug)
      case None => Failure(NotFound)
      case Some(summary) =>
        var m1 := SummariesCache(m, cfg, fetch, now);
        match ContentResult(m1, cfg, fetch, summary.filename, now)
        case Failure(e) => Failure(e)
        case Success(markdown) =>
          match Parse(markdown)
          case Failure(e) => Failure(e)
          case Success(parsed) => Success(AssembleBlog(slug, summary.filename, parsed))
  }

  function BlogCache(m: Entries, cfg: Config, fetch: string -> Response, slug: string, now: int): Entries {
    var m1 := SummariesCache(m, cfg, fetch, now);
    match SummariesResult(m, cfg, fetch, now)
    case Failure(_) => m1
    case Success(summaries) =>
      match FindBySlug(summaries, slug)
      case None => m1
      case Some(summary) => ContentCache(m1, cfg, fetch, summary.filename, now)
  }

  // ---------------------------------------------------------------------------
  // The fetches

  /** `fetchBlogList(fetch)`. */
  method FetchBlogList(cache: Cache<CacheValue>, cfg: Config, fetch: string -> Response, now: int)
    returns (r: Result<seq<GitHubFile>>)
    modifies cache
    ensures r == ListResult(old(cache.entries), cfg, fetch, now)
    ensures cache.entries == ListCache(old(cache.entries), cfg, fetch, now)
  {
    var cached := cache.Get(ListKey, now);
    if cached.Some? && cached.value.FileList? {
      return Success(cached.value.files);
    }
    var response := fetch(ApiUrl(cfg));
    if !Ok(response) {
      return Failure(ApiError(response));
    }
    var mdFiles := MarkdownFiles(response.files);
    cache.Set(ListKey, FileList(mdFiles), CacheTtl, now);
    return Success(mdFiles);
  }

  /** `fetchBlogContent(slug, fetch)`. */
  method FetchBlogContent(cache: Cache<CacheValue>, cfg: Config, fetch: string -> Response, slug: string, now: int)
    returns (r: Result<string>)
    modifies cache
    ensures r == ContentResult(old(cache.entries), cfg, fetch, slug, now)
    ensures cache.entries == ContentCache(old(cache.entries), cfg, fetch, slug, now)
  {
    var cacheKey := ContentKey(slug);
    var cached := cache.Get(cacheKey, now);
    if cached.Some? && cached.value.Markdown? && cached.value.text != "" {
      return Success(cached.value.text);
    }
    var response := fetch(RawUrl(cfg, slug));
    if !Ok(response) {
      if response.status == 404 {
        return Failure(NotFound);
      }
      return Failure("Failed to fetch blog content: " + IntToString(response.status));
    }
    var content := response.text;
    cache.Set(cacheKey, Markdown(content), CacheTtl, now);
    return Success(content);
  }

  /** The summaries of the manifest's entries, sorted in an array of their own. */
  method SortedSummaries(entries: seq<ManifestEntry>) returns (r: seq<Summary>)
    ensures r == AllSummaries(entries)
  {
    var built := BuildSummaries(entries);
    var summaries := new Summary[|built|](i requires 0 <= i < |built| => built[i]);
    assert summaries[..] == built;
    SortInPlace(summaries, SummaryDate);
    r := summaries[..];
  }

  /** Without a cached copy, a successful manifest fetch yields and caches its sorted summaries. */
  lemma SummariesFetched(m: Entries, cfg: Config, fetch: string -> Response, now: int, sorted: seq<Summary>)
    requires CachedSummaries(m, now).None? && Ok(fetch(BlogJsonUrl(cfg)))
    requires sorted == AllSummaries(fetch(BlogJsonUrl(cfg)).blogs)
    ensures SummariesResult(m, cfg, fetch, now) == Success(sorted)
    ensures SummariesCache(m, cfg, fetch, now) == Evicted(m, SummariesKey, now)[SummariesKey := Entry(Summaries(sorted), now + CacheTtl)]
  {
  }

  /** `fetchAllBlogSummaries(fetch)`: map the manifest, sort, cache. */
  method FetchAllBlogSummaries(cache: Cache<CacheValue>, cfg: Config, fetch: string -> Response, now: int)
    returns (r: Result<seq<Summary>>)
    modifies cache
    ensures r == SummariesResult(old(cache.entries), cfg, fetch, now)
    ensures cache.entries == SummariesCache(old(cache.entries), cfg, fetch, now)
  {
    ghost var m := cache.entries;
    var cached := cache.Get(SummariesKey, now);
    if cached.Some? && cached.value.Summaries? {
      return Success(cached.value.summaries);
    }
    var response := fetch(BlogJsonUrl(cfg));
    if !Ok(response) {
      return Failure(ManifestError(response.status));
    }
    var sorted := SortedSummaries(response.blogs);
    SummariesFetched(m, cfg, fetch, now, sorted);
    cache.Set(SummariesKey, Summaries(sorted), CacheTtl, now);
    return Success(sorted);
  }

  /** `fetchPublicBlogSummaries(fetch)`. */
  method FetchPublicBlogSummaries(cache: Cache<CacheValue>, cfg: Config, fetch: string -> Response, now: int, dev: bool)
    returns (r: Result<seq<Summary>>)
    modifies cache
    ensures r == match SummariesResult(old(cache.entries), cfg, fetch, now)
      case Failure(e) => Failure(e)
      case Success(summaries) => Success(Visible(summaries, dev))
    ensures cache.entries == SummariesCache(old(cache.entries), cfg, fetch, now)
  {
    var all := FetchAllBlogSummaries(cache, cfg, fetch, now);
    if all.Failure? {
      return Failure(all.error);
    }
    var summaries := all.value;
    if dev {
      return Success(summaries);
    }
    return Success(Filter(summaries, IsPublic));
  }

  /** `findBlogBySlug(slug, fetch)`. */
  method FindBlogBySlug(cache: Cache<CacheValue>, cfg: Config, fetch: string -> Response, slug: string, now: int)
    returns (r: Result<Option<Summary>>)
    modifies cache
    ensures r == match SummariesResult(old(cache.entries), cfg, fetch, now)
      case Failure(e) => Failure(e)
      case Success(summaries) => Success(FindBySlug(summaries, slug))
    ensures cache.entries == SummariesCache(old(cache.entries), cfg, fetch, now)
  {
    var all := FetchAllBlogSummaries(cache, cfg, fetch, now);
    if all.Failure? {
      return Failure(all.error);
    }
    return Success(FindBySlug(all.value, slug));
  }

  /** `fetchBlog(slug, fetch)`. */
  method FetchBlog(cache: Cache<CacheValue>, cfg: Config, fetch: string -> Response, slug: string, now: int)
    returns (r: Result<map<string, Value>>)
    modifies cache
    ensures r == BlogResult(old(cache.entries), cfg, fetch, slug, now)
    ensures cache.entries == BlogCache(old(cache.entries), cfg, fetch, slug, now)
  {
    var found := FindBlogBySlug(cache, cfg, fetch, slug, now);
    if found.Failure? {
      return Failure(found.error);
    }
    if found.value.None? {
      return Failure(NotFound);
    }
    var summary := found.value.value;
    var markdown := FetchBlogContent(cache, cfg, fetch, summary.filename, now);
    if markdown.Failure? {
      return Failure(markdown.error);
    }
    var parsed := ParseFrontmatter(markdown.value);
    if parsed.Failure? {
      return Failure(parsed.error);
    }
    return Success(AssembleBlog(slug, summary.filename, parsed.value));
  }

  // ---------------------------------------------------------------------------
  // Properties of the fetches

  /**
   * A listing fetched successfully is served from the cache, whatever the
   * remote would now say, until its five minutes are over.
   */
  lemma ListServedFromCache(m: Entries, cfg: Config, fetch: string -> Response, fetch2: string -> Response, now: int, t: int)
    requires CachedFiles(m, now).None? && ListResult(m, cfg, fetch, now).Success?
    requires now <= t <= now + CacheTtl
    ensures ListResult(ListCache(m, cfg, fetch, now), cfg, fetch2, t) == ListResult(m, cfg, fetch, now)
  {
  }

  /**
   * Fetched markdown is served from the cache within five minutes, except
   * the empty text, which the truthiness test treats as absent: it is
   * fetched again.
   */
  lemma ContentServedFromCache(m: Entries, cfg: Config, fetch: string -> Response, fetch2: string -> Response, slug: string, now: int, t: int)
    requires CachedMarkdown(m, slug, now).None? && ContentResult(m, cfg, fetch, slug, now).Success?
    requires now <= t <= now + CacheTtl
    ensures var text := ContentResult(m, cfg, fetch, slug, now).value;
      ContentResult(ContentCache(m, cfg, fetch, slug, now), cfg, fetch2, slug, t) ==
        if text != "" then Success(text) else ContentResult(map[], cfg, fetch2, slug, t)
  {
  }

  /** Fetched summaries are served from the cache until their five minutes are over. */
  lemma SummariesServedFromCache(m: Entries, cfg: Config, fetch: string -> Response, fetch2: string -> Response, now: int, t: int)
    requires CachedSummaries(m, now).None? && SummariesResult(m, cfg, fetch, now).Success?
    requires now <= t <= now + CacheTtl
    ensures SummariesResult(SummariesCache(m, cfg, fetch, now), cfg, fetch2, t) == SummariesResult(m, cfg, fetch, now)
  {
  }

  /** Without a cached list, a failing status is reported and nothing is cached. */
  lemma ListFailureNotCached(m: Entries, cfg: Config, fetch: string -> Response, now: int)
    requires CachedFiles(m, now).None? && !Ok(fetch(ApiUrl(cfg)))
    ensures ListResult(m, cfg, fetch, now) == Failure(ApiError(fetch(ApiUrl(cfg))))
    ensures CachedFiles(ListCache(m, cfg, fetch, now), now).None?
  {
  }

  /** A slug no summary carries is reported as a missing post. */
  lemma BlogUnknownSlug(m: Entries, cfg: Config, fetch: string -> Response, slug: string, now: int)
    requires SummariesResult(m, cfg, fetch, now).Success?
    requires forall j :: 0 <= j < |SummariesResult(m, cfg, fetch, now).value| ==>
      SummariesResult(m, cfg, fetch, now).value[j].slug != slug
    ensures BlogResult(m, cfg, fetch, slug, now) == Failure(NotFound)
  {
    FindBySlugFirst(SummariesResult(m, cfg, fetch, now).value, slug, 0);
  }

  /**
   * A post that is found and parses is the lookup's slug and file name
   * overridden by the header fields, with the parsed body as its content.
   */
  lemma BlogAssembled(m: Entries, cfg: Config, fetch: string -> Response, slug: string, now: int, summary: Summary, markdown: string)
    requires SummariesResult(m, cfg, fetch, now).Success?
    requires FindBySlug(SummariesResult(m, cfg, fetch, now).value, slug) == Some(summary)
    requires ContentResult(SummariesCache(m, cfg, fetch, now), cfg, fetch, summary.filename, now) == Success(markdown)
    requires Parse(markdown).Success?
    ensures BlogResult(m, cfg, fetch, slug, now) == Success(AssembleBlog(slug, summary.filename, Parse(markdown).value))
    ensures BlogResult(m, cfg, fetch, slug, now).value["content"] == Str(Parse(markdown).value.content)
  {
    AssembleBlogFields(slug, summary.filename, Parse(markdown).value, "content");
  }
}
