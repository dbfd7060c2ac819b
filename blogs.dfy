/**
 * The static catalog (src/lib/data/blogs.ts): the module's array of three
 * shipped posts, a linear lookup by slug and `getAllBlogs`, which sorts that
 * very array in place by date, newest first. The prose of each post (title,
 * excerpt, markdown body) is opaque text given to the constructor.
 */
module BlogData {
  import opened Wrappers
  import opened ArrayOps
  import opened Dates

  datatype Blog = Blog(
    slug: string, title: string, excerpt: string, content: string,
    date: string, category: string, author: string, readTime: int)

  /** The comparator's key: `new Date(blog.date).getTime()`. */
  function BlogDate(b: Blog): int {
    DateKey(b.date)
  }

  function HasSlug(slug: string): Blog -> bool {
    (b: Blog) => b.slug == slug
  }

  /** The prose of a post (title, excerpt, markdown body), opaque to the catalog's logic. */
  datatype Prose = Prose(title: string, excerpt: string, content: string)

  function Post(slug: string, prose: Prose, date: string, category: string, author: string, readTime: int): Blog {
    Blog(slug, prose.title, prose.excerpt, prose.content, date, category, author, readTime)
  }

  /** The shipped posts, in the order the module declares them. */
  function Shipped(typography: Prose, architecture: Prose, photography: Prose): (r: seq<Blog>)
    ensures |r| == 3
  {
    [ Post("evolution-of-modern-typography", typography, "2026-01-05", "Design", "Eleanor Hayes", 4),
      Post("sustainable-architecture", architecture, "2026-01-03", "Architecture", "Marcus Chen", 5),
      Post("quiet-revolution-analog-photography", photography, "2025-12-28", "Photography", "Sofia Andersson", 6) ]
  }

  class Catalog {
    /** The module-level `blogs` array. */
    const blogs: array<Blog>

    constructor (typography: Prose, architecture: Prose, photography: Prose)
      ensures fresh(blogs)
      ensures blogs[..] == Shipped(typography, architecture, photography)
    {
      var s := Shipped(typography, architecture, photography);
      var a := new Blog[3](i requires 0 <= i < 3 => s[i]);
      assert a[..] == s;
      blogs := a;
    }

    /**
     * `getBlogBySlug(slug)`: the first post with that slug, or nothing when
     * no post has it.
     */
    function GetBlogBySlug(slug: string): (r: Option<Blog>)
      reads blogs
      ensures r.None? <==> forall i :: 0 <= i < blogs.Length ==> blogs[i].slug != slug
      ensures r.Some? ==> exists i :: (0 <= i < blogs.Length && blogs[i] == r.value &&
        r.value.slug == slug && forall j :: 0 <= j < i ==> blogs[j].slug != slug)
    {
      FindNone(blogs[..], HasSlug(slug));
      var r := Find(blogs[..], HasSlug(slug));
      if r.Some? then
        FindSome(blogs[..], HasSlug(slug));
        r
      else r
    }

    /**
     * `getAllBlogs()`: sorts the module's array itself, newest first and
     * stable among equal dates, and returns that same array.
     */
    method GetAllBlogs() returns (r: array<Blog>)
      modifies blogs
      ensures r == blogs
      ensures blogs[..] == Sort(old(blogs[..]), BlogDate)
    {
      SortInPlace(blogs, BlogDate);
      return blogs;
    }
  }

  /** The shipped slugs are pairwise distinct. */
  lemma ShippedSlugsDistinct(t: Prose, a: Prose, p: Prose)
    ensures var s := Shipped(t, a, p);
      forall i, j :: 0 <= i < j < 3 ==> s[i].slug != s[j].slug
  {
    var s := Shipped(t, a, p);
    assert s[0].slug[0] == 'e' && s[1].slug[0] == 's' && s[2].slug[0] == 'q';
  }

  /** The shipped dates are already newest first. */
  lemma ShippedSorted(t: Prose, a: Prose, p: Prose)
    ensures SortedDesc(Shipped(t, a, p), BlogDate)
  {
    var s := Shipped(t, a, p);
    ShippedDates(t, a, p);
    assert forall i, j :: 0 <= i < j < 3 ==> BlogDate(s[i]) >= BlogDate(s[j]);
  }

  lemma ShippedDates(t: Prose, a: Prose, p: Prose)
    ensures var s := Shipped(t, a, p);
      BlogDate(s[0]) == 20260105 && BlogDate(s[1]) == 20260103 && BlogDate(s[2]) == 20251228
  {
    DateKeyOf("2026-01-05", 2026, 1, 5);
    DateKeyOf("2026-01-03", 2026, 1, 3);
    DateKeyOf("2025-12-28", 2025, 12, 28);
  }

  /** So sorting the shipped catalog leaves its order as declared. */
  lemma ShippedOrderKept(t: Prose, a: Prose, p: Prose)
    ensures Sort(Shipped(t, a, p), BlogDate) == Shipped(t, a, p)
  {
    ShippedSorted(t, a, p);
    SortedIsFixed(Shipped(t, a, p), BlogDate);
  }

  /** Each shipped post is found by its own slug. */
  lemma ShippedFoundBySlug(t: Prose, a: Prose, p: Prose, i: nat)
    requires i < 3
    ensures Find(Shipped(t, a, p), HasSlug(Shipped(t, a, p)[i].slug)) == Some(Shipped(t, a, p)[i])
  {
    var s := Shipped(t, a, p);
    ShippedSlugsDistinct(t, a, p);
    FindFirst(s, HasSlug(s[i].slug), i);
  }
}
