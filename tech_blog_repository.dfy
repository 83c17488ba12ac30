/**
 * The `tech-blog` site's copy of `MarkdownRepository`: the same queries,
 * with the entry-to-post mapping written out in `getAllPosts` and in
 * `getPostBySlug`, and the body copied as it is, so a post's content may
 * be missing.
 *
 * The meaning lemmas below are proved again rather than derived from the
 * other copy through `SameAsSiteRepository`: `Filled` reads a missing
 * body and an empty one alike, so it is not injective, and counts and
 * positions of the other copy's posts do not carry back to these posts.
 */
module TechBlogRepository {
  import opened Wrappers
  import opened Strings
  import opened Sequences
  import opened Sorting
  import opened ContentQueries
  import Site = MarkdownRepository

  /** `Post` as this copy builds it: `content` is `entry.body`, possibly missing. */
  datatype Post = Post(
    slug: string,
    id: string,
    title: string,
    description: string,
    publishedAt: int,
    updatedAt: Option<int>,
    tags: seq<string>,
    content: Option<string>,
    draft: bool)

  function PostPublishedAt(p: Post): int {
    p.publishedAt
  }

  function PostTags(p: Post): seq<string> {
    p.tags
  }

  /**
   * The post literal of `getAllPosts` and `getPostBySlug`: the slug is the
   * id without its `.md` ending, the content the body as it is; every
   * other field is copied.
   */
  function ToPost(e: Entry): (p: Post)
    ensures EndsWith(e.id, ".md") ==> p.slug + ".md" == e.id
    ensures !EndsWith(e.id, ".md") ==> p.slug == e.id
  {
    Post(SlugOf(e.id), e.id, e.data.title, e.data.description, e.data.publishedAt,
      e.data.updatedAt, e.data.tags, e.body, e.data.draft)
  }

  /** `getAllPosts`. */
  function GetAllPosts(entries: seq<Entry>): seq<Post> {
    Map(PublicEntries(entries), ToPost)
  }

  /**
   * The posts are those of the non-draft entries, each entry exactly once,
   * and no draft; they are ordered by non-increasing `publishedAt`.
   */
  lemma GetAllPostsMeaning(entries: seq<Entry>)
    ensures var posts := GetAllPosts(entries);
      && SortedDesc(posts, PostPublishedAt)
      && (exists order :: multiset(order) == multiset(Filter(entries, IsPublic)) && posts == Map(order, ToPost))
      && (forall p :: p in posts ==> !p.draft && exists e :: e in entries && !e.data.draft && p == ToPost(e))
      && (forall e :: e in entries && !e.data.draft ==> ToPost(e) in posts)
  {
    var order := PublicEntries(entries);
    var posts := GetAllPosts(entries);
    PublicEntriesMeaning(entries);
    forall p | p in posts ensures !p.draft && exists e :: e in entries && !e.data.draft && p == ToPost(e) {
      var k :| 0 <= k < |posts| && posts[k] == p;
      assert order[k] in order;
    }
    forall e | e in entries && !e.data.draft ensures ToPost(e) in posts {
      var k :| 0 <= k < |order| && order[k] == e;
      assert posts[k] == ToPost(e);
    }
  }

  /** `getPostBySlug`. */
  function GetPostBySlug(entries: seq<Entry>, slug: string): Option<Post> {
    var found := FindEntry(entries, slug + ".md");
    if found.None? || found.value.data.draft then None else Some(ToPost(found.value))
  }

  /**
   * There is no post for a slug exactly when no entry `{slug}.md` exists or
   * it is a draft; a post that is found is one of `getAllPosts` and carries
   * that slug.
   */
  lemma GetPostBySlugMeaning(entries: seq<Entry>, slug: string)
    requires DistinctIds(entries)
    ensures GetPostBySlug(entries, slug).None? <==>
      forall e :: e in entries && e.id == slug + ".md" ==> e.data.draft
    ensures GetPostBySlug(entries, slug).Some? ==>
      var p := GetPostBySlug(entries, slug).value;
      p in GetAllPosts(entries) && p.slug == slug && p.id == slug + ".md"
  {
    var found := FindEntry(entries, slug + ".md");
    if found.Some? {
      FindUnique(entries, found.value);
      SlugOfFileName(slug);
      GetAllPostsMeaning(entries);
    }
  }

  /** `getPostsByTag`. */
  function GetPostsByTag(entries: seq<Entry>, tag: string): seq<Post> {
    Filter(GetAllPosts(entries), (p: Post) => tag in p.tags)
  }

  /**
   * The posts of a tag are the posts of `getAllPosts` that carry it, each
   * as often as there and in the same order (the subsequence at exactly
   * the positions of posts with the tag), so still newest first.
   */
  lemma GetPostsByTagMeaning(entries: seq<Entry>, tag: string, p: Post)
    ensures multiset(GetPostsByTag(entries, tag))[p] ==
      if tag in p.tags then multiset(GetAllPosts(entries))[p] else 0
    ensures var all := GetAllPosts(entries);
      exists idx :: Picks(idx, GetPostsByTag(entries, tag), all)
        && forall i :: 0 <= i < |all| ==> (i in idx <==> tag in all[i].tags)
    ensures SortedDesc(GetPostsByTag(entries, tag), PostPublishedAt)
  {
    var keep := (q: Post) => tag in q.tags;
    FilterCount(GetAllPosts(entries), keep, p);
    var idx := FilterKeepsOrder(GetAllPosts(entries), keep);
    GetAllPostsMeaning(entries);
    FilterSorted(GetAllPosts(entries), keep, PostPublishedAt);
  }

  function TagLists(posts: seq<Post>): seq<seq<string>> {
    Map(posts, PostTags)
  }

  /** `getAllTags`. */
  method GetAllTags(entries: seq<Entry>) returns (r: seq<TagWithCount>)
    ensures r == TagCounts(TagLists(GetAllPosts(entries)))
  {
    var allPosts := GetAllPosts(entries);
    r := CountTags(TagLists(allPosts));
  }

  /** The other copy's post: the same fields, with a missing body as the empty string. */
  function Filled(p: Post): Site.Post {
    Site.Post(p.slug, p.id, p.title, p.description, p.publishedAt, p.updatedAt, p.tags,
      if p.content.Some? then p.content.value else "", p.draft)
  }

  /**
   * The two copies answer every query alike, except that this one leaves a
   * missing body missing where the other gives the empty string: the same
   * posts in the same order, the same post for a slug, the same posts for
   * a tag, and the same tag counts.
   */
  lemma SameAsSiteRepository(entries: seq<Entry>, slug: string, tag: string)
    ensures Site.GetAllPosts(entries) == Map(GetAllPosts(entries), Filled)
    ensures Site.GetPostBySlug(entries, slug) ==
      if GetPostBySlug(entries, slug).Some? then Some(Filled(GetPostBySlug(entries, slug).value)) else None
    ensures Site.GetPostsByTag(entries, tag) == Map(GetPostsByTag(entries, tag), Filled)
    ensures TagCounts(Site.TagLists(Site.GetAllPosts(entries))) == TagCounts(TagLists(GetAllPosts(entries)))
  {
    var posts := GetAllPosts(entries);
    assert Site.GetAllPosts(entries) == Map(posts, Filled);
    FilterMap(posts, (q: Post) => tag in q.tags, Filled, (q: Site.Post) => tag in q.tags);
    assert Site.TagLists(Site.GetAllPosts(entries)) == TagLists(posts);
  }
}
