/**
 * The blog site's `MarkdownRepository`: the published posts newest first,
 * one post by slug, the posts of a tag, and every tag with its number of
 * posts. The `blog` collection (`getCollection`, `getEntry`) is a
 * parameter.
 */
module MarkdownRepository {
  import opened Wrappers
  import opened Strings
  import opened Sequences
  import opened Sorting
  import opened ContentQueries

  /** `Post`. */
  datatype Post = Post(
    slug: string,
    id: string,
    title: string,
    description: string,
    publishedAt: int,
    updatedAt: Option<int>,
    tags: seq<string>,
    content: string,
    draft: bool)

  function PostPublishedAt(p: Post): int {
    p.publishedAt
  }

  function PostTags(p: Post): seq<string> {
    p.tags
  }

  /**
   * `mapEntryToPost`: the slug is the id without its `.md` ending, the
   * content the body or the empty string; every other field is copied.
   */
  function MapEntryToPost(e: Entry): (p: Post)
    ensures EndsWith(e.id, ".md") ==> p.slug + ".md" == e.id
    ensures !EndsWith(e.id, ".md") ==> p.slug == e.id
    ensures e.body.Some? ==> p.content == e.body.value
    ensures e.body.None? ==> p.content == ""
  {
    Post(SlugOf(e.id), e.id, e.data.title, e.data.description, e.data.publishedAt,
      e.data.updatedAt, e.data.tags, if e.body.Some? then e.body.value else "", e.data.draft)
  }

  /** `getAllPosts`: drafts dropped, newest first, each entry mapped to a post. */
  function GetAllPosts(entries: seq<Entry>): seq<Post> {
    Map(PublicEntries(entries), MapEntryToPost)
  }

  /**
   * The posts are those of the non-draft entries, each entry exactly once
   * (the posts are the images of a permutation of the non-draft entries),
   * and no draft; they are ordered by non-increasing `publishedAt`.
   */
  lemma GetAllPostsMeaning(entries: seq<Entry>)
    ensures var posts := GetAllPosts(entries);
      && SortedDesc(posts, PostPublishedAt)
      && (exists order :: multiset(order) == multiset(Filter(entries, IsPublic)) && posts == Map(order, MapEntryToPost))
      && (forall p :: p in posts ==> !p.draft && exists e :: e in entries && !e.data.draft && p == MapEntryToPost(e))
      && (forall e :: e in entries && !e.data.draft ==> MapEntryToPost(e) in posts)
  {
    var order := PublicEntries(entries);
    var posts := GetAllPosts(entries);
    PublicEntriesMeaning(entries);
    forall p | p in posts ensures !p.draft && exists e :: e in entries && !e.data.draft && p == MapEntryToPost(e) {
      var k :| 0 <= k < |posts| && posts[k] == p;
      assert order[k] in order;
    }
    forall e | e in entries && !e.data.draft ensures MapEntryToPost(e) in posts {
      var k :| 0 <= k < |order| && order[k] == e;
      assert posts[k] == MapEntryToPost(e);
    }
  }

  /** `getPostBySlug`: the entry `{slug}.md`, unless it is missing or a draft. */
  function GetPostBySlug(entries: seq<Entry>, slug: string): Option<Post> {
    var found := FindEntry(entries, slug + ".md");
    if found.None? || found.value.data.draft then None else Some(MapEntryToPost(found.value))
  }

  /**
   * In a collection (whose ids are unique) there is no post for a slug
   * exactly when no entry `{slug}.md` exists or it is a draft; a post that
   * is found is one of `getAllPosts` and carries that slug.
   */
  lemma GetPostBySlugMeaning(entries: seq<Entry>, slug: string)
    requires DistinctIds(entries)
    ensures GetPostBySlug(entries, slug).None? <==>
      forall e :: e in entries && e.id == slug + ".md" ==> e.data.draft
    ensures GetPostBySlug(entries, slug).Some? ==>
      var p := GetPostBySlug(entries, slug).value;
      p in GetAllPosts(entries) && p.slug == slug && p.id == slug + ".md"
  {
    var found := FindEntry(entries, slug + ".md");
    if found.Some? {
      FindUnique(entries, found.value);
      SlugOfFileName(slug);
      GetAllPostsMeaning(entries);
    }
  }

  /** Every listed post whose id ends in `.md` is found again by its slug. */
  lemma GetPostBySlugFindsListed(entries: seq<Entry>, p: Post)
    requires DistinctIds(entries) && p in GetAllPosts(entries) && EndsWith(p.id, ".md")
    ensures GetPostBySlug(entries, p.slug) == Some(p)
  {
    GetAllPostsMeaning(entries);
    var e :| e in entries && !e.data.draft && p == MapEntryToPost(e);
    FindUnique(entries, e);
  }

  /** `getPostsByTag`. */
  function GetPostsByTag(entries: seq<Entry>, tag: string): seq<Post> {
    Filter(GetAllPosts(entries), (p: Post) => tag in p.tags)
  }

  /**
   * The posts of a tag are the posts of `getAllPosts` that carry it, each
   * as often as there and in the same order (the subsequence at exactly
   * the positions of posts with the tag), so still newest first.
   */
  lemma GetPostsByTagMeaning(entries: seq<Entry>, tag: string, p: Post)
    ensures multiset(GetPostsByTag(entries, tag))[p] ==
      if tag in p.tags then multiset(GetAllPosts(entries))[p] else 0
    ensures var all := GetAllPosts(entries);
      exists idx :: Picks(idx, GetPostsByTag(entries, tag), all)
        && forall i :: 0 <= i < |all| ==> (i in idx <==> tag in all[i].tags)
    ensures SortedDesc(GetPostsByTag(entries, tag), PostPublishedAt)
  {
    var keep := (q: Post) => tag in q.tags;
    FilterCount(GetAllPosts(entries), keep, p);
    var idx := FilterKeepsOrder(GetAllPosts(entries), keep);
    GetAllPostsMeaning(entries);
    FilterSorted(GetAllPosts(entries), keep, PostPublishedAt);
  }

  /** The tag lists of the posts, in order. */
  function TagLists(posts: seq<Post>): seq<seq<string>> {
    Map(posts, PostTags)
  }

  /** `getAllTags`. */
  method GetAllTags(entries: seq<Entry>) returns (r: seq<TagWithCount>)
    ensures r == TagCounts(TagLists(GetAllPosts(entries)))
  {
    var allPosts := GetAllPosts(entries);
    r := CountTags(TagLists(allPosts));
  }

  /**
   * When no entry lists a tag twice, the count `getAllTags` gives a tag is
   * the number of posts `getPostsByTag` returns for it.
   */
  lemma TagCountsArePostCounts(entries: seq<Entry>)
    requires forall e :: e in entries ==> Distinct(e.data.tags)
    ensures var r := TagCounts(TagLists(GetAllPosts(entries)));
      forall k :: 0 <= k < |r| ==> r[k].count == |GetPostsByTag(entries, r[k].name)|
  {
    var posts := GetAllPosts(entries);
    var lists := TagLists(posts);
    var r := TagCounts(lists);
    GetAllPostsMeaning(entries);
    assert forall i :: 0 <= i < |lists| ==> Distinct(lists[i]) by {
      forall i | 0 <= i < |lists| ensures Distinct(lists[i]) {
        assert posts[i] in posts;
      }
    }
    TagCountsEntries(lists);
    forall k | 0 <= k < |r| ensures r[k].count == |GetPostsByTag(entries, r[k].name)| {
      var tag := r[k].name;
      TagOccurrences(lists, tag);
      FilterMap(posts, (q: Post) => tag in q.tags, PostTags, (l: seq<string>) => tag in l);
    }
  }
}
