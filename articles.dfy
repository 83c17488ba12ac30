/**
 * The path arithmetic of the blog assistant's `ArticleService`: slugs
 * generated from titles, article ids (`directory/filename`) split back
 * into a directory and a location, the file name and preview URL of a
 * save, and the entries and order of the article list. The file system
 * is a parameter: a directory listing and a reader of parsed files.
 */
module Articles {
  import opened Wrappers
  import opened Strings
  import opened Sequences
  import opened Sorting
  import opened Slugs
  import opened BlogTypes

  // ----- slugs -----

  /** `generateSlug`. */
  function GenerateSlug(title: string): string {
    Take(TrimDashes(CollapseRuns(Lower(title), IsSlugChar)), SlugMaxLength)
  }

  /**
   * A generated slug has at most 50 characters, all lower-case letters,
   * digits, kana, ideographs or `-`, never two `-` in a row and never a
   * leading `-`; it is empty exactly when no character of the title,
   * lower-cased, is one of those letters.
   */
  lemma GenerateSlugShape(title: string)
    ensures var r := GenerateSlug(title);
      && |r| <= SlugMaxLength && SlugShaped(r, IsSlugChar)
      && (r == [] <==> forall i :: 0 <= i < |title| ==> !IsSlugChar(LowerChar(title[i])))
  {
    var l := Lower(title);
    TrimIsStrip(CollapseRuns(l, IsSlugChar));
    CleanedShape(l, IsSlugChar, SlugMaxLength);
  }

  /** A prefix of characters of the class is copied through the collapse. */
  lemma {:induction false} CollapseKeptPrefix(u: string, rest: string, keep: char -> bool)
    requires !keep('-') && forall i :: 0 <= i < |u| ==> keep(u[i])
    ensures CollapseRuns(u + rest, keep) == u + CollapseRuns(rest, keep)
  {
    if |u| > 0 {
      assert (u + rest)[1..] == u[1..] + rest;
      CollapseKeptPrefix(u[1..], rest, keep);
      assert u == [u[0]] + u[1..];
    } else {
      assert u + rest == rest;
    }
  }

  /**
   * The cut to 50 characters comes after the trimming of dashes, so a slug
   * can end with `-`: a 49-letter word, a space and one more letter give
   * the word followed by `-`.
   */
  lemma GenerateSlugMayEndWithDash(word: string, c: char)
    requires |word| == SlugMaxLength - 1 && forall i :: 0 <= i < |word| ==> IsLowerAlnum(word[i])
    requires IsLowerAlnum(c)
    ensures GenerateSlug(word + " " + [c]) == word + "-"
  {
    var title := word + " " + [c];
    var collapsed := word + ("-" + [c]);
    assert Lower(title) == title;
    assert CollapseRuns(title, IsSlugChar) == collapsed by {
      assert title == word + (" " + [c]);
      CollapseKeptPrefix(word, " " + [c], IsSlugChar);
      assert (" " + [c])[1..] == [c];
      assert CollapseRuns([c], IsSlugChar) == [c] + CollapseRuns([c][1..], IsSlugChar);
    }
    assert TrimDashes(collapsed) == collapsed by {
      assert NoDoubleDash(collapsed) && collapsed[0] != '-' && collapsed[|collapsed| - 1] == c;
      TrimIsStrip(collapsed);
    }
    assert collapsed[..SlugMaxLength] == word + "-";
  }

  // ----- article ids -----

  /** `id.split('/')`: the directory is the first piece, the rest the other pieces rejoined with `/`. */
  function SplitId(id: string): (r: (string, string))
    ensures '/' in id ==> r.0 == id[..IndexOf(id, '/')] && r.1 == id[IndexOf(id, '/') + 1..]
    ensures '/' !in id ==> r.0 == id && r.1 == ""
  {
    var parts := Split(id, '/');
    SplitHead(id, '/');
    SplitTail(id, '/');
    (parts[0], Join(parts[1..], "/"))
  }

  /** An id built as `directory/rest` splits back into its directory and rest. */
  lemma SplitIdOfJoin(directory: string, rest: string)
    requires '/' !in directory
    ensures SplitId(directory + "/" + rest) == (directory, rest)
  {
    var id := directory + "/" + rest;
    assert id[|directory|] == '/';
    assert id[..|directory|] == directory;
    var i := IndexOf(id, '/');
    assert i == |directory|;
    assert id[|directory| + 1..] == rest;
  }

  const IndexSuffix: string := "/index.md"

  /** Where an id points: the article's slug, its file name, and whether it is a folder. */
  datatype Location = Location(slug: string, filename: string, isFolder: bool)

  /** The location `getArticle` derives from an id. */
  function Locate(id: string): Location {
    var parts := Split(id, '/');
    var rest := SplitId(id).1;
    if EndsWith(rest, IndexSuffix) then
      Location(ReplaceFirst(rest, IndexSuffix, ""), rest, true)
    else if '/' in rest then
      assert |parts| > 1;
      Location(parts[1], parts[1] + "/index.md", true)
    else
      Location(ParseName(rest), rest, false)
  }

  /** What `deleteArticle` removes for an id. */
  datatype Removal = RemoveFolder(folder: string) | RemoveFile(file: string)

  function DeleteTarget(id: string): Removal {
    var rest := SplitId(id).1;
    if EndsWith(rest, IndexSuffix) then RemoveFolder(ReplaceFirst(rest, IndexSuffix, ""))
    else RemoveFile(rest)
  }

  /**
   * An id whose rest has a `/` but does not end with `/index.md` names the
   * folder of the rest's first segment.
   */
  lemma LocateNestedId(id: string)
    requires var rest := SplitId(id).1; !EndsWith(rest, IndexSuffix) && '/' in rest
    ensures var rest := SplitId(id).1;
      var slug := rest[..IndexOf(rest, '/')];
      Locate(id) == Location(slug, slug + "/index.md", true)
  {
    var d := IndexOf(id, '/');
    var rest := id[d + 1..];
    assert id == id[..d] + ['/'] + rest;
    SplitAfter(id[..d], '/', rest);
    SplitHead(rest, '/');
  }

  /** `path.parse(p).name`: the last segment of the path without its extension. */
  function ParseName(p: string): (name: string)
  {
    var base := p[LastIndexOf(p, '/') + 1..];
    var dot := LastIndexOf(base, '.');
    if dot <= 0 || base == ".." then base else base[..dot]
  }

  /** The name of `stem.md` is the stem. */
  lemma ParseNameOfMarkdown(stem: string)
    requires |stem| > 0 && '/' !in stem
    ensures ParseName(stem + ".md") == stem
  {
    var p := stem + ".md";
    assert '/' !in p by {
      assert forall i :: 0 <= i < |p| ==> p[i] == (if i < |stem| then stem[i] else ".md"[i - |stem|]);
    }
    assert p[|stem|] == '.' && p[|stem| + 1..] == "md";
    assert LastIndexOf(p, '.') == |stem|;
    assert p[..|stem|] == stem;
  }

  /** A name without `/` does not end with `/index.md`. */
  lemma NoSlashNoIndexSuffix(name: string)
    requires '/' !in name
    ensures !EndsWith(name, IndexSuffix)
  {
    if |IndexSuffix| <= |name| {
      var k := |name| - |IndexSuffix|;
      assert name[k] in name;
      assert name[k..][0] == name[k];
    }
  }

  /** Removing the first `/index.md` from `name/index.md`, when `name` has no `/`, gives `name`. */
  lemma FolderOfIndex(name: string)
    requires '/' !in name
    ensures EndsWith(name + IndexSuffix, IndexSuffix)
    ensures ReplaceFirst(name + IndexSuffix, IndexSuffix, "") == name
  {
    assert (name + IndexSuffix)[|name|..] == IndexSuffix;
    ReplaceFirstSkip(name, IndexSuffix, IndexSuffix, "");
    assert ReplaceFirst(IndexSuffix, IndexSuffix, "") == "";
  }

  // ----- listing -----

  /** One item of a directory listing. */
  datatype DirItem = DirItem(name: string, isDirectory: bool, hasIndex: bool)

  /** `ArticleEntry` (the full path is the directory joined with `name`). */
  datatype Entry = Entry(name: string, isFolder: bool, slug: string)

  /** What `findArticleEntries` makes of one item: a folder holding `index.md`, or a `.md` file. */
  function EntryOf(item: DirItem): Option<Entry> {
    if item.name == ".gitkeep" then None
    else if item.isDirectory then
      if item.hasIndex then Some(Entry(item.name, true, item.name)) else None
    else if EndsWith(item.name, ".md") then Some(Entry(item.name, false, ParseName(item.name)))
    else None
  }

  /** The entries of the items, in listing order. */
  function Entries(items: seq<DirItem>): seq<Entry> {
    if |items| == 0 then []
    else
      var last := EntryOf(items[|items| - 1]);
      Entries(items[..|items| - 1]) + (if last.Some? then [last.value] else [])
  }

  /** `findArticleEntries`. */
  method FindArticleEntries(items: seq<DirItem>) returns (entries: seq<Entry>)
    ensures entries == Entries(items)
  {
    entries := [];
    var i := 0;
    while i < |items|
      invariant 0 <= i <= |items|
      invariant entries == Entries(items[..i])
    {
      var item := items[i];
      assert items[..i + 1][..i] == items[..i];
      if item.name == ".gitkeep" {
      } else if item.isDirectory {
        if item.hasIndex {
          entries := entries + [Entry(item.name, true, item.name)];
        }
      } else if EndsWith(item.name, ".md") {
        entries := entries + [Entry(item.name, false, ParseName(item.name))];
      }
      i := i + 1;
    }
    assert items[..|items|] == items;
  }

  /** Every entry comes from an item: a folder with an index, or a `.md` file, never `.gitkeep`. */
  lemma {:induction false} EntriesFromItems(items: seq<DirItem>, k: nat)
    requires k < |Entries(items)|
    ensures exists j :: 0 <= j < |items| && EntryOf(items[j]) == Some(Entries(items)[k])
  {
    var n := |items|;
    var front := Entries(items[..n - 1]);
    if k < |front| {
      EntriesFromItems(items[..n - 1], k);
      var j :| 0 <= j < n - 1 && EntryOf(items[..n - 1][j]) == Some(front[k]);
      assert items[j] == items[..n - 1][j];
    } else {
      assert EntryOf(items[n - 1]) == Some(Entries(items)[k]);
    }
  }

  /** The file name of an entry: `slug/index.md` for a folder. */
  function EntryFilename(e: Entry): string {
    if e.isFolder then e.slug + "/index.md" else e.name
  }

  /** The article `listArticles` builds for an entry of a directory. */
  function ArticleOf(directory: string, e: Entry, parsed: (Frontmatter, string)): Article {
    var filename := EntryFilename(e);
    Article(directory + "/" + filename, e.slug, filename, directory, parsed.0, parsed.1, e.isFolder)
  }

  /** The articles of one directory, in entry order. */
  function ArticlesOf(directory: string, entries: seq<Entry>, read: (string, Entry) -> (Frontmatter, string)): (r: seq<Article>)
    ensures |r| == |entries|
    ensures forall k :: 0 <= k < |r| ==> r[k] == ArticleOf(directory, entries[k], read(directory, entries[k]))
  {
    seq(|entries|, k requires 0 <= k < |entries| => ArticleOf(directory, entries[k], read(directory, entries[k])))
  }

  /** The articles of the listed directories, directory by directory; a missing directory contributes none. */
  function Collected(dirs: seq<string>, listing: string -> Option<seq<DirItem>>, read: (string, Entry) -> (Frontmatter, string)): seq<Article> {
    if |dirs| == 0 then []
    else
      var d := dirs[|dirs| - 1];
      Collected(dirs[..|dirs| - 1], listing, read)
        + (if listing(d).Some? then ArticlesOf(d, Entries(listing(d).value), read) else [])
  }

  /** The sort key: `new Date(publishedAt).getTime()`, given as `time`. */
  function ByPublished(time: string -> int): Article -> int {
    (a: Article) => time(a.frontmatter.publishedAt)
  }

  /** The directories `listArticles` walks: the requested one when it is truthy, else both. */
  function ListedDirectories(directory: Option<string>): seq<string> {
    if Truthy(directory) then [directory.value] else ["blog", "blog-demo"]
  }

  /**
   * `listArticles`: the articles of the requested directory when truthy, else of both,
   * newest first; `listing` is `None` for a directory that does not exist
   * (it is created, and contributes nothing).
   */
  method ListArticles(directory: Option<string>, listing: string -> Option<seq<DirItem>>,
                      read: (string, Entry) -> (Frontmatter, string), time: string -> int)
    returns (articles: seq<Article>)
    ensures articles == SortDesc(Collected(ListedDirectories(directory), listing, read), ByPublished(time))
  {
    var dirs := ListedDirectories(directory);
    var all: seq<Article> := [];
    var i := 0;
    while i < |dirs|
      invariant 0 <= i <= |dirs|
      invariant all == Collected(dirs[..i], listing, read)
    {
      var d := dirs[i];
      assert dirs[..i + 1][..i] == dirs[..i];
      var items := listing(d);
      if items.Some? {
        var entries := FindArticleEntries(items.value);
        var articles := seq(|entries|, k requires 0 <= k < |entries| => ArticleOf(d, entries[k], read(d, entries[k])));
        all := all + articles;
      }
      i := i + 1;
    }
    assert dirs[..|dirs|] == dirs;
    articles := SortDesc(all, ByPublished(time));
  }

  /**
   * Every listed article has the id `directory/filename`, the file name of
   * a folder article is `slug/index.md`, and its directory is one of the
   * listed ones.
   */
  lemma {:induction false} CollectedIds(dirs: seq<string>, listing: string -> Option<seq<DirItem>>,
                                        read: (string, Entry) -> (Frontmatter, string), k: nat)
    requires k < |Collected(dirs, listing, read)|
    ensures var a := Collected(dirs, listing, read)[k];
      && a.id == a.directory + "/" + a.filename && a.directory in dirs
      && (a.isFolder ==> a.filename == a.slug + "/index.md")
  {
    var n := |dirs|;
    var front := Collected(dirs[..n - 1], listing, read);
    if k < |front| {
      CollectedIds(dirs[..n - 1], listing, read, k);
      assert front[k].directory in dirs[..n - 1];
    }
  }

  /**
   * The list is newest first, holds every collected article as often as
   * it was collected, and articles with the same date keep their listing
   * order.
   */
  lemma ListOrder(dirs: seq<string>, listing: string -> Option<seq<DirItem>>,
                  read: (string, Entry) -> (Frontmatter, string), time: string -> int, t: int)
    ensures var all := Collected(dirs, listing, read);
      var r := SortDesc(all, ByPublished(time));
      && SortedDesc(r, ByPublished(time))
      && multiset(r) == multiset(all)
      && WithKey(r, ByPublished(time), t) == WithKey(all, ByPublished(time), t)
  {
    var all := Collected(dirs, listing, read);
    SortDescSorted(all, ByPublished(time));
    SortDescPermutation(all, ByPublished(time));
    SortDescStable(all, ByPublished(time), t);
  }

  /**
   * A listed article's id leads back to it: `getArticle` locates the
   * same slug, file name and kind, and `deleteArticle` removes its folder
   * or its file (directory and item names hold no `/`).
   */
  lemma LocateListed(directory: string, item: DirItem)
    requires '/' !in directory && '/' !in item.name && EntryOf(item).Some?
    ensures var e := EntryOf(item).value;
      var id := directory + "/" + EntryFilename(e);
      && Locate(id) == Location(e.slug, EntryFilename(e), e.isFolder)
      && DeleteTarget(id) == if e.isFolder then RemoveFolder(item.name) else RemoveFile(item.name)
  {
    var e := EntryOf(item).value;
    SplitIdOfJoin(directory, EntryFilename(e));
    if e.isFolder {
      FolderOfIndex(item.name);
    } else {
      NoSlashNoIndexSuffix(item.name);
    }
  }

  // ----- saving -----

  /** `SaveArticleResponse`. */
  datatype SaveResponse = SaveResponse(filename: string, previewUrl: string, isUpdate: bool)

  const PreviewBase: string := "http://localhost:4321/posts/"

  /** `s.split('T')[0]`: the text before the first `T`. */
  function DatePart(s: string): (d: string)
    ensures d == if 'T' in s then s[..IndexOf(s, 'T')] else s
  {
    SplitHead(s, 'T');
    Split(s, 'T')[0]
  }

  /**
   * `saveArticle`: the response and the frontmatter written. `now` is the
   * current ISO time; writing the file is left to the caller.
   */
  function SaveArticle(fm: Frontmatter, customSlug: Option<string>, existingFilename: Option<string>, now: string)
    : (SaveResponse, Frontmatter)
  {
    if Truthy(existingFilename) then
      var filename := existingFilename.value;
      var slug := if EndsWith(filename, IndexSuffix) then ReplaceFirst(filename, IndexSuffix, "") else ParseName(filename);
      (SaveResponse(filename, PreviewBase + slug, true), fm.(updatedAt := Some(DatePart(now))))
    else
      var slug := if Truthy(customSlug) then customSlug.value else GenerateSlug(fm.title);
      var folderSlug := DatePart(fm.publishedAt) + "-" + slug;
      (SaveResponse(folderSlug + "/index.md", PreviewBase + folderSlug, false), fm)
  }

  /** The slug of a new article: the custom one when given, otherwise one generated from the title. */
  function NewSlug(fm: Frontmatter, customSlug: Option<string>): string {
    if Truthy(customSlug) then customSlug.value else GenerateSlug(fm.title)
  }

  /**
   * A new save creates the folder `date-slug/index.md`, dated by the
   * publication date before its `T`, previews at `/posts/date-slug`, and
   * writes the frontmatter unchanged; that file name, as an article id,
   * locates the same folder.
   */
  lemma SaveNew(directory: string, fm: Frontmatter, customSlug: Option<string>, now: string)
    requires '/' !in directory && '/' !in DatePart(fm.publishedAt) && '/' !in NewSlug(fm, customSlug)
    ensures var (r, written) := SaveArticle(fm, customSlug, None, now);
      var folder := DatePart(fm.publishedAt) + "-" + NewSlug(fm, customSlug);
      && r == SaveResponse(folder + "/index.md", PreviewBase + folder, false)
      && written == fm
      && Locate(directory + "/" + r.filename) == Location(folder, r.filename, true)
  {
    var folder := DatePart(fm.publishedAt) + "-" + NewSlug(fm, customSlug);
    assert '/' !in folder;
    SplitIdOfJoin(directory, folder + IndexSuffix);
    FolderOfIndex(folder);
  }

  /** A generated slug holds no `/`. */
  lemma GeneratedSlugHasNoSlash(title: string)
    ensures '/' !in GenerateSlug(title)
  {
    GenerateSlugShape(title);
    var r := GenerateSlug(title);
    forall i | 0 <= i < |r| ensures r[i] != '/' {
      assert IsSlugChar(r[i]) || r[i] == '-';
    }
  }

  /**
   * An update keeps the file name, reports an update, stamps `updatedAt`
   * with today's date and changes nothing else in the frontmatter; the
   * preview of `name/index.md` or of `name.md` is `/posts/name`.
   */
  lemma SaveUpdate(fm: Frontmatter, customSlug: Option<string>, name: string, folder: bool, now: string)
    requires |name| > 0 && '/' !in name
    ensures var filename := if folder then name + IndexSuffix else name + ".md";
      var (r, written) := SaveArticle(fm, customSlug, Some(filename), now);
      && r == SaveResponse(filename, PreviewBase + name, true)
      && written == fm.(updatedAt := Some(DatePart(now)))
  {
    if folder {
      FolderOfIndex(name);
    } else {
      var filename := name + ".md";
      assert '/' !in filename by {
        assert forall i :: 0 <= i < |filename| ==> filename[i] == (if i < |name| then name[i] else ".md"[i - |name|]);
      }
      NoSlashNoIndexSuffix(filename);
      ParseNameOfMarkdown(name);
    }
  }
}
