/**
 * The string logic of the blog assistant's save dialog (`SaveModal`): the
 * slug cleaned for a file name, the save guard, and the previewed file
 * name and URL. The dialog's React state is left out; its inputs are
 * parameters.
 */
module SaveModal {
  import opened Wrappers
  import opened Strings
  import opened Slugs
  import opened BlogTypes
  import Articles

  /** `finalSlug`: lower-case, `[^a-z0-9-]` to `-`, dash runs to one, one end dash off each side, 50 characters. */
  function FinalSlug(slug: string): string {
    Take(StripOneDash(CollapseDashes(MapToDash(Lower(slug), IsLowerAlnum))), SlugMaxLength)
  }

  /** `normalizeSlug`: the same chain over the class with kana and ideographs. */
  function NormalizeSlug(value: string): string {
    Take(StripOneDash(CollapseDashes(CollapseRuns(Lower(value), IsSlugChar))), SlugMaxLength)
  }

  /** `hasJapanese`: some character is kana or an ideograph of U+4E00 to U+9FAF. */
  function HasJapanese(slug: string): (r: bool)
    ensures r <==> exists i :: 0 <= i < |slug| && IsJapanese(slug[i])
  {
    if |slug| == 0 then false
    else
      assert forall i :: 1 <= i < |slug| ==> slug[i] == slug[1..][i - 1];
      IsJapanese(slug[0]) || HasJapanese(slug[1..])
  }

  lemma LowerAlnum(c: char)
    ensures IsLowerAlnum(LowerChar(c)) <==> IsAsciiAlnum(c)
  {
  }

  /**
   * The final slug has at most 50 characters, only `a-z`, `0-9` and `-`,
   * no `--` and no leading `-`; it is empty exactly when the input has no
   * ASCII letter or digit.
   */
  lemma FinalSlugShape(slug: string)
    ensures var r := FinalSlug(slug);
      && |r| <= SlugMaxLength && SlugShaped(r, IsLowerAlnum)
      && (r == [] <==> forall i :: 0 <= i < |slug| ==> !IsAsciiAlnum(slug[i]))
  {
    var l := Lower(slug);
    CollapseDashesOfMap(l, IsLowerAlnum);
    CleanedShape(l, IsLowerAlnum, SlugMaxLength);
    forall i | 0 <= i < |slug| ensures IsLowerAlnum(l[i]) <==> IsAsciiAlnum(slug[i]) {
      LowerAlnum(slug[i]);
    }
  }

  /** The final slug holds no kana or ideograph. */
  lemma FinalSlugHasNoJapanese(slug: string)
    ensures !HasJapanese(FinalSlug(slug))
  {
    FinalSlugShape(slug);
    var r := FinalSlug(slug);
    forall i | 0 <= i < |r| ensures !IsJapanese(r[i]) {
      assert IsLowerAlnum(r[i]) || r[i] == '-';
    }
  }

  /** The client's `normalizeSlug` and the server's `generateSlug` agree on every input. */
  lemma NormalizeIsGenerate(value: string)
    ensures NormalizeSlug(value) == Articles.GenerateSlug(value)
  {
    var c := CollapseRuns(Lower(value), IsSlugChar);
    CollapseDashesNoop(c);
    TrimIsStrip(c);
  }

  /** The dialog is updating when it was given an existing file name (`!!existingFilename`). */
  predicate IsUpdate(existingFilename: Option<string>) {
    Truthy(existingFilename)
  }

  /** `handleSave`: the slug `onSave` is called with, or `None` when it is not called. */
  function SaveCall(existingFilename: Option<string>, slug: string): Option<string> {
    var finalSlug := FinalSlug(slug);
    if IsUpdate(existingFilename) || Trim(finalSlug) != "" then
      Some(if IsUpdate(existingFilename) then "" else finalSlug)
    else None
  }

  /**
   * `onSave` is called for every update, with an empty slug, and for a new
   * article exactly when the slug has an ASCII letter or digit, with the
   * final slug.
   */
  lemma SaveGuard(existingFilename: Option<string>, slug: string)
    ensures SaveCall(existingFilename, slug).Some? <==>
      IsUpdate(existingFilename) || exists i :: 0 <= i < |slug| && IsAsciiAlnum(slug[i])
    ensures IsUpdate(existingFilename) ==> SaveCall(existingFilename, slug) == Some("")
    ensures !IsUpdate(existingFilename) && SaveCall(existingFilename, slug).Some? ==>
      SaveCall(existingFilename, slug) == Some(FinalSlug(slug))
  {
    FinalSlugShape(slug);
    TrimNoSpace(FinalSlug(slug));
  }

  /** A string without white space is its own trim. */
  lemma TrimNoSpace(s: string)
    requires forall i :: 0 <= i < |s| ==> IsLowerAlnum(s[i]) || s[i] == '-'
    ensures Trim(s) == s
  {
    assert s == [] || (!IsSpace(s[0]) && !IsSpace(s[|s| - 1])) by {
      if |s| > 0 {
        assert IsLowerAlnum(s[0]) || s[0] == '-';
        assert IsLowerAlnum(s[|s| - 1]) || s[|s| - 1] == '-';
      }
    }
    TrimUnspaced(s);
  }

  /** The slug shown when the final slug is empty. */
  const PlaceholderSlug: string := "your-slug"

  function ShownSlug(slug: string): string {
    var finalSlug := FinalSlug(slug);
    if finalSlug != "" then finalSlug else PlaceholderSlug
  }

  /** `previewFilename`. */
  function PreviewFilename(existingFilename: Option<string>, publishedAt: string, slug: string): string {
    if IsUpdate(existingFilename) then existingFilename.value
    else Articles.DatePart(publishedAt) + "-" + ShownSlug(slug) + "/index.md"
  }

  /** The URL path shown after `/posts/`. */
  function PreviewPath(existingFilename: Option<string>, publishedAt: string, slug: string): string {
    if IsUpdate(existingFilename) then StripSuffix(StripSuffix(existingFilename.value, "/index.md"), ".md")
    else Articles.DatePart(publishedAt) + "-" + ShownSlug(slug)
  }

  /**
   * For a new article the dialog previews the file name and URL that
   * `saveArticle` returns when it is given the dialog's slug as
   * `customSlug`. The HTTP route does not forward that slug, so this is a
   * statement about the service, not about the running server.
   */
  lemma PreviewMatchesNewSave(fm: Frontmatter, slug: string, now: string)
    requires SaveCall(None, slug).Some?
    ensures var sent := SaveCall(None, slug).value;
      var (r, _) := Articles.SaveArticle(fm, Some(sent), None, now);
      && PreviewFilename(None, fm.publishedAt, slug) == r.filename
      && Articles.PreviewBase + PreviewPath(None, fm.publishedAt, slug) == r.previewUrl
  {
    SaveGuard(None, slug);
  }

  /**
   * For an update of `name/index.md` (a folder whose name does not itself
   * end in `.md`) or of `name.md`, the dialog previews the existing file
   * name and the URL path `name`, as `saveArticle` returns them when it is
   * given that file name as `existingFilename`. The HTTP route does not
   * forward it either.
   */
  lemma PreviewMatchesUpdate(fm: Frontmatter, name: string, folder: bool, publishedAt: string, slug: string, now: string)
    requires |name| > 0 && '/' !in name && (folder ==> !EndsWith(name, ".md"))
    ensures var filename := if folder then name + "/index.md" else name + ".md";
      var (r, _) := Articles.SaveArticle(fm, None, Some(filename), now);
      && PreviewFilename(Some(filename), publishedAt, slug) == r.filename
      && Articles.PreviewBase + PreviewPath(Some(filename), publishedAt, slug) == r.previewUrl
  {
    var filename := if folder then name + "/index.md" else name + ".md";
    assert Articles.SaveArticle(fm, None, Some(filename), now).0
      == Articles.SaveResponse(filename, Articles.PreviewBase + name, true) by {
      Articles.SaveUpdate(fm, None, name, folder, now);
    }
    assert PreviewPath(Some(filename), publishedAt, slug) == name by {
      if folder {
        StripIndexSuffix(name);
      } else {
        StripMdSuffix(name);
      }
    }
  }

  lemma StripIndexSuffix(name: string)
    requires !EndsWith(name, ".md")
    ensures StripSuffix(StripSuffix(name + "/index.md", "/index.md"), ".md") == name
  {
    var filename := name + "/index.md";
    assert filename[|filename| - 9..] == "/index.md";
    assert filename[..|filename| - 9] == name;
  }

  lemma StripMdSuffix(name: string)
    requires '/' !in name
    ensures StripSuffix(StripSuffix(name + ".md", "/index.md"), ".md") == name
  {
    var filename := name + ".md";
    assert '/' !in filename by {
      assert forall i :: 0 <= i < |filename| ==> filename[i] == (if i < |name| then name[i] else ".md"[i - |name|]);
    }
    Articles.NoSlashNoIndexSuffix(filename);
    assert filename[|filename| - 3..] == ".md";
    assert filename[..|filename| - 3] == name;
  }
}
