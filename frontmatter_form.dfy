/**
 * The handlers of the frontmatter editor (`FrontmatterForm`): one field
 * replaced, a tag added once, a tag removed. Each returns the new
 * frontmatter passed to `onChange`, with the tag input box's new text.
 */
module FrontmatterForm {
  import opened Wrappers
  import opened Strings
  import opened Sequences
  import opened BlogTypes

  /** `keyof ArticleFrontmatter`. */
  datatype Field = Title | Description | PublishedAt | UpdatedAt | Tags | HeroImage

  /** A field's value. */
  datatype Value = Text(text: string) | OptionalText(optional: Option<string>) | TagList(list: seq<string>)

  function Get(fm: Frontmatter, f: Field): Value {
    match f
    case Title => Text(fm.title)
    case Description => Text(fm.description)
    case PublishedAt => Text(fm.publishedAt)
    case UpdatedAt => OptionalText(fm.updatedAt)
    case Tags => TagList(fm.tags)
    case HeroImage => OptionalText(fm.heroImage)
  }

  /** The value has the field's type. */
  predicate Fits(f: Field, v: Value) {
    match f
    case Title | Description | PublishedAt => v.Text?
    case UpdatedAt | HeroImage => v.OptionalText?
    case Tags => v.TagList?
  }

  /** `handleChange`: `{ ...value, [field]: fieldValue }`. */
  function HandleChange(fm: Frontmatter, f: Field, v: Value): (r: Frontmatter)
    requires Fits(f, v)
    ensures Get(r, f) == v
    ensures forall g :: g != f ==> Get(r, g) == Get(fm, g)
  {
    match f
    case Title => fm.(title := v.text)
    case Description => fm.(description := v.text)
    case PublishedAt => fm.(publishedAt := v.text)
    case UpdatedAt => fm.(updatedAt := v.optional)
    case Tags => fm.(tags := v.list)
    case HeroImage => fm.(heroImage := v.optional)
  }

  /** Two frontmatters with the same value in every field are the same. */
  lemma FieldsDetermine(a: Frontmatter, b: Frontmatter)
    requires forall f :: Get(a, f) == Get(b, f)
    ensures a == b
  {
    assert Get(a, Title) == Get(b, Title) && Get(a, Description) == Get(b, Description);
    assert Get(a, PublishedAt) == Get(b, PublishedAt) && Get(a, UpdatedAt) == Get(b, UpdatedAt);
    assert Get(a, Tags) == Get(b, Tags) && Get(a, HeroImage) == Get(b, HeroImage);
  }

  /** `handleAddTag`: the new frontmatter and the new text of the tag input. */
  function AddTag(fm: Frontmatter, tagInput: string): (Frontmatter, string) {
    var tag := Trim(tagInput);
    if tag != "" && tag !in fm.tags then (HandleChange(fm, Tags, TagList(fm.tags + [tag])), "")
    else (fm, tagInput)
  }

  /** `handleRemoveTag`. */
  function RemoveTag(fm: Frontmatter, tag: string): Frontmatter {
    HandleChange(fm, Tags, TagList(Filter(fm.tags, (t: string) => t != tag)))
  }

  /**
   * Adding accepts the trimmed input exactly when it is not empty and not
   * yet a tag: it is appended and the input cleared; otherwise nothing
   * changes. Only the tags change, and a list without duplicates keeps
   * none.
   */
  lemma AddTagMeaning(fm: Frontmatter, tagInput: string)
    ensures var (after, input) := AddTag(fm, tagInput);
      var tag := Trim(tagInput);
      && (tag != "" && tag !in fm.tags ==> after.tags == fm.tags + [tag] && input == "")
      && (tag == "" || tag in fm.tags ==> after == fm && input == tagInput)
      && (forall f :: f != Tags ==> Get(after, f) == Get(fm, f))
      && (Distinct(fm.tags) ==> Distinct(after.tags))
  {
    var tag := Trim(tagInput);
    if tag != "" && tag !in fm.tags && Distinct(fm.tags) {
      var ts := fm.tags + [tag];
      forall i, j | 0 <= i < j < |ts| ensures ts[i] != ts[j] {
        assert ts[i] == fm.tags[i];
        if j < |fm.tags| {
          assert ts[j] == fm.tags[j];
        }
      }
    }
  }

  /**
   * Removing drops every copy of the tag and keeps each other tag as often
   * as before and in order: the new list is the old one at exactly the
   * positions of the other tags. Removing a tag that is not there changes
   * nothing.
   */
  lemma RemoveTagMeaning(fm: Frontmatter, tag: string, x: string)
    ensures var after := RemoveTag(fm, tag);
      && (x in after.tags <==> x in fm.tags && x != tag)
      && multiset(after.tags)[x] == (if x == tag then 0 else multiset(fm.tags)[x])
      && (exists idx :: Picks(idx, after.tags, fm.tags)
            && forall i :: 0 <= i < |fm.tags| ==> (i in idx <==> fm.tags[i] != tag))
      && (forall f :: f != Tags ==> Get(after, f) == Get(fm, f))
      && (tag !in fm.tags ==> after == fm)
  {
    var keep := (t: string) => t != tag;
    FilterMembers(fm.tags, keep, x);
    FilterCount(fm.tags, keep, x);
    RemoveTagKeepsOrder(fm, tag);
    if tag !in fm.tags {
      FilterAll(fm.tags, keep);
      FieldsDetermine(RemoveTag(fm, tag), fm);
    }
  }

  /** The tags left by removing `tag` are the old ones at exactly the positions of other tags. */
  lemma RemoveTagKeepsOrder(fm: Frontmatter, tag: string)
    ensures exists idx ::
      && Picks(idx, RemoveTag(fm, tag).tags, fm.tags)
      && forall i :: 0 <= i < |fm.tags| ==> (i in idx <==> fm.tags[i] != tag)
  {
    var keep := (t: string) => t != tag;
    var idx := FilterKeepsOrder(fm.tags, keep);
    assert RemoveTag(fm, tag).tags == Filter(fm.tags, keep) by {
      assert Get(RemoveTag(fm, tag), Tags) == TagList(Filter(fm.tags, keep));
    }
  }

  /** Adding a new tag and then removing it gives back the original frontmatter. */
  lemma AddThenRemove(fm: Frontmatter, tagInput: string)
    requires Trim(tagInput) != "" && Trim(tagInput) !in fm.tags
    ensures RemoveTag(AddTag(fm, tagInput).0, Trim(tagInput)) == fm
  {
    var tag := Trim(tagInput);
    var keep := (t: string) => t != tag;
    FilterConcat(fm.tags, [tag], keep);
    FilterAll(fm.tags, keep);
    assert Filter([tag], keep) == [] by {
      assert [tag][1..] == [];
    }
    FieldsDetermine(RemoveTag(AddTag(fm, tagInput).0, tag), fm);
  }

  /** The tag limit of the form. */
  const MaxTags: nat := 10

  /** The add button is enabled: the input is not blank and fewer than 10 tags exist. */
  predicate AddEnabled(fm: Frontmatter, tagInput: string) {
    Trim(tagInput) != "" && |fm.tags| < MaxTags
  }

  /** Adding through the enabled control never takes the list past 10 tags. */
  lemma AddKeepsLimit(fm: Frontmatter, tagInput: string)
    requires |fm.tags| <= MaxTags
    ensures AddEnabled(fm, tagInput) ==> |AddTag(fm, tagInput).0.tags| <= MaxTags
    ensures !AddEnabled(fm, tagInput) && |fm.tags| < MaxTags ==> AddTag(fm, tagInput).0 == fm
  {
  }

  /** The handler itself does not check the limit: an eleventh new tag is accepted. */
  lemma AddIgnoresLimit(fm: Frontmatter, tagInput: string)
    requires |fm.tags| == MaxTags && Trim(tagInput) != "" && Trim(tagInput) !in fm.tags
    ensures |AddTag(fm, tagInput).0.tags| == MaxTags + 1
  {
  }
}
