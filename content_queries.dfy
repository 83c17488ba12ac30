/**
 * What the two `MarkdownRepository` copies have in common: the `blog`
 * collection's entries, the draft filter and date sort of `getAllPosts`,
 * the `getEntry` lookup, and the tag tally of `getAllTags` kept in a
 * `Map<string, number>`. The collection itself is a parameter: reading it
 * from disk is left out.
 */
module ContentQueries {
  import opened Wrappers
  import opened Strings
  import opened Sequences
  import opened Sorting

  /** An entry's validated frontmatter; dates are `getTime()` values, milliseconds since the epoch. */
  datatype EntryData = EntryData(
    title: string,
    description: string,
    publishedAt: int,
    updatedAt: Option<int>,
    tags: seq<string>,
    draft: bool)

  /** A `blog` collection entry: its id (the Markdown file's name), data and optional body. */
  datatype Entry = Entry(id: string, data: EntryData, body: Option<string>)

  /** `TagWithCount`. */
  datatype TagWithCount = TagWithCount(name: string, count: int)

  predicate IsPublic(e: Entry) {
    !e.data.draft
  }

  function PublishedAt(e: Entry): int {
    e.data.publishedAt
  }

  function EntryId(e: Entry): string {
    e.id
  }

  /** `entries.filter((entry) => !entry.data.draft).sort((a, b) => b.publishedAt - a.publishedAt)`. */
  function PublicEntries(entries: seq<Entry>): seq<Entry> {
    SortDesc(Filter(entries, IsPublic), PublishedAt)
  }

  /**
   * The public entries are the non-draft entries, each as often as in the
   * collection, newest first.
   */
  lemma PublicEntriesMeaning(entries: seq<Entry>)
    ensures SortedDesc(PublicEntries(entries), PublishedAt)
    ensures multiset(PublicEntries(entries)) == multiset(Filter(entries, IsPublic))
    ensures forall e :: e in PublicEntries(entries) <==> e in entries && !e.data.draft
  {
    SortDescSorted(Filter(entries, IsPublic), PublishedAt);
    SortDescPermutation(Filter(entries, IsPublic), PublishedAt);
    forall e ensures e in PublicEntries(entries) <==> e in entries && !e.data.draft {
      FilterMembers(entries, IsPublic, e);
      assert e in PublicEntries(entries) <==> e in multiset(PublicEntries(entries));
    }
  }

  /** `id.replace(/\.md$/, '')`: the post's slug. */
  function SlugOf(id: string): (slug: string)
    ensures EndsWith(id, ".md") ==> slug + ".md" == id
    ensures !EndsWith(id, ".md") ==> slug == id
  {
    StripSuffix(id, ".md")
  }

  /** The slug of `{slug}.md` is `slug`. */
  lemma SlugOfFileName(slug: string)
    ensures SlugOf(slug + ".md") == slug
  {
    var id := slug + ".md";
    assert id[|id| - 3..] == ".md";
    assert SlugOf(id) == id[..|id| - 3];
  }

  /** A collection's ids are unique. */
  predicate DistinctIds(entries: seq<Entry>) {
    forall i, j :: 0 <= i < j < |entries| ==> entries[i].id != entries[j].id
  }

  /** `getEntry('blog', id)`: the entry with that id, or nothing. */
  function FindEntry(entries: seq<Entry>, id: string): (r: Option<Entry>)
    ensures r.None? <==> forall k :: 0 <= k < |entries| ==> entries[k].id != id
    ensures r.Some? ==> r.value in entries && r.value.id == id
  {
    if |entries| == 0 then None
    else if entries[0].id == id then Some(entries[0])
    else
      assert forall k :: 1 <= k < |entries| ==> entries[k] == entries[1..][k - 1];
      FindEntry(entries[1..], id)
  }

  /** In a collection with unique ids, looking up an entry's id finds that entry. */
  lemma {:induction false} FindUnique(entries: seq<Entry>, e: Entry)
    requires DistinctIds(entries) && e in entries
    ensures FindEntry(entries, e.id) == Some(e)
  {
    if entries[0] != e {
      var tail := entries[1..];
      assert forall i, j :: 0 <= i < j < |tail| ==> tail[i] == entries[i + 1] && tail[j] == entries[j + 1];
      assert e in tail;
      var k :| 0 <= k < |tail| && tail[k] == e;
      assert entries[k + 1] == e;
      FindUnique(tail, e);
    }
  }

  /** `Array.from(tagMap.entries()).map(([name, count]) => ({ name, count }))`: each tag once, in the order it was first seen, with its number of occurrences. */
  function Tallies(tags: seq<string>): (r: seq<TagWithCount>)
    ensures |r| == |Dedup(tags)|
    ensures forall k :: 0 <= k < |r| ==> r[k] == TagWithCount(Dedup(tags)[k], multiset(tags)[Dedup(tags)[k]])
  {
    var names := Dedup(tags);
    seq(|names|, k requires 0 <= k < |names| => TagWithCount(names[k], multiset(tags)[names[k]]))
  }

  function CountOf(t: TagWithCount): int {
    t.count
  }

  /** The result of `getAllTags` for posts with these tag lists: the tallies sorted by `b.count - a.count`. */
  function TagCounts(tagLists: seq<seq<string>>): seq<TagWithCount> {
    SortDesc(Tallies(Flatten(tagLists)), CountOf)
  }

  /** The `Map` after counting `seen`: its keys in insertion order, each mapped to its number of occurrences. */
  ghost predicate Tally(keys: seq<string>, counts: map<string, nat>, seen: seq<string>) {
    && keys == Dedup(seen)
    && (forall t :: t in counts <==> t in keys)
    && (forall t :: t in counts ==> counts[t] == multiset(seen)[t])
  }

  /** `tagMap.set(tag, (tagMap.get(tag) || 0) + 1)` for the next tag of a post counts one more of it. */
  lemma TallyAdd(keys: seq<string>, counts: map<string, nat>, seen: seq<string>, tags: seq<string>, j: nat)
    requires j < |tags| && Tally(keys, counts, seen + tags[..j])
    ensures Tally(if tags[j] in counts then keys else keys + [tags[j]],
                  counts[tags[j] := (if tags[j] in counts then counts[tags[j]] else 0) + 1],
                  seen + tags[..j + 1])
  {
    var next := seen + tags[..j + 1];
    PrefixSnoc(seen, tags, j);
    assert next[..|next| - 1] == seen + tags[..j];
    assert multiset(next) == multiset(seen + tags[..j]) + multiset{tags[j]};
  }

  /** The inner loop of `getAllTags`: one post's tags counted into the `Map`. */
  method CountInto(keys: seq<string>, counts: map<string, nat>, tags: seq<string>, ghost seen: seq<string>)
    returns (keys': seq<string>, counts': map<string, nat>)
    requires Tally(keys, counts, seen)
    ensures Tally(keys', counts', seen + tags)
  {
    keys', counts' := keys, counts;
    assert seen + tags[..0] == seen;
    for j := 0 to |tags|
      invariant Tally(keys', counts', seen + tags[..j])
    {
      TallyAdd(keys', counts', seen, tags, j);
      var tag := tags[j];
      var n := if tag in counts' then counts'[tag] else 0;
      keys' := if tag in counts' then keys' else keys' + [tag];
      counts' := counts'[tag := n + 1];
    }
    assert tags[..|tags|] == tags;
  }

  /**
   * The counting loops of `getAllTags`: the `Map` is its keys in insertion
   * order and a map from key to count; each tag of each post adds one.
   */
  method CountTags(tagLists: seq<seq<string>>) returns (r: seq<TagWithCount>)
    ensures r == TagCounts(tagLists)
  {
    var keys: seq<string> := [];
    var counts: map<string, nat> := map[];
    for i := 0 to |tagLists|
      invariant Tally(keys, counts, Flatten(tagLists[..i]))
    {
      keys, counts := CountInto(keys, counts, tagLists[i], Flatten(tagLists[..i]));
      assert Flatten(tagLists[..i + 1]) == Flatten(tagLists[..i]) + tagLists[i] by {
        assert tagLists[..i + 1] == tagLists[..i] + [tagLists[i]];
        FlattenSnoc(tagLists[..i], tagLists[i]);
      }
    }
    assert tagLists[..|tagLists|] == tagLists;
    var pairs := seq(|keys|, k requires 0 <= k < |keys| => TagWithCount(keys[k], counts[keys[k]]));
    assert pairs == Tallies(Flatten(tagLists));
    r := SortDesc(pairs, CountOf);
  }

  /**
   * `getAllTags` lists every tag that occurs in some list exactly once,
   * with its number of occurrences across all lists (at least one), by
   * non-increasing count; tags with equal counts keep the order in which
   * the `Map` first saw them.
   */
  lemma TagCountsMeaning(tagLists: seq<seq<string>>, tag: string)
    ensures var r := TagCounts(tagLists);
      && (forall i, j :: 0 <= i < j < |r| ==> r[i].name != r[j].name)
      && (forall k :: 0 <= k < |r| ==> r[k].count == multiset(Flatten(tagLists))[r[k].name] >= 1)
      && ((exists k :: 0 <= k < |r| && r[k].name == tag) <==> exists i :: 0 <= i < |tagLists| && tag in tagLists[i])
      && SortedDesc(r, CountOf)
      && (forall c :: WithKey(r, CountOf, c) == WithKey(Tallies(Flatten(tagLists)), CountOf, c))
  {
    var tallies := Tallies(Flatten(tagLists));
    SortDescSorted(tallies, CountOf);
    forall c ensures WithKey(TagCounts(tagLists), CountOf, c) == WithKey(tallies, CountOf, c) {
      SortDescStable(tallies, CountOf, c);
    }
    TagCountsEntries(tagLists);
    TagCountsDistinct(tagLists);
    TagCountsNames(tagLists, tag);
  }

  /** Each listed tag carries its number of occurrences, which is positive. */
  lemma TagCountsEntries(tagLists: seq<seq<string>>)
    ensures var r := TagCounts(tagLists);
      forall k :: 0 <= k < |r| ==> r[k] in Tallies(Flatten(tagLists)) && r[k].count == multiset(Flatten(tagLists))[r[k].name] >= 1
  {
    var all := Flatten(tagLists);
    var tallies := Tallies(all);
    var r := TagCounts(tagLists);
    SortDescPermutation(tallies, CountOf);
    forall k | 0 <= k < |r| ensures r[k] in tallies && r[k].count == multiset(all)[r[k].name] >= 1 {
      assert r[k] in multiset(r);
      var m :| 0 <= m < |tallies| && tallies[m] == r[k];
      assert Dedup(all)[m] in all;
    }
  }

  /** No tag is listed twice. */
  lemma TagCountsDistinct(tagLists: seq<seq<string>>)
    ensures var r := TagCounts(tagLists);
      forall i, j :: 0 <= i < j < |r| ==> r[i].name != r[j].name
  {
    var tallies := Tallies(Flatten(tagLists));
    var r := TagCounts(tagLists);
    SortDescPermutation(tallies, CountOf);
    assert Distinct(tallies);
    DistinctAtMostOnce(tallies);
    AtMostOnceDistinct(r);
    TagCountsEntries(tagLists);
  }

  /** A tag is listed exactly when some list holds it. */
  lemma TagCountsNames(tagLists: seq<seq<string>>, tag: string)
    ensures var r := TagCounts(tagLists);
      (exists k :: 0 <= k < |r| && r[k].name == tag) <==> exists i :: 0 <= i < |tagLists| && tag in tagLists[i]
  {
    var all := Flatten(tagLists);
    var tallies := Tallies(all);
    var r := TagCounts(tagLists);
    FlattenMembers(tagLists, tag);
    TagCountsEntries(tagLists);
    if tag in all {
      var m :| 0 <= m < |Dedup(all)| && Dedup(all)[m] == tag;
      SortDescPermutation(tallies, CountOf);
      assert tallies[m] in multiset(r);
    } else {
      assert forall k :: 0 <= k < |r| ==> r[k].name in Dedup(all);
    }
  }

  /** The lists that mention `tag`. */
  function Mentioning(tagLists: seq<seq<string>>, tag: string): seq<seq<string>> {
    Filter(tagLists, (l: seq<string>) => tag in l)
  }

  /** When no list repeats a tag, a tag occurs once per list that mentions it. */
  lemma {:induction false} TagOccurrences(tagLists: seq<seq<string>>, tag: string)
    requires forall i :: 0 <= i < |tagLists| ==> Distinct(tagLists[i])
    ensures multiset(Flatten(tagLists))[tag] == |Mentioning(tagLists, tag)|
  {
    if |tagLists| > 0 {
      var head := tagLists[0];
      TagOccurrences(tagLists[1..], tag);
      DistinctAtMostOnce(head);
      assert tag in head <==> multiset(head)[tag] >= 1;
    }
  }
}
