/**
 * The skill registry of the blog assistant (`SkillService`): the built-in
 * skills followed by the user's custom skills, kept in memory and
 * persisted (custom skills only) to a JSON file; plus the `{{name}}`
 * placeholder extraction and substitution used by skill prompts.
 */
module Skills {
  import opened Wrappers
  import opened Strings
  import opened Sequences

  // ----- placeholders -----

  /** A non-empty run of `\w` characters. */
  predicate IsWord(w: string) {
    |w| > 0 && forall i :: 0 <= i < |w| ==> IsWordChar(w[i])
  }

  function Placeholder(name: string): string {
    "{{" + name + "}}"
  }

  /** The longest prefix of `s` made of word characters. */
  function WordRun(s: string): (w: string)
    ensures w <= s
    ensures forall i :: 0 <= i < |w| ==> IsWordChar(w[i])
    ensures |w| == |s| || !IsWordChar(s[|w|])
  {
    if |s| > 0 && IsWordChar(s[0]) then [s[0]] + WordRun(s[1..]) else []
  }

  /** A text that spells out `{{w}}` at its start starts with `Placeholder(w)`. */
  lemma PlaceholderAt(t: string, w: string)
    requires |w| + 4 <= |t| && t[0] == '{' && t[1] == '{' && t[2..2 + |w|] == w
    requires t[2 + |w|] == '}' && t[3 + |w|] == '}'
    ensures Placeholder(w) <= t
  {
    var p := Placeholder(w);
    forall i | 0 <= i < |p| ensures p[i] == t[i] {
      if 2 <= i < 2 + |w| {
        assert p[i] == w[i - 2] == t[2..2 + |w|][i - 2];
      }
    }
  }

  /** The name matched by `\{\{(\w+)\}\}` at the very start of `t`, if the pattern matches there. */
  function MatchAt(t: string): (r: Option<string>)
    ensures r.Some? ==> IsWord(r.value) && Placeholder(r.value) <= t
  {
    if |t| >= 2 && t[0] == '{' && t[1] == '{' then
      var w := WordRun(t[2..]);
      if |w| > 0 && |w| + 4 <= |t| && t[2 + |w|] == '}' && t[3 + |w|] == '}' then
        PlaceholderAt(t, w);
        Some(w)
      else None
    else None
  }

  /** Where the search resumes: after the match at the start, or one character further. */
  function Resume(t: string): (d: nat)
    requires |t| > 0
    ensures 0 < d <= |t|
  {
    match MatchAt(t)
    case Some(w) => |Placeholder(w)|
    case None => 1
  }

  /** The names of the global matches, left to right, each search resuming after the previous match. */
  function Matches(t: string): seq<string>
    decreases |t|
  {
    if |t| == 0 then []
    else (if MatchAt(t).Some? then [MatchAt(t).value] else []) + Matches(t[Resume(t)..])
  }

  /** `extractVariables`: the distinct names, in order of first occurrence. */
  function ExtractVariables(template: string): seq<string> {
    Dedup(Matches(template))
  }

  /** The maximal word run of a text that starts with a word and then a non-word character is that word. */
  lemma {:induction false} WordRunOf(s: string, w: string)
    requires w <= s && forall i :: 0 <= i < |w| ==> IsWordChar(w[i])
    requires |w| == |s| || !IsWordChar(s[|w|])
    ensures WordRun(s) == w
  {
    if |w| > 0 {
      WordRunOf(s[1..], w[1..]);
      assert w == [s[0]] + w[1..];
    }
  }

  /** The pattern matches at the start of `t` exactly when `t` starts with a placeholder. */
  lemma MatchAtPlaceholder(t: string, w: string)
    requires IsWord(w) && Placeholder(w) <= t
    ensures MatchAt(t) == Some(w)
  {
    var p := Placeholder(w);
    assert t[0] == p[0] && t[1] == p[1];
    assert t[2 + |w|] == p[2 + |w|] && t[3 + |w|] == p[3 + |w|];
    assert t[2..][..|w|] == w;
    WordRunOf(t[2..], w);
  }

  /** Every extracted name is a word whose placeholder occurs in the template. */
  lemma {:induction false} MatchesSound(t: string, w: string)
    requires w in Matches(t)
    ensures IsWord(w) && Contains(t, Placeholder(w))
    decreases |t|
  {
    var p := Placeholder(w);
    if MatchAt(t) == Some(w) {
      OccursAtFront(t, p);
      ContainsFromOccurrence(t, p, 0);
    } else {
      var d := MatchedLater(t, w);
      MatchesSound(t[d..], w);
      ContainsAfter(t, d, p);
    }
  }

  /** A text contains what one of its suffixes contains. */
  lemma ContainsAfter(t: string, d: nat, p: string)
    requires d <= |t| && Contains(t[d..], p)
    ensures Contains(t, p)
  {
    var j := OccurrenceOfContains(t[d..], p);
    ShiftOccurrence(t, d, p, j);
    ContainsFromOccurrence(t, p, d + j);
  }

  /** A name matched, but not at the start, is matched after `Resume`. */
  lemma MatchedLater(t: string, w: string) returns (d: nat)
    requires w in Matches(t) && MatchAt(t) != Some(w)
    ensures |t| > 0 && d == Resume(t) && w in Matches(t[d..])
  {
    MatchesUnfold(t);
    d := Resume(t);
  }

  lemma ShiftOccurrence(t: string, d: nat, p: string, j: int)
    requires d <= |t| && OccursAt(t[d..], p, j)
    ensures OccursAt(t, p, d + j)
  {
    assert t[d..][j..j + |p|] == t[d + j..d + j + |p|];
  }

  /** Every placeholder occurrence in the template is found. */
  lemma {:induction false} MatchesComplete(t: string, w: string, j: int)
    requires IsWord(w) && OccursAt(t, Placeholder(w), j)
    ensures w in Matches(t)
    decreases |t|
  {
    if MatchAt(t) == Some(w) {
      MatchesUnfold(t);
    } else {
      var j' := OccurrenceInRest(t, w, j);
      MatchesComplete(t[Resume(t)..], w, j');
      MatchedInRest(t, w);
    }
  }

  lemma MatchedInRest(t: string, w: string)
    requires |t| > 0 && w in Matches(t[Resume(t)..])
    ensures w in Matches(t)
  {
    MatchesUnfold(t);
  }


  /** No `{{` starts strictly inside a match. */
  lemma NoBraceInside(t: string, x: string, j: int)
    requires IsWord(x) && Placeholder(x) <= t
    requires 0 < j && j + 1 < |t| && t[j] == '{' && t[j + 1] == '{'
    ensures j >= |Placeholder(x)|
  {
    var p := Placeholder(x);
    assert forall i :: 2 <= i < 2 + |x| ==> t[i] == x[i - 2];
    assert t[|x| + 2] == '}' && t[|x| + 3] == '}';
  }

  /**
   * The extracted names are distinct, and a name is extracted exactly when
   * it is a word whose placeholder `{{name}}` occurs in the template.
   */
  lemma ExtractVariablesMeaning(template: string, w: string)
    ensures Distinct(ExtractVariables(template))
    ensures w in ExtractVariables(template) <==> IsWord(w) && Contains(template, Placeholder(w))
  {
    var ms := Matches(template);
    if w in ExtractVariables(template) {
      var k :| 0 <= k < |ExtractVariables(template)| && ExtractVariables(template)[k] == w;
      MatchesSound(template, w);
    }
    if IsWord(w) && Contains(template, Placeholder(w)) {
      var j := OccurrenceOfContains(template, Placeholder(w));
      MatchesComplete(template, w, j);
      var k :| 0 <= k < |ms| && ms[k] == w;
    }
  }

  /** 1 when the pattern matches at the start of `t`, else 0. */
  function Lead(t: string): nat {
    if MatchAt(t).Some? then 1 else 0
  }

  /** `Matches` one step in: the match at the start, if any, then those after `Resume`. */
  lemma MatchesUnfold(t: string)
    requires |t| > 0
    ensures Matches(t) == (if Lead(t) == 1 then [MatchAt(t).value] else []) + Matches(t[Resume(t)..])
  {
  }

  /** A placeholder occurrence past the start lies past where the search resumes. */
  lemma OccurrenceAfterResume(t: string, w: string, j: int)
    requires IsWord(w) && OccursAt(t, Placeholder(w), j) && j > 0
    ensures j >= Resume(t)
  {
    var p := Placeholder(w);
    assert t[j] == '{' && t[j + 1] == '{' by {
      assert t[j..j + |p|][0] == p[0] && t[j..j + |p|][1] == p[1];
    }
    if MatchAt(t).Some? {
      NoBraceInside(t, MatchAt(t).value, j);
    }
  }

  lemma UnshiftOccurrence(t: string, d: nat, p: string, j: int)
    requires d <= j && OccursAt(t, p, j)
    ensures OccursAt(t[d..], p, j - d)
  {
    assert t[d..][j - d..j - d + |p|] == t[j..j + |p|];
  }

  /**
   * When `x` is matched before `y` is first matched, some occurrence of
   * `x`'s placeholder precedes every occurrence of `y`'s.
   */
  lemma {:induction false} MatchesOrder(t: string, x: string, y: string) returns (a: nat)
    requires x in Matches(t) && y in Matches(t) && FirstIndex(Matches(t), x) < FirstIndex(Matches(t), y)
    ensures OccursAt(t, Placeholder(x), a)
    ensures forall q :: OccursAt(t, Placeholder(y), q) ==> a < q
    decreases |t|
  {
    var front := OrderCase(t, x, y);
    if front {
      a := 0;
      OrderAtFront(t, x, y);
    } else {
      var a' := MatchesOrder(t[Resume(t)..], x, y);
      a := OrderFromRest(t, x, y, a');
    }
  }

  /**
   * Either `x` is matched at the start, or both names are matched after
   * `Resume` in the same order; `y` is never matched at the start.
   */
  lemma OrderCase(t: string, x: string, y: string) returns (front: bool)
    requires x in Matches(t) && y in Matches(t) && FirstIndex(Matches(t), x) < FirstIndex(Matches(t), y)
    ensures |t| > 0 && IsWord(y) && x != y && MatchAt(t) != Some(y)
    ensures front <==> MatchAt(t) == Some(x)
    ensures !front ==> var sub := Matches(t[Resume(t)..]);
      x in sub && y in sub && FirstIndex(sub, x) < FirstIndex(sub, y)
  {
    var ms, sub := Matches(t), t[Resume(t)..];
    MatchesUnfold(t);
    MatchesSound(t, y);
    var h: seq<string> := if Lead(t) == 1 then [MatchAt(t).value] else [];
    FirstIndexHead(ms, h, Matches(sub), y);
    front := MatchAt(t) == Some(x);
    if !front {
      FirstIndexPastHead(ms, h, Matches(sub), x, y);
    }
  }

  /** The match at the start precedes every occurrence of another name's placeholder. */
  lemma OrderAtFront(t: string, x: string, y: string)
    requires MatchAt(t) == Some(x) && IsWord(y) && x != y
    ensures OccursAt(t, Placeholder(x), 0)
    ensures forall q :: OccursAt(t, Placeholder(y), q) ==> 0 < q
  {
    OccursAtFront(t, Placeholder(x));
    forall q | OccursAt(t, Placeholder(y), q) ensures 0 < q {
      NotAtFront(t, y, q);
    }
  }

  /** An order found after `Resume` holds in the whole text, when `y` is not matched at the start. */
  lemma OrderFromRest(t: string, x: string, y: string, a: nat) returns (b: nat)
    requires |t| > 0 && IsWord(y) && MatchAt(t) != Some(y)
    requires OccursAt(t[Resume(t)..], Placeholder(x), a)
    requires forall q :: OccursAt(t[Resume(t)..], Placeholder(y), q) ==> a < q
    ensures b == Resume(t) + a && OccursAt(t, Placeholder(x), b)
    ensures forall q :: OccursAt(t, Placeholder(y), q) ==> b < q
  {
    b := Resume(t) + a;
    ShiftOccurrence(t, Resume(t), Placeholder(x), a);
    forall q | OccursAt(t, Placeholder(y), q) ensures b < q {
      var q' := OccurrenceInRest(t, y, q);
    }
  }

  /** An occurrence of a placeholder that is not matched at the start is one in the text after `Resume`. */
  lemma OccurrenceInRest(t: string, y: string, q: int) returns (q': int)
    requires IsWord(y) && OccursAt(t, Placeholder(y), q) && MatchAt(t) != Some(y)
    ensures q' == q - Resume(t) && OccursAt(t[Resume(t)..], Placeholder(y), q')
  {
    NotAtFront(t, y, q);
    OccurrenceAfterResume(t, y, q);
    UnshiftOccurrence(t, Resume(t), Placeholder(y), q);
    q' := q - Resume(t);
  }

  lemma OccursAtFront(t: string, p: string)
    requires p <= t
    ensures OccursAt(t, p, 0)
  {
    assert t[0..|p|] == p;
  }

  /** A placeholder occurrence at the very start is the match there. */
  lemma NotAtFront(t: string, y: string, q: int)
    requires IsWord(y) && OccursAt(t, Placeholder(y), q) && MatchAt(t) != Some(y)
    ensures q > 0
  {
    if q == 0 {
      assert t[0..|Placeholder(y)|] == Placeholder(y);
      MatchAtPlaceholder(t, y);
    }
  }

  /**
   * The names come in the order of their first placeholders: for two
   * names, an occurrence of the earlier one's placeholder precedes every
   * occurrence of the later one's.
   */
  lemma ExtractVariablesOrder(template: string, i: nat, j: nat)
    requires i < j < |ExtractVariables(template)|
    ensures var ev := ExtractVariables(template);
      exists a ::
        && OccursAt(template, Placeholder(ev[i]), a)
        && forall q :: OccursAt(template, Placeholder(ev[j]), q) ==> a < q
  {
    var ev := ExtractVariables(template);
    DedupOrder(Matches(template), i, j);
    var a := MatchesOrder(template, ev[i], ev[j]);
  }

  // ----- prompt building -----

  /** The template after substituting the given entries one after the other, in order. */
  function Substituted(template: string, variables: seq<(string, string)>): string
  {
    if |variables| == 0 then template
    else
      var last := variables[|variables| - 1];
      ReplaceAll(Substituted(template, variables[..|variables| - 1]), Placeholder(last.0), last.1)
  }

  /** `buildPrompt`: each entry's placeholder replaced globally by its value, entry by entry. */
  method BuildPrompt(template: string, variables: seq<(string, string)>) returns (result: string)
    requires forall k :: 0 <= k < |variables| ==> IsWord(variables[k].0) && '$' !in variables[k].1
    ensures result == Substituted(template, variables)
  {
    result := template;
    var i := 0;
    while i < |variables|
      invariant 0 <= i <= |variables|
      invariant result == Substituted(template, variables[..i])
    {
      var (key, value) := variables[i];
      assert variables[..i + 1][..i] == variables[..i];
      result := ReplaceAll(result, Placeholder(key), value);
      i := i + 1;
    }
    assert variables[..|variables|] == variables;
  }

  /** A template holding none of the supplied placeholders comes back unchanged. */
  lemma {:induction false} SubstitutedAbsent(template: string, variables: seq<(string, string)>)
    requires forall k :: 0 <= k < |variables| ==> !Contains(template, Placeholder(variables[k].0))
    ensures Substituted(template, variables) == template
  {
    if |variables| > 0 {
      var front := variables[..|variables| - 1];
      SubstitutedAbsent(template, front);
      ReplaceAllAbsent(template, Placeholder(variables[|variables| - 1].0), variables[|variables| - 1].1);
    }
  }

  /** A text that does not contain `{{` does not contain a placeholder. */
  lemma NoPlaceholderIn(s: string, key: string)
    requires !Contains(s, "{{")
    ensures !Contains(s, Placeholder(key))
  {
    var p := Placeholder(key);
    if Contains(s, p) {
      ContainsPrefix(s, p, "{{");
    }
  }

  /** A text holding `p` holds every prefix of `p`. */
  lemma {:induction false} ContainsPrefix(s: string, p: string, q: string)
    requires Contains(s, p) && q <= p
    ensures Contains(s, q)
    decreases |s|
  {
    if !(p <= s) {
      ContainsPrefix(s[1..], p, q);
    }
  }

  /** A text whose every character equals the one before it is one character repeated. */
  lemma {:induction false} SameAsFirst(p: string, i: nat)
    requires i < |p| && forall k :: 1 <= k < |p| ==> p[k] == p[k - 1]
    ensures p[i] == p[0]
  {
    if i > 0 {
      SameAsFirst(p, i - 1);
    }
  }

  /** The shape of a placeholder that the proofs below use: `{{`, then something ending in another character. */
  predicate BraceOpened(p: string) {
    |p| >= 2 && p[0] == '{' && p[1] == '{' && p[|p| - 1] != '{'
  }

  /** Such a pattern does not begin one character before another copy of itself. */
  lemma NotShifted(p: string, s: string)
    requires BraceOpened(p) && |p| < |s| && forall k :: 1 <= k <= |p| ==> s[k] == p[k - 1]
    ensures !(p <= s)
  {
    if p <= s {
      forall k | 1 <= k < |p| ensures p[k] == p[k - 1] {
        assert p[k] == s[k];
      }
      SameAsFirst(p, |p| - 1);
    }
  }

  /** A text without `{{` has no `{` followed by another `{`. */
  lemma NoDoubleBrace(u: string)
    requires |u| >= 2 && !Contains(u, "{{")
    ensures u[0] != '{' || u[1] != '{'
  {
    assert !("{{" <= u);
    assert u[..2] == [u[0], u[1]];
  }

  /** No occurrence of the pattern starts at the first character of a non-empty text that does not open with `{{`. */
  lemma NoMatchAtFront(u: string, p: string, rest: string)
    requires BraceOpened(p) && |u| > 0 && (|u| >= 2 ==> u[0] != '{' || u[1] != '{')
    ensures !(p <= u + p + rest)
  {
    var s := u + p + rest;
    if u[0] != '{' {
      assert s[0] == u[0];
    } else if |u| == 1 {
      ShiftedCopy(u[0], p, rest);
      assert s == [u[0]] + p + rest;
      NotShifted(p, s);
    } else {
      assert s[1] == u[1];
    }
  }

  lemma ShiftedCopy(c: char, p: string, rest: string)
    ensures forall k :: 1 <= k <= |p| ==> ([c] + p + rest)[k] == p[k - 1]
  {
  }

  /**
   * The global replacement copies a text without `{{` unchanged up to the
   * pattern that follows it: no occurrence starts inside the text.
   */
  lemma {:induction false} ReplaceAllSkipText(u: string, p: string, rest: string, v: string)
    requires BraceOpened(p) && !Contains(u, "{{")
    ensures ReplaceAll(u + p + rest, p, v) == u + ReplaceAll(p + rest, p, v)
  {
    if |u| > 0 {
      var s := u + p + rest;
      if |u| >= 2 {
        NoDoubleBrace(u);
      }
      NoMatchAtFront(u, p, rest);
      ReplaceAllStep(s, p, v);
      assert s[1..] == u[1..] + p + rest;
      ReplaceAllSkipText(u[1..], p, rest, v);
      ConsTail(u, ReplaceAll(p + rest, p, v));
    } else {
      assert u + p + rest == p + rest;
    }
  }

  /** Where the pattern does not start, the replacement keeps the first character. */
  lemma ReplaceAllStep(s: string, p: string, v: string)
    requires |s| > 0 && |p| > 0 && !(p <= s)
    ensures ReplaceAll(s, p, v) == [s[0]] + ReplaceAll(s[1..], p, v)
  {
  }

  lemma ConsTail(u: string, w: string)
    requires |u| > 0
    ensures [u[0]] + (u[1..] + w) == u + w
  {
    assert u == [u[0]] + u[1..];
  }

  /** Replacing the placeholder in pieces without `{{` joined by it is joining the pieces by the value. */
  lemma {:induction false} ReplaceJoined(pieces: seq<string>, key: string, v: string)
    requires |pieces| >= 1
    requires forall k :: 0 <= k < |pieces| ==> !Contains(pieces[k], "{{")
    ensures ReplaceAll(Join(pieces, Placeholder(key)), Placeholder(key), v) == Join(pieces, v)
  {
    var p := Placeholder(key);
    if |pieces| == 1 {
      NoPlaceholderIn(pieces[0], key);
      ReplaceAllAbsent(pieces[0], p, v);
    } else {
      var x, rest := pieces[0], Join(pieces[1..], p);
      assert ReplaceAll(p + rest, p, v) == v + ReplaceAll(rest, p, v) by {
        assert p <= p + rest && (p + rest)[|p|..] == rest;
      }
      assert BraceOpened(p);
      ReplaceAllSkipText(x, p, rest, v);
      ReplaceJoined(pieces[1..], key, v);
      ConcatAssoc(x, v, Join(pieces[1..], v));
    }
  }

  /**
   * Every occurrence of a supplied placeholder is replaced: a template made
   * of pieces without `{{` (single braces, as in a JSON example, are
   * allowed) around occurrences of `{{key}}` becomes the pieces around the
   * value.
   */
  lemma SubstituteEvery(pieces: seq<string>, key: string, value: string)
    requires |pieces| >= 1 && forall k :: 0 <= k < |pieces| ==> !Contains(pieces[k], "{{")
    ensures Substituted(Join(pieces, Placeholder(key)), [(key, value)]) == Join(pieces, value)
  {
    assert [(key, value)][..0] == [];
    ReplaceJoined(pieces, key, value);
  }

  // ----- skills -----

  datatype Skill = Skill(
    id: string, name: string, description: string, category: string,
    systemPrompt: string, userPromptTemplate: string, variables: seq<string>,
    isBuiltIn: bool, createdAt: string, updatedAt: string)

  /** The editable fields a client sends. */
  datatype SaveSkillRequest = SaveSkillRequest(
    name: string, description: string, category: string, systemPrompt: string, userPromptTemplate: string)

  /** The prose of a built-in skill. */
  datatype BuiltInText = BuiltInText(name: string, description: string, systemPrompt: string, userPromptTemplate: string)

  const BuiltInIds: seq<string> :=
    ["review", "generate-draft", "continue-writing", "supplement", "improve-section", "generate-description", "suggest-tags"]
  const BuiltInCategories: seq<string> :=
    ["review", "generate", "assist", "assist", "assist", "meta", "meta"]
  const BuiltInVariables: seq<seq<string>> := [
    ["content", "title", "description", "tags"], ["topic", "today"], ["content", "title", "description"],
    ["content", "title", "selection"], ["title", "selection"], ["title", "content"], ["title", "content", "existingTags"]]
  const BuiltInDate: string := "2024-01-01T00:00:00Z"

  /** The seven built-in skills, in declaration order. */
  function BuiltInSkills(texts: seq<BuiltInText>): (ss: seq<Skill>)
    requires |texts| == |BuiltInIds|
    ensures |ss| == |BuiltInIds|
    ensures forall k :: 0 <= k < |ss| ==> ss[k].isBuiltIn && ss[k].id == BuiltInIds[k]
  {
    seq(|texts|, k requires 0 <= k < |texts| =>
      Skill(BuiltInIds[k], texts[k].name, texts[k].description, BuiltInCategories[k],
        texts[k].systemPrompt, texts[k].userPromptTemplate, BuiltInVariables[k], true, BuiltInDate, BuiltInDate))
  }

  /** The built-in ids are distinct, so each id names at most one built-in. */
  lemma BuiltInIdsDistinct(texts: seq<BuiltInText>)
    requires |texts| == |BuiltInIds|
    ensures Distinct(BuiltInIds)
    ensures forall i, j :: 0 <= i < j < |BuiltInIds| ==> BuiltInSkills(texts)[i].id != BuiltInSkills(texts)[j].id
  {
  }

  predicate IsCustom(s: Skill) {
    !s.isBuiltIn
  }

  /** The skills written to the file: the custom ones, in order. */
  function Customs(ss: seq<Skill>): seq<Skill> {
    Filter(ss, IsCustom)
  }

  /** The skills file as the service finds it. */
  datatype StoredFile = Missing | Unreadable | Stored(custom: seq<Skill>)

  /** The service's state: the list, whether it was loaded, and the file. */
  datatype State = State(skills: seq<Skill>, initialized: bool, file: StoredFile)

  /** `findIndex` by id. */
  function FindIndex(ss: seq<Skill>, id: string): (r: Option<nat>)
    ensures r.None? <==> forall k :: 0 <= k < |ss| ==> ss[k].id != id
    ensures r.Some? ==> r.value < |ss| && ss[r.value].id == id
    ensures r.Some? ==> forall k :: 0 <= k < r.value ==> ss[k].id != id
  {
    if |ss| == 0 then None
    else if ss[0].id == id then Some(0)
    else
      match FindIndex(ss[1..], id)
      case None => None
      case Some(i) => Some(i + 1)
  }

  /** `initialize`: a first call loads the list; later calls change nothing. */
  function Init(s: State, builtIns: seq<Skill>): State {
    if s.initialized then s
    else
      match s.file
      case Missing => State(builtIns, true, Stored(Customs(builtIns)))
      case Unreadable => State(builtIns, true, Unreadable)
      case Stored(cs) => State(builtIns + cs, true, s.file)
  }

  /** A state whose list was just written: the file holds its custom skills. */
  function Saved(skills: seq<Skill>): State {
    State(skills, true, Stored(Customs(skills)))
  }

  function NewSkill(data: SaveSkillRequest, id: string, now: string): Skill {
    Skill(id, data.name, data.description, data.category, data.systemPrompt, data.userPromptTemplate,
      ExtractVariables(data.userPromptTemplate), false, now, now)
  }

  function Create(s: State, builtIns: seq<Skill>, data: SaveSkillRequest, id: string, now: string): (State, Skill) {
    var t := Init(s, builtIns);
    var skill := NewSkill(data, id, now);
    (Saved(t.skills + [skill]), skill)
  }

  /** A built-in keeps everything but its prompts, their variables and the update time. */
  function EditBuiltIn(e: Skill, data: SaveSkillRequest, now: string): Skill {
    e.(systemPrompt := data.systemPrompt, userPromptTemplate := data.userPromptTemplate,
       variables := ExtractVariables(data.userPromptTemplate), updatedAt := now)
  }

  /** A custom skill takes every editable field. */
  function EditCustom(e: Skill, data: SaveSkillRequest, now: string): Skill {
    e.(name := data.name, description := data.description, category := data.category,
       systemPrompt := data.systemPrompt, userPromptTemplate := data.userPromptTemplate,
       variables := ExtractVariables(data.userPromptTemplate), updatedAt := now)
  }

  /** `updateSkill`; an edited built-in is not written to the file. */
  function Update(s: State, builtIns: seq<Skill>, id: string, data: SaveSkillRequest, now: string): (State, Option<Skill>) {
    var t := Init(s, builtIns);
    match FindIndex(t.skills, id)
    case None => (t, None)
    case Some(i) =>
      var e := t.skills[i];
      if e.isBuiltIn then
        var u := EditBuiltIn(e, data, now);
        (t.(skills := t.skills[i := u]), Some(u))
      else
        var u := EditCustom(e, data, now);
        (Saved(t.skills[i := u]), Some(u))
  }

  function Delete(s: State, builtIns: seq<Skill>, id: string): (State, bool) {
    var t := Init(s, builtIns);
    match FindIndex(t.skills, id)
    case None => (t, false)
    case Some(i) =>
      if t.skills[i].isBuiltIn then (t, false)
      else (Saved(Filter(t.skills, (x: Skill) => x.id != id)), true)
  }

  class SkillService {
    const builtIns: seq<Skill>
    var skills: seq<Skill>
    var initialized: bool
    /** The skills file on disk. */
    var file: StoredFile

    function Value(): State
      reads this
    {
      State(skills, initialized, file)
    }

    constructor(texts: seq<BuiltInText>, file: StoredFile)
      requires |texts| == |BuiltInIds|
      ensures builtIns == BuiltInSkills(texts) && Value() == State([], false, file)
    {
      builtIns := BuiltInSkills(texts);
      skills := [];
      initialized := false;
      this.file := file;
    }

    method Initialize()
      modifies this
      ensures Value() == Init(old(Value()), builtIns)
    {
      if initialized {
        return;
      }
      match file {
        case Missing =>
          skills := builtIns;
          Save();
        case Unreadable =>
          skills := builtIns;
        case Stored(cs) =>
          skills := builtIns + cs;
      }
      initialized := true;
    }

    /** Writes the custom skills to the file. */
    method Save()
      modifies this`file
      ensures file == Stored(Customs(skills))
    {
      file := Stored(Customs(skills));
    }

    method ListSkills() returns (r: seq<Skill>)
      modifies this
      ensures Value() == Init(old(Value()), builtIns) && r == skills
    {
      Initialize();
      r := skills;
    }

    method GetSkillsByCategory(category: string) returns (r: seq<Skill>)
      modifies this
      ensures Value() == Init(old(Value()), builtIns)
      ensures r == Filter(skills, (s: Skill) => s.category == category)
    {
      Initialize();
      r := Filter(skills, (s: Skill) => s.category == category);
    }

    method GetSkill(id: string) returns (r: Option<Skill>)
      modifies this
      ensures Value() == Init(old(Value()), builtIns)
      ensures r == match FindIndex(skills, id) case None => None case Some(i) => Some(skills[i])
    {
      Initialize();
      var index := FindIndex(skills, id);
      r := if index.Some? then Some(skills[index.value]) else None;
    }

    /** `createSkill`; the id and the time stand for `custom-${Date.now()}` and the ISO timestamp. */
    method CreateSkill(data: SaveSkillRequest, id: string, now: string) returns (skill: Skill)
      modifies this
      ensures (Value(), skill) == Create(old(Value()), builtIns, data, id, now)
    {
      Initialize();
      var variables := ExtractVariables(data.userPromptTemplate);
      skill := Skill(id, data.name, data.description, data.category, data.systemPrompt,
        data.userPromptTemplate, variables, false, now, now);
      skills := skills + [skill];
      Save();
    }

    method UpdateSkill(id: string, data: SaveSkillRequest, now: string) returns (r: Option<Skill>)
      modifies this
      ensures (Value(), r) == Update(old(Value()), builtIns, id, data, now)
    {
      Initialize();
      var index := FindIndex(skills, id);
      if index.None? {
        return None;
      }
      var i := index.value;
      var existing := skills[i];
      if existing.isBuiltIn {
        var updated := existing.(systemPrompt := data.systemPrompt, userPromptTemplate := data.userPromptTemplate,
          variables := ExtractVariables(data.userPromptTemplate), updatedAt := now);
        skills := skills[i := updated];
        return Some(updated);
      }
      var variables := ExtractVariables(data.userPromptTemplate);
      var updated := existing.(name := data.name, description := data.description, category := data.category,
        systemPrompt := data.systemPrompt, userPromptTemplate := data.userPromptTemplate,
        variables := variables, updatedAt := now);
      skills := skills[i := updated];
      Save();
      r := Some(updated);
    }

    method DeleteSkill(id: string) returns (deleted: bool)
      modifies this
      ensures (Value(), deleted) == Delete(old(Value()), builtIns, id)
    {
      Initialize();
      var index := FindIndex(skills, id);
      if index.None? || skills[index.value].isBuiltIn {
        return false;
      }
      skills := Filter(skills, (s: Skill) => s.id != id);
      Save();
      deleted := true;
    }
  }

  // ----- what the registry promises -----

  /** The file holds exactly the custom skills of the list. */
  predicate Synced(s: State) {
    s.file == Stored(Customs(s.skills))
  }

  /**
   * Loading: the built-ins followed by the stored custom skills; with no
   * file, the built-ins, and a file holding no skill is written.
   */
  lemma InitLoads(s: State, builtIns: seq<Skill>)
    requires !s.initialized && forall k :: 0 <= k < |builtIns| ==> builtIns[k].isBuiltIn
    ensures Init(s, builtIns).initialized
    ensures s.file.Stored? ==> Init(s, builtIns).skills == builtIns + s.file.custom
    ensures !s.file.Stored? ==> Init(s, builtIns).skills == builtIns
    ensures s.file.Missing? ==> Init(s, builtIns).file == Stored([])
  {
    FilterNone(builtIns, IsCustom);
  }

  /**
   * Saving then loading restores the list, when it is the built-ins
   * followed by custom skills.
   */
  lemma ReloadRestores(builtIns: seq<Skill>, rest: seq<Skill>)
    requires forall k :: 0 <= k < |builtIns| ==> builtIns[k].isBuiltIn
    requires forall k :: 0 <= k < |rest| ==> !rest[k].isBuiltIn
    ensures Init(State([], false, Stored(Customs(builtIns + rest))), builtIns).skills == builtIns + rest
  {
    assert Customs(builtIns + rest) == rest by {
      FilterConcat(builtIns, rest, IsCustom);
      FilterNone(builtIns, IsCustom);
      FilterAll(rest, IsCustom);
    }
  }

  /**
   * Creating appends exactly one custom skill, with the request's fields
   * and the template's variables, keeps every earlier entry, and writes
   * the file.
   */
  lemma CreateAppends(s: State, builtIns: seq<Skill>, data: SaveSkillRequest, id: string, now: string)
    ensures var (after, skill) := Create(s, builtIns, data, id, now);
      var before := Init(s, builtIns).skills;
      && |after.skills| == |before| + 1 && after.skills[..|before|] == before
      && after.skills[|before|] == skill && !skill.isBuiltIn && skill.id == id
      && skill.variables == ExtractVariables(data.userPromptTemplate)
      && skill.name == data.name && skill.description == data.description && skill.category == data.category
      && skill.systemPrompt == data.systemPrompt && skill.userPromptTemplate == data.userPromptTemplate
      && skill.createdAt == now && skill.updatedAt == now
      && Synced(after)
  {
    var before := Init(s, builtIns).skills;
    assert (before + [NewSkill(data, id, now)])[..|before|] == before;
  }

  /** Updating an unknown id returns nothing and changes nothing beyond loading. */
  lemma UpdateUnknown(s: State, builtIns: seq<Skill>, id: string, data: SaveSkillRequest, now: string)
    requires forall k :: 0 <= k < |Init(s, builtIns).skills| ==> Init(s, builtIns).skills[k].id != id
    ensures Update(s, builtIns, id, data, now) == (Init(s, builtIns), None)
  {
  }

  /**
   * Updating a built-in changes only its prompts, variables and update
   * time, at its own position, and leaves the file alone.
   */
  lemma UpdateBuiltIn(s: State, builtIns: seq<Skill>, id: string, data: SaveSkillRequest, now: string, i: nat)
    requires FindIndex(Init(s, builtIns).skills, id) == Some(i) && Init(s, builtIns).skills[i].isBuiltIn
    ensures var (after, r) := Update(s, builtIns, id, data, now);
      var before := Init(s, builtIns).skills;
      var e := before[i];
      && r.Some? && |after.skills| == |before| && after.skills[i] == r.value
      && (forall k :: 0 <= k < |before| && k != i ==> after.skills[k] == before[k])
      && r.value.id == e.id && r.value.name == e.name && r.value.description == e.description
      && r.value.category == e.category && r.value.isBuiltIn && r.value.createdAt == e.createdAt
      && r.value.systemPrompt == data.systemPrompt && r.value.userPromptTemplate == data.userPromptTemplate
      && r.value.variables == ExtractVariables(data.userPromptTemplate) && r.value.updatedAt == now
      && after.file == Init(s, builtIns).file
  {
  }

  /**
   * Updating a custom skill rewrites its editable fields at the same
   * position, keeps its id and creation time, leaves the other entries
   * alone, and writes the file.
   */
  lemma UpdateCustom(s: State, builtIns: seq<Skill>, id: string, data: SaveSkillRequest, now: string, i: nat)
    requires FindIndex(Init(s, builtIns).skills, id) == Some(i) && !Init(s, builtIns).skills[i].isBuiltIn
    ensures var (after, r) := Update(s, builtIns, id, data, now);
      var before := Init(s, builtIns).skills;
      && r.Some? && |after.skills| == |before| && after.skills[i] == r.value
      && (forall k :: 0 <= k < |before| && k != i ==> after.skills[k] == before[k])
      && r.value.id == id && !r.value.isBuiltIn && r.value.createdAt == before[i].createdAt
      && r.value.name == data.name && r.value.description == data.description && r.value.category == data.category
      && r.value.systemPrompt == data.systemPrompt && r.value.userPromptTemplate == data.userPromptTemplate
      && r.value.variables == ExtractVariables(data.userPromptTemplate) && r.value.updatedAt == now
      && Synced(after)
  {
  }

  /**
   * Deleting refuses an unknown or built-in id and changes nothing;
   * otherwise no skill with the id remains, the others stay, each as often
   * as before and in their order (the list is the old one at exactly the
   * positions of the other ids), and the file is written.
   */
  lemma DeleteMeaning(s: State, builtIns: seq<Skill>, id: string)
    ensures var (after, ok) := Delete(s, builtIns, id);
      var before := Init(s, builtIns).skills;
      && (ok <==> FindIndex(before, id).Some? && !before[FindIndex(before, id).value].isBuiltIn)
      && (!ok ==> after == Init(s, builtIns))
      && (ok ==> ((forall k :: 0 <= k < |after.skills| ==> after.skills[k].id != id)
        && (forall x :: x in before && x.id != id ==> x in after.skills)
        && (forall x :: multiset(after.skills)[x] == if x.id == id then 0 else multiset(before)[x])
        && (exists idx :: Picks(idx, after.skills, before)
              && forall i :: 0 <= i < |before| ==> (i in idx <==> before[i].id != id))
        && |after.skills| < |before| && Synced(after)))
  {
    var before := Init(s, builtIns).skills;
    var keep := (x: Skill) => x.id != id;
    forall x | x in before && x.id != id ensures x in Filter(before, keep) {
      FilterMembers(before, keep, x);
    }
    var i := FindIndex(before, id);
    if i.Some? {
      FilterCount(before, keep, before[i.value]);
      assert multiset(Filter(before, keep))[before[i.value]] == 0;
      FilterSmaller(before, keep, i.value);
      DeleteKeepsOthers(s, builtIns, id);
    }
  }

  /**
   * A delete that succeeds leaves each other skill as often as before and
   * in order: the old list at exactly the positions of the other ids.
   */
  lemma DeleteKeepsOthers(s: State, builtIns: seq<Skill>, id: string)
    ensures var (after, ok) := Delete(s, builtIns, id);
      var before := Init(s, builtIns).skills;
      ok ==>
        && (forall x :: multiset(after.skills)[x] == if x.id == id then 0 else multiset(before)[x])
        && (exists idx ::
              && Picks(idx, after.skills, before)
              && forall i :: 0 <= i < |before| ==> (i in idx <==> before[i].id != id))
  {
    var before := Init(s, builtIns).skills;
    var keep := (x: Skill) => x.id != id;
    if Delete(s, builtIns, id).1 {
      assert Delete(s, builtIns, id).0.skills == Filter(before, keep);
      forall x: Skill ensures multiset(Filter(before, keep))[x] == if x.id == id then 0 else multiset(before)[x] {
        FilterCount(before, keep, x);
      }
      var idx := FilterKeepsOrder(before, keep);
    }
  }

  /** Filtering out an element makes the sequence shorter. */
  lemma {:induction false} FilterSmaller<T>(xs: seq<T>, p: T -> bool, i: nat)
    requires i < |xs| && !p(xs[i])
    ensures |Filter(xs, p)| < |xs|
  {
    if i > 0 {
      FilterSmaller(xs[1..], p, i - 1);
    }
  }

  /**
   * Every change keeps the file in step with the list: the file holds
   * exactly the custom skills. An edited built-in is not written, but the
   * custom skills are the same before and after it.
   */
  lemma OperationsStaySynced(s: State, builtIns: seq<Skill>, id: string, data: SaveSkillRequest, now: string)
    requires s.initialized && Synced(s)
    ensures Synced(Create(s, builtIns, data, id, now).0)
    ensures Synced(Update(s, builtIns, id, data, now).0)
    ensures Synced(Delete(s, builtIns, id).0)
  {
    var i := FindIndex(s.skills, id);
    if i.Some? && s.skills[i.value].isBuiltIn {
      var u := EditBuiltIn(s.skills[i.value], data, now);
      CustomsIgnoreBuiltIns(s.skills, i.value, u);
    }
  }

  /** Replacing a built-in by a built-in leaves the custom skills as they were. */
  lemma {:induction false} CustomsIgnoreBuiltIns(ss: seq<Skill>, i: nat, u: Skill)
    requires i < |ss| && ss[i].isBuiltIn && u.isBuiltIn
    ensures Customs(ss[i := u]) == Customs(ss)
  {
    if i > 0 {
      CustomsIgnoreBuiltIns(ss[1..], i - 1, u);
      assert ss[i := u][1..] == ss[1..][i - 1 := u];
    }
  }

  /**
   * An edited built-in is lost on the next load: the file does not hold
   * it, so loading gives back the original built-in.
   */
  lemma BuiltInEditNotPersisted(builtIns: seq<Skill>, rest: seq<Skill>, id: string, data: SaveSkillRequest, now: string, i: nat)
    requires forall k :: 0 <= k < |builtIns| ==> builtIns[k].isBuiltIn
    requires forall k :: 0 <= k < |rest| ==> !rest[k].isBuiltIn
    requires i < |builtIns| && FindIndex(builtIns + rest, id) == Some(i)
    ensures var after := Update(Saved(builtIns + rest), builtIns, id, data, now).0;
      Init(State([], false, after.file), builtIns).skills == builtIns + rest
  {
    ReloadRestores(builtIns, rest);
  }

  /** The skills of one category, in list order, and only they. */
  lemma CategoryFilter(ss: seq<Skill>, category: string, x: Skill)
    ensures x in Filter(ss, (s: Skill) => s.category == category) <==> x in ss && x.category == category
  {
    FilterMembers(ss, (s: Skill) => s.category == category, x);
  }
}
