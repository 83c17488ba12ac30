# tech-blog: a verified model of the Markdown pipeline and its helpers

This project models, in Dafny, the logic at the heart of the tech-blog
repository. Everything that touches disks, networks, clocks or the browser
is either a parameter or left out.

**The two remark transforms of the Markdown pipeline**
- `remarkCallout` scans the top-level children once. It records the
  `:::type [title]` … `:::` spans, then splices them in reverse order into
  raw HTML nodes. That HTML comes from a block renderer, an inline renderer
  and a five-character HTML escaper.
- `remarkCodeTitle` splits a fence tag `lang:filename` at its first colon.
  It rewrites `lang` and appends `data-filename="…"` and
  `data-language="…"` tokens to `meta`.

**The blog assistant's in-memory logic**
- Keyboard-shortcut parser, matcher and formatter.
- Skill registry (`SkillService`): built-in skills followed by custom
  skills, with the `{{name}}` extraction and substitution.
- Article service's path arithmetic: generated slugs, id splitting, the
  file name and preview URL of a save, and the article list.
- Save dialog's slug cleaning, save guard and preview.
- Frontmatter form's tag-list editing.

**The two copies of the site's `MarkdownRepository`**
- The draft filter and date sort.
- The slug lookup.
- The tag filter and tag counting.

## Modelling decisions

- **Dates.** Collection dates are integers (milliseconds since the epoch).
  An article's sort key is a parameter `time`, standing for
  `new Date(publishedAt).getTime()`. The current time and generated ids are
  also parameters.
- **Case mapping.** `toLowerCase` and `toUpperCase` map ASCII letters only.
  JavaScript white space (`\s`, used by `trim`) is modelled character by
  character.
- **Sorting.** `Array.prototype.sort` is stable. It is modelled as a stable
  insertion sort by non-increasing key (`Sorting.SortDesc`).
- **Classes and objects.**
  - Callout root: `Root` is a class whose `children` sequence is spliced
    in place.
  - Fence-title transform: code nodes are `CodeNode` objects that its
    visitor mutates.
  - Skill registry: `SkillService` is a class whose `skills` list, flag and
    skills file are fields.
- **Functions, and methods proved against them.** Each imperative operation
  is a method proved equal to a function, and the lemmas are stated about
  that function:
  - the callout scan loop, the reverse splice loop and the fence visitor;
  - the `getAllTags` counting loops and `findArticleEntries`;
  - `listArticles` and `buildPrompt`.
- **Article ids.** `getArticle` and `deleteArticle` derive a folder slug
  with `replace('/index.md', '')`. This removes the first occurrence, not
  the suffix, and the model does the same (`Strings.ReplaceFirst`).
- **The two repository copies.** They differ in one respect: the `tech-blog`
  copy keeps a missing body missing (`content: entry.body`), while the other
  gives `''`. `TechBlogRepository.SameAsSiteRepository` proves that the
  copies agree on every query once a missing body is read as the empty
  string.

## Model

| member | source | states |
|---|---|---|
| HtmlEscape.EscapeHtmlIsPerCharacter | src/lib/remark-callout.mjs:69-77 | the five sequential global replacements equal escaping each character on its own (no replacement feeds a later one) |
| HtmlEscape.EscapeAmpersand | src/lib/remark-callout.mjs:72 | `&` becomes `&amp;` |
| HtmlEscape.EscapeLess | src/lib/remark-callout.mjs:73 | `<` becomes `&lt;` |
| HtmlEscape.EscapeGreater | src/lib/remark-callout.mjs:74 | `>` becomes `&gt;` |
| HtmlEscape.EscapeQuote | src/lib/remark-callout.mjs:75 | `"` becomes `&quot;` |
| HtmlEscape.EscapeApostrophe | src/lib/remark-callout.mjs:76 | `'` becomes `&#039;` |
| HtmlEscape.EscapeOrdinary | src/lib/remark-callout.mjs:71-77 | every other character is kept |
| HtmlEscape.EscapeOneCharacter | src/lib/remark-callout.mjs:71-77 | a single character escapes to its entity, or to itself |
| HtmlEscape.EscapedHasNoMarkup | src/lib/remark-callout.mjs:69-77 | escaped text holds no `<`, `>`, `"` or `'` |
| HtmlEscape.EscapeEachConcat | src/lib/remark-callout.mjs:69-77 | escaping distributes over concatenation |
| HtmlEscape.EscapePlainIsIdentity | src/lib/remark-callout.mjs:69-77 | text without the five characters is unchanged |
| HtmlEscape.UnescapeEscape | src/lib/remark-callout.mjs:69-77 | decoding the five entities with `&amp;` last restores the input |
| HtmlEscape.DecodeStep | src/lib/remark-callout.mjs:69-77 | each decoding replacement restores exactly the characters of its stage |
| RemarkCallout.InlineTextContent | src/lib/remark-callout.mjs:44-64 | the character data of an inline node's HTML is its escaped flattened text (text, inline code and link text escaped) |
| RemarkCallout.InlinesTextContent | src/lib/remark-callout.mjs:48-62 | the same for a sequence of inline nodes joined with `''` |
| RemarkCallout.InlineHtmlKeepsText | src/lib/remark-callout.mjs:44-64 | decoding the character data of `extractHtmlFromNode`'s output gives `extractAllText`'s text |
| RemarkCallout.RenderBlock | src/lib/remark-callout.mjs:124-137 | a block renders to a non-empty string exactly when it is a paragraph, a code block or a list |
| RemarkCallout.RenderedBlocksAreKept | src/lib/remark-callout.mjs:123-139 | after `.filter(Boolean)` the pieces are exactly the paragraphs, code blocks and lists, rendered in order; all other blocks are dropped |
| RemarkCallout.KeywordAt | src/lib/remark-callout.mjs:34 | the matched keyword is a prefix of the text; with no match, no keyword is a prefix |
| RemarkCallout.KeywordUnique | src/lib/remark-callout.mjs:23-34 | a text beginning with a type's keyword yields that type |
| RemarkCallout.MatchStartKeyword | src/lib/remark-callout.mjs:34 | `:::` + keyword + rest matches as the optional title group decides on the rest |
| RemarkCallout.MatchStartBare | src/lib/remark-callout.mjs:34-100 | `:::type` alone opens a callout with title null |
| RemarkCallout.MatchStartTitled | src/lib/remark-callout.mjs:34-100 | `:::type`, a white-space run and a one-line title open a callout with that title |
| RemarkCallout.MatchStartShape | src/lib/remark-callout.mjs:34-100 | every accepted text is `:::`, the recorded keyword, white space and the recorded title; a captured title is non-empty, starts with no space and has no line break |
| RemarkCallout.MatchTitleShape | src/lib/remark-callout.mjs:34 | the rest after the keyword is a white-space run followed by the title text |
| RemarkCallout.EndIsNotStart | src/lib/remark-callout.mjs:34-39 | the closing marker `:::` is not an opening marker |
| RemarkCallout.CalloutTitle | src/lib/remark-callout.mjs:141-151 | the wrapper opens with the type's class and title div; the title div holds the icon, a space and the escaped title or default label; decoding the escaped part gives the title or label |
| CalloutTransform.ClassifyMeaning | src/lib/remark-callout.mjs:90-110 | a child opens exactly when it is a paragraph whose trimmed text matches the start pattern (with its type and title), and closes exactly when its trimmed text is `:::` |
| CalloutTransform.MarkersAt | src/lib/remark-callout.mjs:87-91 | the marker list has one entry per child, in order |
| CalloutTransform.StepOpens | src/lib/remark-callout.mjs:95-102 | opening when idle keeps the scan invariant |
| CalloutTransform.StepCloses | src/lib/remark-callout.mjs:106-110 | closing the open callout, recording its span, keeps the scan invariant |
| CalloutTransform.StepSkips | src/lib/remark-callout.mjs:87-111 | an opening marker while open, a stray `:::` or any other child keeps the invariant |
| CalloutTransform.ScannedInv | src/lib/remark-callout.mjs:87-112 | the invariant holds after every prefix of the scan |
| CalloutTransform.SpansOrdered | src/lib/remark-callout.mjs:87-111 | recorded spans lie within the children, start < end, ascending and pairwise disjoint |
| CalloutTransform.SpansMarked | src/lib/remark-callout.mjs:95-110 | each span starts at an opening marker carrying its type and title and ends at the first closing marker after it |
| CalloutTransform.UnclosedOpening | src/lib/remark-callout.mjs:95-106 | an opening marker left outside every span is followed by no closing marker (it came while one was open, or was never closed) |
| CalloutTransform.StrayClosing | src/lib/remark-callout.mjs:106 | a closing marker left outside every span comes when every earlier opening marker is inside a span |
| CalloutTransform.ScanSpans | src/lib/remark-callout.mjs:84-112 | the scan loop records exactly the spans of the specification |
| CalloutTransform.Root.SpliceSpans | src/lib/remark-callout.mjs:115-154 | the reverse-order in-place splice leaves the children equal to each span replaced by the node built from its original body |
| CalloutTransform.Root.ApplyCallouts | src/lib/remark-callout.mjs:83-155 | the transformer leaves the children equal to `Transformed` of the old children |
| CalloutTransform.SpliceBody | src/lib/remark-callout.mjs:115-120 | before a span is spliced, its body in the current children is its body in the original children |
| CalloutTransform.SpliceStep | src/lib/remark-callout.mjs:115-153 | splicing in descending order uses the scan's indices; each body is the original nodes strictly between its markers |
| CalloutTransform.TransformedLength | src/lib/remark-callout.mjs:153 | the child count drops by the sum of (end − start) over the spans |
| CalloutTransform.TransformedKeeps | src/lib/remark-callout.mjs:153 | a child outside every span keeps its value, shifted left by the widths of the spans before it (relative order kept) |
| CalloutTransform.TransformedNode | src/lib/remark-callout.mjs:120-153 | each span is replaced by exactly one html node, at its shifted start, built from the original body |
| CalloutTransform.SplicedKeeps | src/lib/remark-callout.mjs:153 | for any splice of ordered spans, an element outside them keeps its value at its shifted index |
| CalloutTransform.SplicedNodes | src/lib/remark-callout.mjs:153 | for any splice of ordered spans, the k-th span's shifted start holds the k-th new node |
| CalloutTransform.SplicedLength | src/lib/remark-callout.mjs:153 | a splice of ordered spans removes (end − start) elements per span |
| RemarkCodeTitle.CodeNode.Retitle | tech-blog/src/lib/remark-code-title.mjs:43-77 | the visitor body leaves `lang` and `meta` as `Retitled` of the old ones and keeps `value` |
| RemarkCodeTitle.Transform | tech-blog/src/lib/remark-code-title.mjs:42-78 | every code node at any depth is retitled once; values unchanged |
| RemarkCodeTitle.SplitTag | tech-blog/src/lib/remark-code-title.mjs:50-54 | the language holds no colon; no filename exactly when the tag has no colon; otherwise tag = lang + `:` + filename |
| RemarkCodeTitle.JoinedParts | tech-blog/src/lib/remark-code-title.mjs:60-76 | joining the pushed parts with one space gives the metadata text |
| RemarkCodeTitle.RetitleSkips | tech-blog/src/lib/remark-code-title.mjs:45 | a node with no or an empty `lang` is unchanged, `meta` included |
| RemarkCodeTitle.RetitleLang | tech-blog/src/lib/remark-code-title.mjs:50-57 | the new `lang` is the tag before its first colon, or the whole tag, and holds no colon |
| RemarkCodeTitle.RetitleFilename | tech-blog/src/lib/remark-code-title.mjs:49-70 | the filename is everything after the first colon, verbatim, and its token is added exactly when it is non-empty |
| RemarkCodeTitle.RetitleNoColon | tech-blog/src/lib/remark-code-title.mjs:51-73 | a tag without a colon keeps its language and adds only the language token |
| RemarkCodeTitle.MetaTokens | tech-blog/src/lib/remark-code-title.mjs:60-76 | old `meta` first when non-empty, the filename token exactly when the filename is non-empty, the language token always and last, single spaces between |
| RemarkCodeTitle.RetitleLangIdempotent | tech-blog/src/lib/remark-code-title.mjs:50-57 | applying the transform to its own output leaves `lang` unchanged |
| RemarkCodeTitle.TitledExample | tech-blog/src/lib/remark-code-title.mjs:6-7 | `typescript:src/example.ts` gives `lang` `typescript` and `data-filename="src/example.ts" data-language="typescript"` |
| RemarkCodeTitle.BareExample | tech-blog/src/lib/remark-code-title.mjs:30-34 | `bash` gives only `data-language="bash"` |
| Keyboard.Declared | tools/blog-assistant/shared/constants/keyboard.ts:11-36 | each declared shortcut is `alt+` followed by a key holding no `+` |
| Keyboard.Segments | tools/blog-assistant/shared/constants/keyboard.ts:56 | the segments hold no `+` and rejoin with `+` to the lower-cased shortcut |
| Keyboard.ParsedKeyIsLastSegment | tools/blog-assistant/shared/constants/keyboard.ts:56-57 | the key is the last `+`-separated segment of the lower-cased shortcut |
| Keyboard.ParsedFlags | tools/blog-assistant/shared/constants/keyboard.ts:60-64 | ctrl/alt/shift are set exactly when that name is a whole segment; meta exactly when `cmd` or `meta` is |
| Keyboard.SegmentDelimited | tools/blog-assistant/shared/constants/keyboard.ts:56-64 | `parts.includes(w)` holds exactly when `w` stands as a whole segment of the joined text |
| Keyboard.ParseIgnoresCase | tools/blog-assistant/shared/constants/keyboard.ts:56 | a shortcut and its lower-cased form parse alike |
| Keyboard.ParseAltShortcut | tools/blog-assistant/shared/constants/keyboard.ts:55-66 | `alt+key` sets only alt and the key is lower-cased |
| Keyboard.DeclaredShortcutsUseAltOnly | tools/blog-assistant/shared/constants/keyboard.ts:11-66 | every declared TAB/PANEL/NAV shortcut parses with alt true and ctrl, shift, meta false |
| Keyboard.MatchesShortcut | tools/blog-assistant/shared/constants/keyboard.ts:71-83 | true exactly when the four flags equal the event's and the lower-cased event key is the parsed key |
| Keyboard.MatchIgnoresCase | tools/blog-assistant/shared/constants/keyboard.ts:71-83 | matching ignores the case of the event key and of the shortcut |
| Keyboard.PlusKeyNeverMatches | tools/blog-assistant/shared/constants/keyboard.ts:57-82 | an event key holding `+` never matches |
| Keyboard.ResultsTabMatch | tools/blog-assistant/shared/constants/keyboard.ts:13-83 | `1` with alt matches the results-tab shortcut exactly when no other modifier is down |
| Keyboard.FormatParts | tools/blog-assistant/shared/constants/keyboard.ts:91-118 | one display form per segment, in order |
| Keyboard.FormatKeepsSegments | tools/blog-assistant/shared/constants/keyboard.ts:89-120 | the result splits at `+` into exactly the display forms of the original segments, same count |
| Keyboard.FormatPartCases | tools/blog-assistant/shared/constants/keyboard.ts:93-117 | names map case-insensitively; `cmd`/`meta` give `Cmd`; the listed punctuation is kept; other segments are upper-cased |
| Keyboard.FormatPartChar | tools/blog-assistant/shared/constants/keyboard.ts:105-116 | a one-character segment is kept if it is listed punctuation, otherwise upper-cased |
| Keyboard.FormatAltKey | tools/blog-assistant/shared/constants/keyboard.ts:89-120 | `alt+c` is shown `Alt+` followed by the display form of `c` |
| Keyboard.FormatResultsExample | tools/blog-assistant/shared/constants/keyboard.ts:87 | `alt+1` is shown `Alt+1` |
| Keyboard.FormatNextTabExample | tools/blog-assistant/shared/constants/keyboard.ts:87 | `alt+]` is shown `Alt+]` |
| Skills.WordRun | tools/blog-assistant/server/services/skill-service.ts:426 | `\w+` takes the longest run of word characters |
| Skills.MatchAt | tools/blog-assistant/server/services/skill-service.ts:426-427 | a match at the start is a word whose `{{word}}` begins the text |
| Skills.MatchAtPlaceholder | tools/blog-assistant/server/services/skill-service.ts:426 | a text beginning with `{{w}}` for a word `w` matches there with name `w` |
| Skills.MatchesSound | tools/blog-assistant/server/services/skill-service.ts:426-427 | every matched name is a word whose placeholder occurs in the template |
| Skills.MatchesComplete | tools/blog-assistant/server/services/skill-service.ts:426-427 | every placeholder occurrence in the template is found by the global match |
| Skills.ExtractVariablesMeaning | tools/blog-assistant/server/services/skill-service.ts:425-429 | names are distinct, and a name is extracted exactly when it is a word whose `{{name}}` occurs in the template |
| Skills.MatchesOrder | tools/blog-assistant/server/services/skill-service.ts:426-427 | when the global match finds `x` before it first finds `y`, an occurrence of `{{x}}` precedes every occurrence of `{{y}}` |
| Skills.ExtractVariablesOrder | tools/blog-assistant/server/services/skill-service.ts:425-429 | names come in first-occurrence order: for an earlier name `a` and a later name `b`, some `{{a}}` precedes every `{{b}}` |
| Skills.BuildPrompt | tools/blog-assistant/server/services/skill-service.ts:434-440 | the loop's result is the entries' placeholders replaced globally, entry after entry |
| Skills.SubstitutedAbsent | tools/blog-assistant/server/services/skill-service.ts:434-440 | a template holding no supplied placeholder comes back unchanged |
| Skills.SubstituteEvery | tools/blog-assistant/server/services/skill-service.ts:437 | every occurrence of `{{key}}` between pieces holding no `{{` is replaced by the value; single braces, as in the suggest-tags JSON example, are allowed |
| Skills.BuiltInSkills | tools/blog-assistant/server/services/skill-service.ts:21-270 | the seven built-in skills, in order, each built-in with its declared id |
| Skills.BuiltInIdsDistinct | tools/blog-assistant/server/services/skill-service.ts:21-270 | the built-in ids are distinct |
| Skills.FindIndex | tools/blog-assistant/server/services/skill-service.ts:335-414 | the first index holding the id, or none exactly when no skill has it |
| Skills.SkillService.constructor | tools/blog-assistant/server/services/skill-service.ts:272-274 | an empty, not yet initialized list over the given skills file |
| Skills.SkillService.Initialize | tools/blog-assistant/server/services/skill-service.ts:279-304 | the new state is `Init` of the old one |
| Skills.SkillService.Save | tools/blog-assistant/server/services/skill-service.ts:309-312 | the file holds the non-built-in skills, in order |
| Skills.SkillService.ListSkills | tools/blog-assistant/server/services/skill-service.ts:317-320 | initializes, then returns the list |
| Skills.SkillService.GetSkillsByCategory | tools/blog-assistant/server/services/skill-service.ts:325-328 | initializes, then returns the skills of the category in list order |
| Skills.SkillService.GetSkill | tools/blog-assistant/server/services/skill-service.ts:333-336 | initializes, then returns the first skill with the id, or none |
| Skills.SkillService.CreateSkill | tools/blog-assistant/server/services/skill-service.ts:341-363 | the new state and returned skill are `Create` of the old state |
| Skills.SkillService.UpdateSkill | tools/blog-assistant/server/services/skill-service.ts:368-406 | the new state and result are `Update` of the old state |
| Skills.SkillService.DeleteSkill | tools/blog-assistant/server/services/skill-service.ts:411-420 | the new state and result are `Delete` of the old state |
| Skills.InitLoads | tools/blog-assistant/server/services/skill-service.ts:279-304 | after loading: the built-ins followed by the stored custom skills, or the built-ins alone; a missing file is written empty |
| Skills.ReloadRestores | tools/blog-assistant/server/services/skill-service.ts:294-310 | saving a list of built-ins followed by custom skills and loading it gives back that list |
| Skills.CreateAppends | tools/blog-assistant/server/services/skill-service.ts:341-362 | exactly one skill appended at the end, with the given id, the request's name, description, category and both prompts, the template's variables, isBuiltIn false, and createdAt and updatedAt both the current time; earlier entries unchanged; file written |
| Skills.UpdateUnknown | tools/blog-assistant/server/services/skill-service.ts:371-372 | an unknown id gives null and no change beyond loading |
| Skills.UpdateBuiltIn | tools/blog-assistant/server/services/skill-service.ts:377-389 | a built-in changes only its prompts, variables and update time, at its position; the file is not written |
| Skills.UpdateCustom | tools/blog-assistant/server/services/skill-service.ts:391-405 | a custom skill takes the editable fields at the same index; id and creation time kept; other positions and length unchanged; file written |
| Skills.DeleteMeaning | tools/blog-assistant/server/services/skill-service.ts:411-420 | an unknown or built-in id gives false and no change; otherwise true, no skill with the id remains, each other skill stays as often as before and the list is the old one at exactly the positions of the other ids, in order; the list shrinks; file written |
| Skills.DeleteKeepsOthers | tools/blog-assistant/server/services/skill-service.ts:411-420 | after a delete that succeeds, each skill without the id occurs as often as before and none with it, and the new list is the old one at exactly the positions of the other ids, in their order |
| Skills.OperationsStaySynced | tools/blog-assistant/server/services/skill-service.ts:309-418 | create, update and delete keep the file equal to the list's custom skills |
| Skills.BuiltInEditNotPersisted | tools/blog-assistant/server/services/skill-service.ts:294-388 | an edited built-in is not written, so the next load brings back the original |
| Skills.CategoryFilter | tools/blog-assistant/server/services/skill-service.ts:327 | a skill is returned exactly when it is listed and has the category |
| Slugs.CollapseRuns | tools/blog-assistant/server/services/article-service.ts:367 | `replace(/[^class]+/g, '-')` leaves only class characters and `-`, never `--` |
| Slugs.CollapseKeeps | tools/blog-assistant/server/services/article-service.ts:367 | collapsing keeps exactly the class characters, in order |
| Slugs.MapToDash | tools/blog-assistant/client/src/components/SaveModal.tsx:110 | `replace(/[^a-z0-9-]/g, '-')` keeps the length |
| Slugs.CollapseDashes | tools/blog-assistant/client/src/components/SaveModal.tsx:111 | `replace(/-+/g, '-')` leaves no `--` and introduces no character |
| Slugs.CollapseDashesOfMap | tools/blog-assistant/client/src/components/SaveModal.tsx:110-111 | mapping each outside character to `-` and collapsing dash runs is the one-step collapse |
| Slugs.TrimDashes | tools/blog-assistant/server/services/article-service.ts:368 | removing every leading and trailing run of `-` leaves no dash at either end |
| Slugs.TrimIsStrip | tools/blog-assistant/server/services/article-service.ts:368 | without `--`, removing all end dashes equals removing one at each end |
| Slugs.Take | tools/blog-assistant/server/services/article-service.ts:369 | `substring(0, n)` is a prefix of length min(len, n) |
| Slugs.CleanedShape | tools/blog-assistant/client/src/components/SaveModal.tsx:108-113 | the chain gives at most n characters, only class characters and `-`, no `--`, no leading `-`; empty exactly when the input has no class character |
| Articles.GenerateSlugShape | tools/blog-assistant/server/services/article-service.ts:364-370 | at most 50 characters of `a-z0-9`, kana, ideographs or `-`; no `--`; no leading `-`; empty exactly when the lower-cased title has none of those letters |
| Articles.GenerateSlugMayEndWithDash | tools/blog-assistant/server/services/article-service.ts:368-369 | the cut to 50 comes after the trim, so a 49-letter word, a space and a letter give the word and a trailing `-` |
| Articles.GeneratedSlugHasNoSlash | tools/blog-assistant/server/services/article-service.ts:364-370 | a generated slug holds no `/` |
| Articles.SplitId | tools/blog-assistant/server/services/article-service.ts:148-295 | the directory is the text before the first `/`, the rest everything after it (both empty-rest cases included) |
| Articles.SplitIdOfJoin | tools/blog-assistant/server/services/article-service.ts:148-150 | `dir/rest` with a slash-free `dir` splits back into `dir` and `rest` |
| Articles.LocateNestedId | tools/blog-assistant/server/services/article-service.ts:165-170 | a rest with `/` not ending in `/index.md` locates the folder of its first segment, file `{slug}/index.md` |
| Articles.ParseNameOfMarkdown | tools/blog-assistant/server/services/article-service.ts:82-175 | the name of `stem.md` is `stem` |
| Articles.FolderOfIndex | tools/blog-assistant/server/services/article-service.ts:159-302 | `name/index.md` ends with `/index.md` and removing that gives `name` |
| Articles.FindArticleEntries | tools/blog-assistant/server/services/article-service.ts:51-88 | the loop's entries are `Entries` of the listing |
| Articles.EntriesFromItems | tools/blog-assistant/server/services/article-service.ts:59-85 | every entry comes from an item: a folder holding `index.md` or a `.md` file, never `.gitkeep` |
| Articles.ArticlesOf | tools/blog-assistant/server/services/article-service.ts:110-130 | one article per entry, in entry order |
| Articles.ListArticles | tools/blog-assistant/server/services/article-service.ts:93-141 | the result is the collected articles of the requested directory when it is truthy (else of both, so `""` lists both) sorted by date, newest first |
| Articles.CollectedIds | tools/blog-assistant/server/services/article-service.ts:116-124 | each id is `{dir}/{filename}`, the directory is a listed one, and a folder's filename is `{slug}/index.md` |
| Articles.ListOrder | tools/blog-assistant/server/services/article-service.ts:136-140 | the list is sorted by non-increasing date, a permutation of the collected articles, and stable for equal dates |
| Articles.LocateListed | tools/blog-assistant/server/services/article-service.ts:116-316 | a listed article's id makes `getArticle` locate its slug, file name and kind, and `deleteArticle` remove its folder or file |
| Articles.DatePart | tools/blog-assistant/server/services/article-service.ts:238 | `split('T')[0]`: the text before the first `T`, or all of it |
| Articles.SaveNew | tools/blog-assistant/server/services/article-service.ts:236-263 | a new save returns `{date}-{slug}/index.md`, preview `/posts/{date}-{slug}`, not an update; the custom slug wins; the frontmatter is unchanged; that id locates the same folder |
| Articles.SaveUpdate | tools/blog-assistant/server/services/article-service.ts:220-263 | an update keeps the file name, reports an update, stamps `updatedAt` with today's date, changes nothing else, previews `/posts/name` |
| SaveModal.HasJapanese | tools/blog-assistant/client/src/components/SaveModal.tsx:116 | true exactly when some character is kana or in U+4E00–U+9FAF |
| SaveModal.FinalSlugShape | tools/blog-assistant/client/src/components/SaveModal.tsx:108-113 | at most 50 characters of `a-z0-9-`, no `--`, no leading `-`; empty exactly when the input has no ASCII letter or digit |
| SaveModal.FinalSlugHasNoJapanese | tools/blog-assistant/client/src/components/SaveModal.tsx:108-116 | the final slug holds no kana or ideograph |
| SaveModal.NormalizeIsGenerate | tools/blog-assistant/client/src/components/SaveModal.tsx:98-105 | `normalizeSlug` equals the server's `generateSlug` on every input |
| SaveModal.SaveGuard | tools/blog-assistant/client/src/components/SaveModal.tsx:118-122 | `onSave` is called exactly when updating or the input has an ASCII letter or digit; an update sends `''`, a new article the final slug |
| SaveModal.TrimNoSpace | tools/blog-assistant/client/src/components/SaveModal.tsx:119 | a final slug is its own `trim()` |
| SaveModal.PreviewMatchesNewSave | tools/blog-assistant/client/src/components/SaveModal.tsx:134-136 | for a new article the previewed file name and URL are those `Articles.SaveArticle` returns when called with the dialog's slug as `customSlug` (the HTTP route does not pass it on; see "## Left out") |
| SaveModal.PreviewMatchesUpdate | tools/blog-assistant/client/src/components/SaveModal.tsx:134-135 | for an update of `name/index.md` or `name.md` the preview shows the existing file name and `/posts/name`, as `Articles.SaveArticle` returns them when called with that file name as `existingFilename` (the HTTP route does not pass it on) |
| FrontmatterForm.HandleChange | tools/blog-assistant/client/src/components/FrontmatterForm.tsx:12-17 | the field takes the new value and every other field is unchanged |
| FrontmatterForm.FieldsDetermine | tools/blog-assistant/client/src/components/FrontmatterForm.tsx:14 | frontmatters equal in every field are equal |
| FrontmatterForm.AddTagMeaning | tools/blog-assistant/client/src/components/FrontmatterForm.tsx:19-25 | appends the trimmed input and clears the box exactly when it is non-empty and new; otherwise nothing changes; only tags change; duplicate-free stays duplicate-free |
| FrontmatterForm.RemoveTagMeaning | tools/blog-assistant/client/src/components/FrontmatterForm.tsx:27-35 | every copy of the tag goes, each other tag stays as often as before, and the list is the old one at exactly the positions of the other tags, in order; no other field changes; removing an absent tag changes nothing |
| FrontmatterForm.RemoveTagKeepsOrder | tools/blog-assistant/client/src/components/FrontmatterForm.tsx:27-35 | the remaining tags are the old list at exactly the positions whose tag differs, in their order |
| Sequences.FilterKeepsOrder | tools/blog-assistant/client/src/components/FrontmatterForm.tsx:31 | `Array.prototype.filter` keeps order: its result is the input at exactly the positions whose element passes, in increasing order |
| FrontmatterForm.AddThenRemove | tools/blog-assistant/client/src/components/FrontmatterForm.tsx:19-35 | adding a new tag then removing it restores the frontmatter |
| FrontmatterForm.AddKeepsLimit | tools/blog-assistant/client/src/components/FrontmatterForm.tsx:113 | through the enabled button the list never passes 10 tags; a disabled button under 10 tags means no change |
| FrontmatterForm.AddIgnoresLimit | tools/blog-assistant/client/src/components/FrontmatterForm.tsx:19-107 | the handler itself accepts an eleventh new tag |
| Sorting.SortDescSorted | src/lib/repositories/markdown-repository.ts:33 | the sort leaves keys non-increasing |
| Sorting.SortDescPermutation | src/lib/repositories/markdown-repository.ts:33 | the sort is a permutation |
| Sorting.SortDescStable | src/lib/repositories/markdown-repository.ts:83-85 | elements with equal keys keep their order |
| ContentQueries.PublicEntriesMeaning | src/lib/repositories/markdown-repository.ts:31-33 | the public entries are the non-draft entries, each as often as in the collection, newest first |
| ContentQueries.SlugOf | src/lib/repositories/markdown-repository.ts:106 | one trailing `.md` removed, otherwise the id |
| ContentQueries.SlugOfFileName | src/lib/repositories/markdown-repository.ts:46-106 | the slug of `{slug}.md` is `slug` |
| ContentQueries.FindEntry | src/lib/repositories/markdown-repository.ts:46 | the entry with the id, or none exactly when no entry has it |
| ContentQueries.FindUnique | src/lib/repositories/markdown-repository.ts:46 | with unique ids, looking up an entry's id finds that entry |
| ContentQueries.Tallies | src/lib/repositories/markdown-repository.ts:83-84 | each tag once in first-seen order, with its number of occurrences |
| ContentQueries.TallyAdd | src/lib/repositories/markdown-repository.ts:78 | setting a tag to its previous count (or 0) plus one counts one more of it, adding a new key at the end |
| ContentQueries.CountInto | src/lib/repositories/markdown-repository.ts:77-79 | the inner loop counts one post's tags into the map |
| ContentQueries.CountTags | src/lib/repositories/markdown-repository.ts:73-85 | the loops and the sort give `TagCounts` of the tag lists |
| ContentQueries.TagCountsMeaning | src/lib/repositories/markdown-repository.ts:69-85 | names distinct; each count is the tag's occurrences across all lists, at least one; a tag is listed exactly when some list holds it; non-increasing counts; equal counts in first-seen order |
| ContentQueries.TagOccurrences | src/lib/repositories/markdown-repository.ts:76-79 | when no list repeats a tag, its occurrences are the number of lists holding it |
| MarkdownRepository.MapEntryToPost | src/lib/repositories/markdown-repository.ts:93-116 | slug is the id without one trailing `.md`; content is the body or `''` |
| MarkdownRepository.GetAllPostsMeaning | src/lib/repositories/markdown-repository.ts:25-37 | sorted by non-increasing date; the posts are the images of a permutation of the non-draft entries (each exactly once); no drafts; every non-draft entry's post is listed |
| MarkdownRepository.GetPostBySlugMeaning | src/lib/repositories/markdown-repository.ts:42-55 | null exactly when no entry `{slug}.md` exists or it is a draft; a found post is listed in `getAllPosts` with that slug |
| MarkdownRepository.GetPostBySlugFindsListed | src/lib/repositories/markdown-repository.ts:44-106 | every listed post whose id ends in `.md` is found again by its slug |
| MarkdownRepository.GetPostsByTagMeaning | src/lib/repositories/markdown-repository.ts:60-65 | the posts of `getAllPosts` carrying the tag, each as often as there: the subsequence at exactly the positions of posts with the tag, in `getAllPosts` order (so posts of the same date keep it), hence newest first |
| MarkdownRepository.GetAllTags | src/lib/repositories/markdown-repository.ts:71-86 | the result is `TagCounts` of the tag lists of `getAllPosts` |
| MarkdownRepository.TagCountsArePostCounts | src/lib/repositories/markdown-repository.ts:62-85 | when no post repeats a tag, each tag's count equals the number of posts `getPostsByTag` returns |
| TechBlogRepository.ToPost | tech-blog/src/lib/repositories/markdown-repository.ts:13-45 | slug is the id without one trailing `.md`; the body is copied as it is |
| TechBlogRepository.GetAllPostsMeaning | tech-blog/src/lib/repositories/markdown-repository.ts:6-26 | sorted by non-increasing date; the images of a permutation of the non-draft entries; no drafts; every non-draft entry listed |
| TechBlogRepository.GetPostBySlugMeaning | tech-blog/src/lib/repositories/markdown-repository.ts:28-49 | null exactly when `{slug}.md` is missing or a draft; a found post is listed, with that slug |
| TechBlogRepository.GetPostsByTagMeaning | tech-blog/src/lib/repositories/markdown-repository.ts:51-54 | the posts of `getAllPosts` carrying the tag, each as often as there: the subsequence at exactly the positions of posts with the tag, in `getAllPosts` order, hence newest first |
| TechBlogRepository.GetAllTags | tech-blog/src/lib/repositories/markdown-repository.ts:56-69 | the result is `TagCounts` of the tag lists of `getAllPosts` |
| TechBlogRepository.SameAsSiteRepository | tech-blog/src/lib/repositories/markdown-repository.ts:6-69 | both copies answer every query alike once a missing body is read as `''` |

## Left out

- File system and YAML: `readdir`, `stat`, `existsSync`, `mkdir`, `readFile`, `writeFile`, `rm`, `unlink` and `gray-matter` are not modelled. A directory listing and a reader of parsed files are parameters. The skills file is a field holding the stored custom skills (or missing, or unreadable).
- `path.join` normalisation and `path.parse` of names with trailing slashes: `ParseName` covers names without a trailing `/`.
- Article `getArticle` and `deleteArticle`: the existence checks and reads are left out. The model gives the location they compute (`Articles.Locate`, `Articles.DeleteTarget`) for an id whose first segment is `blog` or `blog-demo`.
- Unknown directories: a directory name other than `blog` or `blog-demo` is not modelled. For one, `DIRECTORIES[directory]` is undefined and the source throws. `getArticle` and `deleteArticle` throw in `join` (tools/blog-assistant/server/services/article-service.ts lines 162-173 and 302-310). `listArticles` throws in `mkdir` (lines 100-104). `Articles.Locate` and `Articles.DeleteTarget` still return a location for such an id. `Articles.ListArticles` treats such a directory through `listing` like a known one.
- Save route: the `POST /` handler (tools/blog-assistant/server/routes/articles.ts:39) calls `saveArticle(frontmatter, content)` and drops the request's `slug`, `directory` and `existingFilename`. The running server therefore names every save by `generateSlug(title)` in `blog`, as a new article. The model states the save service with all its parameters (`Articles.SaveArticle`). `SaveModal.PreviewMatchesNewSave` and `SaveModal.PreviewMatchesUpdate` relate the dialog to that service, not to the route.
- Article `getAllTags` (`localeCompare(..., 'ja')`): locale collation is not modelled, so this operation is left out.
- `saveArticle` mutates the caller's frontmatter (`updatedAt`). The model returns the written frontmatter as a value instead.
- Clock and ids: `Date.now()` and `toISOString()` are parameters (`now`, `id`). `createSkill` reads the clock once for `createdAt` and once more for `updatedAt`; the model gives both the one `now`. `new Date(publishedAt).getTime()` is a parameter function; invalid dates (NaN) are not modelled.
- Case mapping is ASCII-only; full Unicode `toLowerCase`/`toUpperCase` is not modelled.
- Skills.BuildPrompt: requires keys of word characters and values without `$`. This is because JavaScript splices the key into a `RegExp` unescaped and interprets `$` patterns in the value.
- Built-in skill prose (system prompts and templates) is a parameter of `Skills.BuiltInSkills`. Only the ids and flags are fixed.
- `async` interleavings and aliasing: the array `listSkills` returns is the service's own array in the source. The model returns a copy, and concurrent calls are not modelled.
- `getCollection`/`getEntry` are parameters (the entry sequence). Their `try`/`catch` I/O errors are not modelled.
- MarkdownRepository.GetPostBySlugMeaning: requires unique entry ids, as a content collection guarantees. The same holds for `TechBlogRepository.GetPostBySlugMeaning` and `GetPostBySlugFindsListed`.
- MarkdownRepository.TagCountsArePostCounts: requires that no post lists a tag twice. The collection schema allows duplicates, and then a count exceeds the number of posts.
- MarkdownRepository.GetAllPostsMeaning: "each entry exactly once" is stated as the posts being the images of a permutation of the non-draft entries. It is not stated as a multiset of posts, since two entries may map to equal posts.
- ContentQueries.TagCountsMeaning: the tie order is stated as stability with respect to the map's first-seen order, not as explicit positions.
- SaveModal.PreviewMatchesUpdate: folder names ending in `.md` are excluded. For those the dialog strips a second `.md` that the server keeps.
- RemarkCodeTitle.Transform: requires the tree's code nodes to be distinct objects, as a parsed tree is. `unist-util-visit` is replaced by structural recursion, so its visiting order and its skip/exit controls are not modelled.
- React rendering, hooks, HTTP/SSE routes, the AI SDK, the image service and the microCMS client are outside this model.
- The Shiki transformer that reads the `meta` tokens is outside this model.
