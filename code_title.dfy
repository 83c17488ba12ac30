/**
 * The fence-title transform (`remarkCodeTitle`): every `code` node whose
 * language tag is `lang:filename` gets `lang` cut at the first colon and
 * `meta` extended with `data-filename="…"` and `data-language="…"` tokens,
 * which the syntax highlighter later reads.
 */
module RemarkCodeTitle {
  import opened Wrappers
  import opened Strings

  /** A fenced code node; the visitor rewrites `lang` and `meta` in place. */
  class CodeNode {
    var lang: Option<string>
    var meta: Option<string>
    var value: string

    constructor(lang: Option<string>, meta: Option<string>, value: string)
      ensures this.lang == lang && this.meta == meta && this.value == value
    {
      this.lang := lang;
      this.meta := meta;
      this.value := value;
    }

    /** The visitor's body for one node. */
    method Retitle()
      modifies this
      ensures Fence(lang, meta) == Retitled(old(Fence(lang, meta)))
      ensures value == old(value)
    {
      if lang.None? || lang.value == "" {
        return;
      }
      var tag := lang.value;
      var colon := IndexOf(tag, ':');
      var hasFilename := colon != -1;
      var newLang := if hasFilename then tag[..colon] else tag;
      var filename: Option<string> := if hasFilename then Some(tag[colon + 1..]) else None;
      lang := Some(newLang);
      var parts: seq<string> := [];
      if meta.Some? && meta.value != "" {
        parts := parts + [meta.value];
      }
      if filename.Some? && filename.value != "" {
        parts := parts + [FilenameToken(filename.value)];
      }
      parts := parts + [LanguageToken(newLang)];
      JoinedParts(meta, filename, newLang, parts);
      meta := Some(Join(parts, " "));
    }
  }

  /** The two fields the transform reads and writes, as a value. */
  datatype Fence = Fence(lang: Option<string>, meta: Option<string>)

  function FilenameToken(filename: string): string {
    "data-filename=\"" + filename + "\""
  }

  function LanguageToken(lang: string): string {
    "data-language=\"" + lang + "\""
  }

  /**
   * The tag cut at its first colon: the language before it and the
   * filename after it, or the whole tag and no filename.
   */
  function SplitTag(tag: string): (r: (string, Option<string>))
    ensures ':' !in r.0
    ensures r.1.None? <==> ':' !in tag
    ensures r.1.None? ==> r.0 == tag
    ensures r.1.Some? ==> tag == r.0 + [':'] + r.1.value
  {
    var colon := IndexOf(tag, ':');
    if colon == -1 then (tag, None)
    else
      assert tag == tag[..colon] + [':'] + tag[colon + 1..];
      (tag[..colon], Some(tag[colon + 1..]))
  }

  /**
   * The joined metadata: the old `meta` when non-empty, the filename token
   * when the filename is non-empty, and the language token, separated by
   * single spaces.
   */
  function MetaText(meta: Option<string>, filename: Option<string>, lang: string): string {
    (if Truthy(meta) then meta.value + " " else "")
    + (if Truthy(filename) then FilenameToken(filename.value) + " " else "")
    + LanguageToken(lang)
  }

  function Retitled(f: Fence): Fence {
    if !Truthy(f.lang) then f
    else
      var (lang, filename) := SplitTag(f.lang.value);
      Fence(Some(lang), Some(MetaText(f.meta, filename, lang)))
  }

  /** Joining the pushed parts with one space gives the metadata text. */
  lemma JoinedParts(meta: Option<string>, filename: Option<string>, lang: string, parts: seq<string>)
    requires parts == (if Truthy(meta) then [meta.value] else [])
      + (if Truthy(filename) then [FilenameToken(filename.value)] else [])
      + [LanguageToken(lang)]
    ensures Join(parts, " ") == MetaText(meta, filename, lang)
  {
    var m := if meta.Some? then meta.value else "";
    var f := if filename.Some? then FilenameToken(filename.value) else "";
    JoinPieces(m, f, LanguageToken(lang), Truthy(meta), Truthy(filename));
  }

  /** Joining optional first and second pieces and a last one with spaces. */
  lemma JoinPieces(m: string, f: string, l: string, hasM: bool, hasF: bool)
    ensures Join((if hasM then [m] else []) + (if hasF then [f] else []) + [l], " ")
      == (if hasM then m + " " else "") + (if hasF then f + " " else "") + l
  {
    if hasM && hasF {
      assert [m] + [f] + [l] == [m, f, l];
      JoinThree(m, f, l, " ");
    } else if hasM {
      assert [m] + [] + [l] == [m, l];
      JoinTwo(m, l, " ");
    } else if hasF {
      assert [] + [f] + [l] == [f, l];
      JoinTwo(f, l, " ");
    } else {
      assert [] + [] + [l] == [l];
    }
  }

  lemma JoinThree(a: string, b: string, c: string, sep: string)
    ensures Join([a, b, c], sep) == a + sep + (b + sep + c)
    ensures Join([a, b, c], sep) == (a + sep) + (b + sep) + c
  {
    assert [a, b, c][1..] == [b, c];
    JoinTwo(b, c, sep);
  }

  // ----- what the transform promises -----

  /** A node without a language tag, or with an empty one, is left as it is, `meta` included. */
  lemma RetitleSkips(f: Fence)
    requires f.lang.None? || f.lang == Some("")
    ensures Retitled(f) == f
  {
  }

  /**
   * The new language is the text before the first colon of the tag, or the
   * whole tag without one, and holds no colon.
   */
  lemma RetitleLang(tag: string, meta: Option<string>)
    requires tag != ""
    ensures Retitled(Fence(Some(tag), meta)).lang.Some?
    ensures var lang := Retitled(Fence(Some(tag), meta)).lang.value;
      ':' !in lang && lang == if ':' in tag then tag[..IndexOf(tag, ':')] else tag
  {
    var r := SplitTag(tag);
    if ':' in tag {
      var i := IndexOf(tag, ':');
      assert tag[..i] == r.0 by {
        assert tag[..|r.0|] == r.0;
        ColonPosition(tag, r.0, r.1.value);
      }
    }
  }

  /** The first colon of `lang:rest`, when `lang` has none, sits right after `lang`. */
  lemma ColonPosition(tag: string, lang: string, rest: string)
    requires tag == lang + [':'] + rest && ':' !in lang
    ensures IndexOf(tag, ':') == |lang|
  {
    assert tag[|lang|] == ':';
    assert tag[..|lang|] == lang;
  }

  /**
   * The filename is everything after the first colon, verbatim (further
   * colons included), and its token is added exactly when it is non-empty.
   */
  lemma RetitleFilename(lang: string, filename: string, meta: Option<string>)
    requires ':' !in lang && lang + [':'] + filename != ""
    ensures Retitled(Fence(Some(lang + [':'] + filename), meta))
      == Fence(Some(lang), Some(MetaText(meta, Some(filename), lang)))
  {
    var tag := lang + [':'] + filename;
    var r := SplitTag(tag);
    ColonPosition(tag, lang, filename);
    ColonPosition(tag, r.0, r.1.value);
    assert r.0 == tag[..|lang|] == lang;
    assert r.1.value == tag[|lang| + 1..] == filename;
  }

  /** A tag without a colon keeps its language and adds no filename token. */
  lemma RetitleNoColon(tag: string, meta: Option<string>)
    requires tag != "" && ':' !in tag
    ensures Retitled(Fence(Some(tag), meta)) == Fence(Some(tag), Some(MetaText(meta, None, tag)))
  {
  }

  /**
   * The metadata tokens: the old `meta` first when non-empty, then the
   * filename token exactly when the filename is non-empty (so never for
   * `ts` or `ts:`), and the language token always, last.
   */
  lemma MetaTokens(meta: Option<string>, filename: Option<string>, lang: string)
    ensures Truthy(meta) ==> meta.value + " " <= MetaText(meta, filename, lang)
    ensures !Truthy(filename) ==>
      MetaText(meta, filename, lang) == (if Truthy(meta) then meta.value + " " else "") + LanguageToken(lang)
    ensures Truthy(filename) ==>
      MetaText(meta, filename, lang)
        == (if Truthy(meta) then meta.value + " " else "") + FilenameToken(filename.value) + " " + LanguageToken(lang)
    ensures EndsWith(MetaText(meta, filename, lang), LanguageToken(lang))
  {
    var m := if Truthy(meta) then meta.value + " " else "";
    var f := if Truthy(filename) then FilenameToken(filename.value) + " " else "";
    var l := LanguageToken(lang);
    assert MetaText(meta, filename, lang) == m + f + l;
    assert (m + f + l)[..|m|] == m;
    assert (m + f + l)[|m + f + l| - |l|..] == l;
  }

  /** Running the transform on its own output leaves every language unchanged. */
  lemma RetitleLangIdempotent(f: Fence)
    ensures Retitled(Retitled(f)).lang == Retitled(f).lang
  {
    if Truthy(f.lang) {
      var lang := SplitTag(f.lang.value).0;
      if lang != "" {
        var r := SplitTag(lang);
        assert r.1.None?;
      }
    }
  }

  /** A titled tag on a node without `meta`: the filename token, then the language token. */
  lemma TitledWithoutMeta(lang: string, filename: string)
    requires ':' !in lang && filename != ""
    ensures Retitled(Fence(Some(lang + [':'] + filename), None))
      == Fence(Some(lang), Some(FilenameToken(filename) + " " + LanguageToken(lang)))
  {
    RetitleFilename(lang, filename, None);
    MetaTokens(None, Some(filename), lang);
    assert "" + FilenameToken(filename) == FilenameToken(filename);
  }

  /** `typescript:src/example.ts` with no `meta`. */
  lemma TitledExample()
    ensures Retitled(Fence(Some("typescript:src/example.ts"), None))
      == Fence(Some("typescript"), Some(FilenameToken("src/example.ts") + " " + LanguageToken("typescript")))
  {
    assert "typescript:src/example.ts" == "typescript" + [':'] + "src/example.ts";
    TitledWithoutMeta("typescript", "src/example.ts");
  }

  /** `bash`: only the language token. */
  lemma BareExample()
    ensures Retitled(Fence(Some("bash"), None)) == Fence(Some("bash"), Some(LanguageToken("bash")))
  {
    RetitleNoColon("bash", None);
    MetaTokens(None, None, "bash");
    assert "" + LanguageToken("bash") == LanguageToken("bash");
  }

  // ----- the tree walk -----

  /** The Markdown tree: code nodes are objects, every other node a value with its children. */
  datatype Tree = Code(node: CodeNode) | Other(kind: string, children: seq<Tree>)

  function Size(t: Tree): nat {
    match t
    case Code(_) => 1
    case Other(_, ch) => 1 + SizeOf(ch)
  }

  function SizeOf(ts: seq<Tree>): nat {
    if |ts| == 0 then 0 else Size(ts[0]) + SizeOf(ts[1..])
  }

  /** The code nodes of a tree, at any depth, in document order. */
  function CodeNodes(t: Tree): seq<CodeNode>
    decreases Size(t), 0
  {
    match t
    case Code(n) => [n]
    case Other(_, ch) => CodeNodesOf(ch)
  }

  function CodeNodesOf(ts: seq<Tree>): seq<CodeNode>
    decreases SizeOf(ts), 1
  {
    if |ts| == 0 then [] else CodeNodes(ts[0]) + CodeNodesOf(ts[1..])
  }

  lemma {:induction false} CodeNodesAllocated(t: Tree)
    ensures forall n | n in CodeNodes(t) :: allocated(n)
    decreases Size(t), 0
  {
    if t.Other? {
      CodeNodesOfAllocated(t.children);
    }
  }

  lemma {:induction false} CodeNodesOfAllocated(ts: seq<Tree>)
    ensures forall n | n in CodeNodesOf(ts) :: allocated(n)
    decreases SizeOf(ts), 1
  {
    if |ts| > 0 {
      CodeNodesAllocated(ts[0]);
      CodeNodesOfAllocated(ts[1..]);
    }
  }

  /** Distinct positions hold distinct nodes: a parsed tree never shares a node. */
  predicate Distinct(ns: seq<CodeNode>) {
    forall i, j :: 0 <= i < j < |ns| ==> ns[i] != ns[j]
  }

  /**
   * The transform: visits every code node of the tree once and retitles
   * it; nothing else in the tree is touched.
   */
  method Transform(tree: Tree)
    requires Distinct(CodeNodes(tree))
    modifies set n | n in CodeNodes(tree)
    ensures forall n | n in CodeNodes(tree) ::
      Fence(n.lang, n.meta) == Retitled(old(Fence(n.lang, n.meta))) && n.value == old(n.value)
  {
    var nodes := CodeNodes(tree);
    CodeNodesAllocated(tree);
    assert forall k :: 0 <= k < |nodes| ==> nodes[k] in nodes;
    ghost var was := seq(|nodes|, k requires 0 <= k < |nodes| reads set n | n in nodes => (Fence(nodes[k].lang, nodes[k].meta), nodes[k].value));
    var i := 0;
    while i < |nodes|
      invariant 0 <= i <= |nodes|
      invariant forall k :: 0 <= k < |nodes| ==> allocated(nodes[k])
      invariant forall k :: 0 <= k < i ==>
        Fence(nodes[k].lang, nodes[k].meta) == Retitled(was[k].0) && nodes[k].value == was[k].1
      invariant forall k :: i <= k < |nodes| ==>
        Fence(nodes[k].lang, nodes[k].meta) == was[k].0 && nodes[k].value == was[k].1
    {
      nodes[i].Retitle();
      i := i + 1;
    }
  }
}
