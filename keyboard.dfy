/**
 * Keyboard shortcuts of the blog assistant: the declared shortcut strings,
 * the parser that turns `mod+…+key` into flags and a key, the matcher
 * against a key event, and the formatter that renders a shortcut for
 * display.
 */
module Keyboard {
  import opened Strings

  // ----- the declared shortcuts -----

  const TabResults: string := "alt+1"
  const TabPreview: string := "alt+2"
  const TabAstro: string := "alt+3"
  const ToggleRightPanel: string := "alt+0"
  const ToggleArticleList: string := "alt+a"
  const ToggleAssistsPanel: string := "alt+s"
  const NextTab: string := "alt+]"
  const PrevTab: string := "alt+["

  /** The key of each declared shortcut, in declaration order; each is written `alt+<key>`. */
  const DeclaredKeys: seq<char> := ['1', '2', '3', '0', 'a', 's', ']', '[']

  /** The declared shortcuts, in declaration order, each `alt+` and its key. */
  function Declared(): (ds: seq<string>)
    ensures |ds| == |DeclaredKeys| && '+' !in DeclaredKeys
    ensures forall k :: 0 <= k < |ds| ==> ds[k] == "alt+" + [DeclaredKeys[k]]
  {
    assert TabResults == "alt+" + [DeclaredKeys[0]] && TabPreview == "alt+" + [DeclaredKeys[1]];
    assert TabAstro == "alt+" + [DeclaredKeys[2]] && ToggleRightPanel == "alt+" + [DeclaredKeys[3]];
    assert ToggleArticleList == "alt+" + [DeclaredKeys[4]] && ToggleAssistsPanel == "alt+" + [DeclaredKeys[5]];
    assert NextTab == "alt+" + [DeclaredKeys[6]] && PrevTab == "alt+" + [DeclaredKeys[7]];
    [TabResults, TabPreview, TabAstro, ToggleRightPanel, ToggleArticleList, ToggleAssistsPanel, NextTab, PrevTab]
  }

  // ----- parsing -----

  datatype ParsedShortcut = ParsedShortcut(key: string, ctrl: bool, alt: bool, shift: bool, meta: bool)

  /** The `+`-separated segments of the lower-cased shortcut. */
  function Segments(shortcut: string): (parts: seq<string>)
    ensures |parts| >= 1
    ensures forall k :: 0 <= k < |parts| ==> '+' !in parts[k]
    ensures Join(parts, "+") == Lower(shortcut)
  {
    JoinSplit(Lower(shortcut), '+');
    Split(Lower(shortcut), '+')
  }

  /** `parseShortcut`. */
  function ParseShortcut(shortcut: string): ParsedShortcut {
    var parts := Segments(shortcut);
    ParsedShortcut(
      parts[|parts| - 1],
      "ctrl" in parts,
      "alt" in parts,
      "shift" in parts,
      "cmd" in parts || "meta" in parts)
  }

  /**
   * The parsed key is the last segment: it holds no `+`, ends the
   * lower-cased shortcut, and is either all of it or preceded by a `+`.
   */
  lemma ParsedKeyIsLastSegment(shortcut: string)
    ensures var key, t := ParseShortcut(shortcut).key, Lower(shortcut);
      '+' !in key && EndsWith(t, key) && (|key| == |t| || t[|t| - |key| - 1] == '+')
  {
    var parts := Segments(shortcut);
    var n := |parts|;
    if n == 1 {
      assert Lower(shortcut) == parts[0];
    } else {
      JoinLast(parts, "+");
      var front := Join(parts[..n - 1], "+");
      assert Lower(shortcut) == front + "+" + parts[n - 1];
    }
  }

  /** A join of two or more pieces is the join of all but the last, the separator, and the last. */
  lemma {:induction false} JoinLast(parts: seq<string>, sep: string)
    requires |parts| >= 2
    ensures Join(parts, sep) == Join(parts[..|parts| - 1], sep) + sep + parts[|parts| - 1]
  {
    var n := |parts|;
    if n > 2 {
      JoinLast(parts[1..], sep);
      assert parts[1..][..n - 2] == parts[1..n - 1];
      assert parts[..n - 1][1..] == parts[1..n - 1];
      ConcatAssoc(parts[0] + sep, Join(parts[1..n - 1], sep) + sep, parts[n - 1]);
    } else {
      assert parts[..1] == [parts[0]];
      assert parts[1..] == [parts[1]];
    }
  }

  /**
   * `w` stands in `t` as a whole `+`-separated segment starting at `i`:
   * bounded on the left by the start or a `+`, on the right by the end or
   * a `+`.
   */
  predicate DelimitedAt(t: string, w: string, i: int) {
    && 0 <= i && i + |w| <= |t| && t[i..i + |w|] == w
    && (i == 0 || t[i - 1] == '+')
    && (i + |w| == |t| || t[i + |w|] == '+')
  }

  ghost predicate Delimited(t: string, w: string) {
    exists i :: DelimitedAt(t, w, i)
  }

  /**
   * Each flag is set exactly when its modifier name stands as a whole
   * segment of the lower-cased shortcut; `cmd` and `meta` both set `meta`.
   */
  lemma ParsedFlags(shortcut: string)
    ensures var p, t := ParseShortcut(shortcut), Lower(shortcut);
      && (p.ctrl <==> Delimited(t, "ctrl"))
      && (p.alt <==> Delimited(t, "alt"))
      && (p.shift <==> Delimited(t, "shift"))
      && (p.meta <==> Delimited(t, "cmd") || Delimited(t, "meta"))
  {
    var parts := Segments(shortcut);
    SegmentDelimited(parts, "ctrl");
    SegmentDelimited(parts, "alt");
    SegmentDelimited(parts, "shift");
    SegmentDelimited(parts, "cmd");
    SegmentDelimited(parts, "meta");
  }

  /** A piece of a `+`-join is exactly a text that stands there as a whole segment. */
  lemma SegmentDelimited(parts: seq<string>, w: string)
    requires |parts| >= 1 && '+' !in w
    requires forall k :: 0 <= k < |parts| ==> '+' !in parts[k]
    ensures w in parts <==> Delimited(Join(parts, "+"), w)
  {
    if w in parts {
      PieceIsDelimited(parts, w);
    }
    if Delimited(Join(parts, "+"), w) {
      var i :| DelimitedAt(Join(parts, "+"), w, i);
      DelimitedIsPiece(parts, w, i);
    }
  }

  lemma {:induction false} PieceIsDelimited(parts: seq<string>, w: string)
    requires |parts| >= 1 && w in parts
    ensures Delimited(Join(parts, "+"), w)
  {
    var p0 := parts[0];
    if |parts| == 1 {
      assert Join(parts, "+") == p0 + "";
      HeadDelimited(p0, "");
    } else {
      var rest, r := parts[1..], Join(parts[1..], "+");
      assert Join(parts, "+") == p0 + ("+" + r);
      if w == p0 {
        HeadDelimited(p0, "+" + r);
      } else {
        assert w in rest;
        PieceIsDelimited(rest, w);
        var j :| DelimitedAt(r, w, j);
        ShiftDelimited(p0, r, w, j);
      }
    }
  }

  lemma {:induction false} DelimitedIsPiece(parts: seq<string>, w: string, i: int)
    requires |parts| >= 1 && '+' !in w
    requires forall k :: 0 <= k < |parts| ==> '+' !in parts[k]
    requires DelimitedAt(Join(parts, "+"), w, i)
    ensures w in parts
  {
    var p0 := parts[0];
    if |parts| == 1 {
      assert Join(parts, "+") == p0 + "";
      HeadBoundary(p0, "", w, i);
    } else {
      var rest, r := parts[1..], Join(parts[1..], "+");
      assert Join(parts, "+") == p0 + ("+" + r);
      if i <= |p0| {
        HeadBoundary(p0, "+" + r, w, i);
      } else {
        var j := i - |p0| - 1;
        ShiftDelimited(p0, r, w, j);
        DelimitedIsPiece(rest, w, j);
      }
    }
  }

  lemma HeadDelimited(p0: string, u: string)
    requires u == "" || u[0] == '+'
    ensures DelimitedAt(p0 + u, p0, 0)
  {
    assert (p0 + u)[0..|p0|] == p0;
  }

  /** A segment that starts inside the first piece is the first piece. */
  lemma HeadBoundary(p0: string, u: string, w: string, i: int)
    requires '+' !in p0 && '+' !in w && (u == "" || u[0] == '+')
    requires DelimitedAt(p0 + u, w, i) && i <= |p0|
    ensures w == p0
  {
    var t := p0 + u;
    assert t[..|p0|] == p0;
  }

  /** A segment of the rest, shifted past the first piece and its `+`, is a segment of the whole. */
  lemma ShiftDelimited(p0: string, r: string, w: string, j: int)
    requires 0 <= j
    ensures DelimitedAt(r, w, j) <==> DelimitedAt(p0 + "+" + r, w, |p0| + 1 + j)
  {
    var t := p0 + "+" + r;
    var i := |p0| + 1 + j;
    assert t[|p0|] == '+';
    if j + |w| <= |r| {
      assert t[i..i + |w|] == r[j..j + |w|];
      if j > 0 {
        assert t[i - 1] == r[j - 1];
      }
      if j + |w| < |r| {
        assert t[i + |w|] == r[j + |w|];
      }
    }
  }

  /** Parsing ignores case: a shortcut and its lower-cased form parse alike. */
  lemma ParseIgnoresCase(shortcut: string)
    ensures ParseShortcut(shortcut) == ParseShortcut(Lower(shortcut))
  {
    LowerIdempotent(shortcut);
  }

  /** `alt+<key>` with a key free of `+` sets only `alt`, and the key is lower-cased. */
  lemma ParseAltShortcut(key: string)
    requires '+' !in key && Lower(key) != "alt"
      && Lower(key) != "ctrl" && Lower(key) != "shift" && Lower(key) != "cmd" && Lower(key) != "meta"
    ensures ParseShortcut("alt+" + key) == ParsedShortcut(Lower(key), false, true, false, false)
  {
    var s := "alt+" + key;
    LowerConcat("alt+", key);
    assert Lower("alt+") == "alt+";
    assert '+' !in Lower(key) by { LowerKeepsSeparator(key); }
    SplitAfter("alt", '+', Lower(key));
    assert "alt+" + Lower(key) == "alt" + ['+'] + Lower(key);
    SplitNoSep(Lower(key), '+');
    var parts := Segments(s);
    assert parts == ["alt", Lower(key)];
  }

  lemma LowerConcat(a: string, b: string)
    ensures Lower(a + b) == Lower(a) + Lower(b)
  {
    assert forall i :: 0 <= i < |a + b| ==> Lower(a + b)[i] == (Lower(a) + Lower(b))[i];
  }

  /** Lower-casing neither adds nor removes a `+`. */
  lemma LowerKeepsSeparator(s: string)
    ensures '+' in Lower(s) <==> '+' in s
  {
    if '+' in s {
      var i :| 0 <= i < |s| && s[i] == '+';
      assert Lower(s)[i] == '+';
    }
    if '+' in Lower(s) {
      var i :| 0 <= i < |s| && Lower(s)[i] == '+';
      assert s[i] == '+';
    }
  }

  /** `alt+<c>` for one character other than `+` sets only `alt`. */
  lemma ParseAltKey(c: char)
    requires c != '+'
    ensures var p := ParseShortcut("alt+" + [c]);
      p.alt && !p.ctrl && !p.shift && !p.meta && p.key == [LowerChar(c)]
  {
    assert Lower([c]) == [LowerChar(c)];
    ParseAltShortcut([c]);
  }

  /** Every declared shortcut is `alt` plus its key, with no other modifier. */
  lemma DeclaredShortcutsUseAltOnly()
    ensures forall s | s in Declared() ::
      var p := ParseShortcut(s); p.alt && !p.ctrl && !p.shift && !p.meta
  {
    forall s | s in Declared()
      ensures var p := ParseShortcut(s); p.alt && !p.ctrl && !p.shift && !p.meta
    {
      var k :| 0 <= k < |Declared()| && s == Declared()[k];
      ParseAltKey(DeclaredKeys[k]);
    }
  }

  // ----- matching -----

  /** The fields of a browser key event that the matcher reads. */
  datatype KeyEvent = KeyEvent(key: string, ctrlKey: bool, altKey: bool, shiftKey: bool, metaKey: bool)

  /** `matchesShortcut`: the four modifier checks, then the case-insensitive key comparison. */
  function MatchesShortcut(event: KeyEvent, shortcut: string): (r: bool)
    ensures r <==>
      var p := ParseShortcut(shortcut);
      p.ctrl == event.ctrlKey && p.alt == event.altKey && p.shift == event.shiftKey
      && p.meta == event.metaKey && Lower(event.key) == p.key
  {
    var parsed := ParseShortcut(shortcut);
    if parsed.ctrl != event.ctrlKey then false
    else if parsed.alt != event.altKey then false
    else if parsed.shift != event.shiftKey then false
    else if parsed.meta != event.metaKey then false
    else Lower(event.key) == parsed.key
  }

  /** The case of neither the event's key nor the shortcut matters. */
  lemma MatchIgnoresCase(event: KeyEvent, shortcut: string)
    ensures MatchesShortcut(event, shortcut) == MatchesShortcut(event.(key := Lower(event.key)), Lower(shortcut))
    ensures MatchesShortcut(event, shortcut) == MatchesShortcut(event.(key := Upper(event.key)), shortcut)
  {
    ParseIgnoresCase(shortcut);
    LowerIdempotent(event.key);
    LowerUpper(event.key);
  }

  lemma LowerUpper(s: string)
    ensures Lower(Upper(s)) == Lower(s)
  {
  }

  /** An event whose key holds a `+` never matches: the parsed key has none. */
  lemma PlusKeyNeverMatches(event: KeyEvent, shortcut: string)
    requires '+' in event.key
    ensures !MatchesShortcut(event, shortcut)
  {
    ParsedKeyIsLastSegment(shortcut);
    LowerKeepsSeparator(event.key);
  }

  /** The results tab is switched by Alt+1 with no other modifier. */
  lemma ResultsTabMatch(ctrl: bool, shift: bool, meta: bool)
    ensures MatchesShortcut(KeyEvent("1", ctrl, true, shift, meta), TabResults) <==> !ctrl && !shift && !meta
  {
    assert Lower("1")[0] == LowerChar('1');
    ParseAltShortcut("1");
    assert TabResults == "alt+" + "1";
  }

  // ----- formatting -----

  /** The punctuation keys shown as written. */
  predicate IsShownAsIs(l: string) {
    l == "[" || l == "]" || l == "," || l == "." || l == "/" || l == "\\" || l == ";" || l == "'"
  }

  /** The display form of one segment. */
  function FormatPart(part: string): string {
    var l := Lower(part);
    if l == "ctrl" then "Ctrl"
    else if l == "alt" then "Alt"
    else if l == "shift" then "Shift"
    else if l == "cmd" || l == "meta" then "Cmd"
    else if l == "tab" then "Tab"
    else if IsShownAsIs(l) then part
    else Upper(part)
  }

  function FormatParts(parts: seq<string>): (r: seq<string>)
    ensures |r| == |parts| && forall k :: 0 <= k < |parts| ==> r[k] == FormatPart(parts[k])
  {
    seq(|parts|, k requires 0 <= k < |parts| => FormatPart(parts[k]))
  }

  /** `formatShortcut`. */
  function FormatShortcut(shortcut: string): string {
    Join(FormatParts(Split(shortcut, '+')), "+")
  }

  /** A segment's display form holds a `+` only if the segment does. */
  lemma FormatPartKeepsSeparator(part: string)
    ensures '+' in FormatPart(part) ==> '+' in part
  {
    var l := Lower(part);
    if !(l == "ctrl" || l == "alt" || l == "shift" || l == "cmd" || l == "meta" || l == "tab" || IsShownAsIs(l)) {
      if '+' in Upper(part) {
        var i :| 0 <= i < |part| && Upper(part)[i] == '+';
        assert part[i] == '+';
      }
    }
  }

  /**
   * Formatting keeps the segments: the result splits at `+` into exactly
   * the display forms of the original segments, one for one.
   */
  lemma FormatKeepsSegments(shortcut: string)
    ensures Split(FormatShortcut(shortcut), '+') == FormatParts(Split(shortcut, '+'))
    ensures |Split(FormatShortcut(shortcut), '+')| == |Split(shortcut, '+')|
  {
    var parts := Split(shortcut, '+');
    var shown := FormatParts(parts);
    forall k | 0 <= k < |shown| ensures '+' !in shown[k] {
      FormatPartKeepsSeparator(parts[k]);
    }
    SplitJoin(shown, '+');
  }

  /** The segment names that have a fixed display label. */
  predicate IsNamedKey(l: string) {
    l == "ctrl" || l == "alt" || l == "shift" || l == "cmd" || l == "meta" || l == "tab"
  }

  /**
   * A segment's display form ignores its case, `cmd` and `meta` are both
   * shown `Cmd`, the listed punctuation is kept, and any other segment is
   * upper-cased, leaving no lower-case letter.
   */
  lemma FormatPartCases(part: string)
    ensures FormatPart(part) == FormatPart(Lower(part))
    ensures Lower(part) == "cmd" || Lower(part) == "meta" ==> FormatPart(part) == "Cmd"
    ensures IsShownAsIs(Lower(part)) ==> FormatPart(part) == part
    ensures !IsNamedKey(Lower(part)) && !IsShownAsIs(Lower(part)) ==>
      FormatPart(part) == Upper(part) && forall c | c in FormatPart(part) :: !IsAsciiLower(c)
  {
    LowerIdempotent(part);
    var l := Lower(part);
    if IsShownAsIs(l) {
      assert |part| == 1 && l[0] == LowerChar(part[0]);
      assert part == l;
    } else if !IsNamedKey(l) {
      assert Upper(l) == Upper(part) by {
        assert forall i :: 0 <= i < |part| ==> UpperChar(LowerChar(part[i])) == UpperChar(part[i]);
      }
      forall c | c in Upper(part) ensures !IsAsciiLower(c) {
        var i :| 0 <= i < |part| && Upper(part)[i] == c;
      }
    }
  }

  /** The display form of a one-character segment. */
  lemma FormatPartChar(c: char)
    ensures FormatPart([c]) == if IsShownAsIs([LowerChar(c)]) then [c] else [UpperChar(c)]
  {
    assert Lower([c]) == [LowerChar(c)];
    assert Upper([c]) == [UpperChar(c)];
  }

  /** `alt+<c>` is shown as `Alt+` and the display form of `c`. */
  lemma FormatAltKey(c: char)
    requires c != '+'
    ensures FormatShortcut("alt+" + [c]) == "Alt+" + FormatPart([c])
  {
    var key := [c];
    assert "alt+" + key == "alt" + ['+'] + key;
    SplitAfter("alt", '+', key);
    SplitNoSep(key, '+');
    var parts := Split("alt+" + key, '+');
    assert parts == ["alt", key];
    assert FormatPart("alt") == "Alt";
    assert FormatParts(parts) == ["Alt", FormatPart(key)];
    JoinTwo("Alt", FormatPart(key), "+");
  }

  /** `alt+1` is shown `Alt+1`. */
  lemma FormatResultsExample()
    ensures FormatShortcut(TabResults) == "Alt+1"
  {
    assert TabResults == "alt+" + ['1'];
    FormatAltKey('1');
    FormatPartChar('1');
  }

  /** `alt+]` is shown `Alt+]`. */
  lemma FormatNextTabExample()
    ensures FormatShortcut(NextTab) == "Alt+]"
  {
    assert NextTab == "alt+" + [']'];
    FormatAltKey(']');
    FormatPartChar(']');
  }
}
