/**
 * The HTML escaper of the callout transform (`escapeHtml`): five global
 * one-character replacements applied in a fixed order, `&` first.
 */
module HtmlEscape {
  import opened Strings

  /** The five characters the escaper rewrites. */
  predicate IsSpecial(c: char) {
    c == '&' || c == '<' || c == '>' || c == '"' || c == '\''
  }

  /** What one character becomes in escaped text. */
  function EscapeChar(c: char): string {
    match c
    case '&' => "&amp;"
    case '<' => "&lt;"
    case '>' => "&gt;"
    case '"' => "&quot;"
    case '\'' => "&#039;"
    case _ => [c]
  }

  /** The per-character reading of the escaper: every character escaped independently. */
  function EscapeEach(s: string): string
  {
    if |s| == 0 then "" else EscapeChar(s[0]) + EscapeEach(s[1..])
  }

  /** `escapeHtml` as written: `&`, `<`, `>`, `"`, `'` replaced one after another. */
  function EscapeHtml(s: string): string
  {
    ReplaceChar(ReplaceChar(ReplaceChar(ReplaceChar(ReplaceChar(
      s, '&', "&amp;"), '<', "&lt;"), '>', "&gt;"), '"', "&quot;"), '\'', "&#039;")
  }

  /** Decoding the five entities, `&amp;` last. */
  function UnescapeHtml(s: string): string
  {
    ReplaceAll(ReplaceAll(ReplaceAll(ReplaceAll(ReplaceAll(
      s, "&lt;", "<"), "&gt;", ">"), "&quot;", "\""), "&#039;", "'"), "&amp;", "&")
  }

  /**
   * The sequential replacements equal the per-character escaping: no
   * replacement re-introduces a character a later one rewrites.
   */
  lemma {:induction false} EscapeHtmlIsPerCharacter(s: string)
    ensures EscapeHtml(s) == EscapeEach(s)
  {
    if |s| > 0 {
      EscapeHtmlIsPerCharacter(s[1..]);
      var c, t := s[0], s[1..];
      assert s == [c] + t;
      ReplaceCharConcat([c], t, '&', "&amp;");
      var t1 := ReplaceChar(t, '&', "&amp;");
      var a1 := ReplaceChar([c], '&', "&amp;");
      ReplaceCharConcat(a1, t1, '<', "&lt;");
      var t2 := ReplaceChar(t1, '<', "&lt;");
      var a2 := ReplaceChar(a1, '<', "&lt;");
      ReplaceCharConcat(a2, t2, '>', "&gt;");
      var t3 := ReplaceChar(t2, '>', "&gt;");
      var a3 := ReplaceChar(a2, '>', "&gt;");
      ReplaceCharConcat(a3, t3, '"', "&quot;");
      var t4 := ReplaceChar(t3, '"', "&quot;");
      var a4 := ReplaceChar(a3, '"', "&quot;");
      ReplaceCharConcat(a4, t4, '\'', "&#039;");
      EscapeOneCharacter(c);
    }
  }

  lemma {:induction false} ReplaceCharAbsent(s: string, c: char, r: string)
    requires c !in s
    ensures ReplaceChar(s, c, r) == s
  {
    if |s| > 0 {
      ReplaceCharAbsent(s[1..], c, r);
      assert s == [s[0]] + s[1..];
    }
  }

  lemma ReplaceCharSingle(c: char, d: char, r: string)
    ensures ReplaceChar([c], d, r) == if c == d then r else [c]
  {
    assert [c][1..] == [];
  }

  lemma EscapeOneCharacter(c: char)
    ensures EscapeHtml([c]) == EscapeChar(c)
  {
    if c == '&' {
      EscapeAmpersand(c);
    } else if c == '<' {
      EscapeLess(c);
    } else if c == '>' {
      EscapeGreater(c);
    } else if c == '"' {
      EscapeQuote(c);
    } else if c == '\'' {
      EscapeApostrophe(c);
    } else {
      EscapeOrdinary(c);
    }
  }

  /** Text free of `<`, `>`, `"` and `'` passes the last four replacements unchanged. */
  lemma AfterAmpersandStage(e: string)
    requires '<' !in e && '>' !in e && '"' !in e && '\'' !in e
    ensures ReplaceChar(ReplaceChar(ReplaceChar(ReplaceChar(
      e, '<', "&lt;"), '>', "&gt;"), '"', "&quot;"), '\'', "&#039;") == e
  {
    ReplaceCharAbsent(e, '<', "&lt;");
    ReplaceCharAbsent(e, '>', "&gt;");
    ReplaceCharAbsent(e, '"', "&quot;");
    ReplaceCharAbsent(e, '\'', "&#039;");
  }

  /** Text free of `>`, `"` and `'` passes the last three replacements unchanged. */
  lemma AfterLessStage(e: string)
    requires '>' !in e && '"' !in e && '\'' !in e
    ensures ReplaceChar(ReplaceChar(ReplaceChar(
      e, '>', "&gt;"), '"', "&quot;"), '\'', "&#039;") == e
  {
    ReplaceCharAbsent(e, '>', "&gt;");
    ReplaceCharAbsent(e, '"', "&quot;");
    ReplaceCharAbsent(e, '\'', "&#039;");
  }

  lemma EscapeAmpersand(c: char)
    requires c == '&'
    ensures EscapeHtml([c]) == "&amp;"
  {
    ReplaceCharSingle(c, '&', "&amp;");
    AfterAmpersandStage("&amp;");
  }

  lemma EscapeLess(c: char)
    requires c == '<'
    ensures EscapeHtml([c]) == "&lt;"
  {
    ReplaceCharSingle(c, '&', "&amp;");
    ReplaceCharSingle(c, '<', "&lt;");
    AfterLessStage("&lt;");
  }

  lemma EscapeGreater(c: char)
    requires c == '>'
    ensures EscapeHtml([c]) == "&gt;"
  {
    var e := "&gt;";
    ReplaceCharSingle(c, '&', "&amp;");
    ReplaceCharSingle(c, '<', "&lt;");
    ReplaceCharSingle(c, '>', e);
    ReplaceCharAbsent(e, '"', "&quot;");
    ReplaceCharAbsent(e, '\'', "&#039;");
  }

  lemma EscapeQuote(c: char)
    requires c == '"'
    ensures EscapeHtml([c]) == "&quot;"
  {
    var e := "&quot;";
    ReplaceCharSingle(c, '&', "&amp;");
    ReplaceCharSingle(c, '<', "&lt;");
    ReplaceCharSingle(c, '>', "&gt;");
    ReplaceCharSingle(c, '"', e);
    ReplaceCharAbsent(e, '\'', "&#039;");
  }

  lemma EscapeApostrophe(c: char)
    requires c == '\''
    ensures EscapeHtml([c]) == "&#039;"
  {
    ReplaceCharSingle(c, '&', "&amp;");
    ReplaceCharSingle(c, '<', "&lt;");
    ReplaceCharSingle(c, '>', "&gt;");
    ReplaceCharSingle(c, '"', "&quot;");
    ReplaceCharSingle(c, '\'', "&#039;");
  }

  lemma EscapeOrdinary(c: char)
    requires !IsSpecial(c)
    ensures EscapeHtml([c]) == [c]
  {
    ReplaceCharSingle(c, '&', "&amp;");
    ReplaceCharSingle(c, '<', "&lt;");
    ReplaceCharSingle(c, '>', "&gt;");
    ReplaceCharSingle(c, '"', "&quot;");
    ReplaceCharSingle(c, '\'', "&#039;");
  }

  /** Escaped text holds none of `<`, `>`, `"`, `'`. */
  lemma {:induction false} EscapedHasNoMarkup(s: string)
    ensures forall i :: 0 <= i < |EscapeHtml(s)| ==>
              EscapeHtml(s)[i] !in {'<', '>', '"', '\''}
  {
    EscapeHtmlIsPerCharacter(s);
    EscapeEachHasNoMarkup(s);
  }

  lemma {:induction false} EscapeEachHasNoMarkup(s: string)
    ensures forall i :: 0 <= i < |EscapeEach(s)| ==> EscapeEach(s)[i] !in {'<', '>', '"', '\''}
  {
    if |s| > 0 {
      EscapeEachHasNoMarkup(s[1..]);
      var e := EscapeChar(s[0]);
      forall i | 0 <= i < |EscapeEach(s)| ensures EscapeEach(s)[i] !in {'<', '>', '"', '\''} {
        if i >= |e| {
          assert EscapeEach(s)[i] == EscapeEach(s[1..])[i - |e|];
        }
      }
    }
  }

  /** Escaping works character by character, so it distributes over concatenation. */
  lemma {:induction false} EscapeEachConcat(a: string, b: string)
    ensures EscapeEach(a + b) == EscapeEach(a) + EscapeEach(b)
  {
    if |a| > 0 {
      EscapeEachConcat(a[1..], b);
      assert (a + b)[1..] == a[1..] + b;
    } else {
      assert a + b == b;
    }
  }

  /** Text without special characters is not changed by escaping. */
  lemma {:induction false} EscapePlainIsIdentity(s: string)
    requires forall i :: 0 <= i < |s| ==> !IsSpecial(s[i])
    ensures EscapeHtml(s) == s
  {
    EscapeHtmlIsPerCharacter(s);
    EscapeEachPlain(s);
  }

  lemma {:induction false} EscapeEachPlain(s: string)
    requires forall i :: 0 <= i < |s| ==> !IsSpecial(s[i])
    ensures EscapeEach(s) == s
  {
    if |s| > 0 {
      EscapeEachPlain(s[1..]);
      assert s == [s[0]] + s[1..];
    }
  }

  // ----- decoding restores the input -----

  /** Decoding order: the k-th replacement of `UnescapeHtml` restores this character. */
  function Stage(c: char): nat {
    match c
    case '<' => 1
    case '>' => 2
    case '"' => 3
    case '\'' => 4
    case '&' => 5
    case _ => 0
  }

  function Entity(k: nat): string
    requires 1 <= k <= 5
  {
    match k
    case 1 => "&lt;"
    case 2 => "&gt;"
    case 3 => "&quot;"
    case 4 => "&#039;"
    case 5 => "&amp;"
  }

  function Restored(k: nat): char
    requires 1 <= k <= 5
  {
    match k
    case 1 => '<'
    case 2 => '>'
    case 3 => '"'
    case 4 => '\''
    case 5 => '&'
  }

  /** The text after the first `k` decoding steps: characters of stage up to `k` are back. */
  function Decoded(s: string, k: nat): string
  {
    if |s| == 0 then ""
    else (if Stage(s[0]) <= k then [s[0]] else EscapeChar(s[0])) + Decoded(s[1..], k)
  }

  lemma {:induction false} DecodedZero(s: string)
    ensures Decoded(s, 0) == EscapeEach(s)
  {
    if |s| > 0 {
      DecodedZero(s[1..]);
    }
  }

  lemma {:induction false} DecodedFive(s: string)
    ensures Decoded(s, 5) == s
  {
    if |s| > 0 {
      DecodedFive(s[1..]);
      assert s == [s[0]] + s[1..];
    }
  }

  /** How `c` reads after the first `k` decoding steps. */
  function Token(c: char, k: nat): string {
    if Stage(c) <= k then [c] else EscapeChar(c)
  }

  /** One decoding step acts on a single token and leaves the rest to the scan. */
  lemma TokenStep(c: char, k: nat, rest: string)
    requires 1 <= k <= 5
    ensures ReplaceAll(Token(c, k - 1) + rest, Entity(k), [Restored(k)])
            == Token(c, k) + ReplaceAll(rest, Entity(k), [Restored(k)])
  {
    if Stage(c) == k {
      MatchedToken(c, k, rest);
    } else if Stage(c) < k {
      RestoredToken(c, k, rest);
    } else {
      PendingToken(c, k, rest);
    }
  }

  /** The token is exactly the entity being decoded. */
  lemma MatchedToken(c: char, k: nat, rest: string)
    requires 1 <= k <= 5 && Stage(c) == k
    ensures ReplaceAll(Token(c, k - 1) + rest, Entity(k), [Restored(k)])
            == [c] + ReplaceAll(rest, Entity(k), [Restored(k)])
  {
    var p := Entity(k);
    assert Token(c, k - 1) == p;
    assert p <= p + rest;
    assert (p + rest)[|p|..] == rest;
  }

  /** A character already restored is never `&`, so it starts no match. */
  lemma RestoredToken(c: char, k: nat, rest: string)
    requires 1 <= k <= 5 && Stage(c) < k
    ensures ReplaceAll(Token(c, k - 1) + rest, Entity(k), [Restored(k)])
            == [c] + ReplaceAll(rest, Entity(k), [Restored(k)])
  {
    var p := Entity(k);
    assert Token(c, k - 1) == [c] && c != '&' && p[0] == '&';
    assert ([c] + rest)[0] == c;
    assert !(p <= [c] + rest);
    assert ([c] + rest)[1..] == rest;
  }

  /** Another entity: its `&` starts no match and the rest of it holds no `&`. */
  lemma PendingToken(c: char, k: nat, rest: string)
    requires 1 <= k <= 5 && Stage(c) > k
    ensures ReplaceAll(Token(c, k - 1) + rest, Entity(k), [Restored(k)])
            == EscapeChar(c) + ReplaceAll(rest, Entity(k), [Restored(k)])
  {
    var p, v := Entity(k), [Restored(k)];
    var e := EscapeChar(c);
    assert Token(c, k - 1) == e;
    assert |e| >= 2 && |p| >= 2 && e[0] == '&' && e[1] != p[1];
    assert (e + rest)[1] == e[1];
    assert !(p <= e + rest);
    assert (e + rest)[1..] == e[1..] + rest;
    assert '&' !in e[1..];
    ReplaceAllSkip(e[1..], rest, p, v);
    assert e == [e[0]] + e[1..];
  }

  /** One decoding step turns `Decoded(s, k - 1)` into `Decoded(s, k)`. */
  lemma {:induction false} DecodeStep(s: string, k: nat)
    requires 1 <= k <= 5
    ensures ReplaceAll(Decoded(s, k - 1), Entity(k), [Restored(k)]) == Decoded(s, k)
  {
    if |s| > 0 {
      DecodeStep(s[1..], k);
      assert Decoded(s, k - 1) == Token(s[0], k - 1) + Decoded(s[1..], k - 1);
      assert Decoded(s, k) == Token(s[0], k) + Decoded(s[1..], k);
      TokenStep(s[0], k, Decoded(s[1..], k - 1));
    }
  }

  /** Decoding the five entities, `&amp;` last, restores the escaped text. */
  lemma UnescapeEscape(s: string)
    ensures UnescapeHtml(EscapeHtml(s)) == s
  {
    EscapeHtmlIsPerCharacter(s);
    UnescapeEscapeEach(s);
  }

  lemma UnescapeEscapeEach(s: string)
    ensures UnescapeHtml(EscapeEach(s)) == s
  {
    DecodedZero(s);
    DecodeStep(s, 1);
    DecodeStep(s, 2);
    DecodeStep(s, 3);
    DecodeStep(s, 4);
    DecodeStep(s, 5);
    DecodedFive(s);
  }
}
