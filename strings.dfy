/**
 * Option type shared by every module of the model.
 */
module Wrappers {
  datatype Option<+T> = None | Some(value: T)
}

/**
 * The string operations of JavaScript that the blog's code relies on,
 * restated over `string` (a sequence of Unicode scalar values).
 * Case mapping is ASCII-only; whitespace is the set JavaScript's
 * `trim` and the regular-expression class `\s` agree on.
 */
module Strings {
  import opened Wrappers

  predicate IsAsciiUpper(c: char) { 'A' <= c <= 'Z' }
  predicate IsAsciiLower(c: char) { 'a' <= c <= 'z' }
  predicate IsDigit(c: char) { '0' <= c <= '9' }
  predicate IsAsciiAlnum(c: char) { IsAsciiUpper(c) || IsAsciiLower(c) || IsDigit(c) }

  /** The regular-expression class `\w`. */
  predicate IsWordChar(c: char) { IsAsciiAlnum(c) || c == '_' }

  /** Line terminators: the characters `.` does not match in a regular expression. */
  predicate IsLineTerminator(c: char) {
    c == '\n' || c == '\r' || c == '\U{2028}' || c == '\U{2029}'
  }

  /** White space and line terminators, as removed by `trim` and matched by `\s`. */
  predicate IsSpace(c: char) {
    || c == '\t' || c == '\U{000B}' || c == '\U{000C}' || c == ' ' || c == '\U{00A0}'
    || c == '\U{1680}' || ('\U{2000}' <= c <= '\U{200A}') || c == '\U{202F}' || c == '\U{205F}'
    || c == '\U{3000}' || c == '\U{FEFF}'
    || IsLineTerminator(c)
  }

  /** JavaScript truthiness of an optional string: present and not empty. */
  predicate Truthy(s: Option<string>) {
    s.Some? && s.value != ""
  }

  function LowerChar(c: char): (d: char)
    ensures !IsAsciiUpper(d)
    ensures IsAsciiUpper(c) ==> IsAsciiLower(d)
    ensures !IsAsciiUpper(c) ==> d == c
  {
    if IsAsciiUpper(c) then (c as int + 32) as char else c
  }

  function UpperChar(c: char): (d: char)
    ensures !IsAsciiLower(d)
    ensures IsAsciiLower(c) ==> IsAsciiUpper(d)
    ensures !IsAsciiLower(c) ==> d == c
  {
    if IsAsciiLower(c) then (c as int - 32) as char else c
  }

  /** `toLowerCase`, ASCII letters only. */
  function Lower(s: string): (r: string)
    ensures |r| == |s|
    ensures forall i :: 0 <= i < |s| ==> r[i] == LowerChar(s[i])
  {
    seq(|s|, i requires 0 <= i < |s| => LowerChar(s[i]))
  }

  /** `toUpperCase`, ASCII letters only. */
  function Upper(s: string): (r: string)
    ensures |r| == |s|
    ensures forall i :: 0 <= i < |s| ==> r[i] == UpperChar(s[i])
  {
    seq(|s|, i requires 0 <= i < |s| => UpperChar(s[i]))
  }

  lemma LowerIdempotent(s: string)
    ensures Lower(Lower(s)) == Lower(s)
  {
  }

  function TrimStart(s: string): (r: string)
    ensures |r| <= |s| && r == s[|s| - |r|..]
    ensures r == [] || !IsSpace(r[0])
    ensures forall i :: 0 <= i < |s| - |r| ==> IsSpace(s[i])
  {
    if |s| > 0 && IsSpace(s[0]) then TrimStart(s[1..]) else s
  }

  function TrimEnd(s: string): (r: string)
    ensures |r| <= |s| && r == s[..|r|]
    ensures r == [] || !IsSpace(r[|r| - 1])
    ensures forall i :: |r| <= i < |s| ==> IsSpace(s[i])
  {
    if |s| > 0 && IsSpace(s[|s| - 1]) then TrimEnd(s[..|s| - 1]) else s
  }

  /** `trim`. */
  function Trim(s: string): (r: string)
    ensures r == [] || (!IsSpace(r[0]) && !IsSpace(r[|r| - 1]))
  {
    TrimEnd(TrimStart(s))
  }

  /** A string that neither starts nor ends with white space is its own trim. */
  lemma TrimUnspaced(s: string)
    requires s == [] || (!IsSpace(s[0]) && !IsSpace(s[|s| - 1]))
    ensures Trim(s) == s
  {
    assert TrimStart(s) == s;
    assert TrimEnd(s) == s;
  }

  /** `indexOf` of one character: the first position holding `c`, or -1. */
  function IndexOf(s: string, c: char): (i: int)
    ensures -1 <= i < |s|
    ensures i == -1 <==> c !in s
    ensures 0 <= i ==> s[i] == c && c !in s[..i]
  {
    if |s| == 0 then -1
    else if s[0] == c then 0
    else
      var j := IndexOf(s[1..], c);
      assert s == [s[0]] + s[1..];
      if j == -1 then -1 else j + 1
  }

  /** `lastIndexOf` of one character: the last position holding `c`, or -1. */
  function LastIndexOf(s: string, c: char): (i: int)
    ensures -1 <= i < |s|
    ensures i == -1 <==> c !in s
    ensures 0 <= i ==> s[i] == c && c !in s[i + 1..]
  {
    if |s| == 0 then -1
    else if s[|s| - 1] == c then |s| - 1
    else
      var front := s[..|s| - 1];
      var i := LastIndexOf(front, c);
      assert s == front + [s[|s| - 1]];
      LastIndexOfSnoc(front, s[|s| - 1], c, i);
      i
  }

  /** The step of `LastIndexOf` past a last character that is not `c`. */
  lemma LastIndexOfSnoc(front: string, last: char, c: char, i: int)
    requires last != c && -1 <= i < |front|
    requires i == -1 <==> c !in front
    requires 0 <= i ==> front[i] == c && c !in front[i + 1..]
    ensures i == -1 <==> c !in front + [last]
    ensures 0 <= i ==> (front + [last])[i] == c && c !in (front + [last])[i + 1..]
  {
    var s := front + [last];
    if 0 <= i {
      assert s[i + 1..] == front[i + 1..] + [last];
    }
  }

  predicate EndsWith(s: string, suffix: string) {
    |suffix| <= |s| && s[|s| - |suffix|..] == suffix
  }

  /** `includes` of a substring. */
  predicate Contains(s: string, p: string)
    decreases |s|
  {
    p <= s || (|s| > 0 && Contains(s[1..], p))
  }

  /** `p` occurs in `s` at position `j`. */
  predicate OccursAt(s: string, p: string, j: int) {
    0 <= j && j + |p| <= |s| && s[j..j + |p|] == p
  }

  lemma {:induction false} ContainsFromOccurrence(s: string, p: string, j: int)
    requires OccursAt(s, p, j)
    ensures Contains(s, p)
    decreases j
  {
    if j > 0 {
      assert s[1..][j - 1..j - 1 + |p|] == s[j..j + |p|];
      ContainsFromOccurrence(s[1..], p, j - 1);
    }
  }

  lemma {:induction false} OccurrenceOfContains(s: string, p: string) returns (j: int)
    requires Contains(s, p)
    ensures OccursAt(s, p, j)
    decreases |s|
  {
    if p <= s {
      j := 0;
    } else {
      var i := OccurrenceOfContains(s[1..], p);
      assert s[1..][i..i + |p|] == s[i + 1..i + 1 + |p|];
      j := i + 1;
    }
  }

  /** A regular-expression replacement of one trailing `suffix` (`/suffix$/`). */
  function StripSuffix(s: string, suffix: string): (r: string)
    ensures EndsWith(s, suffix) ==> r + suffix == s
    ensures !EndsWith(s, suffix) ==> r == s
  {
    if EndsWith(s, suffix) then s[..|s| - |suffix|] else s
  }

  /** `split` on a one-character separator: never empty, and empty pieces are kept. */
  function Split(s: string, sep: char): (parts: seq<string>)
    ensures |parts| >= 1
    ensures forall k :: 0 <= k < |parts| ==> sep !in parts[k]
  {
    if |s| == 0 then [""]
    else
      var rest := Split(s[1..], sep);
      if s[0] == sep then [""] + rest
      else [[s[0]] + rest[0]] + rest[1..]
  }

  /** `join`. */
  function Join(parts: seq<string>, sep: string): string
  {
    if |parts| == 0 then ""
    else if |parts| == 1 then parts[0]
    else parts[0] + sep + Join(parts[1..], sep)
  }

  lemma JoinTwo(a: string, b: string, sep: string)
    ensures Join([a, b], sep) == a + sep + b
  {
    assert [a, b][1..] == [b];
  }

  /** Joining the pieces of a split with the separator restores the string. */
  lemma {:induction false} JoinSplit(s: string, sep: char)
    ensures Join(Split(s, sep), [sep]) == s
  {
    if |s| > 0 {
      JoinSplit(s[1..], sep);
      var rest := Split(s[1..], sep);
      if s[0] != sep {
        assert s == [s[0]] + s[1..];
        if |rest| > 1 {
          assert [[s[0]] + rest[0]] + rest[1..] == [[s[0]] + rest[0]] + [rest[1]] + rest[2..];
        }
      }
    }
  }

  /** Splitting a join of separator-free pieces gives the pieces back. */
  lemma {:induction false} SplitJoin(parts: seq<string>, sep: char)
    requires |parts| >= 1
    requires forall k :: 0 <= k < |parts| ==> sep !in parts[k]
    ensures Split(Join(parts, [sep]), sep) == parts
  {
    if |parts| == 1 {
      SplitNoSep(parts[0], sep);
    } else {
      SplitJoin(parts[1..], sep);
      SplitAfter(parts[0], sep, Join(parts[1..], [sep]));
      assert Join(parts, [sep]) == parts[0] + [sep] + Join(parts[1..], [sep]);
      assert [parts[0]] + parts[1..] == parts;
    }
  }

  lemma {:induction false} SplitNoSep(s: string, sep: char)
    requires sep !in s
    ensures Split(s, sep) == [s]
  {
    if |s| > 0 {
      SplitNoSep(s[1..], sep);
      assert s == [s[0]] + s[1..];
    }
  }

  lemma {:induction false} SplitAfter(a: string, sep: char, b: string)
    requires sep !in a
    ensures Split(a + [sep] + b, sep) == [a] + Split(b, sep)
  {
    if |a| == 0 {
      assert a + [sep] + b == [sep] + b;
      assert ([sep] + b)[1..] == b;
    } else {
      SplitAfter(a[1..], sep, b);
      assert (a + [sep] + b)[1..] == a[1..] + [sep] + b;
      assert a == [a[0]] + a[1..];
    }
  }

  /** The first piece of a split is the text before the first separator. */
  lemma {:induction false} SplitHead(s: string, sep: char)
    ensures Split(s, sep)[0] == if sep in s then s[..IndexOf(s, sep)] else s
  {
    if |s| > 0 && s[0] != sep {
      var tail := s[1..];
      SplitHead(tail, sep);
      assert Split(s, sep)[0] == [s[0]] + Split(tail, sep)[0];
      if sep in tail {
        var j := IndexOf(tail, sep);
        assert IndexOf(s, sep) == j + 1;
        assert s[..j + 1] == [s[0]] + tail[..j];
      } else {
        assert s == [s[0]] + tail;
      }
    }
  }

  /** `split(sep).slice(1).join(sep)`: the text after the first separator, or "" without one. */
  lemma {:induction false} SplitTail(s: string, sep: char)
    ensures Join(Split(s, sep)[1..], [sep]) == if sep in s then s[IndexOf(s, sep) + 1..] else ""
  {
    if |s| > 0 {
      SplitTail(s[1..], sep);
      var rest := Split(s[1..], sep);
      if s[0] == sep {
        JoinSplit(s[1..], sep);
        assert ([""] + rest)[1..] == rest;
      } else {
        assert s == [s[0]] + s[1..];
        assert ([[s[0]] + rest[0]] + rest[1..])[1..] == rest[1..];
      }
    }
  }

  lemma ConcatAssoc(a: string, b: string, c: string)
    ensures a + b + c == a + (b + c)
  {
  }

  /** A text that begins with `p` and then `q` is `p`, `q` and the rest. */
  lemma TwoPrefixes(s: string, p: string, q: string)
    requires p <= s && q <= s[|p|..]
    ensures s == p + q + s[|p| + |q|..]
  {
    assert s == p + s[|p|..];
    assert s[|p|..] == q + s[|p|..][|q|..];
    assert s[|p|..][|q|..] == s[|p| + |q|..];
  }

  /** The middle part of a three-part concatenation, recovered by slicing. */
  lemma Infix(a: string, m: string, z: string)
    ensures a <= a + m + z
    ensures (a + m + z)[|a|..][..|m|] == m
  {
    assert (a + m + z)[|a|..] == m + z;
  }

  /** One-character global replacement (`replace(/c/g, r)`). */
  function ReplaceChar(s: string, c: char, r: string): string
  {
    if |s| == 0 then "" else (if s[0] == c then r else [s[0]]) + ReplaceChar(s[1..], c, r)
  }

  lemma {:induction false} ReplaceCharConcat(a: string, b: string, c: char, r: string)
    ensures ReplaceChar(a + b, c, r) == ReplaceChar(a, c, r) + ReplaceChar(b, c, r)
  {
    if |a| > 0 {
      ReplaceCharConcat(a[1..], b, c, r);
      assert (a + b)[1..] == a[1..] + b;
    } else {
      assert a + b == b;
    }
  }

  /**
   * Global replacement of a literal pattern: a left-to-right scan that
   * replaces each match and resumes after it (`replace(/p/g, v)` for a
   * pattern without special characters and a value without `$`).
   */
  function ReplaceAll(s: string, p: string, v: string): string
    requires |p| > 0
    decreases |s|
  {
    if |s| == 0 then ""
    else if p <= s then v + ReplaceAll(s[|p|..], p, v)
    else [s[0]] + ReplaceAll(s[1..], p, v)
  }

  /** Replacement of the first occurrence only (`replace(p, v)` with a string pattern). */
  function ReplaceFirst(s: string, p: string, v: string): string
    requires |p| > 0
    decreases |s|
  {
    if |s| == 0 then ""
    else if p <= s then v + s[|p|..]
    else [s[0]] + ReplaceFirst(s[1..], p, v)
  }

  /** A pattern that occurs nowhere in `s` is not replaced. */
  lemma {:induction false} ReplaceAllAbsent(s: string, p: string, v: string)
    requires |p| > 0 && !Contains(s, p)
    ensures ReplaceAll(s, p, v) == s
  {
    if |s| > 0 {
      ReplaceAllAbsent(s[1..], p, v);
      assert s == [s[0]] + s[1..];
    }
  }

  /** A prefix free of the pattern's first character is copied through unchanged. */
  lemma {:induction false} ReplaceAllSkip(u: string, rest: string, p: string, v: string)
    requires |p| > 0 && p[0] !in u
    ensures ReplaceAll(u + rest, p, v) == u + ReplaceAll(rest, p, v)
  {
    if |u| > 0 {
      assert (u + rest)[0] == u[0];
      assert !(p <= u + rest);
      assert (u + rest)[1..] == u[1..] + rest;
      ReplaceAllSkip(u[1..], rest, p, v);
      assert u == [u[0]] + u[1..];
    } else {
      assert u + rest == rest;
    }
  }

  /** The first replacement skips a prefix free of the pattern's first character. */
  lemma {:induction false} ReplaceFirstSkip(u: string, rest: string, p: string, v: string)
    requires |p| > 0 && p[0] !in u
    ensures ReplaceFirst(u + rest, p, v) == u + ReplaceFirst(rest, p, v)
  {
    if |u| > 0 {
      assert (u + rest)[0] == u[0];
      assert !(p <= u + rest);
      assert (u + rest)[1..] == u[1..] + rest;
      ReplaceFirstSkip(u[1..], rest, p, v);
      assert u == [u[0]] + u[1..];
    } else {
      assert u + rest == rest;
    }
  }
}
