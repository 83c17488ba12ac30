/**
 * The regular-expression replacements that slug cleaning is built from,
 * and the shape they leave: `replace(/[^class]+/g, '-')`,
 * `replace(/[^class-]/g, '-')`, `replace(/-+/g, '-')`,
 * `replace(/^-|-$/g, '')`, `replace(/^-+|-+$/g, '')` and `substring(0, n)`.
 */
module Slugs {
  import opened Strings
  import opened Sequences

  /** `SLUG_MAX_LENGTH`. */
  const SlugMaxLength: nat := 50

  /** `[a-z0-9]`. */
  predicate IsLowerAlnum(c: char) {
    ('a' <= c <= 'z') || ('0' <= c <= '9')
  }

  /** Hiragana, katakana, and the ideographs from U+4E00 to U+9FAF. */
  predicate IsJapanese(c: char) {
    ('\U{3040}' <= c <= '\U{309F}') || ('\U{30A0}' <= c <= '\U{30FF}') || ('\U{4E00}' <= c <= '\U{9FAF}')
  }

  /** `[a-z0-9぀-ゟ゠-ヿ一-龯]`. */
  predicate IsSlugChar(c: char) {
    IsLowerAlnum(c) || IsJapanese(c)
  }

  predicate NotDash(c: char) {
    c != '-'
  }

  predicate NoDoubleDash(s: string) {
    forall i :: 0 <= i < |s| - 1 ==> !(s[i] == '-' && s[i + 1] == '-')
  }

  /** Only characters of the class and `-`, no `--`, and no leading `-`. */
  predicate SlugShaped(s: string, keep: char -> bool) {
    && (forall i :: 0 <= i < |s| ==> keep(s[i]) || s[i] == '-')
    && NoDoubleDash(s)
    && (s == [] || s[0] != '-')
  }

  /** `replace(/[^class]+/g, '-')`: every maximal run of characters outside the class becomes one `-`. */
  function CollapseRuns(s: string, keep: char -> bool): (r: string)
    requires !keep('-')
    ensures forall i :: 0 <= i < |r| ==> keep(r[i]) || r[i] == '-'
    ensures NoDoubleDash(r)
    ensures |s| > 0 && keep(s[0]) ==> |r| > 0 && r[0] == s[0]
    ensures |s| > 0 && !keep(s[0]) ==> |r| > 0 && r[0] == '-'
    decreases |s|
  {
    if |s| == 0 then ""
    else if keep(s[0]) then [s[0]] + CollapseRuns(s[1..], keep)
    else if |s| > 1 && !keep(s[1]) then CollapseRuns(s[1..], keep)
    else "-" + CollapseRuns(s[1..], keep)
  }

  /** `replace(/[^class-]/g, '-')`: every character outside the class, other than `-`, becomes `-`. */
  function MapToDash(s: string, keep: char -> bool): (r: string)
    ensures |r| == |s|
  {
    seq(|s|, i requires 0 <= i < |s| => if keep(s[i]) then s[i] else '-')
  }

  /** `replace(/-+/g, '-')`: every run of `-` becomes one `-`. */
  function CollapseDashes(s: string): (r: string)
    ensures NoDoubleDash(r)
    ensures |s| > 0 ==> |r| > 0 && r[0] == s[0]
    ensures forall i :: 0 <= i < |r| ==> r[i] in s
    decreases |s|
  {
    if |s| == 0 then ""
    else if s[0] == '-' && |s| > 1 && s[1] == '-' then CollapseDashes(s[1..])
    else [s[0]] + CollapseDashes(s[1..])
  }

  /** `replace(/^-|-$/g, '')`: one leading and one trailing `-` removed. */
  function StripOneDash(s: string): (r: string)
  {
    var t := if |s| > 0 && s[0] == '-' then s[1..] else s;
    if |t| > 0 && t[|t| - 1] == '-' then t[..|t| - 1] else t
  }

  function LeadingDashes(s: string): (n: nat)
    ensures n <= |s| && (n == |s| || s[n] != '-')
    ensures forall i :: 0 <= i < n ==> s[i] == '-'
  {
    if |s| > 0 && s[0] == '-' then 1 + LeadingDashes(s[1..]) else 0
  }

  function TrailingDashes(s: string): (n: nat)
    ensures n <= |s| && (n == |s| || s[|s| - 1 - n] != '-')
    ensures forall i :: |s| - n <= i < |s| ==> s[i] == '-'
  {
    if |s| > 0 && s[|s| - 1] == '-' then 1 + TrailingDashes(s[..|s| - 1]) else 0
  }

  /** `replace(/^-+|-+$/g, '')`: every leading and every trailing `-` removed. */
  function TrimDashes(s: string): (r: string)
    ensures r == [] || (r[0] != '-' && r[|r| - 1] != '-')
  {
    var t := s[LeadingDashes(s)..];
    t[..|t| - TrailingDashes(t)]
  }

  /** `substring(0, n)`. */
  function Take(s: string, n: nat): (r: string)
    ensures r <= s && |r| == if |s| <= n then |s| else n
  {
    if |s| <= n then s else s[..n]
  }

  /** Collapsing keeps exactly the characters of the class, in order. */
  lemma {:induction false} CollapseKeeps(s: string, keep: char -> bool)
    requires !keep('-')
    ensures Filter(CollapseRuns(s, keep), NotDash) == Filter(s, keep)
    decreases |s|
  {
    if |s| > 0 {
      CollapseKeeps(s[1..], keep);
      var rest := CollapseRuns(s[1..], keep);
      if keep(s[0]) {
        assert ([s[0]] + rest)[1..] == rest;
      } else if !(|s| > 1 && !keep(s[1])) {
        assert ("-" + rest)[1..] == rest;
      }
    }
  }

  /** The two-step form (each character to `-`, then runs of `-` to one) is the one-step collapse. */
  lemma {:induction false} CollapseDashesOfMap(s: string, keep: char -> bool)
    requires !keep('-')
    ensures CollapseDashes(MapToDash(s, keep)) == CollapseRuns(s, keep)
    decreases |s|
  {
    if |s| > 0 {
      var m := MapToDash(s, keep);
      assert m[1..] == MapToDash(s[1..], keep);
      CollapseDashesOfMap(s[1..], keep);
    }
  }

  /** Collapsing dash runs changes nothing where there is none. */
  lemma {:induction false} CollapseDashesNoop(s: string)
    requires NoDoubleDash(s)
    ensures CollapseDashes(s) == s
    decreases |s|
  {
    if |s| > 0 {
      CollapseDashesNoop(s[1..]);
      assert s == [s[0]] + s[1..];
    }
  }

  /** Without `--`, removing one dash at each end is removing all of them. */
  lemma TrimIsStrip(s: string)
    requires NoDoubleDash(s)
    ensures TrimDashes(s) == StripOneDash(s)
  {
    var t := if |s| > 0 && s[0] == '-' then s[1..] else s;
    assert s[LeadingDashes(s)..] == t by {
      if |s| > 0 && s[0] == '-' {
        assert LeadingDashes(s[1..]) == 0 by {
          assert |s| == 1 || s[1] != '-';
        }
      }
    }
    if |t| > 0 && t[|t| - 1] == '-' {
      assert TrailingDashes(t[..|t| - 1]) == 0 by {
        assert |t| == 1 || t[|t| - 2] != '-' by {
          assert forall i :: 0 <= i < |t| ==> t[i] == s[i + |s| - |t|];
        }
      }
    }
  }

  /** Removing dashes from the ends of a string without `--` that fits the class leaves it slug-shaped. */
  lemma StripShaped(s: string, keep: char -> bool)
    requires forall i :: 0 <= i < |s| ==> keep(s[i]) || s[i] == '-'
    requires NoDoubleDash(s)
    ensures SlugShaped(StripOneDash(s), keep)
  {
    var t := if |s| > 0 && s[0] == '-' then s[1..] else s;
    assert t == [] || t[0] != '-' by {
      if |s| > 1 && s[0] == '-' {
        assert s[1] != '-';
      }
    }
    assert forall i :: 0 <= i < |t| ==> t[i] == s[i + |s| - |t|];
  }

  /** A prefix of a slug-shaped string is slug-shaped. */
  lemma TakeShaped(s: string, n: nat, keep: char -> bool)
    requires SlugShaped(s, keep)
    ensures SlugShaped(Take(s, n), keep)
  {
    var r := Take(s, n);
    assert forall i :: 0 <= i < |r| ==> r[i] == s[i];
  }

  /**
   * The clean-up chain `collapse; strip one dash each end; take n` gives a
   * slug-shaped string of at most `n` characters, which is empty exactly
   * when the input has no character of the class.
   */
  lemma CleanedShape(s: string, keep: char -> bool, n: nat)
    requires !keep('-') && n > 0
    ensures var r := Take(StripOneDash(CollapseRuns(s, keep)), n);
      && SlugShaped(r, keep) && |r| <= n
      && (r == [] <==> forall i :: 0 <= i < |s| ==> !keep(s[i]))
  {
    var c := CollapseRuns(s, keep);
    var d := StripOneDash(c);
    StripShaped(c, keep);
    TakeShaped(d, n, keep);
    CollapseKeeps(s, keep);
    if forall i :: 0 <= i < |s| ==> !keep(s[i]) {
      FilterNone(s, keep);
      forall i | 0 <= i < |c| ensures c[i] == '-' {
        FilterMembers(c, NotDash, c[i]);
      }
      assert |c| <= 1 by {
        if |c| > 1 {
          assert c[0] == '-' && c[1] == '-';
        }
      }
    } else {
      var i :| 0 <= i < |s| && keep(s[i]);
      FilterMembers(s, keep, s[i]);
      FilterMembers(c, NotDash, s[i]);
      var k :| 0 <= k < |c| && c[k] == s[i];
      StripKeeps(c, k);
    }
  }

  /** A character other than `-` survives the removal of end dashes. */
  lemma StripKeeps(s: string, k: nat)
    requires k < |s| && s[k] != '-'
    ensures StripOneDash(s) != []
  {
    var t := if |s| > 0 && s[0] == '-' then s[1..] else s;
    assert s[k] in t by {
      if s[0] == '-' {
        assert t[k - 1] == s[k];
      } else {
        assert t[k] == s[k];
      }
    }
  }
}
