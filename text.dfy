/**
 * The pieces of Go's `strings` package that the program uses, on strings
 * modelled as sequences of Unicode code points: `TrimSpace`, `Split` on a
 * one-character separator, `Contains`, the `ReplaceAll` calls it makes and
 * `ToLower` for the comparisons it feeds.
 */
module Text {

  /** Go's `unicode.IsSpace`: the Latin-1 spaces and the other White_Space code points. */
  predicate IsSpace(c: char) {
    c == '\t' || c == '\n' || c == '\U{000B}' || c == '\U{000C}' || c == '\r' || c == ' '
    || c == '\U{0085}' || c == '\U{00A0}' || c == '\U{1680}'
    || ('\U{2000}' <= c <= '\U{200A}')
    || c == '\U{2028}' || c == '\U{2029}' || c == '\U{202F}' || c == '\U{205F}' || c == '\U{3000}'
  }

  predicate AllSpace(s: string) {
    forall k :: 0 <= k < |s| ==> IsSpace(s[k])
  }

  /** The string with its leading white space removed. */
  function TrimLeft(s: string): (r: string)
    ensures |r| <= |s| && r == s[|s| - |r|..]
    ensures AllSpace(s[..|s| - |r|])
    ensures r == [] || !IsSpace(r[0])
  {
    if |s| > 0 && IsSpace(s[0]) then
      var r := TrimLeft(s[1..]);
      assert s[..|s| - |r|] == [s[0]] + s[1..][..|s| - 1 - |r|];
      r
    else s
  }

  /** The string with its trailing white space removed. */
  function TrimRight(s: string): (r: string)
    ensures |r| <= |s| && r == s[..|r|]
    ensures AllSpace(s[|r|..])
    ensures r == [] || !IsSpace(r[|r| - 1])
  {
    if |s| > 0 && IsSpace(s[|s| - 1]) then
      var r := TrimRight(s[..|s| - 1]);
      assert s[|r|..] == s[..|s| - 1][|r|..] + [s[|s| - 1]];
      r
    else s
  }

  /** `strings.TrimSpace`: a slice of `s` that neither starts nor ends with white space. */
  function TrimSpace(s: string): (r: string)
    ensures |r| <= |s|
    ensures r == [] || (!IsSpace(r[0]) && !IsSpace(r[|r| - 1]))
    ensures r == [] <==> AllSpace(s)
  {
    TrimRight(TrimLeft(s))
  }

  /** Padding `m` with white space on either side does not change what `TrimSpace` keeps. */
  lemma TrimSpaceOfPadded(a: string, m: string, b: string)
    requires AllSpace(a) && AllSpace(b)
    requires m == [] || (!IsSpace(m[0]) && !IsSpace(m[|m| - 1]))
    ensures TrimSpace(a + m + b) == m
  {
    var s := a + m + b;
    if m == [] {
      assert AllSpace(s) by {
        forall k | 0 <= k < |s| ensures IsSpace(s[k]) {
          if k < |a| { assert s[k] == a[k]; } else { assert s[k] == b[k - |a|]; }
        }
      }
    } else {
      TrimLeftOfPadded(a, m + b);
      assert a + m + b == a + (m + b);
      TrimRightOfPadded(m, b);
    }
  }

  lemma {:induction false} TrimLeftOfPadded(a: string, rest: string)
    requires AllSpace(a)
    requires rest == [] || !IsSpace(rest[0])
    requires rest != [] || a == []
    ensures TrimLeft(a + rest) == rest
  {
    if a != [] {
      assert (a + rest)[1..] == a[1..] + rest;
      TrimLeftOfPadded(a[1..], rest);
    }
  }

  lemma {:induction false} TrimRightOfPadded(rest: string, b: string)
    requires AllSpace(b)
    requires rest == [] || !IsSpace(rest[|rest| - 1])
    requires rest != [] || b == []
    ensures TrimRight(rest + b) == rest
  {
    if b != [] {
      assert (rest + b)[..|rest + b| - 1] == rest + b[..|b| - 1];
      TrimRightOfPadded(rest, b[..|b| - 1]);
    }
  }

  /** Trimming twice is trimming once. */
  lemma TrimSpaceIdempotent(s: string)
    ensures TrimSpace(TrimSpace(s)) == TrimSpace(s)
  {
    TrimSpaceOfTrimmed(TrimSpace(s));
  }

  /** A text without white space at either end is its own trimming. */
  lemma TrimSpaceOfTrimmed(m: string)
    requires m == [] || (!IsSpace(m[0]) && !IsSpace(m[|m| - 1]))
    ensures TrimSpace(m) == m
  {
    TrimSpaceOfPadded([], m, []);
    assert [] + m + [] == m;
  }

  /** The number of occurrences of `c` in `s`. */
  function Count(s: string, c: char): nat {
    if |s| == 0 then 0 else (if s[0] == c then 1 else 0) + Count(s[1..], c)
  }

  /** `strings.Join`: `parts` with `sep` between consecutive parts; for a one-character `sep`, the inverse of `Split`. */
  function Join(parts: seq<string>, sep: string): string {
    if |parts| == 0 then ""
    else if |parts| == 1 then parts[0]
    else parts[0] + sep + Join(parts[1..], sep)
  }

  /** A join starts with its first part. */
  lemma JoinStarts(parts: seq<string>, sep: string)
    requires |parts| > 0
    ensures |Join(parts, sep)| >= |parts[0]| && Join(parts, sep)[..|parts[0]|] == parts[0]
  {
  }

  /** A character in neither the parts nor the separator is not in their join. */
  lemma {:induction false} JoinAvoids(parts: seq<string>, sep: string, c: char)
    requires c !in sep
    requires forall k :: 0 <= k < |parts| ==> c !in parts[k]
    ensures c !in Join(parts, sep)
  {
    if |parts| > 1 {
      JoinAvoids(parts[1..], sep, c);
    }
  }

  /** `strings.Split(s, sep)` for a one-character separator: no part contains the separator. */
  function Split(s: string, sep: char): (parts: seq<string>)
    ensures |parts| > 0
    ensures forall k :: 0 <= k < |parts| ==> sep !in parts[k]
  {
    if |s| == 0 then [""]
    else
      var rest := Split(s[1..], sep);
      if s[0] == sep then
        assert ([""] + rest)[1..] == rest;
        [""] + rest
      else
        var parts := [[s[0]] + rest[0]] + rest[1..];
        assert forall k :: 1 <= k < |parts| ==> parts[k] == rest[k];
        parts
  }

  /** There is one part more than there are separators, and joining the parts gives `s` back. */
  lemma {:induction false} SplitParts(s: string, sep: char)
    ensures |Split(s, sep)| == Count(s, sep) + 1
    ensures Join(Split(s, sep), [sep]) == s
  {
    if |s| > 0 {
      var rest := Split(s[1..], sep);
      SplitParts(s[1..], sep);
      var parts := Split(s, sep);
      assert s == [s[0]] + s[1..];
      if s[0] == sep {
        assert parts == [""] + rest;
        assert parts[1..] == rest;
      } else {
        assert parts == [[s[0]] + rest[0]] + rest[1..];
        assert parts[1..] == rest[1..];
        assert |rest| > 1 ==> Join(rest, [sep]) == rest[0] + [sep] + Join(rest[1..], [sep]);
      }
    }
  }

  lemma SplitNoSeparator(a: string, sep: char)
    requires sep !in a
    ensures Split(a, sep) == [a]
  {
    if |a| > 0 {
      SplitNoSeparator(a[1..], sep);
      assert [a[0]] + a[1..] == a;
    }
  }

  lemma {:induction false} SplitAtSeparator(a: string, sep: char, b: string)
    requires sep !in a
    ensures Split(a + [sep] + b, sep) == [a] + Split(b, sep)
  {
    if |a| == 0 {
      assert a + [sep] + b == [sep] + b;
      assert ([sep] + b)[1..] == b;
    } else {
      var s := a + [sep] + b;
      assert s[1..] == a[1..] + [sep] + b;
      SplitAtSeparator(a[1..], sep, b);
      assert [a[0]] + a[1..] == a;
    }
  }

  /** Splitting at a separator splits each side on its own. */
  lemma {:induction false} SplitConcat(a: string, sep: char, b: string)
    ensures Split(a + [sep] + b, sep) == Split(a, sep) + Split(b, sep)
  {
    if |a| == 0 {
      assert a + [sep] + b == [sep] + b;
      SplitCons(sep, b, sep);
    } else {
      var t := a[1..] + [sep] + b;
      assert a + [sep] + b == [a[0]] + t;
      assert a == [a[0]] + a[1..];
      SplitCons(a[0], t, sep);
      SplitCons(a[0], a[1..], sep);
      SplitConcat(a[1..], sep, b);
      ConsParts(a[0], sep, Split(a[1..], sep), Split(b, sep));
    }
  }

  lemma ConsParts(c: char, sep: char, p: seq<string>, q: seq<string>)
    requires |p| > 0
    ensures (if c == sep then [""] + (p + q) else [[c] + (p + q)[0]] + (p + q)[1..])
      == (if c == sep then [""] + p else [[c] + p[0]] + p[1..]) + q
  {
    assert (p + q)[0] == p[0] && (p + q)[1..] == p[1..] + q;
  }

  /** What `Split` does with the first character. */
  lemma SplitCons(c: char, t: string, sep: char)
    ensures Split([c] + t, sep) ==
      if c == sep then [""] + Split(t, sep) else [[c] + Split(t, sep)[0]] + Split(t, sep)[1..]
  {
    assert ([c] + t)[1..] == t;
  }

  /** Splitting what `Join` built gives back the parts, when no part holds the separator. */
  lemma {:induction false} SplitJoin(parts: seq<string>, sep: char)
    requires |parts| > 0
    requires forall k :: 0 <= k < |parts| ==> sep !in parts[k]
    ensures Split(Join(parts, [sep]), sep) == parts
  {
    if |parts| == 1 {
      SplitNoSeparator(parts[0], sep);
    } else {
      SplitJoin(parts[1..], sep);
      SplitAtSeparator(parts[0], sep, Join(parts[1..], [sep]));
      assert [parts[0]] + parts[1..] == parts;
    }
  }

  /** `strings.Contains(s, pat)`. */
  predicate Contains(s: string, pat: string) {
    exists i :: 0 <= i <= |s| - |pat| && OccursAt(s, pat, i)
  }

  /** `pat` occurs in `s` starting at index `i`. */
  predicate OccursAt(s: string, pat: string, i: int)
    requires 0 <= i <= |s| - |pat|
  {
    s[i..i + |pat|] == pat
  }

  /** A text contains whatever occurs in it, at its start, in its middle or at its end. */
  lemma ContainsInfix(before: string, pat: string, after: string)
    ensures Contains(before + pat + after, pat)
  {
    var s := before + pat + after;
    assert s[|before|..|before| + |pat|] == pat;
    assert OccursAt(s, pat, |before|);
  }

  /** No text contains a pattern longer than itself. */
  lemma ContainsLonger(s: string, pat: string)
    requires |pat| > |s|
    ensures !Contains(s, pat)
  {
  }

  /** `strings.ReplaceAll(s, a, b)` for one-character `a` and `b`: every `a` becomes `b`. */
  function ReplaceChar(s: string, a: char, b: char): (r: string)
    ensures |r| == |s|
    ensures forall k :: 0 <= k < |s| ==> r[k] == if s[k] == a then b else s[k]
  {
    if |s| == 0 then "" else [if s[0] == a then b else s[0]] + ReplaceChar(s[1..], a, b)
  }

  /**
   * `strings.ReplaceAll(s, c, "")`: every `c` is dropped, and every other
   * character keeps its number of occurrences.
   */
  function RemoveChar(s: string, c: char): (r: string)
    ensures c !in r
    ensures forall x :: x in r ==> x in s
    ensures |r| == |s| - Count(s, c)
    ensures forall x :: x != c ==> Count(r, x) == Count(s, x)
    ensures c !in s ==> r == s
  {
    if |s| == 0 then ""
    else
      var rest := RemoveChar(s[1..], c);
      if s[0] == c then rest
      else
        var r := [s[0]] + rest;
        assert r[1..] == rest;
        assert s == [s[0]] + s[1..];
        r
  }

  /** Dropping a character works piece by piece: the kept characters stay in their order. */
  lemma {:induction false} RemoveCharConcat(a: string, b: string, c: char)
    ensures RemoveChar(a + b, c) == RemoveChar(a, c) + RemoveChar(b, c)
  {
    if |a| == 0 {
      assert a + b == b;
    } else {
      var kept: string := if a[0] == c then "" else [a[0]];
      calc {
        RemoveChar(a + b, c);
      == { assert a + b == [a[0]] + (a[1..] + b); RemoveCharCons(a[0], a[1..] + b, c); }
        kept + RemoveChar(a[1..] + b, c);
      == { RemoveCharConcat(a[1..], b, c); }
        kept + (RemoveChar(a[1..], c) + RemoveChar(b, c));
      ==
        (kept + RemoveChar(a[1..], c)) + RemoveChar(b, c);
      == { assert a == [a[0]] + a[1..]; RemoveCharCons(a[0], a[1..], c); }
        RemoveChar(a, c) + RemoveChar(b, c);
      }
    }
  }

  /** What `RemoveChar` does with the first character. */
  lemma RemoveCharCons(x: char, t: string, c: char)
    ensures RemoveChar([x] + t, c) == (if x == c then "" else [x]) + RemoveChar(t, c)
  {
    assert ([x] + t)[1..] == t;
  }

  /**
   * `strings.ReplaceAll(s, "\\\\", "/")` (the Go literal is two backslashes):
   * pairs of backslashes are replaced from the left, without overlap.
   */
  function CollapseDoubleBackslash(s: string): (r: string)
    ensures '\\' !in s ==> r == s
    ensures |r| <= |s|
  {
    if |s| == 0 then ""
    else if |s| >= 2 && s[0] == '\\' && s[1] == '\\' then
      var rest := CollapseDoubleBackslash(s[2..]);
      var r := "/" + rest;
      assert forall k :: 1 <= k < |r| ==> r[k] == rest[k - 1];
      assert s == [s[0]] + s[1..];
      r
    else
      var rest := CollapseDoubleBackslash(s[1..]);
      var r := [s[0]] + rest;
      assert forall k :: 1 <= k < |r| ==> r[k] == rest[k - 1];
      assert s == [s[0]] + s[1..];
      r
  }

  /** A stretch without backslashes passes through the collapse unchanged. */
  lemma {:induction false} CollapseAfterPlain(a: string, b: string)
    requires '\\' !in a
    ensures CollapseDoubleBackslash(a + b) == a + CollapseDoubleBackslash(b)
  {
    if |a| > 0 {
      assert (a + b)[0] == a[0] && a[0] != '\\';
      assert CollapseDoubleBackslash(a + b) == [a[0]] + CollapseDoubleBackslash((a + b)[1..]);
      assert (a + b)[1..] == a[1..] + b;
      CollapseAfterPlain(a[1..], b);
      assert [a[0]] + (a[1..] + CollapseDoubleBackslash(b)) == a + CollapseDoubleBackslash(b);
    } else {
      assert a + b == b;
    }
  }

  /** An escaped separator becomes a single slash. */
  lemma CollapsePair(b: string)
    ensures CollapseDoubleBackslash("\\\\" + b) == "/" + CollapseDoubleBackslash(b)
  {
    assert ("\\\\" + b)[2..] == b;
  }

  /**
   * Backslash-free parts joined by escaped separators (two backslashes each)
   * collapse to the same parts joined by single slashes.
   */
  lemma {:induction false} CollapseJoin(parts: seq<string>)
    requires forall k :: 0 <= k < |parts| ==> '\\' !in parts[k]
    ensures CollapseDoubleBackslash(Join(parts, "\\\\")) == Join(parts, "/")
  {
    if |parts| > 1 {
      var rest := Join(parts[1..], "\\\\");
      CollapseJoin(parts[1..]);
      assert Join(parts, "\\\\") == parts[0] + ("\\\\" + rest);
      CollapseAfterPlain(parts[0], "\\\\" + rest);
      CollapsePair(rest);
      assert Join(parts, "/") == parts[0] + ("/" + Join(parts[1..], "/"));
    }
  }

  /** A backslash that does not start a pair is kept, and the rewrite goes on after it. */
  lemma CollapseLone(b: string)
    requires b == [] || b[0] != '\\'
    ensures CollapseDoubleBackslash("\\" + b) == "\\" + CollapseDoubleBackslash(b)
  {
    assert ("\\" + b)[1..] == b;
  }

  /**
   * Backslash-free parts joined by single backslashes pass through the
   * collapse unchanged, provided no inner part is empty (an empty one would
   * put two backslashes side by side).
   */
  lemma {:induction false} CollapseJoinLone(parts: seq<string>)
    requires forall k :: 0 <= k < |parts| ==> '\\' !in parts[k]
    requires forall k :: 0 < k < |parts| - 1 ==> parts[k] != ""
    ensures CollapseDoubleBackslash(Join(parts, "\\")) == Join(parts, "\\")
  {
    if |parts| > 1 {
      var rest := Join(parts[1..], "\\");
      CollapseJoinLone(parts[1..]);
      JoinStarts(parts[1..], "\\");
      assert rest == [] || rest[0] != '\\' by {
        if parts[1] != "" {
          assert rest[0] == parts[1][0];
        } else {
          assert |parts| == 2 && rest == parts[1];
        }
      }
      assert Join(parts, "\\") == parts[0] + ("\\" + rest);
      CollapseAfterPlain(parts[0], "\\" + rest);
      CollapseLone(rest);
    }
  }

  /** Replacing works piece by piece. */
  lemma ReplaceCharConcat(x: string, y: string, a: char, b: char)
    ensures ReplaceChar(x + y, a, b) == ReplaceChar(x, a, b) + ReplaceChar(y, a, b)
  {
    var r, t := ReplaceChar(x + y, a, b), ReplaceChar(x, a, b) + ReplaceChar(y, a, b);
    assert forall k :: 0 <= k < |r| ==> r[k] == t[k];
  }

  /** Text without the character is not changed by replacing it. */
  lemma ReplaceCharAbsent(s: string, a: char, b: char)
    requires a !in s
    ensures ReplaceChar(s, a, b) == s
  {
    var r := ReplaceChar(s, a, b);
    assert forall k :: 0 <= k < |s| ==> r[k] == s[k];
  }

  /** Replacing the separator of a join, when no part holds it, changes the separator and nothing else. */
  lemma {:induction false} ReplaceJoin(parts: seq<string>, a: char, b: char)
    requires forall k :: 0 <= k < |parts| ==> a !in parts[k]
    ensures ReplaceChar(Join(parts, [a]), a, b) == Join(parts, [b])
  {
    if |parts| == 1 {
      ReplaceCharAbsent(parts[0], a, b);
    } else if |parts| > 1 {
      var rest := Join(parts[1..], [a]);
      ReplaceJoin(parts[1..], a, b);
      ReplaceCharAbsent(parts[0], a, b);
      ReplaceCharConcat(parts[0] + [a], rest, a, b);
      ReplaceCharConcat(parts[0], [a], a, b);
    }
  }

  /** Replacing one character by another leaves the count of any third one alone. */
  lemma {:induction false} ReplaceCharCount(s: string, a: char, b: char, c: char)
    requires c != a && c != b
    ensures Count(ReplaceChar(s, a, b), c) == Count(s, c)
  {
    if |s| > 0 {
      var r := ReplaceChar(s, a, b);
      assert r[1..] == ReplaceChar(s[1..], a, b);
      ReplaceCharCount(s[1..], a, b, c);
    }
  }

  /** ASCII case folding to lower case. */
  function LowerChar(c: char): char {
    if 'A' <= c <= 'Z' then (c as int + 32) as char else c
  }

  /** `strings.ToLower`, as far as the comparisons in the program can observe it. */
  function Lower(s: string): (r: string)
    ensures |r| == |s|
    ensures forall k :: 0 <= k < |s| ==> r[k] == LowerChar(s[k])
  {
    if |s| == 0 then "" else [LowerChar(s[0])] + Lower(s[1..])
  }

  lemma LowerCharSpace(c: char)
    ensures IsSpace(LowerChar(c)) == IsSpace(c)
  {
  }

  /** Lowering the case commutes with trimming, because no letter is white space. */
  lemma LowerTrimSpace(s: string)
    ensures TrimSpace(Lower(s)) == Lower(TrimSpace(s))
  {
    LowerTrimLeft(s);
    LowerTrimRight(TrimLeft(s));
  }

  lemma {:induction false} LowerTrimLeft(s: string)
    ensures TrimLeft(Lower(s)) == Lower(TrimLeft(s))
  {
    if |s| > 0 {
      LowerCharSpace(s[0]);
      if IsSpace(s[0]) {
        assert Lower(s)[1..] == Lower(s[1..]);
        LowerTrimLeft(s[1..]);
      }
    }
  }

  lemma {:induction false} LowerTrimRight(s: string)
    ensures TrimRight(Lower(s)) == Lower(TrimRight(s))
  {
    if |s| > 0 {
      LowerCharSpace(s[|s| - 1]);
      if IsSpace(s[|s| - 1]) {
        var init := s[..|s| - 1];
        assert Lower(s)[..|s| - 1] == Lower(init) by {
          assert forall k :: 0 <= k < |init| ==> Lower(s)[k] == LowerChar(init[k]);
        }
        LowerTrimRight(init);
      }
    }
  }
}
