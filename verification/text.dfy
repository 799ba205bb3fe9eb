/** The handful of Go `strings` operations the graph engine and the tree parser
    rely on, over `string` = `seq<char>` (one char per rune). */
module Text {

  predicate HasPrefix(s: string, p: string) {
    |p| <= |s| && s[..|p|] == p
  }

  predicate HasSuffix(s: string, x: string) {
    |x| <= |s| && s[|s| - |x|..] == x
  }

  /** `strings.CutSuffix`: `s` without the suffix `x`, and whether it was there. */
  function CutSuffix(s: string, x: string): (r: (string, bool))
    ensures r.1 <==> HasSuffix(s, x)
    ensures r.1 ==> r.0 + x == s
    ensures !r.1 ==> r.0 == s
  {
    if HasSuffix(s, x) then (s[..|s| - |x|], true) else (s, false)
  }

  /** `unicode.IsSpace`: the Latin-1 spaces plus the other White_Space code points. */
  predicate IsSpace(c: char) {
    || c == '\t' || c == '\n' || c == '\U{000B}' || c == '\U{000C}' || c == '\r' || c == ' '
    || c == '\U{0085}' || c == '\U{00A0}' || c == '\U{1680}'
    || ('\U{2000}' <= c <= '\U{200A}')
    || c == '\U{2028}' || c == '\U{2029}' || c == '\U{202F}' || c == '\U{205F}' || c == '\U{3000}'
  }

  /** `strings.TrimSpace`: drops the leading and the trailing white space. */
  function TrimSpace(s: string): (r: string)
    decreases |s|
  {
    if |s| > 0 && IsSpace(s[0]) then TrimSpace(s[1..])
    else if |s| > 0 && IsSpace(s[|s| - 1]) then TrimSpace(s[..|s| - 1])
    else s
  }

  /** The trimmed string is the slice `s[i..i + |r|]` with only white space
      around it, and it neither starts nor ends with white space. */
  lemma {:induction false} TrimSpaceShape(s: string) returns (i: nat)
    ensures var r := TrimSpace(s);
      && i + |r| <= |s| && s[i..i + |r|] == r
      && (forall k :: 0 <= k < i ==> IsSpace(s[k]))
      && (forall k :: i + |r| <= k < |s| ==> IsSpace(s[k]))
      && (r == [] || (!IsSpace(r[0]) && !IsSpace(r[|r| - 1])))
    decreases |s|
  {
    if |s| > 0 && IsSpace(s[0]) {
      var j := TrimSpaceShape(s[1..]);
      i := j + 1;
      assert forall k :: 1 <= k < |s| ==> s[k] == s[1..][k - 1];
      assert s[i..i + |TrimSpace(s)|] == s[1..][j..j + |TrimSpace(s)|];
    } else if |s| > 0 && IsSpace(s[|s| - 1]) {
      i := TrimSpaceShape(s[..|s| - 1]);
      assert forall k :: 0 <= k < |s| - 1 ==> s[k] == s[..|s| - 1][k];
      assert s[i..i + |TrimSpace(s)|] == s[..|s| - 1][i..i + |TrimSpace(s)|];
    } else {
      i := 0;
      assert s[0..|s|] == s;
    }
  }

  /** Trimming never eats into a prefix that starts and ends with a non-space. */
  lemma {:induction false} TrimKeepsPrefix(s: string, p: string)
    requires HasPrefix(s, p) && |p| > 0
    requires !IsSpace(p[0]) && !IsSpace(p[|p| - 1])
    ensures HasPrefix(TrimSpace(s), p)
    decreases |s|
  {
    assert s[0] == p[0];
    if IsSpace(s[|s| - 1]) {
      assert s[|p| - 1] == p[|p| - 1];
      assert s[..|s| - 1][..|p|] == p;
      TrimKeepsPrefix(s[..|s| - 1], p);
    }
  }

  /** Trimming leaves a string alone when it starts and ends with a non-space. */
  lemma TrimNone(l: string)
    requires |l| > 0 && !IsSpace(l[0]) && !IsSpace(l[|l| - 1])
    ensures TrimSpace(l) == l
  {
  }

  /** `strings.Join`. */
  function Join(parts: seq<string>, sep: string): string
  {
    if |parts| == 0 then ""
    else if |parts| == 1 then parts[0]
    else parts[0] + sep + Join(parts[1..], sep)
  }

  /** `strings.Split` with a one-character separator: the pieces between the
      separators, so `Join` with that separator restores the input. */
  function Split(s: string, c: char): (r: seq<string>)
    ensures |r| >= 1
    ensures forall i :: 0 <= i < |r| ==> c !in r[i]
    ensures Join(r, [c]) == s
    decreases |s|
  {
    if |s| == 0 then [""]
    else if s[0] == c then
      var rest := Split(s[1..], c);
      assert [""] + rest == [""] + rest;
      assert ([""] + rest)[1..] == rest;
      assert s == [c] + s[1..];
      [""] + rest
    else
      var rest := Split(s[1..], c);
      var r := [[s[0]] + rest[0]] + rest[1..];
      assert r[1..] == rest[1..];
      assert s == [s[0]] + s[1..];
      r
  }

  /** `strings.Contains`: some suffix of `s` starts with `sub`. */
  function Contains(s: string, sub: string): (r: bool)
    ensures r <==> exists i :: 0 <= i <= |s| && HasPrefix(s[i..], sub)
    decreases |s|
  {
    if HasPrefix(s, sub) then
      assert s[0..] == s;
      true
    else if |s| == 0 then false
    else
      var r := Contains(s[1..], sub);
      assert forall i :: 1 <= i <= |s| ==> s[1..][i - 1..] == s[i..];
      assert s[0..] == s;
      r
  }

  /** Replaces the first `k` occurrences of `pat` in `s` by `rep`. */
  function ReplaceFirst(s: string, pat: char, rep: char, k: nat): string
    decreases |s|
  {
    if |s| == 0 then ""
    else if s[0] == pat && k > 0 then [rep] + ReplaceFirst(s[1..], pat, rep, k - 1)
    else [s[0]] + ReplaceFirst(s[1..], pat, rep, k)
  }

  lemma {:induction false} ReplaceFirstSkips(a: string, rest: string, pat: char, rep: char, k: nat)
    requires pat !in a
    ensures ReplaceFirst(a + rest, pat, rep, k) == a + ReplaceFirst(rest, pat, rep, k)
    decreases |a|
  {
    if |a| > 0 {
      assert (a + rest)[1..] == a[1..] + rest;
      ReplaceFirstSkips(a[1..], rest, pat, rep, k);
      assert a == [a[0]] + a[1..];
    } else {
      assert a + rest == rest;
    }
  }

  lemma {:induction false} ReplaceFirstNone(s: string, pat: char, rep: char)
    ensures ReplaceFirst(s, pat, rep, 0) == s
    decreases |s|
  {
    if |s| > 0 {
      ReplaceFirstNone(s[1..], pat, rep);
      assert s == [s[0]] + s[1..];
    }
  }

  lemma ReplaceFirstHit(rest: string, pat: char, rep: char, k: nat)
    ensures ReplaceFirst([pat] + rest, pat, rep, k + 1) == [rep] + ReplaceFirst(rest, pat, rep, k)
  {
    assert ([pat] + rest)[1..] == rest;
  }
}
