/** The java.lang.String operations the key masking relies on: `indexOf`,
    `contains`, `substring` bounds and `replaceAll` with a pattern that holds no
    regular-expression metacharacter (so it matches literally). */
module JavaStrings {
  import opened JavaLang

  /** `pat` occurs in `s` starting at index `i`. */
  predicate IsAt(s: string, pat: string, i: int) {
    0 <= i && i + |pat| <= |s| && s[i..i + |pat|] == pat
  }

  /** `pat` occurs somewhere in `s`. */
  ghost predicate Occurs(pat: string, s: string) {
    exists i :: IsAt(s, pat, i)
  }

  /** `String.indexOf(pat)`: the first index at which `pat` occurs, or -1. */
  function IndexOf(s: string, pat: string): (r: int)
    ensures -1 <= r
    ensures r >= 0 ==> IsAt(s, pat, r)
    ensures forall j :: 0 <= j && (r == -1 || j < r) ==> !IsAt(s, pat, j)
    decreases |s|
  {
    if |s| < |pat| then -1
    else if s[..|pat|] == pat then 0
    else
      var k := IndexOf(s[1..], pat);
      assert forall j :: 1 <= j ==> (IsAt(s, pat, j) <==> IsAt(s[1..], pat, j - 1)) by {
        forall j | 1 <= j ensures IsAt(s, pat, j) <==> IsAt(s[1..], pat, j - 1) {
          if j + |pat| <= |s| { assert s[1..][j - 1..j - 1 + |pat|] == s[j..j + |pat|]; }
        }
      }
      if k == -1 then -1 else k + 1
  }

  /** `String.contains(pat)`, which Java defines as `indexOf(pat) >= 0`. */
  function Contains(s: string, pat: string): (b: bool)
    ensures b <==> Occurs(pat, s)
  {
    IndexOf(s, pat) != -1
  }

  /** The characters `java.util.regex` treats specially outside a character class. */
  const RegexMetacharacters: set<char> :=
    {'\\', '^', '$', '.', '|', '?', '*', '+', '(', ')', '[', ']', '{', '}'}

  /** A pattern with no metacharacter matches only its own text. */
  predicate IsLiteralPattern(pat: string) {
    forall k :: 0 <= k < |pat| ==> pat[k] !in RegexMetacharacters
  }

  /** `s.replaceAll(pat, rep)` for a nonempty literal pattern: the matcher scans
      left to right and replaces every non-overlapping occurrence. */
  function ReplaceLiteral(s: string, pat: string, rep: string): string
    requires |pat| > 0
    decreases |s|
  {
    if |s| < |pat| then s
    else if s[..|pat|] == pat then rep + ReplaceLiteral(s[|pat|..], pat, rep)
    else [s[0]] + ReplaceLiteral(s[1..], pat, rep)
  }

  /** `s.replaceAll("", rep)`: the empty pattern matches before every character
      and at the end, so `rep` is inserted at each of those |s| + 1 places. */
  function ReplaceEmpty(s: string, rep: string): string
    decreases |s|
  {
    if s == [] then rep else rep + [s[0]] + ReplaceEmpty(s[1..], rep)
  }

  /** The output of `replaceAll("", rep)` starts and ends with `rep`, and the
      first input character follows the first copy. */
  lemma {:induction false} ReplaceEmptyEnds(s: string, rep: string)
    ensures |ReplaceEmpty(s, rep)| >= |s| + |rep|
    ensures ReplaceEmpty(s, rep)[..|rep|] == rep
    ensures ReplaceEmpty(s, rep)[|ReplaceEmpty(s, rep)| - |rep|..] == rep
    ensures s != [] ==> ReplaceEmpty(s, rep)[|rep|] == s[0]
    decreases |s|
  {
    if s != [] {
      ReplaceEmptyEnds(s[1..], rep);
      var tail := ReplaceEmpty(s[1..], rep);
      var head := rep + [s[0]];
      assert ReplaceEmpty(s, rep) == head + tail;
      assert head[..|rep|] == rep;
      EndOfConcat(head, tail, |rep|);
    }
  }

  /** The last n characters of a concatenation whose right part has at least n
      characters come from that part; its first |x| come from the left part. */
  lemma EndOfConcat(x: string, y: string, n: nat)
    requires n <= |y|
    ensures (x + y)[|x + y| - n..] == y[|y| - n..]
    ensures forall k :: 0 <= k < |x| ==> (x + y)[k] == x[k]
  {
  }

  /** The output of `replaceAll("", rep)` holds every input character and |s| + 1
      copies of `rep`. */
  lemma {:induction false} ReplaceEmptyLength(s: string, rep: string)
    ensures |ReplaceEmpty(s, rep)| == |s| + (|s| + 1) * |rep|
    decreases |s|
  {
    if s != [] {
      var tail := ReplaceEmpty(s[1..], rep);
      ReplaceEmptyLength(s[1..], rep);
      assert |ReplaceEmpty(s, rep)| == |rep| + 1 + |tail|;
      assert (|s[1..]| + 2) * |rep| == |rep| + (|s[1..]| + 1) * |rep|;
    }
  }

  /** `s.replaceAll(pat, rep)` for a pattern without metacharacters and a
      replacement without `$` or `\`. */
  function ReplaceAll(s: string, pat: string, rep: string): string
    requires IsLiteralPattern(pat)
  {
    if pat == [] then ReplaceEmpty(s, rep) else ReplaceLiteral(s, pat, rep)
  }

  /** Every prefix of the output that holds no character of the replacement is a
      prefix of the input, untouched. */
  lemma {:induction false} UnreplacedPrefix(s: string, pat: string, rep: string, k: nat)
    requires |pat| > 0 && |rep| > 0
    requires k <= |ReplaceLiteral(s, pat, rep)|
    ensures (forall i :: 0 <= i < k ==> ReplaceLiteral(s, pat, rep)[i] !in rep) ==>
              k <= |s| && ReplaceLiteral(s, pat, rep)[..k] == s[..k]
    decreases |s|
  {
    var r := ReplaceLiteral(s, pat, rep);
    if k == 0 || |s| < |pat| {
    } else if s[..|pat|] == pat {
      assert r == rep + ReplaceLiteral(s[|pat|..], pat, rep);
      assert r[0] == rep[0] && r[0] in rep;
    } else {
      var tail := ReplaceLiteral(s[1..], pat, rep);
      assert r == [s[0]] + tail;
      forall i | 0 <= i < k - 1 ensures tail[i] == r[i + 1] { }
      UnreplacedPrefix(s[1..], pat, rep, k - 1);
      assert r[..k] == [s[0]] + tail[..k - 1];
    }
  }

  /** Once every occurrence of a nonempty pattern has been replaced by text that
      shares no character with it, the pattern no longer occurs. */
  lemma {:induction false} ReplaceLiteralRemovesPattern(s: string, pat: string, rep: string)
    requires |pat| > 0 && |rep| > 0
    requires forall k :: 0 <= k < |pat| ==> pat[k] !in rep
    ensures !Occurs(pat, ReplaceLiteral(s, pat, rep))
    decreases |s|
  {
    if |s| < |pat| {
      assert forall i :: !IsAt(s, pat, i);
    } else if s[..|pat|] == pat {
      ReplaceLiteralRemovesPattern(s[|pat|..], pat, rep);
      NoMatchAcrossReplacement(rep, ReplaceLiteral(s[|pat|..], pat, rep), pat);
    } else {
      ReplaceLiteralRemovesPattern(s[1..], pat, rep);
      NoMatchAcrossKeptChar(s, pat, rep);
    }
  }

  /** The step where a match was replaced: no occurrence can start inside the
      replacement, and none starts in the rest. */
  lemma NoMatchAcrossReplacement(rep: string, tail: string, pat: string)
    requires |pat| > 0
    requires forall k :: 0 <= k < |pat| ==> pat[k] !in rep
    requires !Occurs(pat, tail)
    ensures !Occurs(pat, rep + tail)
  {
    var r := rep + tail;
    forall i ensures !IsAt(r, pat, i) {
      if i < 0 || i + |pat| > |r| {
      } else if i < |rep| {
        assert r[i..i + |pat|][0] == rep[i];
      } else {
        assert r[|rep|..] == tail;
        SliceOfSuffix(r, |rep|, i - |rep|, i - |rep| + |pat|);
        assert !IsAt(tail, pat, i - |rep|);
      }
    }
  }

  /** The step where the first character was kept: the output cannot match at
      0, since that would lie in the untouched prefix where the input has no
      match, and any later occurrence would lie in the rest. */
  lemma NoMatchAcrossKeptChar(s: string, pat: string, rep: string)
    requires |pat| > 0 && |rep| > 0 && |s| >= |pat|
    requires forall k :: 0 <= k < |pat| ==> pat[k] !in rep
    requires s[..|pat|] != pat
    requires !Occurs(pat, ReplaceLiteral(s[1..], pat, rep))
    ensures !Occurs(pat, ReplaceLiteral(s, pat, rep))
  {
    NoMatchAtKeptChar(s, pat, rep);
    NoMatchAfterFirst(s[0], ReplaceLiteral(s[1..], pat, rep), pat);
  }

  /** A kept first character cannot begin an occurrence in the output. */
  lemma NoMatchAtKeptChar(s: string, pat: string, rep: string)
    requires |pat| > 0 && |rep| > 0 && |s| >= |pat|
    requires forall k :: 0 <= k < |pat| ==> pat[k] !in rep
    requires s[..|pat|] != pat
    ensures ReplaceLiteral(s, pat, rep) == [s[0]] + ReplaceLiteral(s[1..], pat, rep)
    ensures !IsAt(ReplaceLiteral(s, pat, rep), pat, 0)
  {
    var r := ReplaceLiteral(s, pat, rep);
    if |pat| <= |r| {
      if forall j :: 0 <= j < |pat| ==> r[j] !in rep {
        UnreplacedPrefix(s, pat, rep, |pat|);
      } else {
        var j :| 0 <= j < |pat| && r[j] in rep;
        assert r[..|pat|][j] == r[j] != pat[j];
      }
    }
  }

  /** With no match at 0 and none in the rest, `[c] + tail` has no match. */
  lemma NoMatchAfterFirst(c: char, tail: string, pat: string)
    requires |pat| > 0
    requires !Occurs(pat, tail)
    requires !IsAt([c] + tail, pat, 0)
    ensures !Occurs(pat, [c] + tail)
  {
    var r := [c] + tail;
    forall i | 1 <= i ensures !IsAt(r, pat, i) {
      if i + |pat| <= |r| {
        assert r[1..] == tail;
        SliceOfSuffix(r, 1, i - 1, i - 1 + |pat|);
        assert !IsAt(tail, pat, i - 1);
      }
    }
  }

  /** A prefix in which no occurrence of the pattern starts is copied as it is,
      and the scan resumes right after it. */
  lemma {:induction false} ReplaceLiteralSkipsCleanPrefix(a: string, t: string, pat: string, rep: string)
    requires |pat| > 0
    requires forall i :: 0 <= i < |a| ==> !IsAt(a + t, pat, i)
    ensures ReplaceLiteral(a + t, pat, rep) == a + ReplaceLiteral(t, pat, rep)
    decreases |a|
  {
    if a == [] {
      assert a + t == t;
    } else {
      CleanPrefixShifts(a, t, pat, rep);
      ReplaceLiteralSkipsCleanPrefix(a[1..], t, pat, rep);
      assert a + ReplaceLiteral(t, pat, rep) == [a[0]] + (a[1..] + ReplaceLiteral(t, pat, rep));
    }
  }

  /** One step of the scan over a clean prefix: its first character is copied,
      and what is left of the prefix is still clean. */
  lemma CleanPrefixShifts(a: string, t: string, pat: string, rep: string)
    requires |pat| > 0 && a != []
    requires forall i :: 0 <= i < |a| ==> !IsAt(a + t, pat, i)
    ensures forall i :: 0 <= i < |a| - 1 ==> !IsAt(a[1..] + t, pat, i)
    ensures ReplaceLiteral(a + t, pat, rep) == [a[0]] + ReplaceLiteral(a[1..] + t, pat, rep)
  {
    var s := a + t;
    assert !IsAt(s, pat, 0);
    assert s[0] == a[0] && s[1..] == a[1..] + t;
    forall i | 0 <= i < |a| - 1 ensures !IsAt(a[1..] + t, pat, i) {
      assert !IsAt(s, pat, i + 1);
      if i + |pat| <= |s| - 1 {
        assert s[i + 1..i + 1 + |pat|] == (a[1..] + t)[i..i + |pat|];
      }
    }
    if |s| < |pat| {
      assert ReplaceLiteral(a[1..] + t, pat, rep) == a[1..] + t;
    } else {
      assert s[..|pat|] != pat;
    }
  }

  /** Text starting with the pattern: the pattern is replaced and the scan
      resumes right after it. */
  lemma ReplaceLiteralAtStart(b: string, pat: string, rep: string)
    requires |pat| > 0
    ensures ReplaceLiteral(pat + b, pat, rep) == rep + ReplaceLiteral(b, pat, rep)
  {
    assert (pat + b)[..|pat|] == pat && (pat + b)[|pat|..] == b;
  }

  /** An occurrence in the right part of a concatenation is an occurrence in the
      whole, shifted by the left part's length. */
  lemma IsAtShift(x: string, y: string, pat: string)
    ensures forall i :: IsAt(y, pat, i) ==> IsAt(x + y, pat, |x| + i)
  {
    forall i | IsAt(y, pat, i) ensures IsAt(x + y, pat, |x| + i) {
      assert (x + y)[|x| + i..|x| + i + |pat|] == y[i..i + |pat|];
    }
  }

  /** The pattern placed right after `a` occurs there. */
  lemma PatternAfterPrefix(a: string, pat: string, b: string)
    ensures IsAt(a + pat + b, pat, |a|)
  {
    assert (a + pat + b)[|a|..|a| + |pat|] == pat;
  }

  /** The first occurrence, right after a clean prefix `a`, is replaced, and the
      scan resumes after it. */
  lemma ReplaceFirstOccurrence(a: string, pat: string, b: string, rep: string)
    requires |pat| > 0
    requires forall i :: 0 <= i < |a| ==> !IsAt(a + pat + b, pat, i)
    ensures ReplaceLiteral(a + pat + b, pat, rep) == a + rep + ReplaceLiteral(b, pat, rep)
  {
    assert a + pat + b == a + (pat + b);
    ReplaceLiteralSkipsCleanPrefix(a, pat + b, pat, rep);
    ReplaceLiteralAtStart(b, pat, rep);
    assert a + (rep + ReplaceLiteral(b, pat, rep)) == a + rep + ReplaceLiteral(b, pat, rep);
  }

  /** When no occurrence starts past `a`, the text after the pattern is clean. */
  lemma NoOccurrenceAfter(a: string, pat: string, b: string)
    requires |pat| > 0
    requires forall i :: IsAt(a + pat + b, pat, i) ==> i <= |a|
    ensures !Occurs(pat, b)
  {
    IsAtShift(a + pat, b, pat);
  }

  /** A pattern that occurs exactly once, right after `a`, is replaced there and
      nowhere else. */
  lemma ReplaceOnlyOccurrence(a: string, pat: string, b: string, rep: string)
    requires |pat| > 0
    requires forall i :: IsAt(a + pat + b, pat, i) ==> i == |a|
    ensures ReplaceLiteral(a + pat + b, pat, rep) == a + rep + b
  {
    ReplaceFirstOccurrence(a, pat, b, rep);
    NoOccurrenceAfter(a, pat, b);
    ReplaceLiteralKeepsCleanText(b, pat, rep);
  }

  /** A pattern that occurs exactly twice, after `a` and at the very end, is
      replaced at both places and nowhere else. */
  lemma ReplaceTwoOccurrences(a: string, pat: string, c: string, rep: string)
    requires |pat| > 0
    requires forall i :: IsAt(a + pat + (c + pat), pat, i) ==> i == |a| || i == |a| + |pat| + |c|
    ensures ReplaceLiteral(a + pat + (c + pat), pat, rep) == a + rep + (c + rep)
  {
    ReplaceFirstOccurrence(a, pat, c + pat, rep);
    LastOccurrence(a, pat, c);
    ReplaceOnlyOccurrence(c, pat, "", rep);
    assert c + pat + "" == c + pat && c + rep + "" == c + rep;
  }

  /** In `a + pat + (c + pat)` with no occurrence but the two, the right part
      `c + pat` holds the pattern only at its end. */
  lemma LastOccurrence(a: string, pat: string, c: string)
    requires |pat| > 0
    requires forall i :: IsAt(a + pat + (c + pat), pat, i) ==> i == |a| || i == |a| + |pat| + |c|
    ensures forall i :: IsAt(c + pat + "", pat, i) ==> i == |c|
  {
    assert c + pat + "" == c + pat;
    IsAtShift(a + pat, c + pat, pat);
  }

  /** Text without any occurrence of the pattern comes out unchanged. */
  lemma {:induction false} ReplaceLiteralKeepsCleanText(s: string, pat: string, rep: string)
    requires |pat| > 0
    requires !Occurs(pat, s)
    ensures ReplaceLiteral(s, pat, rep) == s
    decreases |s|
  {
    if |s| < |pat| {
    } else {
      assert !IsAt(s, pat, 0);
      forall i | IsAt(s[1..], pat, i) ensures IsAt(s, pat, i + 1) {
        assert s[1..][i..i + |pat|] == s[i + 1..i + 1 + |pat|];
      }
      ReplaceLiteralKeepsCleanText(s[1..], pat, rep);
    }
  }
}
