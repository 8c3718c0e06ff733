/**
 * Scanners shared by the stages: the longest prefix of a character class,
 * deletion of a class of characters, `str.replace` with a literal pattern, and
 * `re.sub` over a pattern whose matching is left abstract.
 */
module Scan {

  /** The end of the longest run of characters satisfying `p` that starts at
      position `i` (where a greedy `[...]*` tried at `i` stops). */
  function RunEnd(s: string, i: nat, p: char -> bool): (n: nat)
    requires i <= |s|
    ensures i <= n <= |s|
    ensures forall m :: i <= m < n ==> p(s[m])
    ensures n < |s| ==> !p(s[n])
    decreases |s| - i
  {
    if i == |s| || !p(s[i]) then i else RunEnd(s, i + 1, p)
  }

  /** The run ends at the first position from `i` on whose character fails `p`. */
  lemma RunEndIs(s: string, i: nat, p: char -> bool, n: nat)
    requires i <= n <= |s|
    requires forall m :: i <= m < n ==> p(s[m])
    requires n < |s| ==> !p(s[n])
    ensures RunEnd(s, i, p) == n
  {
  }

  /** `s` with every character satisfying `p` deleted. */
  function RemoveWhere(s: string, p: char -> bool): (r: string)
    ensures |r| <= |s|
  {
    if s == [] then []
    else if p(s[0]) then RemoveWhere(s[1..], p)
    else [s[0]] + RemoveWhere(s[1..], p)
  }

  /** Deletion keeps exactly the characters outside the class. */
  lemma {:induction false} RemoveWhereChars(s: string, p: char -> bool)
    ensures forall c :: c in RemoveWhere(s, p) <==> c in s && !p(c)
  {
    if s != [] {
      RemoveWhereChars(s[1..], p);
      assert s == [s[0]] + s[1..];
    }
  }

  lemma {:induction false} RemoveWhereAppend(x: string, y: string, p: char -> bool)
    ensures RemoveWhere(x + y, p) == RemoveWhere(x, p) + RemoveWhere(y, p)
  {
    if x == [] {
      assert x + y == y;
    } else {
      assert (x + y)[0] == x[0];
      assert (x + y)[1..] == x[1..] + y;
      RemoveWhereAppend(x[1..], y, p);
    }
  }

  /** Deleting a class twice deletes nothing more. */
  lemma RemoveWhereIdempotent(s: string, p: char -> bool)
    ensures RemoveWhere(RemoveWhere(s, p), p) == RemoveWhere(s, p)
  {
    var r := RemoveWhere(s, p);
    RemoveWhereChars(s, p);
    assert forall i :: 0 <= i < |r| ==> r[i] in r;
    RemoveWhereIdentity(r, p);
  }

  lemma {:induction false} RemoveWhereIdentity(s: string, p: char -> bool)
    requires forall i :: 0 <= i < |s| ==> !p(s[i])
    ensures RemoveWhere(s, p) == s
  {
    if s != [] {
      RemoveWhereIdentity(s[1..], p);
    }
  }

  /** `s.replace(pat, rep)`: every leftmost, non-overlapping occurrence of `pat`,
      scanning from the left, becomes `rep`. */
  function ReplaceAll(s: string, pat: string, rep: string): string
    requires |pat| > 0
    decreases |s|
  {
    if s == [] then []
    else if pat <= s then rep + ReplaceAll(s[|pat|..], pat, rep)
    else [s[0]] + ReplaceAll(s[1..], pat, rep)
  }

  /** Text that lacks the first character of `pat` is copied as it is, and
      the replacement goes on in the rest. */
  lemma {:induction false} ReplaceAllPlain(x: string, y: string, pat: string, rep: string)
    requires |pat| > 0 && pat[0] !in x
    ensures ReplaceAll(x + y, pat, rep) == x + ReplaceAll(y, pat, rep)
    decreases |x|
  {
    if x == [] {
      assert x + y == y;
    } else {
      var s := x + y;
      assert x == [x[0]] + x[1..];
      assert s[0] == x[0] && s[1..] == x[1..] + y;
      assert !(pat <= s);
      ReplaceAllPlain(x[1..], y, pat, rep);
    }
  }

  /** Text in which `pat` never occurs is left unchanged. */
  lemma {:induction false} ReplaceAllIdentity(s: string, pat: string, rep: string)
    requires |pat| > 0
    requires forall i :: 0 <= i < |s| ==> !(pat <= s[i..])
    ensures ReplaceAll(s, pat, rep) == s
  {
    if s != [] {
      assert s[0..] == s;
      forall i | 0 <= i < |s[1..]| ensures !(pat <= s[1..][i..]) {
        assert s[1..][i..] == s[i + 1..];
      }
      ReplaceAllIdentity(s[1..], pat, rep);
    }
  }

  /** No occurrence of `pat` in `x + y` starts inside `x` and ends inside `y`. */
  ghost predicate NoStraddle(x: string, y: string, pat: string) {
    forall i :: 0 <= i < |x| < i + |pat| ==> !(pat <= (x + y)[i..])
  }

  /** Dropping `d` characters from the front of `x` keeps the absence of
      straddling occurrences. */
  lemma NoStraddleShift(x: string, y: string, pat: string, d: nat)
    requires d <= |x|
    requires NoStraddle(x, y, pat)
    ensures (x + y)[d..] == x[d..] + y
    ensures NoStraddle(x[d..], y, pat)
  {
    var s, x' := x + y, x[d..];
    assert s[d..] == x' + y;
    forall i | 0 <= i < |x'| < i + |pat| ensures !(pat <= (x' + y)[i..]) {
      assert (x' + y)[i..] == s[i + d..];
    }
  }

  /** When no occurrence straddles the boundary, replacing in `x + y` is
      replacing in `x` and in `y` separately. */
  lemma {:induction false} ReplaceAllSplit(x: string, y: string, pat: string, rep: string)
    requires |pat| > 0
    requires NoStraddle(x, y, pat)
    ensures ReplaceAll(x + y, pat, rep) == ReplaceAll(x, pat, rep) + ReplaceAll(y, pat, rep)
    decreases |x|, 1
  {
    if x == [] {
      assert x + y == y;
    } else if pat <= x + y {
      ReplaceAllSplitMatch(x, y, pat, rep);
    } else {
      ReplaceAllSplitCopy(x, y, pat, rep);
    }
  }

  /** The split when an occurrence starts the text: it lies within `x`. */
  lemma {:induction false} ReplaceAllSplitMatch(x: string, y: string, pat: string, rep: string)
    requires |pat| > 0 && x != [] && pat <= x + y
    requires NoStraddle(x, y, pat)
    ensures ReplaceAll(x + y, pat, rep) == ReplaceAll(x, pat, rep) + ReplaceAll(y, pat, rep)
    decreases |x|, 0
  {
    var s := x + y;
    assert |pat| <= |x| by {
      assert s[0..] == s;
    }
    assert pat <= x by {
      assert forall m :: 0 <= m < |pat| ==> x[m] == s[m];
    }
    NoStraddleShift(x, y, pat, |pat|);
    ReplaceAllSplit(x[|pat|..], y, pat, rep);
  }

  /** The split when no occurrence starts the text: the first character is copied. */
  lemma {:induction false} ReplaceAllSplitCopy(x: string, y: string, pat: string, rep: string)
    requires |pat| > 0 && x != [] && !(pat <= x + y)
    requires NoStraddle(x, y, pat)
    ensures ReplaceAll(x + y, pat, rep) == ReplaceAll(x, pat, rep) + ReplaceAll(y, pat, rep)
    decreases |x|, 0
  {
    var s := x + y;
    assert s[0] == x[0];
    assert !(pat <= x);
    NoStraddleShift(x, y, pat, 1);
    ReplaceAllSplit(x[1..], y, pat, rep);
  }

  /** A replacement that agrees with its pattern once the characters `p` are
      deleted leaves the text the same once they are deleted. */
  lemma {:induction false} ReplaceAllRemoveWhere(s: string, pat: string, rep: string, p: char -> bool)
    requires |pat| > 0
    requires RemoveWhere(pat, p) == RemoveWhere(rep, p)
    ensures RemoveWhere(ReplaceAll(s, pat, rep), p) == RemoveWhere(s, p)
    decreases |s|
  {
    if s != [] {
      if pat <= s {
        ReplaceAllRemoveWhere(s[|pat|..], pat, rep, p);
        RemoveWhereAppend(rep, ReplaceAll(s[|pat|..], pat, rep), p);
        RemoveWhereAppend(pat, s[|pat|..], p);
        assert s == pat + s[|pat|..];
      } else {
        ReplaceAllRemoveWhere(s[1..], pat, rep, p);
        RemoveWhereAppend([s[0]], ReplaceAll(s[1..], pat, rep), p);
        RemoveWhereAppend([s[0]], s[1..], p);
        assert s == [s[0]] + s[1..];
      }
    }
  }

  /** A one-character pattern replaced by nothing leaves no trace of that character. */
  lemma {:induction false} ReplaceAllDeletes(s: string, c: char)
    ensures c !in ReplaceAll(s, [c], [])
    ensures forall d :: d in ReplaceAll(s, [c], []) ==> d in s
  {
    if s != [] {
      ReplaceAllDeletes(s[1..], c);
    }
  }

  /** Every `c` after the first position has a space right before it. */
  ghost predicate SpaceBefore(t: string, c: char) {
    forall m :: 0 < m < |t| && t[m] == c ==> t[m - 1] == ' '
  }

  lemma SpaceBeforeConcat(x: string, y: string, c: char)
    requires SpaceBefore(x, c) && SpaceBefore(y, c)
    requires x != [] && y != [] && y[0] == c ==> x[|x| - 1] == ' '
    ensures SpaceBefore(x + y, c)
  {
    var t := x + y;
    forall m | 0 < m < |t| && t[m] == c ensures t[m - 1] == ' ' {
      if m > |x| {
        assert t[m] == y[m - |x|] && t[m - 1] == y[m - 1 - |x|];
      } else if m == |x| {
        assert t[m] == y[0] && t[m - 1] == x[|x| - 1];
      }
    }
  }

  /** Text without `c` trivially has a space before every `c`. */
  lemma SpaceBeforeAbsent(t: string, c: char)
    requires c !in t
    ensures SpaceBefore(t, c)
  {
    forall m | 0 < m < |t| ensures t[m] != c {
      assert t[m] in t;
    }
  }

  /** The replaced text starts with the replacement or with the first character. */
  lemma ReplaceAllHead(s: string, pat: string, rep: string)
    requires |pat| > 0 && rep != [] && s != []
    ensures ReplaceAll(s, pat, rep) != []
    ensures ReplaceAll(s, pat, rep)[0] == rep[0] || ReplaceAll(s, pat, rep)[0] == s[0]
  {
  }

  /** A replacement keeps a space before every `c`, when neither the pattern
      ends with a space nor the (non-empty) replacement holds `c`: the space
      before a `c` is never the end of a match. */
  lemma {:induction false} ReplaceAllSpaceBefore(s: string, pat: string, rep: string, c: char)
    requires |pat| > 0 && pat[|pat| - 1] != ' '
    requires rep != [] && c !in rep && c != ' '
    requires SpaceBefore(s, c)
    ensures SpaceBefore(ReplaceAll(s, pat, rep), c)
    decreases |s|
  {
    if s != [] {
      var d := if pat <= s then |pat| else 1;
      var t := s[d..];
      assert d <= |s| && SpaceBefore(t, c) by {
        forall m | 0 < m < |t| && t[m] == c ensures t[m - 1] == ' ' {
          assert t[m] == s[m + d] && t[m - 1] == s[m - 1 + d];
        }
      }
      ReplaceAllSpaceBefore(t, pat, rep, c);
      var r := ReplaceAll(t, pat, rep);
      if t != [] {
        ReplaceAllHead(t, pat, rep);
        assert t[0] == s[d];
      }
      if pat <= s {
        assert s[|pat| - 1] == pat[|pat| - 1];
        SpaceBeforeAbsent(rep, c);
        SpaceBeforeConcat(rep, r, c);
      } else {
        SpaceBeforeConcat([s[0]], r, c);
      }
    }
  }

  /** The match length a regular expression finds when it is tried at a position
      of the whole text; 0 stands for "no match there". Every pattern of the
      URL, e-mail and mention tables matches at least one character, so a
      length of 0 never stands for an empty match. */
  type Matcher = (string, nat) -> nat

  /** `re.sub(pattern, repl, s)` continued from position `i`: at each position the
      pattern either matches (the match becomes `repl` and scanning resumes after
      it) or it does not (the character is copied). A reported length that runs
      past the end of the text is treated as no match. */
  function SubFrom(m: Matcher, repl: string, s: string, i: nat): string
    decreases |s| - i
  {
    if i >= |s| then []
    else
      var n := m(s, i);
      if 0 < n <= |s| - i then repl + SubFrom(m, repl, s, i + n)
      else [s[i]] + SubFrom(m, repl, s, i + 1)
  }

  function Sub(m: Matcher, repl: string, s: string): string {
    SubFrom(m, repl, s, 0)
  }

  /** The substitution loop over a table of patterns: each pattern in turn is
      applied to the whole text left by the previous ones. */
  function SubEach(ms: seq<Matcher>, repl: string, s: string): string
    decreases |ms|
  {
    if ms == [] then s
    else Sub(ms[|ms| - 1], repl, SubEach(ms[..|ms| - 1], repl, s))
  }

  /** A substitution writes nothing but characters of its input and of its replacement. */
  lemma {:induction false} SubFromChars(m: Matcher, repl: string, s: string, i: nat)
    ensures forall c :: c in SubFrom(m, repl, s, i) ==> c in s || c in repl
    decreases |s| - i
  {
    if i < |s| {
      var n := m(s, i);
      if 0 < n <= |s| - i {
        SubFromChars(m, repl, s, i + n);
      } else {
        SubFromChars(m, repl, s, i + 1);
      }
    }
  }

  /** Where the pattern matches nowhere from `i` on, the rest of the text is copied. */
  lemma {:induction false} SubFromNoMatch(m: Matcher, repl: string, s: string, i: nat)
    requires i <= |s|
    requires forall j :: i <= j < |s| ==> m(s, j) == 0
    ensures SubFrom(m, repl, s, i) == s[i..]
    decreases |s| - i
  {
    if i < |s| {
      SubFromNoMatch(m, repl, s, i + 1);
      assert s[i..] == [s[i]] + s[i + 1..];
    }
  }

  /** A table of substitutions writes nothing but input characters and replacement characters. */
  lemma {:induction false} SubEachChars(ms: seq<Matcher>, repl: string, s: string)
    ensures forall c :: c in SubEach(ms, repl, s) ==> c in s || c in repl
    decreases |ms|
  {
    if ms != [] {
      var before := SubEach(ms[..|ms| - 1], repl, s);
      SubEachChars(ms[..|ms| - 1], repl, s);
      SubFromChars(ms[|ms| - 1], repl, before, 0);
    }
  }

  /** A table of patterns none of which matches anywhere in `s` leaves `s`
      unchanged: each pattern in turn meets the same text. */
  lemma {:induction false} SubEachNoMatch(ms: seq<Matcher>, repl: string, s: string)
    requires forall k, i :: 0 <= k < |ms| && 0 <= i < |s| ==> ms[k](s, i) == 0
    ensures SubEach(ms, repl, s) == s
    decreases |ms|
  {
    if ms != [] {
      var init := ms[..|ms| - 1];
      assert forall k, i :: 0 <= k < |init| && 0 <= i < |s| ==> init[k](s, i) == 0 by {
        forall k, i | 0 <= k < |init| && 0 <= i < |s| ensures init[k](s, i) == 0 {
          assert init[k] == ms[k];
        }
      }
      SubEachNoMatch(init, repl, s);
      SubFromNoMatch(ms[|ms| - 1], repl, s, 0);
      assert s[0..] == s;
    }
  }
}
