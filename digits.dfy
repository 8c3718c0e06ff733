/**
 * Separation of digits from Arabic letters: `(\d+)([letters]+)` and then
 * `([letters]+)(\d+)`, each replaced by ` \1 \2 `.
 */
module Digits {
  import opened CharClasses
  import opened Scan

  /** The replacement ` \1 \2 ` for the two groups. */
  function Spaced(a: string, b: string): string {
    " " + a + " " + b + " "
  }

  /** `re.sub(r"(P+)(Q+)", r" \1 \2 ", s)` for two disjoint classes P and Q,
      continued from position `i`. `P+` is greedy and backing off from it
      leaves a P character in front of the Q class, so the pattern matches at
      a position exactly when a maximal P run starts there and a Q character
      follows it; `Q+` then takes the whole Q run. */
  function SplitRunsFrom(s: string, i: nat, p: char -> bool, q: char -> bool): string
    requires i <= |s|
    decreases |s| - i
  {
    if i == |s| then []
    else
      var j := RunEnd(s, i, p);
      if i < j < |s| && q(s[j]) then
        var k := RunEnd(s, j, q);
        Spaced(s[i..j], s[j..k]) + SplitRunsFrom(s, k, p, q)
      else [s[i]] + SplitRunsFrom(s, i + 1, p, q)
  }

  function SplitRuns(s: string, p: char -> bool, q: char -> bool): string {
    SplitRunsFrom(s, 0, p, q)
  }

  /** The digit/letter stage: digits before letters first, then letters before digits. */
  function SeparateDigits(s: string): string {
    SplitRuns(SplitRuns(s, IsDigit, IsArabicLetter), IsArabicLetter, IsDigit)
  }

  /** A step of the pass where a P run followed by a Q run starts at `i`. */
  lemma SplitRunsMatch(s: string, i: nat, p: char -> bool, q: char -> bool, j: nat, k: nat)
    requires i < |s| && j == RunEnd(s, i, p) && i < j < |s| && q(s[j])
    requires k == RunEnd(s, j, q)
    ensures j < k <= |s|
    ensures SplitRunsFrom(s, i, p, q) == Spaced(s[i..j], s[j..k]) + SplitRunsFrom(s, k, p, q)
  {
  }

  /** A step of the pass where the character at `i` is copied. */
  lemma SplitRunsCopy(s: string, i: nat, p: char -> bool, q: char -> bool, j: nat)
    requires i < |s| && j == RunEnd(s, i, p) && !(i < j < |s| && q(s[j]))
    ensures SplitRunsFrom(s, i, p, q) == [s[i]] + SplitRunsFrom(s, i + 1, p, q)
  {
  }

  /** The output from `i` starts with an inserted space or with `s[i]`. */
  lemma SplitRunsHead(s: string, i: nat, p: char -> bool, q: char -> bool)
    requires i < |s|
    ensures SplitRunsFrom(s, i, p, q) != []
    ensures SplitRunsFrom(s, i, p, q)[0] == ' ' || SplitRunsFrom(s, i, p, q)[0] == s[i]
  {
  }

  /** No character of class `p` is directly followed by one of class `q`. */
  ghost predicate NoAdjacent(t: string, p: char -> bool, q: char -> bool) {
    forall i :: 0 <= i < |t| - 1 ==> !(p(t[i]) && q(t[i + 1]))
  }

  lemma NoAdjacentConcat(x: string, y: string, p: char -> bool, q: char -> bool)
    requires NoAdjacent(x, p, q) && NoAdjacent(y, p, q)
    requires x != [] && y != [] ==> !(p(x[|x| - 1]) && q(y[0]))
    ensures NoAdjacent(x + y, p, q)
  {
    var t := x + y;
    forall i | 0 <= i < |t| - 1 ensures !(p(t[i]) && q(t[i + 1])) {
      if i + 1 < |x| {
        assert t[i] == x[i] && t[i + 1] == x[i + 1];
      } else if i >= |x| {
        assert t[i] == y[i - |x|] && t[i + 1] == y[i + 1 - |x|];
      } else {
        assert t[i] == x[|x| - 1] && t[i + 1] == y[0];
      }
    }
  }

  /** Conditions under which the two classes can be separated by spaces:
      they are disjoint and neither contains the space. */
  ghost predicate Separable(p: char -> bool, q: char -> bool) {
    !p(' ') && !q(' ') && forall c :: !(p(c) && q(c))
  }

  /** A run of one class contains no adjacent pair in either direction. */
  lemma RunNoAdjacent(run: string, p: char -> bool, q: char -> bool)
    requires Separable(p, q)
    requires forall i :: 0 <= i < |run| ==> p(run[i])
    ensures NoAdjacent(run, p, q) && NoAdjacent(run, q, p)
  {
  }

  /** The pieces of one replacement ` P-run Q-run ` followed by the rest. */
  lemma {:induction false} MatchPieces(pr: string, qr: string, rest: string, p: char -> bool, q: char -> bool, a: char -> bool, b: char -> bool)
    requires Separable(p, q)
    requires (a == p && b == q) || (a == q && b == p)
    requires pr != [] && qr != []
    requires forall i :: 0 <= i < |pr| ==> p(pr[i])
    requires forall i :: 0 <= i < |qr| ==> q(qr[i])
    requires NoAdjacent(rest, a, b)
    ensures NoAdjacent(Spaced(pr, qr) + rest, a, b)
  {
    RunNoAdjacent(pr, p, q);
    RunNoAdjacent(qr, q, p) by {
      assert Separable(q, p);
    }
    var sp := " ";
    assert NoAdjacent(sp, a, b);
    NoAdjacentConcat(sp, pr, a, b);
    NoAdjacentConcat(sp + pr, sp, a, b);
    NoAdjacentConcat(sp + pr + sp, qr, a, b);
    NoAdjacentConcat(sp + pr + sp + qr, sp, a, b);
    NoAdjacentConcat(sp + pr + sp + qr + sp, rest, a, b);
  }

  /** The two runs of a match, as slices of the text. */
  lemma MatchRuns(s: string, i: nat, j: nat, k: nat, p: char -> bool, q: char -> bool)
    requires i < j < k <= |s|
    requires forall m :: i <= m < j ==> p(s[m])
    requires forall m :: j <= m < k ==> q(s[m])
    ensures s[i..j] != [] && forall m :: 0 <= m < |s[i..j]| ==> p(s[i..j][m])
    ensures s[j..k] != [] && forall m :: 0 <= m < |s[j..k]| ==> q(s[j..k][m])
  {
    forall m | 0 <= m < |s[i..j]| ensures p(s[i..j][m]) {
      assert s[i..j][m] == s[i + m];
    }
    forall m | 0 <= m < |s[j..k]| ensures q(s[j..k][m]) {
      assert s[j..k][m] == s[j + m];
    }
  }

  /** After the pass no `p` character is directly followed by a `q` character. */
  lemma {:induction false} SplitRunsSeparates(s: string, i: nat, p: char -> bool, q: char -> bool)
    requires i <= |s|
    requires Separable(p, q)
    ensures NoAdjacent(SplitRunsFrom(s, i, p, q), p, q)
    decreases |s| - i
  {
    if i < |s| {
      var j := RunEnd(s, i, p);
      if i < j < |s| && q(s[j]) {
        var k := RunEnd(s, j, q);
        SplitRunsMatch(s, i, p, q, j, k);
        SplitRunsSeparates(s, k, p, q);
        MatchRuns(s, i, j, k, p, q);
        MatchPieces(s[i..j], s[j..k], SplitRunsFrom(s, k, p, q), p, q, p, q);
      } else {
        var r := SplitRunsFrom(s, i + 1, p, q);
        SplitRunsCopy(s, i, p, q, j);
        SplitRunsSeparates(s, i + 1, p, q);
        if p(s[i]) && r != [] && r[0] != ' ' {
          // the P run that starts at s[i] is not followed by a Q character
          SplitRunsHead(s, i + 1, p, q);
          assert !q(s[i + 1]) by {
            if j > i + 1 { assert p(s[i + 1]); }
          }
        }
        NoAdjacentConcat([s[i]], r, p, q);
      }
    }
  }

  /** The pass keeps text free of the reverse adjacency, a `q` character
      directly followed by a `p` character. */
  lemma {:induction false} SplitRunsKeeps(s: string, i: nat, p: char -> bool, q: char -> bool)
    requires i <= |s|
    requires Separable(p, q)
    requires NoAdjacent(s, q, p)
    ensures NoAdjacent(SplitRunsFrom(s, i, p, q), q, p)
    decreases |s| - i
  {
    if i < |s| {
      var j := RunEnd(s, i, p);
      if i < j < |s| && q(s[j]) {
        var k := RunEnd(s, j, q);
        SplitRunsMatch(s, i, p, q, j, k);
        SplitRunsKeeps(s, k, p, q);
        MatchRuns(s, i, j, k, p, q);
        MatchPieces(s[i..j], s[j..k], SplitRunsFrom(s, k, p, q), p, q, q, p);
      } else {
        var r := SplitRunsFrom(s, i + 1, p, q);
        SplitRunsCopy(s, i, p, q, j);
        SplitRunsKeeps(s, i + 1, p, q);
        if q(s[i]) && r != [] && r[0] != ' ' {
          SplitRunsHead(s, i + 1, p, q);
          assert !p(s[i + 1]);
        }
        NoAdjacentConcat([s[i]], r, q, p);
      }
    }
  }

  /** After the digit/letter stage no digit touches an Arabic letter, in
      either order. */
  lemma SeparateDigitsSeparates(s: string)
    ensures NoAdjacent(SeparateDigits(s), IsDigit, IsArabicLetter)
    ensures NoAdjacent(SeparateDigits(s), IsArabicLetter, IsDigit)
  {
    assert Separable(IsDigit, IsArabicLetter) by {
      forall c ensures !(IsDigit(c) && IsArabicLetter(c)) {
        DigitsAreNotLetters(c);
      }
    }
    assert Separable(IsArabicLetter, IsDigit);
    var t := SplitRuns(s, IsDigit, IsArabicLetter);
    SplitRunsSeparates(s, 0, IsDigit, IsArabicLetter);
    SplitRunsKeeps(t, 0, IsArabicLetter, IsDigit);
    SplitRunsSeparates(t, 0, IsArabicLetter, IsDigit);
  }

  /** The pass only inserts spaces: with the spaces deleted, output and input agree. */
  lemma {:induction false} SplitRunsOnlyAddsSpaces(s: string, i: nat, p: char -> bool, q: char -> bool)
    requires i <= |s|
    ensures RemoveWhere(SplitRunsFrom(s, i, p, q), IsBlank) == RemoveWhere(s[i..], IsBlank)
    decreases |s| - i
  {
    if i < |s| {
      var j := RunEnd(s, i, p);
      if i < j < |s| && q(s[j]) {
        var k := RunEnd(s, j, q);
        SplitRunsMatch(s, i, p, q, j, k);
        SplitRunsOnlyAddsSpaces(s, k, p, q);
        MatchOnlyAddsSpaces(s, i, j, k, SplitRunsFrom(s, k, p, q));
      } else {
        SplitRunsCopy(s, i, p, q, j);
        SplitRunsOnlyAddsSpaces(s, i + 1, p, q);
        CopyOnlyAddsSpaces(s, i, SplitRunsFrom(s, i + 1, p, q));
      }
    }
  }

  /** A match step, with the rest already known to differ from the input only in spaces. */
  lemma MatchOnlyAddsSpaces(s: string, i: nat, j: nat, k: nat, rest: string)
    requires i <= j <= k <= |s|
    requires RemoveWhere(rest, IsBlank) == RemoveWhere(s[k..], IsBlank)
    ensures RemoveWhere(Spaced(s[i..j], s[j..k]) + rest, IsBlank) == RemoveWhere(s[i..], IsBlank)
  {
    var x, y, z := s[i..j], s[j..k], s[k..];
    assert s[i..] == x + (y + z);
    BlanksFrame(x, y, rest);
    RemoveWhereAppend(y, z, IsBlank);
    RemoveWhereAppend(x, y + z, IsBlank);
  }

  /** A copy step, with the rest already known to differ from the input only in spaces. */
  lemma CopyOnlyAddsSpaces(s: string, i: nat, rest: string)
    requires i < |s|
    requires RemoveWhere(rest, IsBlank) == RemoveWhere(s[i + 1..], IsBlank)
    ensures RemoveWhere([s[i]] + rest, IsBlank) == RemoveWhere(s[i..], IsBlank)
  {
    assert s[i..] == [s[i]] + s[i + 1..];
    RemoveWhereAppend([s[i]], rest, IsBlank);
    RemoveWhereAppend([s[i]], s[i + 1..], IsBlank);
  }

  lemma BlanksFrame(x: string, y: string, rest: string)
    ensures RemoveWhere(Spaced(x, y) + rest, IsBlank) ==
      RemoveWhere(x, IsBlank) + (RemoveWhere(y, IsBlank) + RemoveWhere(rest, IsBlank))
  {
    var sp := " ";
    assert RemoveWhere(sp, IsBlank) == [] by { assert sp[1..] == []; }
    calc {
      RemoveWhere(Spaced(x, y) + rest, IsBlank);
    == { assert Spaced(x, y) + rest == sp + (x + (sp + (y + (sp + rest)))); }
      RemoveWhere(sp + (x + (sp + (y + (sp + rest)))), IsBlank);
    == { RemoveWhereAppend(sp, x + (sp + (y + (sp + rest))), IsBlank); }
      RemoveWhere(x + (sp + (y + (sp + rest))), IsBlank);
    == { RemoveWhereAppend(x, sp + (y + (sp + rest)), IsBlank);
         RemoveWhereAppend(sp, y + (sp + rest), IsBlank); }
      RemoveWhere(x, IsBlank) + RemoveWhere(y + (sp + rest), IsBlank);
    == { RemoveWhereAppend(y, sp + rest, IsBlank);
         RemoveWhereAppend(sp, rest, IsBlank); }
      RemoveWhere(x, IsBlank) + (RemoveWhere(y, IsBlank) + RemoveWhere(rest, IsBlank));
    }
  }

  lemma SeparateDigitsOnlyAddsSpaces(s: string)
    ensures RemoveWhere(SeparateDigits(s), IsBlank) == RemoveWhere(s, IsBlank)
  {
    var t := SplitRuns(s, IsDigit, IsArabicLetter);
    SplitRunsOnlyAddsSpaces(s, 0, IsDigit, IsArabicLetter);
    SplitRunsOnlyAddsSpaces(t, 0, IsArabicLetter, IsDigit);
    assert s[0..] == s && t[0..] == t;
  }

  /** A separation pass keeps a space right before every `c` outside both
      classes: a match covers only characters of the two classes, and what it
      writes ends with a space. */
  lemma {:induction false} SplitRunsSpaceBefore(s: string, i: nat, p: char -> bool, q: char -> bool, c: char)
    requires i <= |s|
    requires !p(c) && !q(c) && c != ' ' && !q(' ')
    requires forall m :: i < m < |s| && s[m] == c ==> s[m - 1] == ' '
    ensures SpaceBefore(SplitRunsFrom(s, i, p, q), c)
    decreases |s| - i
  {
    if i < |s| {
      var j := RunEnd(s, i, p);
      if i < j < |s| && q(s[j]) {
        var k := RunEnd(s, j, q);
        SplitRunsMatch(s, i, p, q, j, k);
        SplitRunsSpaceBefore(s, k, p, q, c);
        MatchRuns(s, i, j, k, p, q);
        var x := Spaced(s[i..j], s[j..k]);
        assert c !in x by {
          assert c !in s[i..j] && c !in s[j..k];
        }
        SpaceBeforeAbsent(x, c);
        SpaceBeforeConcat(x, SplitRunsFrom(s, k, p, q), c);
      } else {
        SplitRunsCopy(s, i, p, q, j);
        SplitRunsSpaceBefore(s, i + 1, p, q, c);
        if i + 1 < |s| {
          SplitRunsHead(s, i + 1, p, q);
        }
        SpaceBeforeConcat([s[i]], SplitRunsFrom(s, i + 1, p, q), c);
      }
    }
  }

  /** Both separation passes keep a space right before every `c` that is
      neither a digit nor a letter of the separation class. */
  lemma SeparateDigitsSpaceBefore(s: string, c: char)
    requires !IsDigit(c) && !IsArabicLetter(c) && c != ' '
    requires SpaceBefore(s, c)
    ensures SpaceBefore(SeparateDigits(s), c)
  {
    SplitRunsSpaceBefore(s, 0, IsDigit, IsArabicLetter, c);
    SplitRunsSpaceBefore(SplitRuns(s, IsDigit, IsArabicLetter), 0, IsArabicLetter, IsDigit, c);
  }

  /** A pass over text where one of the two classes never occurs copies it. */
  lemma {:induction false} SplitRunsIdentity(s: string, i: nat, p: char -> bool, q: char -> bool)
    requires i <= |s|
    requires (forall m :: i <= m < |s| ==> !p(s[m])) || (forall m :: i <= m < |s| ==> !q(s[m]))
    ensures SplitRunsFrom(s, i, p, q) == s[i..]
    decreases |s| - i
  {
    if i < |s| {
      SplitRunsCopy(s, i, p, q, RunEnd(s, i, p));
      SplitRunsIdentity(s, i + 1, p, q);
      assert s[i..] == [s[i]] + s[i + 1..];
    }
  }

  /** Text without digits is left as it is by both passes. */
  lemma SeparateDigitsIdentity(s: string)
    requires forall m :: 0 <= m < |s| ==> !IsDigit(s[m])
    ensures SeparateDigits(s) == s
  {
    SplitRunsIdentity(s, 0, IsDigit, IsArabicLetter);
    assert s[0..] == s;
    SplitRunsIdentity(s, 0, IsArabicLetter, IsDigit);
  }
}
