/**
 * The final normalisation: the variation selector U+FE0F is deleted, the text
 * is split at runs of whitespace (`str.split()` without arguments, which also
 * drops leading and trailing whitespace) and the words are joined with single
 * spaces.
 */
module Whitespace {
  import opened CharClasses
  import opened Scan

  predicate NotSpace(c: char) {
    !IsSpace(c)
  }

  /** A field of `str.split()`: non-empty and free of whitespace. */
  ghost predicate IsWord(w: string) {
    w != [] && forall i :: 0 <= i < |w| ==> !IsSpace(w[i])
  }

  ghost predicate AllWords(ws: seq<string>) {
    forall k :: 0 <= k < |ws| ==> IsWord(ws[k])
  }

  /** `s.split()` continued from position `i`: whitespace is skipped;
      elsewhere the longest run of other characters is one field. */
  function WordsFrom(s: string, i: nat): seq<string>
    requires i <= |s|
    decreases |s| - i
  {
    if i == |s| then []
    else if IsSpace(s[i]) then WordsFrom(s, i + 1)
    else
      var n := RunEnd(s, i, NotSpace);
      [s[i..n]] + WordsFrom(s, n)
  }

  function Words(s: string): seq<string> {
    WordsFrom(s, 0)
  }

  /** `" ".join(ws)`. */
  function Join(ws: seq<string>): string
    decreases |ws|
  {
    if ws == [] then []
    else if |ws| == 1 then ws[0]
    else ws[0] + " " + Join(ws[1..])
  }

  /** The normalisation stage. */
  function Normalize(s: string): string {
    Join(Words(ReplaceAll(s, [VariationSelector16], [])))
  }

  /** The shape of normalised text: its only whitespace is the plain space, and
      every space stands alone between two other characters. */
  ghost predicate WellSpaced(t: string) {
    forall i :: 0 <= i < |t| && IsSpace(t[i]) ==>
      t[i] == ' ' && 0 < i < |t| - 1 && !IsSpace(t[i - 1]) && !IsSpace(t[i + 1])
  }

  /** The words concatenated with nothing between them. */
  function Concat(ws: seq<string>): string {
    if ws == [] then [] else ws[0] + Concat(ws[1..])
  }

  /** A whitespace character is skipped. */
  lemma WordsFromSpace(s: string, i: nat)
    requires i < |s| && IsSpace(s[i])
    ensures WordsFrom(s, i) == WordsFrom(s, i + 1)
  {
  }

  /** A field runs from `i` to the next whitespace character. */
  lemma WordsFromWord(s: string, i: nat, n: nat)
    requires i < |s| && !IsSpace(s[i]) && n == RunEnd(s, i, NotSpace)
    ensures i < n && WordsFrom(s, i) == [s[i..n]] + WordsFrom(s, n)
  {
  }

  lemma AllWordsTail(ws: seq<string>)
    requires AllWords(ws) && ws != []
    ensures IsWord(ws[0]) && AllWords(ws[1..])
  {
    forall k | 0 <= k < |ws[1..]| ensures IsWord(ws[1..][k]) {
      assert ws[1..][k] == ws[k + 1];
    }
  }

  lemma JoinHead(ws: seq<string>)
    requires ws != [] && ws[0] != []
    ensures Join(ws) != [] && Join(ws)[0] == ws[0][0]
  {
  }

  /** The fields of `str.split()` are non-empty and hold no whitespace. */
  lemma {:induction false} WordsAreWords(s: string, i: nat)
    requires i <= |s|
    ensures AllWords(WordsFrom(s, i))
    decreases |s| - i
  {
    if i < |s| {
      if IsSpace(s[i]) {
        WordsFromSpace(s, i);
        WordsAreWords(s, i + 1);
      } else {
        var n := RunEnd(s, i, NotSpace);
        WordsFromWord(s, i, n);
        WordsAreWords(s, n);
        var rest := WordsFrom(s, n);
        var ws := [s[i..n]] + rest;
        forall k | 0 <= k < |ws| ensures IsWord(ws[k]) {
          if k == 0 {
            forall m | 0 <= m < |s[i..n]| ensures !IsSpace(s[i..n][m]) {
              assert s[i..n][m] == s[i + m];
            }
          } else {
            assert ws[k] == rest[k - 1];
          }
        }
      }
    }
  }

  /** Joining words gives well-spaced text. */
  lemma {:induction false} JoinWellSpaced(ws: seq<string>)
    requires AllWords(ws)
    ensures WellSpaced(Join(ws))
    decreases |ws|
  {
    if |ws| == 1 {
      assert IsWord(ws[0]);
    } else if |ws| > 1 {
      AllWordsTail(ws);
      AllWordsTail(ws[1..]);
      JoinWellSpaced(ws[1..]);
      JoinHead(ws[1..]);
      JoinCons(ws[0], Join(ws[1..]));
    }
  }

  /** A word, a space and well-spaced text starting with a non-space form
      well-spaced text. */
  lemma JoinCons(a: string, b: string)
    requires IsWord(a) && WellSpaced(b) && b != [] && !IsSpace(b[0])
    ensures WellSpaced(a + " " + b)
  {
    var t := a + " " + b;
    forall i | 0 <= i < |t| && IsSpace(t[i])
      ensures t[i] == ' ' && 0 < i < |t| - 1 && !IsSpace(t[i - 1]) && !IsSpace(t[i + 1])
    {
      if i == |a| {
        assert t[i - 1] == a[|a| - 1] && t[i + 1] == b[0];
      } else {
        var j := i - |a| - 1;
        assert t[i] == b[j] && t[i - 1] == b[j - 1] && t[i + 1] == b[j + 1];
      }
    }
  }

  /** Splitting from inside the second part of `x + y` only sees `y`. */
  lemma {:induction false} WordsShift(x: string, y: string, j: nat)
    requires j <= |y|
    ensures WordsFrom(x + y, |x| + j) == WordsFrom(y, j)
    decreases |y| - j, 1
  {
    if j < |y| {
      if IsSpace(y[j]) {
        WordsShiftSpace(x, y, j);
      } else {
        WordsShiftWord(x, y, j);
      }
    }
  }

  lemma {:induction false} WordsShiftSpace(x: string, y: string, j: nat)
    requires j < |y| && IsSpace(y[j])
    ensures WordsFrom(x + y, |x| + j) == WordsFrom(y, j)
    decreases |y| - j, 0
  {
    var t := x + y;
    assert t[|x| + j] == y[j];
    WordsFromSpace(t, |x| + j);
    WordsFromSpace(y, j);
    WordsShift(x, y, j + 1);
  }

  lemma {:induction false} WordsShiftWord(x: string, y: string, j: nat)
    requires j < |y| && !IsSpace(y[j])
    ensures WordsFrom(x + y, |x| + j) == WordsFrom(y, j)
    decreases |y| - j, 0
  {
    var t := x + y;
    var n := RunEnd(y, j, NotSpace);
    RunEndShift(x, y, j, n);
    WordsFromWord(t, |x| + j, |x| + n);
    WordsFromWord(y, j, n);
    WordsShift(x, y, n);
  }

  lemma RunEndShift(x: string, y: string, j: nat, n: nat)
    requires j < |y| && !IsSpace(y[j]) && n == RunEnd(y, j, NotSpace)
    ensures (x + y)[|x| + j] == y[j]
    ensures RunEnd(x + y, |x| + j, NotSpace) == |x| + n
    ensures (x + y)[|x| + j..|x| + n] == y[j..n]
  {
    var t := x + y;
    RunEndIs(t, |x| + j, NotSpace, |x| + n) by {
      assert forall m :: |x| + j <= m < |t| ==> t[m] == y[m - |x|];
    }
  }

  /** Splitting joined words gives the words back. */
  lemma {:induction false} WordsJoin(ws: seq<string>)
    requires AllWords(ws)
    ensures Words(Join(ws)) == ws
    decreases |ws|, 1
  {
    if |ws| == 1 {
      var a := ws[0];
      AllWordsTail(ws);
      RunEndIs(a, 0, NotSpace, |a|);
      WordsFromWord(a, 0, |a|);
      assert a[0..|a|] == a;
    } else if |ws| > 1 {
      WordsJoinCons(ws);
    }
  }

  lemma {:induction false} WordsJoinCons(ws: seq<string>)
    requires AllWords(ws) && |ws| > 1
    ensures Words(Join(ws)) == ws
    decreases |ws|, 0
  {
    AllWordsTail(ws);
    assert Join(ws) == ws[0] + (" " + Join(ws[1..]));
    WordsLead(ws[0], Join(ws[1..]));
    WordsJoin(ws[1..]);
    assert ws == [ws[0]] + ws[1..];
  }

  /** A word followed by a space is split off as the first field. */
  lemma WordsLead(a: string, b: string)
    requires IsWord(a)
    ensures Words(a + (" " + b)) == [a] + Words(b)
  {
    var t := a + (" " + b);
    RunEndIs(t, 0, NotSpace, |a|) by {
      assert forall m :: 0 <= m < |a| ==> t[m] == a[m];
      assert t[|a|] == ' ';
    }
    WordsFromWord(t, 0, |a|);
    assert t[0..|a|] == a;
    WordsShift(a, " " + b, 0);
    WordsFromSpace(" " + b, 0);
    WordsShift(" ", b, 0);
  }

  /** From the start of a word of well-spaced text, splitting and joining
      gives the rest of the text back. */
  lemma {:induction false} WellSpacedFixedFrom(t: string, i: nat)
    requires WellSpaced(t)
    requires i <= |t| && (i < |t| ==> !IsSpace(t[i]))
    ensures Join(WordsFrom(t, i)) == t[i..]
    decreases |t| - i
  {
    if i < |t| {
      var n := RunEnd(t, i, NotSpace);
      WordsFromWord(t, i, n);
      if n == |t| {
        assert WordsFrom(t, n) == [];
        assert t[i..n] == t[i..];
      } else {
        assert t[n] == ' ' && n + 1 < |t| && !IsSpace(t[n + 1]);
        WordsFromSpace(t, n);
        WellSpacedFixedFrom(t, n + 1);
        WordsFromWord(t, n + 1, RunEnd(t, n + 1, NotSpace));
        WellSpacedStep(t, i, n, WordsFrom(t, n + 1));
      }
    }
  }

  lemma WellSpacedStep(t: string, i: nat, n: nat, rest: seq<string>)
    requires i < n < |t| && t[n] == ' '
    requires rest != [] && Join(rest) == t[n + 1..]
    ensures Join([t[i..n]] + rest) == t[i..]
  {
    var ws := [t[i..n]] + rest;
    assert ws[1..] == rest;
    assert t[i..] == t[i..n] + " " + t[n + 1..];
  }

  lemma WellSpacedFixed(t: string)
    requires WellSpaced(t)
    ensures Join(Words(t)) == t
  {
    WellSpacedFixedFrom(t, 0);
  }

  /** Text is well spaced exactly when joining its words gives it back. */
  lemma NormalForm(t: string)
    ensures Join(Words(t)) == t <==> WellSpaced(t)
  {
    WordsAreWords(t, 0);
    JoinWellSpaced(Words(t));
    if WellSpaced(t) {
      WellSpacedFixed(t);
    }
  }

  /** Splitting loses only whitespace: the fields, concatenated, are the text
      with its whitespace deleted. */
  lemma {:induction false} WordsConcat(s: string, i: nat)
    requires i <= |s|
    ensures Concat(WordsFrom(s, i)) == RemoveWhere(s[i..], IsSpace)
    decreases |s| - i
  {
    if i < |s| {
      if IsSpace(s[i]) {
        WordsFromSpace(s, i);
        WordsConcat(s, i + 1);
        assert s[i..][1..] == s[i + 1..];
      } else {
        var n := RunEnd(s, i, NotSpace);
        WordsFromWord(s, i, n);
        WordsConcat(s, n);
        WordConcatStep(s, i, n, WordsFrom(s, n));
      }
    }
  }

  lemma WordConcatStep(s: string, i: nat, n: nat, rest: seq<string>)
    requires i < n <= |s|
    requires forall m :: i <= m < n ==> !IsSpace(s[m])
    requires Concat(rest) == RemoveWhere(s[n..], IsSpace)
    ensures Concat([s[i..n]] + rest) == RemoveWhere(s[i..], IsSpace)
  {
    var w := s[i..n];
    assert ([w] + rest)[1..] == rest;
    RemoveWhereIdentity(w, IsSpace) by {
      assert forall m :: 0 <= m < |w| ==> w[m] == s[i + m];
    }
    assert s[i..] == w + s[n..];
    RemoveWhereAppend(w, s[n..], IsSpace);
  }

  /** Joining adds only spaces. */
  lemma {:induction false} JoinConcat(ws: seq<string>)
    requires AllWords(ws)
    ensures RemoveWhere(Join(ws), IsSpace) == Concat(ws)
    decreases |ws|
  {
    if ws != [] {
      AllWordsTail(ws);
      RemoveWhereIdentity(ws[0], IsSpace);
      if |ws| == 1 {
        assert Concat(ws[1..]) == [];
      } else {
        JoinConcat(ws[1..]);
        JoinConcatStep(ws[0], Join(ws[1..]));
      }
    }
  }

  lemma JoinConcatStep(a: string, b: string)
    ensures RemoveWhere(a + " " + b, IsSpace) == RemoveWhere(a, IsSpace) + RemoveWhere(b, IsSpace)
  {
    RemoveWhereAppend(a, " ", IsSpace);
    RemoveWhereAppend(a + " ", b, IsSpace);
    assert RemoveWhere(" ", IsSpace) == [];
  }

  /** Normalisation keeps every non-whitespace character other than U+FE0F,
      in order, and adds nothing but single spaces. */
  lemma NormalizeKeeps(s: string)
    ensures RemoveWhere(Normalize(s), IsSpace) == RemoveWhere(ReplaceAll(s, [VariationSelector16], []), IsSpace)
    ensures WellSpaced(Normalize(s))
    ensures VariationSelector16 !in Normalize(s)
  {
    var d := ReplaceAll(s, [VariationSelector16], []);
    WordsAreWords(d, 0);
    JoinConcat(Words(d));
    WordsConcat(d, 0);
    assert d[0..] == d;
    JoinWellSpaced(Words(d));
    ReplaceAllDeletes(s, VariationSelector16);
    RemoveWhereChars(Normalize(s), IsSpace);
    RemoveWhereChars(d, IsSpace);
    assert !IsSpace(VariationSelector16);
  }

  /** Normalising twice is normalising once. */
  lemma NormalizeIdempotent(s: string)
    ensures Normalize(Normalize(s)) == Normalize(s)
  {
    var t := Normalize(s);
    NormalizeKeeps(s);
    forall i | 0 <= i < |t| ensures !([VariationSelector16] <= t[i..]) {
      assert t[i..][0] == t[i];
    }
    ReplaceAllIdentity(t, [VariationSelector16], []);
    WellSpacedFixed(t);
  }

  /** Whitespace from `i` to `j` is skipped. */
  lemma {:induction false} WordsSkip(s: string, i: nat, j: nat)
    requires i <= j <= |s|
    requires forall m :: i <= m < j ==> IsSpace(s[m])
    ensures WordsFrom(s, i) == WordsFrom(s, j)
    decreases j - i
  {
    if i < j {
      WordsFromSpace(s, i);
      WordsSkip(s, i + 1, j);
    }
  }

  /** One word framed by whitespace normalises to the word itself. */
  lemma NormalizeFramed(x: string, w: string, y: string)
    requires forall i :: 0 <= i < |x| ==> IsSpace(x[i])
    requires forall i :: 0 <= i < |y| ==> IsSpace(y[i])
    requires IsWord(w) && VariationSelector16 !in w
    ensures Normalize(x + w + y) == w
  {
    var s := x + w + y;
    var a, b := |x|, |x| + |w|;
    assert forall m :: 0 <= m < a ==> s[m] == x[m];
    assert forall m :: a <= m < b ==> s[m] == w[m - a];
    assert forall m :: b <= m < |s| ==> s[m] == y[m - b];
    forall i | 0 <= i < |s| ensures !([VariationSelector16] <= s[i..]) {
      assert s[i..][0] == s[i];
      if a <= i < b {
        assert w[i - a] in w;
      }
    }
    ReplaceAllIdentity(s, [VariationSelector16], []);
    WordsSkip(s, 0, a);
    RunEndIs(s, a, NotSpace, b);
    WordsFromWord(s, a, b);
    assert s[a..b] == w;
    WordsSkip(s, b, |s|);
  }
}
