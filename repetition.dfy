/**
 * Collapse of repeated characters: `(\D)\1{2,}` replaced by `\1\1`, so every
 * run of three or more copies of a non-digit shrinks to two copies.
 */
module Repetition {
  import opened CharClasses

  /** Length of the maximal run of `s[0]` at the start of `s`. */
  function RunLength(s: string): (n: nat)
    requires |s| > 0
    ensures 1 <= n <= |s|
    ensures forall i :: 0 <= i < n ==> s[i] == s[0]
    ensures n < |s| ==> s[n] != s[0]
  {
    if |s| >= 2 && s[1] == s[0] then 1 + RunLength(s[1..]) else 1
  }

  /** `multiple_char_pattern.sub(r"\1\1", s)`. The pattern can only match at a
      position holding a non-digit followed by at least two more copies of it;
      `\1{2,}` is greedy, so the match covers the whole run. Elsewhere the
      character is copied and the scan moves on by one. */
  function Collapse(s: string): string
    decreases |s|
  {
    if s == [] then []
    else
      var n := RunLength(s);
      if !IsDigit(s[0]) && n >= 3 then [s[0], s[0]] + Collapse(s[n..])
      else [s[0]] + Collapse(s[1..])
  }

  function Repeat(c: char, n: nat): (r: string)
    ensures |r| == n && forall i :: 0 <= i < n ==> r[i] == c
  {
    if n == 0 then [] else [c] + Repeat(c, n - 1)
  }

  /** How many copies of `c` a maximal run of length `n` keeps. */
  function Kept(c: char, n: nat): nat {
    if !IsDigit(c) && n >= 3 then 2 else n
  }

  /** Reference definition, one maximal run at a time: a run of `n` copies of
      `c` becomes `Kept(c, n)` copies. */
  function CollapseByRuns(s: string): (r: string)
    ensures |s| > 0 ==> |r| > 0 && r[0] == s[0]
    decreases |s|
  {
    if s == [] then []
    else
      var n := RunLength(s);
      Repeat(s[0], Kept(s[0], n)) + CollapseByRuns(s[n..])
  }

  /** The scanner and the run-by-run definition agree: every maximal run of
      three or more identical non-digits becomes exactly two copies, and all
      other runs (shorter ones, and runs of digits) are left as they are. */
  lemma {:induction false} CollapseIsByRuns(s: string)
    ensures Collapse(s) == CollapseByRuns(s)
    decreases |s|
  {
    if s != [] {
      var c, n := s[0], RunLength(s);
      if !IsDigit(c) && n >= 3 {
        CollapseIsByRuns(s[n..]);
        assert Repeat(c, 2) == [c, c];
      } else {
        CollapseIsByRuns(s[1..]);
        if n == 1 {
          assert s[1..] == s[n..];
          assert Repeat(c, 1) == [c];
        } else {
          var t := s[1..];
          assert RunLength(t) == n - 1;
          assert t[0] == c;
          assert t[n - 1..] == s[n..];
          assert Kept(c, n - 1) == n - 1;
          assert CollapseByRuns(t) == Repeat(c, n - 1) + CollapseByRuns(s[n..]);
          assert Repeat(c, n) == [c] + Repeat(c, n - 1);
        }
      }
    }
  }

  /** No three consecutive equal characters, except digits. */
  ghost predicate NoLongRuns(t: string) {
    forall i :: 0 <= i < |t| - 2 ==> t[i] == t[i + 1] == t[i + 2] ==> IsDigit(t[i])
  }

  lemma {:induction false} CollapseByRunsNoLongRuns(s: string)
    ensures NoLongRuns(CollapseByRuns(s))
    decreases |s|
  {
    if s != [] {
      var c, n := s[0], RunLength(s);
      var m := Kept(c, n);
      var head, rest := Repeat(c, m), CollapseByRuns(s[n..]);
      CollapseByRunsNoLongRuns(s[n..]);
      var t := head + rest;
      assert rest != [] ==> rest[0] != c;
      forall i | 0 <= i < |t| - 2 && t[i] == t[i + 1] == t[i + 2] ensures IsDigit(t[i]) {
        if i + 2 < m {
          assert m >= 3;
        } else if i >= m {
          assert t[i] == rest[i - m] && t[i + 1] == rest[i - m + 1] && t[i + 2] == rest[i - m + 2];
        }
      }
    }
  }

  /** After the collapse no non-digit occurs three times in a row. */
  lemma CollapseNoLongRuns(s: string)
    ensures NoLongRuns(Collapse(s))
  {
    CollapseIsByRuns(s);
    CollapseByRunsNoLongRuns(s);
  }

  /** Text without long non-digit runs is unchanged by the collapse, so the
      collapse is idempotent. */
  lemma {:induction false} CollapseIdentity(t: string)
    requires NoLongRuns(t)
    ensures Collapse(t) == t
    decreases |t|
  {
    if t != [] {
      var n := RunLength(t);
      assert |t| >= 3 ==> t[0] == t[1] == t[2] ==> IsDigit(t[0]);
      assert IsDigit(t[0]) || n < 3;
      assert NoLongRuns(t[1..]) by {
        forall i | 0 <= i < |t[1..]| - 2 && t[1..][i] == t[1..][i + 1] == t[1..][i + 2]
          ensures IsDigit(t[1..][i])
        {
          assert t[i + 1] == t[i + 2] == t[i + 3];
        }
      }
      CollapseIdentity(t[1..]);
    }
  }

  lemma CollapseIdempotent(s: string)
    ensures Collapse(Collapse(s)) == Collapse(s)
  {
    CollapseNoLongRuns(s);
    CollapseIdentity(Collapse(s));
  }
}
