/**
 * Removal of HTML markup: the literal line break `<br />`, then every
 * construct matched by `</?[^>]+>`, each replaced by one space.
 */
module Markup {
  import opened Scan

  const LineBreak: string := "<br />"

  predicate NotGt(c: char) {
    c != '>'
  }

  /** A tag-shaped string: `<`, one or more characters other than `>`, then `>`.
      This is exactly the language of `</?[^>]+>`, since `/` is itself a
      character other than `>`. */
  ghost predicate IsTag(t: string) {
    |t| >= 3 && t[0] == '<' && t[|t| - 1] == '>' && forall i :: 1 <= i < |t| - 1 ==> t[i] != '>'
  }

  /** Length of the match of `</?[^>]+>` at the start of `s`, or 0 when the
      pattern does not match there. `[^>]+` is greedy and cannot pass a `>`, so
      a match always ends at the first `>`. */
  function TagLength(s: string): (n: nat)
    ensures n <= |s|
    ensures n > 0 ==> IsTag(s[..n])
    ensures n == 0 ==> forall k :: 0 < k <= |s| ==> !IsTag(s[..k])
  {
    if |s| > 0 && s[0] == '<' then
      var e := RunEnd(s, 1, NotGt);
      if 2 <= e < |s| then e + 1 else 0
    else 0
  }

  /** `re.sub("</?[^>]+>", " ", s)`. */
  function RemoveTags(s: string): (r: string)
    ensures forall c :: c in r ==> c in s || c == ' '
    ensures |s| > 0 ==> |r| > 0 && (r[0] == ' ' || r[0] == s[0])
    decreases |s|
  {
    if s == [] then []
    else
      var n := TagLength(s);
      if n > 0 then " " + RemoveTags(s[n..])
      else [s[0]] + RemoveTags(s[1..])
  }

  /** The markup stage: line breaks first, then all remaining tags. */
  function RemoveMarkup(s: string): string {
    RemoveTags(ReplaceAll(s, LineBreak, " "))
  }

  /** No substring of `t` is tag-shaped. */
  ghost predicate TagFree(t: string) {
    forall i, k :: 0 <= i < k <= |t| ==> !IsTag(t[i..k])
  }

  /** A string starting with a character that is not `<` has no tag at its start. */
  lemma NoTagAtStart(t: string)
    requires |t| > 0 && t[0] != '<'
    ensures forall k :: 0 < k <= |t| ==> !IsTag(t[..k])
  {
  }

  lemma {:induction false} TagFreeCons(x: char, r: string)
    requires TagFree(r)
    requires forall k :: 0 < k <= |[x] + r| ==> !IsTag(([x] + r)[..k])
    ensures TagFree([x] + r)
  {
    var t := [x] + r;
    forall i, k | 0 <= i < k <= |t| ensures !IsTag(t[i..k]) {
      if i == 0 {
        assert t[i..k] == t[..k];
      } else {
        assert t[i..k] == r[i - 1..k - 1];
      }
    }
  }

  /** After tag removal no tag-shaped substring is left: a `<` that was copied
      had no `>` after it or was followed directly by `>`, and both facts
      survive in the output. */
  lemma {:induction false} RemoveTagsTagFree(s: string)
    ensures TagFree(RemoveTags(s))
    decreases |s|
  {
    if s != [] {
      var n := TagLength(s);
      if n > 0 {
        RemoveTagsTagFree(s[n..]);
        TagFreeCons(' ', RemoveTags(s[n..]));
      } else {
        var r := RemoveTags(s[1..]);
        RemoveTagsTagFree(s[1..]);
        var t := [s[0]] + r;
        assert RemoveTags(s) == t;
        if s[0] == '<' {
          var e := RunEnd(s, 1, NotGt);
          assert e == 1 || e == |s|;
          if e == 1 && |s| > 1 {
            // `<` directly followed by `>`
            assert s[1] == '>';
            assert r[0] == '>' by { assert TagLength(s[1..]) == 0; }
            forall j | 0 < j <= |t| ensures !IsTag(t[..j]) {
              if j >= 3 { assert t[..j][1] == '>'; }
            }
          } else {
            // no `>` anywhere after the `<`
            assert '>' !in s[1..] by {
              forall i | 0 <= i < |s[1..]| ensures s[1..][i] != '>' {
                assert s[1..][i] == s[i + 1];
              }
            }
            assert '>' !in r;
            forall j | 0 < j <= |t| ensures !IsTag(t[..j]) {
              if j >= 3 { assert t[..j][j - 1] == r[j - 2]; }
            }
          }
        } else {
          NoTagAtStart(t);
        }
        TagFreeCons(s[0], r);
      }
    }
  }

  lemma TagFreeStart(t: string)
    requires TagFree(t)
    ensures forall k :: 0 < k <= |t| ==> !IsTag(t[..k])
  {
    forall k | 0 < k <= |t| ensures !IsTag(t[..k]) {
      assert t[0..k] == t[..k];
    }
  }

  /** Text without tags passes through tag removal unchanged. */
  lemma {:induction false} RemoveTagsIdentity(t: string)
    requires TagFree(t)
    ensures RemoveTags(t) == t
    decreases |t|
  {
    if t != [] {
      var n := TagLength(t);
      TagFreeStart(t);
      assert TagFree(t[1..]) by {
        forall i, k | 0 <= i < k <= |t[1..]| ensures !IsTag(t[1..][i..k]) {
          assert t[1..][i..k] == t[i + 1..k + 1];
        }
      }
      RemoveTagsIdentity(t[1..]);
    }
  }

  /** The markup stage leaves no tag-shaped substring, and running it again
      changes nothing. */
  lemma RemoveMarkupTagFree(s: string)
    ensures TagFree(RemoveMarkup(s))
    ensures RemoveTags(RemoveMarkup(s)) == RemoveMarkup(s)
  {
    RemoveTagsTagFree(ReplaceAll(s, LineBreak, " "));
    RemoveTagsIdentity(RemoveMarkup(s));
  }

  /** Text without `<` holds no tag-shaped substring. */
  lemma NoAngleTagFree(t: string)
    requires '<' !in t
    ensures TagFree(t)
  {
    forall i, k | 0 <= i < k <= |t| ensures !IsTag(t[i..k]) {
      assert t[i..k][0] == t[i] && t[i] in t;
    }
  }

  /** Text without `<` passes the markup stage unchanged. */
  lemma RemoveMarkupIdentity(t: string)
    requires '<' !in t
    ensures RemoveMarkup(t) == t
  {
    LineBreakPlain(t, []);
    assert t + [] == t;
    NoAngleTagFree(t);
    RemoveTagsIdentity(t);
  }

  /** A tag at the front is the match there: `[^>]+` stops at the tag's own `>`. */
  lemma TagLengthTag(t: string, y: string)
    requires IsTag(t)
    ensures TagLength(t + y) == |t|
  {
    var s := t + y;
    assert forall m :: 1 <= m < |t| - 1 ==> s[m] == t[m];
    assert s[|t| - 1] == t[|t| - 1];
    RunEndIs(s, 1, NotGt, |t| - 1);
  }

  /** A tag at the front becomes exactly one space, and the text after it is
      processed on its own. */
  lemma RemoveTagsTag(t: string, y: string)
    requires IsTag(t)
    ensures RemoveTags(t + y) == " " + RemoveTags(y)
  {
    TagLengthTag(t, y);
    assert (t + y)[|t|..] == y;
  }

  /** Text without `<` in front of the rest is copied as it is: no tag can
      start in it. */
  lemma {:induction false} RemoveTagsPlain(x: string, y: string)
    requires '<' !in x
    ensures RemoveTags(x + y) == x + RemoveTags(y)
    decreases |x|
  {
    if x == [] {
      assert x + y == y;
    } else {
      var s := x + y;
      assert x == [x[0]] + x[1..];
      assert s[0] == x[0] && s[1..] == x[1..] + y;
      assert TagLength(s) == 0;
      RemoveTagsPlain(x[1..], y);
    }
  }

  /** A `<` directly followed by `>` starts no tag, since `[^>]+` needs at
      least one character other than `>`: both are copied, and the text after
      them is processed on its own. */
  lemma RemoveTagsEmptyBrackets(e: string, y: string)
    requires |e| == 2 && e[0] == '<' && e[1] == '>'
    ensures RemoveTags(e + y) == e + RemoveTags(y)
  {
    var s, g := e + y, e[1..];
    assert RemoveTags(s) == ['<'] + RemoveTags(g + y) by {
      assert s[0] == '<' && s[1] == '>' && s[1..] == g + y;
      RemoveTagsUnopened(s);
    }
    assert RemoveTags(g + y) == g + RemoveTags(y) by {
      assert g == [e[1]];
      RemoveTagsPlain(g, y);
    }
    assert e == ['<'] + g;
  }

  /** A `<` followed at once by `>` is copied, and removal goes on after it. */
  lemma RemoveTagsUnopened(s: string)
    requires |s| >= 2 && s[0] == '<' && s[1] == '>'
    ensures RemoveTags(s) == ['<'] + RemoveTags(s[1..])
  {
    RunEndIs(s, 1, NotGt, 1);
  }

  /** A line break at the front becomes exactly one space. */
  lemma LineBreakReplaced(y: string)
    ensures ReplaceAll(LineBreak + y, LineBreak, " ") == " " + ReplaceAll(y, LineBreak, " ")
  {
    assert LineBreak <= LineBreak + y;
    assert (LineBreak + y)[|LineBreak|..] == y;
  }

  /** Text without `<` in front of the rest is copied by the line-break
      replacement. */
  lemma LineBreakPlain(x: string, y: string)
    requires '<' !in x
    ensures ReplaceAll(x + y, LineBreak, " ") == x + ReplaceAll(y, LineBreak, " ")
  {
    ReplaceAllPlain(x, y, LineBreak, " ");
  }
}
