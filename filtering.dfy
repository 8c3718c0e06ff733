/**
 * The final character filter: every character outside the allowed class (and,
 * when emojis are kept, outside the emoji characters) becomes a space.
 */
module Filtering {
  import opened CharClasses
  import opened Scan

  /** Membership in the class the filter keeps: `chars_regex` plus the emoji
      characters when emojis are kept, `rejected_chars_regex`'s class otherwise. */
  predicate Accepted(c: char, keepEmojis: bool, emojis: set<char>) {
    if keepEmojis then InCharsClass(c) || c in emojis else IsAllowed(c)
  }

  /** `re.sub("[^class]", " ", s)`: one character at a time, since the
      negated class matches exactly one character. */
  function Filter(s: string, keepEmojis: bool, emojis: set<char>): (r: string)
    ensures |r| == |s|
    decreases |s|
  {
    if s == [] then []
    else if Accepted(s[0], keepEmojis, emojis) then [s[0]] + Filter(s[1..], keepEmojis, emojis)
    else " " + Filter(s[1..], keepEmojis, emojis)
  }

  /** Position by position, an accepted character is kept and any other
      becomes a space. */
  lemma {:induction false} FilterAt(s: string, keepEmojis: bool, emojis: set<char>)
    ensures forall i :: 0 <= i < |s| ==>
      Filter(s, keepEmojis, emojis)[i] == if Accepted(s[i], keepEmojis, emojis) then s[i] else ' '
    decreases |s|
  {
    if s != [] {
      var r, t := Filter(s, keepEmojis, emojis), Filter(s[1..], keepEmojis, emojis);
      FilterAt(s[1..], keepEmojis, emojis);
      assert r[1..] == t;
      forall i | 0 < i < |s|
        ensures r[i] == if Accepted(s[i], keepEmojis, emojis) then s[i] else ' '
      {
        assert r[i] == t[i - 1];
        assert s[i] == s[1..][i - 1];
      }
    }
  }

  /** Everything the filter writes is accepted. */
  lemma FilterAccepted(s: string, keepEmojis: bool, emojis: set<char>)
    ensures forall c :: c in Filter(s, keepEmojis, emojis) ==> Accepted(c, keepEmojis, emojis)
  {
    var r := Filter(s, keepEmojis, emojis);
    FilterAt(s, keepEmojis, emojis);
    forall c | c in r ensures Accepted(c, keepEmojis, emojis) {
      var i :| 0 <= i < |r| && r[i] == c;
      assert IsSpace(' ');
    }
  }

  /** Text made only of accepted characters is left as it is; in particular
      the filter is idempotent. */
  lemma FilterIdentity(s: string, keepEmojis: bool, emojis: set<char>)
    requires forall i :: 0 <= i < |s| ==> Accepted(s[i], keepEmojis, emojis)
    ensures Filter(s, keepEmojis, emojis) == s
  {
    FilterAt(s, keepEmojis, emojis);
  }

  lemma FilterIdempotent(s: string, keepEmojis: bool, emojis: set<char>)
    ensures Filter(Filter(s, keepEmojis, emojis), keepEmojis, emojis) == Filter(s, keepEmojis, emojis)
  {
    var r := Filter(s, keepEmojis, emojis);
    FilterAccepted(s, keepEmojis, emojis);
    assert forall i :: 0 <= i < |r| ==> r[i] in r;
    FilterIdentity(r, keepEmojis, emojis);
  }

  /** Keeping emojis with an empty emoji table filters exactly as not keeping
      them, although the two branches spell the class differently. */
  lemma FilterNoEmojis(s: string)
    ensures Filter(s, true, {}) == Filter(s, false, {})
  {
    FilterAt(s, true, {});
    FilterAt(s, false, {});
    forall i | 0 <= i < |s| ensures Accepted(s[i], true, {}) == Accepted(s[i], false, {}) {
      ClassesAgree(s[i]);
    }
  }

  /** The filter keeps a space right before every `c`: it writes each `c` it
      keeps where that `c` was, and a space stays a space. */
  lemma FilterSpaceBefore(s: string, keepEmojis: bool, emojis: set<char>, c: char)
    requires c != ' '
    requires SpaceBefore(s, c)
    ensures SpaceBefore(Filter(s, keepEmojis, emojis), c)
  {
    FilterAt(s, keepEmojis, emojis);
  }
}
