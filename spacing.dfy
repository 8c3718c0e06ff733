/**
 * Padding of punctuation with spaces, and the repair pass that glues the three
 * placeholder tokens back together afterwards.
 */
module Spacing {
  import opened CharClasses
  import opened Scan

  /** The three placeholders written in place of URLs, e-mail addresses and
      @-mentions. */
  datatype Placeholder = Url | Email | Mention

  /** The Arabic word of each placeholder: "link", "mail" and "user". */
  function Word(p: Placeholder): string {
    match p
    case Url => "\U{0631}\U{0627}\U{0628}\U{0637}"
    case Email => "\U{0628}\U{0631}\U{064A}\U{062F}"
    case Mention => "\U{0645}\U{0633}\U{062A}\U{062E}\U{062F}\U{0645}"
  }

  /** The unbroken token, for instance `[رابط]`. */
  function Compact(p: Placeholder): string {
    "[" + Word(p) + "]"
  }

  /** What the substitution stage writes: the token with a space on each side. */
  function Token(p: Placeholder): string {
    " " + Compact(p) + " "
  }

  /** The token as padding leaves it, for instance `[ رابط ]`. */
  function Broken(p: Placeholder): string {
    "[ " + Word(p) + " ]"
  }

  /** One character after `re.sub(r"([^0-9...a-zA-Z ])", r" \1 ", ...)`. */
  function PadChar(c: char): string {
    if IsPadExempt(c) then [c] else [' ', c, ' ']
  }

  /** The padding pass: every character outside the exempt class gets a space
      on each side. */
  function Pad(s: string): string {
    if s == [] then [] else PadChar(s[0]) + Pad(s[1..])
  }

  /** The three `str.replace` calls that undo padding inside the placeholders,
      in the order of the source. */
  function Repair(s: string): string {
    var s1 := ReplaceAll(s, Broken(Url), Compact(Url));
    var s2 := ReplaceAll(s1, Broken(Email), Compact(Email));
    ReplaceAll(s2, Broken(Mention), Compact(Mention))
  }

  function PadAndRepair(s: string): string {
    Repair(Pad(s))
  }

  lemma {:induction false} PadAppend(x: string, y: string)
    ensures Pad(x + y) == Pad(x) + Pad(y)
  {
    if x == [] {
      assert x + y == y;
    } else {
      assert (x + y)[0] == x[0];
      assert (x + y)[1..] == x[1..] + y;
      PadAppend(x[1..], y);
    }
  }

  /** In padded text every character outside the exempt class stands between
      two spaces. */
  lemma {:induction false} PadSurrounds(s: string)
    ensures forall i :: 0 <= i < |Pad(s)| && !IsPadExempt(Pad(s)[i]) ==>
      0 < i < |Pad(s)| - 1 && Pad(s)[i - 1] == ' ' && Pad(s)[i + 1] == ' '
  {
    if s != [] {
      PadSurrounds(s[1..]);
      var h, r := PadChar(s[0]), Pad(s[1..]);
      assert Pad(s) == h + r;
      forall i | 0 <= i < |h + r| && !IsPadExempt((h + r)[i])
        ensures 0 < i < |h + r| - 1 && (h + r)[i - 1] == ' ' && (h + r)[i + 1] == ' '
      {
        if i >= |h| {
          assert (h + r)[i] == r[i - |h|];
          assert (h + r)[i - 1] == r[i - 1 - |h|];
          assert (h + r)[i + 1] == r[i + 1 - |h|];
        }
      }
    }
  }

  /** Padding only inserts spaces: deleting the spaces from the padded text
      gives the input with its spaces deleted. */
  lemma {:induction false} PadOnlyAddsSpaces(s: string)
    ensures RemoveWhere(Pad(s), IsBlank) == RemoveWhere(s, IsBlank)
  {
    if s != [] {
      var c := s[0];
      if !IsPadExempt(c) {
        assert c != ' ';
        var t := PadChar(c);
        assert t[1..] == [c, ' '] && t[1..][1..] == [' '] && t[1..][1..][1..] == [];
        assert RemoveWhere(t[1..][1..], IsBlank) == [];
        assert RemoveWhere(t[1..], IsBlank) == [c];
        assert RemoveWhere(t, IsBlank) == [c];
      }
      PadOnlyAddsSpaces(s[1..]);
      RemoveWhereAppend(PadChar(s[0]), Pad(s[1..]), IsBlank);
      RemoveWhereAppend([s[0]], s[1..], IsBlank);
      assert s == [s[0]] + s[1..];
    }
  }

  lemma PadSingle(c: char)
    ensures Pad([c]) == PadChar(c)
  {
    assert [c][1..] == [];
  }

  lemma {:induction false} PadExemptIdentity(w: string)
    requires forall i :: 0 <= i < |w| ==> IsPadExempt(w[i])
    ensures Pad(w) == w
  {
    if w != [] {
      PadExemptIdentity(w[1..]);
    }
  }

  lemma WordExempt(p: Placeholder)
    ensures forall i :: 0 <= i < |Word(p)| ==> IsPadExempt(Word(p)[i]) && Word(p)[i] != '[' && Word(p)[i] != ' '
  {
  }

  lemma PadBracketed(w: string)
    requires Pad(w) == w
    ensures Pad(" [" + w + "] ") == "  [ " + w + " ]  "
  {
    var open, close := [' ', '['], [']', ' '];
    calc {
      Pad(" [" + w + "] ");
    == { assert " [" + w + "] " == open + (w + close); }
      Pad(open + (w + close));
    == { PadAppend(open, w + close); PadAppend(w, close); }
      Pad(open) + (w + Pad(close));
    == { PadAppend([' '], ['[']); PadSingle(' '); PadSingle('['); assert open == [' '] + ['[']; }
      "  [ " + (w + Pad(close));
    == { PadAppend([']'], [' ']); PadSingle(']'); PadSingle(' '); assert close == [']'] + [' ']; }
      "  [ " + (w + " ]  ");
    }
  }

  /** Padding breaks a placeholder token apart: `" [رابط] "` becomes
      two spaces, `[ رابط ]`, two spaces. */
  lemma PadToken(p: Placeholder)
    ensures Pad(Token(p)) == "  " + Broken(p) + "  "
  {
    var w := Word(p);
    calc {
      Pad(Token(p));
    == { assert Token(p) == " [" + w + "] "; }
      Pad(" [" + w + "] ");
    == { WordExempt(p); PadExemptIdentity(w); PadBracketed(w); }
      "  [ " + w + " ]  ";
    ==
      "  " + Broken(p) + "  ";
    }
  }

  /** The shape of the three broken tokens that makes them immune to spaces
      around them: they neither start nor end with a space and hold no two
      spaces in a row. */
  ghost predicate SpaceGuarded(pat: string) {
    |pat| > 0 && pat[0] != ' ' && pat[|pat| - 1] != ' ' &&
    forall j :: 0 <= j < |pat| - 1 ==> !(pat[j] == ' ' && pat[j + 1] == ' ')
  }

  lemma BrokenGuarded(p: Placeholder)
    ensures SpaceGuarded(Broken(p))
  {
    var b, w := Broken(p), Word(p);
    WordExempt(p);
    forall j | 0 <= j < |b| - 1 ensures !(b[j] == ' ' && b[j + 1] == ' ') {
      if 1 <= j < |b| - 3 {
        assert b[j + 1] == w[j - 1];
      }
    }
  }

  /** Two spaces right after a boundary keep a guarded pattern from straddling it. */
  lemma SpacesAfterBoundary(x: string, y: string, pat: string)
    requires SpaceGuarded(pat)
    requires |y| >= 2 && y[0] == ' ' && y[1] == ' '
    ensures NoStraddle(x, y, pat)
  {
    forall i | 0 <= i < |x| < i + |pat| ensures !(pat <= (x + y)[i..]) {
      var s := (x + y)[i..];
      var j := |x| - i;
      assert s[j] == ' ';
      if j + 1 < |pat| {
        assert s[j + 1] == ' ';
        assert !(pat[j] == ' ' && pat[j + 1] == ' ');
      }
    }
  }

  lemma SpacesPrefix(y: string, pat: string, rep: string)
    requires SpaceGuarded(pat)
    ensures ReplaceAll("  " + y, pat, rep) == "  " + ReplaceAll(y, pat, rep)
  {
    var s := "  " + y;
    assert !(pat <= s);
    assert s[1..] == " " + y;
    assert !(pat <= s[1..]);
    assert s[1..][1..] == y;
  }

  /** A guarded pattern is replaced independently on each side of a block
      framed by two spaces on the left and two on the right. */
  lemma ReplaceAround(u: string, m: string, v: string, pat: string, rep: string)
    requires SpaceGuarded(pat)
    ensures ReplaceAll(u + "  " + m + "  " + v, pat, rep) ==
      ReplaceAll(u, pat, rep) + "  " + ReplaceAll(m, pat, rep) + "  " + ReplaceAll(v, pat, rep)
  {
    var tail2 := "  " + v;
    var mid := m + tail2;
    var tail := "  " + mid;
    assert u + "  " + m + "  " + v == u + tail;
    calc {
      ReplaceAll(u + tail, pat, rep);
    == { SpacesAfterBoundary(u, tail, pat); ReplaceAllSplit(u, tail, pat, rep); }
      ReplaceAll(u, pat, rep) + ReplaceAll(tail, pat, rep);
    == { SpacesPrefix(mid, pat, rep); }
      ReplaceAll(u, pat, rep) + ("  " + ReplaceAll(mid, pat, rep));
    == { SpacesAfterBoundary(m, tail2, pat); ReplaceAllSplit(m, tail2, pat, rep); }
      ReplaceAll(u, pat, rep) + ("  " + (ReplaceAll(m, pat, rep) + ReplaceAll(tail2, pat, rep)));
    == { SpacesPrefix(v, pat, rep); }
      ReplaceAll(u, pat, rep) + ("  " + (ReplaceAll(m, pat, rep) + ("  " + ReplaceAll(v, pat, rep))));
    }
  }

  /** A pattern starting with `[` that does not match at the start of a text
      whose only `[` is its first character is replaced nowhere in it. */
  lemma BracketIdentity(s: string, pat: string, rep: string)
    requires |pat| > 0 && pat[0] == '['
    requires forall i :: 1 <= i < |s| ==> s[i] != '['
    requires !(pat <= s)
    ensures ReplaceAll(s, pat, rep) == s
  {
    forall i | 0 <= i < |s| ensures !(pat <= s[i..]) {
      if i == 0 {
        assert s[i..] == s;
      } else {
        assert s[i..][0] == s[i];
      }
    }
    ReplaceAllIdentity(s, pat, rep);
  }

  lemma CompactUntouched(p: Placeholder, q: Placeholder)
    ensures ReplaceAll(Compact(q), Broken(p), Compact(p)) == Compact(q)
  {
    WordExempt(q);
    var c, b := Compact(q), Broken(p);
    assert c[1] == Word(q)[0];
    assert !(b <= c) by { assert b[1] == ' '; }
    forall i | 1 <= i < |c| ensures c[i] != '[' {
      if i < |c| - 1 { assert c[i] == Word(q)[i - 1]; }
    }
    BracketIdentity(c, b, Compact(p));
  }

  lemma BrokenUntouched(p: Placeholder, q: Placeholder)
    requires p != q
    ensures ReplaceAll(Broken(q), Broken(p), Compact(p)) == Broken(q)
  {
    WordExempt(q);
    var c, b := Broken(q), Broken(p);
    assert c[2] == Word(q)[0] && b[2] == Word(p)[0];
    assert Word(q)[0] != Word(p)[0];
    forall i | 1 <= i < |c| ensures c[i] != '[' {
      if 2 <= i < |c| - 2 { assert c[i] == Word(q)[i - 2]; }
    }
    BracketIdentity(c, b, Compact(p));
  }

  lemma ReplaceSelf(p: Placeholder)
    ensures ReplaceAll(Broken(p), Broken(p), Compact(p)) == Compact(p)
  {
    var b := Broken(p);
    assert b[|b|..] == [];
  }

  /** The repair pass turns a broken token back into the unbroken one. */
  lemma RepairBroken(p: Placeholder)
    ensures Repair(Broken(p)) == Compact(p)
  {
    match p
    case Url =>
      ReplaceSelf(Url);
      CompactUntouched(Email, Url);
      CompactUntouched(Mention, Url);
    case Email =>
      BrokenUntouched(Url, Email);
      ReplaceSelf(Email);
      CompactUntouched(Mention, Email);
    case Mention =>
      BrokenUntouched(Url, Mention);
      BrokenUntouched(Email, Mention);
      ReplaceSelf(Mention);
  }

  /** Whatever surrounds it, a placeholder token written by the substitution
      stage comes out of padding and repair as the unbroken token framed by
      two spaces on each side, and the text around it is padded and repaired
      as if the token were not there. */
  lemma PlaceholderSurvives(p: Placeholder, a: string, b: string)
    ensures PadAndRepair(a + Token(p) + b) == PadAndRepair(a) + " " + Token(p) + " " + PadAndRepair(b)
  {
    PadAppend(a, Token(p));
    PadAppend(a + Token(p), b);
    RepairPadded(p, Pad(a), Pad(b));
  }

  /** A placeholder on its own comes out of padding and repair with one more
      space on each side. */
  lemma PadAndRepairToken(p: Placeholder)
    ensures PadAndRepair(Token(p)) == " " + Token(p) + " "
  {
    var b, w := Broken(p), Compact(p);
    PadToken(p);
    assert "  " + b + "  " == " " + (" " + b + " ") + " ";
    RepairInsideSpaces(" " + b + " ");
    RepairInsideSpaces(b);
    RepairBroken(p);
    assert Token(p) == " " + w + " ";
  }

  /** Repair around a padded placeholder: the placeholder is restored and each
      side is repaired on its own. */
  lemma RepairPadded(p: Placeholder, u: string, v: string)
    ensures Repair(u + Pad(Token(p)) + v) == Repair(u) + " " + Token(p) + " " + Repair(v)
  {
    var m := Broken(p);
    PadToken(p);
    assert u + ("  " + m + "  ") + v == u + "  " + m + "  " + v;
    RepairAround(u, m, v);
    RepairBroken(p);
    Reframe(Repair(u), Compact(p), Repair(v));
  }

  /** Two spaces on each side of `c` are one space on each side of the token
      ` c `. */
  lemma Reframe(x: string, c: string, y: string)
    ensures x + "  " + c + "  " + y == x + " " + (" " + c + " ") + " " + y
  {
    assert "  " == " " + " ";
  }

  /** The repair pass works independently on each side of a block framed by
      two spaces on the left and two on the right. */
  lemma RepairAround(u: string, m: string, v: string)
    ensures Repair(u + "  " + m + "  " + v) == Repair(u) + "  " + Repair(m) + "  " + Repair(v)
  {
    BrokenGuarded(Url);
    BrokenGuarded(Email);
    BrokenGuarded(Mention);
    var u1, m1, v1 := ReplaceAll(u, Broken(Url), Compact(Url)), ReplaceAll(m, Broken(Url), Compact(Url)), ReplaceAll(v, Broken(Url), Compact(Url));
    var u2, m2, v2 := ReplaceAll(u1, Broken(Email), Compact(Email)), ReplaceAll(m1, Broken(Email), Compact(Email)), ReplaceAll(v1, Broken(Email), Compact(Email));
    ReplaceAround(u, m, v, Broken(Url), Compact(Url));
    ReplaceAround(u1, m1, v1, Broken(Email), Compact(Email));
    ReplaceAround(u2, m2, v2, Broken(Mention), Compact(Mention));
  }

  /** The repair pass deletes spaces and changes nothing else. */
  lemma RepairOnlyRemovesSpaces(s: string)
    ensures RemoveWhere(Repair(s), IsBlank) == RemoveWhere(s, IsBlank)
  {
    forall p: Placeholder ensures RemoveWhere(Broken(p), IsBlank) == RemoveWhere(Compact(p), IsBlank) {
      var w := Word(p);
      WordExempt(p);
      RemoveWhereIdentity(w, IsBlank);
      RemoveWhereAppend("[ " + w, " ]", IsBlank);
      RemoveWhereAppend("[ ", w, IsBlank);
      RemoveWhereAppend("[" + w, "]", IsBlank);
      RemoveWhereAppend("[", w, IsBlank);
    }
    var s1 := ReplaceAll(s, Broken(Url), Compact(Url));
    var s2 := ReplaceAll(s1, Broken(Email), Compact(Email));
    ReplaceAllRemoveWhere(s, Broken(Url), Compact(Url), IsBlank);
    ReplaceAllRemoveWhere(s1, Broken(Email), Compact(Email), IsBlank);
    ReplaceAllRemoveWhere(s2, Broken(Mention), Compact(Mention), IsBlank);
  }

  /** Padding and repair leave a space right before every character that is
      padded and is not a bracket: padding puts one there, and no repair
      pattern ends with a space or writes the character. */
  lemma PadAndRepairSpaceBefore(s: string, c: char)
    requires !IsPadExempt(c) && c != '[' && c != ']'
    ensures SpaceBefore(PadAndRepair(s), c)
  {
    PadSurrounds(s);
    forall p: Placeholder ensures c !in Compact(p) {
      WordExempt(p);
      forall i | 0 <= i < |Compact(p)| ensures Compact(p)[i] != c {
        if 0 < i < |Compact(p)| - 1 {
          assert Compact(p)[i] == Word(p)[i - 1];
        }
      }
    }
    var s1 := ReplaceAll(Pad(s), Broken(Url), Compact(Url));
    var s2 := ReplaceAll(s1, Broken(Email), Compact(Email));
    ReplaceAllSpaceBefore(Pad(s), Broken(Url), Compact(Url), c);
    ReplaceAllSpaceBefore(s1, Broken(Email), Compact(Email), c);
    ReplaceAllSpaceBefore(s2, Broken(Mention), Compact(Mention), c);
  }

  /** A replacement whose pattern neither starts nor ends with a space acts
      inside a single space on each side. */
  lemma ReplaceInsideSpaces(x: string, pat: string, rep: string)
    requires |pat| > 0 && pat[0] != ' ' && pat[|pat| - 1] != ' '
    ensures ReplaceAll(" " + x + " ", pat, rep) == " " + ReplaceAll(x, pat, rep) + " "
  {
    var y := x + " ";
    assert " " + x + " " == " " + y;
    forall i | 0 <= i < |x| < i + |pat| ensures !(pat <= (x + " ")[i..]) {
      var r := (x + " ")[i..];
      assert r[|r| - 1] == ' ';
    }
    ReplaceAllSplit(x, " ", pat, rep);
    assert !(pat <= " ");
    assert ReplaceAll(" ", pat, rep) == " ";
    assert NoStraddle(" ", y, pat) by {
      assert (" " + y)[0..] == " " + y;
    }
    ReplaceAllSplit(" ", y, pat, rep);
  }

  /** The repair pass acts inside a single space on each side. */
  lemma RepairInsideSpaces(x: string)
    ensures Repair(" " + x + " ") == " " + Repair(x) + " "
  {
    var x1 := ReplaceAll(x, Broken(Url), Compact(Url));
    var x2 := ReplaceAll(x1, Broken(Email), Compact(Email));
    ReplaceInsideSpaces(x, Broken(Url), Compact(Url));
    ReplaceInsideSpaces(x1, Broken(Email), Compact(Email));
    ReplaceInsideSpaces(x2, Broken(Mention), Compact(Mention));
  }

  /** Padding a bracketed exempt word pads the two brackets only. */
  lemma PadBrackets(w: string)
    requires Pad(w) == w
    ensures Pad("[" + w + "]") == " [ " + w + " ] "
  {
    PadAppend(['['], w + [']']);
    PadAppend(w, [']']);
    PadSingle('[');
    PadSingle(']');
    assert "[" + w + "]" == ['['] + (w + [']']);
  }

  /** An unbroken placeholder is padded into the broken token, framed by one
      space on each side. */
  lemma PadCompact(p: Placeholder)
    ensures Pad(Compact(p)) == " " + Broken(p) + " "
  {
    var w := Word(p);
    WordExempt(p);
    PadExemptIdentity(w);
    PadBrackets(w);
  }

  /** An unbroken placeholder in the text is padded apart and then repaired
      back, framed by one space on each side. */
  lemma PadAndRepairCompact(p: Placeholder)
    ensures PadAndRepair(Compact(p)) == Token(p)
  {
    PadCompact(p);
    RepairInsideSpaces(Broken(p));
    RepairBroken(p);
  }
}
