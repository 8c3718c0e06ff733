/**
 * The Arabic text preprocessor: a fixed sequence of stages, each switched on or
 * off by a flag chosen when the preprocessor is built.
 */
module Preprocessing {
  import opened CharClasses
  import opened Scan
  import opened Markup
  import opened Repetition
  import opened Spacing
  import opened Digits
  import opened Filtering
  import opened Whitespace

  datatype Option<T> = None | Some(value: T)

  /** What the preprocessor takes from code this model does not define: HTML
      entity decoding, the URL and e-mail pattern tables and the mention
      pattern (each as the match length it finds at a position), and the
      characters of the emoji table. */
  datatype Library = Library(
    unescape: string -> string,
    urlPatterns: seq<Matcher>,
    emailPatterns: seq<Matcher>,
    mentionPattern: Matcher,
    emojis: set<char>)

  /** The seven switches, in the order of the constructor's parameters. */
  datatype Config = Config(
    removeHtmlMarkup: bool,
    replaceUrlsEmailsMentions: bool,
    insertWhiteSpaces: bool,
    stripTashkeel: bool,
    stripTatweel: bool,
    removeNonDigitRepetition: bool,
    keepEmojis: bool)

  /** Removal of the diacritics. */
  function StripTashkeel(s: string): (r: string)
    ensures forall c :: c in r <==> c in s && !IsTashkeel(c)
  {
    RemoveWhereChars(s, IsTashkeel);
    RemoveWhere(s, IsTashkeel)
  }

  /** Removal of the elongation character. */
  function StripTatweel(s: string): (r: string)
    ensures forall c :: c in r <==> c in s && c != Tatweel
  {
    RemoveWhereChars(s, IsTatweel);
    RemoveWhere(s, IsTatweel)
  }

  /** Diacritics are removed one character at a time, in place: stripping
      distributes over concatenation, so the other characters keep their order. */
  lemma StripTashkeelAppend(x: string, y: string)
    ensures StripTashkeel(x + y) == StripTashkeel(x) + StripTashkeel(y)
    ensures StripTashkeel([]) == []
  {
    RemoveWhereAppend(x, y, IsTashkeel);
  }

  /** Likewise for the elongation character. */
  lemma StripTatweelAppend(x: string, y: string)
    ensures StripTatweel(x + y) == StripTatweel(x) + StripTatweel(y)
    ensures StripTatweel([]) == []
  {
    RemoveWhereAppend(x, y, IsTatweel);
  }

  /** Every URL pattern, then every e-mail pattern, then the mention pattern,
      each match replaced by its spaced placeholder. */
  function ReplaceIdentifiers(lib: Library, s: string): string {
    var urls := SubEach(lib.urlPatterns, Token(Url), s);
    var emails := SubEach(lib.emailPatterns, Token(Email), urls);
    Sub(lib.mentionPattern, Token(Mention), emails)
  }

  /** The substitution stage writes only input characters and placeholder characters. */
  lemma ReplaceIdentifiersChars(lib: Library, s: string)
    ensures forall c :: c in ReplaceIdentifiers(lib, s) ==>
      c in s || c in Token(Url) || c in Token(Email) || c in Token(Mention)
  {
    var urls := SubEach(lib.urlPatterns, Token(Url), s);
    var emails := SubEach(lib.emailPatterns, Token(Email), urls);
    SubEachChars(lib.urlPatterns, Token(Url), s);
    SubEachChars(lib.emailPatterns, Token(Email), urls);
    SubFromChars(lib.mentionPattern, Token(Mention), emails, 0);
  }

  /** The white-space stage: punctuation padding, placeholder repair, then the
      two digit/letter separations. */
  function InsertWhiteSpaces(s: string): string {
    SeparateDigits(PadAndRepair(s))
  }

  /** The white-space stage only inserts and removes plain spaces: with the
      spaces deleted, its output and its input agree. */
  lemma InsertWhiteSpacesOnlyMovesSpaces(s: string)
    ensures RemoveWhere(InsertWhiteSpaces(s), IsBlank) == RemoveWhere(s, IsBlank)
  {
    PadOnlyAddsSpaces(s);
    RepairOnlyRemovesSpaces(Pad(s));
    SeparateDigitsOnlyAddsSpaces(PadAndRepair(s));
  }

  /** The stages before the white-space stage, each run when its switch is on,
      in the source's order. */
  function Prepared(c: Config, lib: Library, text: string): string {
    var t0 := lib.unescape(text);
    var t1 := if c.stripTashkeel then StripTashkeel(t0) else t0;
    var t2 := if c.stripTatweel then StripTatweel(t1) else t1;
    var t3 := if c.replaceUrlsEmailsMentions then ReplaceIdentifiers(lib, t2) else t2;
    var t4 := if c.removeHtmlMarkup then RemoveMarkup(t3) else t3;
    if c.removeNonDigitRepetition then Collapse(t4) else t4
  }

  /** The two steps that always run: the character filter, then the
      whitespace normalisation. */
  function Finish(t: string, keepEmojis: bool, emojis: set<char>): string {
    Normalize(Filter(t, keepEmojis, emojis))
  }

  /** The whole of `preprocess`, stage by stage, in the source's order. */
  function Pipeline(c: Config, lib: Library, text: string): string {
    var t5 := Prepared(c, lib, text);
    var t6 := if c.insertWhiteSpaces then InsertWhiteSpaces(t5) else t5;
    Finish(t6, c.keepEmojis, lib.emojis)
  }

  /** Whatever reaches the last two steps comes out holding only accepted
      characters, well spaced and without U+FE0F. */
  lemma FinishShape(t: string, keepEmojis: bool, emojis: set<char>)
    ensures forall ch :: ch in Finish(t, keepEmojis, emojis) ==> Accepted(ch, keepEmojis, emojis)
    ensures WellSpaced(Finish(t, keepEmojis, emojis))
    ensures VariationSelector16 !in Finish(t, keepEmojis, emojis)
  {
    var f := Filter(t, keepEmojis, emojis);
    var r := Normalize(f);
    FilterAccepted(t, keepEmojis, emojis);
    NormalizeKeeps(f);
    ReplaceAllDeletes(f, VariationSelector16);
    RemoveWhereChars(r, IsSpace);
    RemoveWhereChars(ReplaceAll(f, [VariationSelector16], []), IsSpace);
    forall ch | ch in r ensures Accepted(ch, keepEmojis, emojis) {
      if IsSpace(ch) {
        var i :| 0 <= i < |r| && r[i] == ch;
        assert ch == ' ' && IsSpace(' ');
      } else {
        assert ch in RemoveWhere(r, IsSpace);
      }
    }
  }

  /** The preprocessor never writes a character outside the class its filter
      keeps, its only whitespace is single spaces between other characters,
      and the variation selector U+FE0F never survives. */
  lemma PipelineShape(c: Config, lib: Library, text: string)
    ensures forall ch :: ch in Pipeline(c, lib, text) ==> Accepted(ch, c.keepEmojis, lib.emojis)
    ensures WellSpaced(Pipeline(c, lib, text))
    ensures VariationSelector16 !in Pipeline(c, lib, text)
  {
    var t5 := Prepared(c, lib, text);
    var t6 := if c.insertWhiteSpaces then InsertWhiteSpaces(t5) else t5;
    FinishShape(t6, c.keepEmojis, lib.emojis);
  }

  /** The filter never turns a character of class `p` or `q` into another
      such character, so it creates no new `p`-then-`q` pair. */
  lemma FilterKeepsApart(s: string, keepEmojis: bool, emojis: set<char>, p: char -> bool, q: char -> bool)
    requires !p(' ') && !q(' ')
    requires NoAdjacent(s, p, q)
    ensures NoAdjacent(Filter(s, keepEmojis, emojis), p, q)
  {
    FilterAt(s, keepEmojis, emojis);
  }

  /** A slice keeps the absence of `p`-then-`q` pairs. */
  lemma NoAdjacentSlice(t: string, i: nat, j: nat, p: char -> bool, q: char -> bool)
    requires i <= j <= |t|
    requires NoAdjacent(t, p, q)
    ensures NoAdjacent(t[i..j], p, q)
  {
    forall k | 0 <= k < |t[i..j]| - 1 ensures !(p(t[i..j][k]) && q(t[i..j][k + 1])) {
      assert t[i..j][k] == t[i + k] && t[i..j][k + 1] == t[i + k + 1];
    }
  }

  /** Splitting and joining with single spaces creates no `p`-then-`q` pair
      when neither class contains the space. */
  lemma {:induction false} JoinWordsKeepsApart(s: string, i: nat, p: char -> bool, q: char -> bool)
    requires i <= |s|
    requires !p(' ') && !q(' ')
    requires NoAdjacent(s, p, q)
    ensures NoAdjacent(Join(WordsFrom(s, i)), p, q)
    decreases |s| - i
  {
    if i < |s| {
      if IsSpace(s[i]) {
        WordsFromSpace(s, i);
        JoinWordsKeepsApart(s, i + 1, p, q);
      } else {
        var n := RunEnd(s, i, NotSpace);
        WordsFromWord(s, i, n);
        JoinWordsKeepsApart(s, n, p, q);
        NoAdjacentSlice(s, i, n, p, q);
        JoinKeepsApart(s[i..n], WordsFrom(s, n), p, q);
      }
    }
  }

  lemma JoinKeepsApart(w: string, rest: seq<string>, p: char -> bool, q: char -> bool)
    requires !p(' ') && !q(' ')
    requires NoAdjacent(w, p, q) && NoAdjacent(Join(rest), p, q)
    ensures NoAdjacent(Join([w] + rest), p, q)
  {
    var ws := [w] + rest;
    if rest != [] {
      assert ws[1..] == rest;
      NoAdjacentConcat(w, " ", p, q);
      NoAdjacentConcat(w + " ", Join(rest), p, q);
    }
  }

  /** The last two steps create no `p`-then-`q` pair when neither class holds
      the space, provided U+FE0F is not among the characters the filter keeps
      (deleting it could bring two characters together). */
  lemma FinishKeepsApart(t: string, keepEmojis: bool, emojis: set<char>, p: char -> bool, q: char -> bool)
    requires !p(' ') && !q(' ')
    requires NoAdjacent(t, p, q)
    requires keepEmojis ==> VariationSelector16 !in emojis
    ensures NoAdjacent(Finish(t, keepEmojis, emojis), p, q)
  {
    var f := Filter(t, keepEmojis, emojis);
    FilterKeepsApart(t, keepEmojis, emojis, p, q);
    FilterAccepted(t, keepEmojis, emojis);
    VariationSelectorRejected();
    forall i | 0 <= i < |f| ensures !([VariationSelector16] <= f[i..]) {
      assert f[i] in f && f[i..][0] == f[i];
    }
    ReplaceAllIdentity(f, [VariationSelector16], []);
    JoinWordsKeepsApart(f, 0, p, q);
  }

  /** Deleting every `c` creates no `p`-then-`q` pair when each `c` after the
      first position has a space before it and `p` excludes the space. */
  lemma {:induction false} DeleteKeepsApart(s: string, c: char, p: char -> bool, q: char -> bool)
    requires !p(' ')
    requires SpaceBefore(s, c)
    requires NoAdjacent(s, p, q)
    ensures NoAdjacent(ReplaceAll(s, [c], []), p, q)
    decreases |s|
  {
    if s != [] {
      var t := s[1..];
      assert SpaceBefore(t, c) by {
        forall m | 0 < m < |t| && t[m] == c ensures t[m - 1] == ' ' {
          assert t[m] == s[m + 1] && t[m - 1] == s[m];
        }
      }
      NoAdjacentSlice(s, 1, |s|, p, q);
      assert s[1..|s|] == t;
      DeleteKeepsApart(t, c, p, q);
      var r := ReplaceAll(t, [c], []);
      if s[0] != c {
        assert !([c] <= s);
        assert ReplaceAll(s, [c], []) == [s[0]] + r;
        if t != [] && t[0] != c {
          assert r != [] && r[0] == t[0];
        }
        NoAdjacentConcat([s[0]], r, p, q);
      } else {
        assert [c] <= s;
        assert ReplaceAll(s, [c], []) == [] + r == r;
      }
    }
  }

  /** The last two steps keep `p` and `q` apart when every U+FE0F after the
      first position has a space before it. */
  lemma FinishKeepsApartSpaced(t: string, keepEmojis: bool, emojis: set<char>, p: char -> bool, q: char -> bool)
    requires !p(' ') && !q(' ')
    requires NoAdjacent(t, p, q)
    requires SpaceBefore(t, VariationSelector16)
    ensures NoAdjacent(Finish(t, keepEmojis, emojis), p, q)
  {
    var f := Filter(t, keepEmojis, emojis);
    FilterKeepsApart(t, keepEmojis, emojis, p, q);
    FilterSpaceBefore(t, keepEmojis, emojis, VariationSelector16);
    DeleteKeepsApart(f, VariationSelector16, p, q);
    JoinWordsKeepsApart(ReplaceAll(f, [VariationSelector16], []), 0, p, q);
  }

  /** Once the white-space stage has run, no digit touches an Arabic letter in
      the output, in either order. Padding puts a space before every U+FE0F
      and the later stages keep it there, so deleting U+FE0F only brings a
      space next to another character. */
  lemma PipelineSeparatesDigits(c: Config, lib: Library, text: string)
    requires c.insertWhiteSpaces
    ensures NoAdjacent(Pipeline(c, lib, text), IsDigit, IsArabicLetter)
    ensures NoAdjacent(Pipeline(c, lib, text), IsArabicLetter, IsDigit)
  {
    var t5 := Prepared(c, lib, text);
    var t6 := InsertWhiteSpaces(t5);
    SeparateDigitsSeparates(PadAndRepair(t5));
    PadAndRepairSpaceBefore(t5, VariationSelector16);
    SeparateDigitsSpaceBefore(PadAndRepair(t5), VariationSelector16);
    FinishKeepsApartSpaced(t6, c.keepEmojis, lib.emojis, IsDigit, IsArabicLetter);
    FinishKeepsApartSpaced(t6, c.keepEmojis, lib.emojis, IsArabicLetter, IsDigit);
  }

  /** With every switch off the stages in between do nothing, yet the filter
      and the whitespace normalisation still run: text that decodes to itself,
      holds only accepted characters, has no U+FE0F and is well spaced comes
      back unchanged. */
  lemma AllOffStable(lib: Library, text: string)
    requires lib.unescape(text) == text
    requires forall i :: 0 <= i < |text| ==> IsAllowed(text[i])
    requires VariationSelector16 !in text
    requires WellSpaced(text)
    ensures Pipeline(Config(false, false, false, false, false, false, false), lib, text) == text
  {
    FilterIdentity(text, false, lib.emojis);
    forall i | 0 <= i < |text| ensures !([VariationSelector16] <= text[i..]) {
      assert text[i..][0] == text[i];
    }
    ReplaceAllIdentity(text, [VariationSelector16], []);
    WellSpacedFixed(text);
  }

  /** No pattern of the URL, e-mail and mention tables matches anywhere in `t`. */
  ghost predicate NoMatchesIn(lib: Library, t: string) {
    (forall k, i :: 0 <= k < |lib.urlPatterns| && 0 <= i < |t| ==> lib.urlPatterns[k](t, i) == 0) &&
    (forall k, i :: 0 <= k < |lib.emailPatterns| && 0 <= i < |t| ==> lib.emailPatterns[k](t, i) == 0) &&
    (forall i :: 0 <= i < |t| ==> lib.mentionPattern(t, i) == 0)
  }

  /** The characters of the placeholders: the space, the brackets and the
      basic Arabic letters. */
  predicate PlainChar(ch: char) {
    ch == ' ' || ch == '[' || ch == ']' || ('\U{0621}' <= ch <= '\U{063A}') || ('\U{0641}' <= ch <= '\U{064A}')
  }

  /** Text that decodes to itself, is made of placeholder characters and has no
      long runs passes the stages before the white-space stage unchanged, when
      no identifier pattern matches. */
  lemma PreparedIdentity(c: Config, lib: Library, t: string)
    requires lib.unescape(t) == t
    requires c.replaceUrlsEmailsMentions ==> NoMatchesIn(lib, t)
    requires forall i :: 0 <= i < |t| ==> PlainChar(t[i])
    requires NoLongRuns(t)
    ensures Prepared(c, lib, t) == t
  {
    PlainUnstripped(t);
    var t2 := if c.stripTatweel then StripTatweel(if c.stripTashkeel then StripTashkeel(t) else t) else t;
    assert t2 == t;
    if c.replaceUrlsEmailsMentions {
      ReplaceIdentifiersIdentity(lib, t);
    }
    var t3 := if c.replaceUrlsEmailsMentions then ReplaceIdentifiers(lib, t2) else t2;
    assert t3 == t;
    PlainNoAngle(t);
    RemoveMarkupIdentity(t);
    var t4 := if c.removeHtmlMarkup then RemoveMarkup(t3) else t3;
    assert t4 == t;
    CollapseIdentity(t);
  }

  /** Text without diacritics passes the diacritic stage unchanged. */
  lemma StripTashkeelIdentity(t: string)
    requires forall i :: 0 <= i < |t| ==> !IsTashkeel(t[i])
    ensures StripTashkeel(t) == t
  {
    RemoveWhereIdentity(t, IsTashkeel);
  }

  /** Text without U+0640 passes the elongation stage unchanged. */
  lemma StripTatweelIdentity(t: string)
    requires forall i :: 0 <= i < |t| ==> t[i] != Tatweel
    ensures StripTatweel(t) == t
  {
    RemoveWhereIdentity(t, IsTatweel);
  }

  /** Placeholder characters are neither diacritics nor the elongation
      character, so both stripping stages leave such text alone. */
  lemma PlainUnstripped(t: string)
    requires forall i :: 0 <= i < |t| ==> PlainChar(t[i])
    ensures StripTashkeel(t) == t && StripTatweel(t) == t
  {
    forall i | 0 <= i < |t| ensures !IsTashkeel(t[i]) && t[i] != Tatweel {
      assert PlainChar(t[i]);
    }
    StripTashkeelIdentity(t);
    StripTatweelIdentity(t);
  }

  /** Placeholder characters include no `<`. */
  lemma PlainNoAngle(t: string)
    requires forall i :: 0 <= i < |t| ==> PlainChar(t[i])
    ensures '<' !in t
  {
    forall i | 0 <= i < |t| ensures t[i] != '<' {
      assert PlainChar(t[i]);
    }
  }

  /** Text no identifier pattern matches is left alone by the substitution stage. */
  lemma ReplaceIdentifiersIdentity(lib: Library, t: string)
    requires NoMatchesIn(lib, t)
    ensures ReplaceIdentifiers(lib, t) == t
  {
    SubEachNoMatch(lib.urlPatterns, Token(Url), t);
    SubEachNoMatch(lib.emailPatterns, Token(Email), t);
    SubFromNoMatch(lib.mentionPattern, Token(Mention), t, 0);
    assert t[0..] == t;
  }

  /** An unbroken placeholder has no two equal characters in a row, and is
      made of placeholder characters other than the space. */
  lemma CompactShape(p: Placeholder)
    ensures forall i :: 0 <= i < |Compact(p)| ==> PlainChar(Compact(p)[i]) && Compact(p)[i] != ' '
    ensures forall i :: 0 <= i < |Compact(p)| - 1 ==> Compact(p)[i] != Compact(p)[i + 1]
    ensures NoLongRuns(Compact(p))
  {
  }

  /** An unbroken placeholder framed by spaces comes out of the filter and the
      normalisation as itself. */
  lemma FinishPlaceholder(p: Placeholder, keepEmojis: bool, emojis: set<char>, x: string, y: string)
    requires forall i :: 0 <= i < |x| ==> x[i] == ' '
    requires forall i :: 0 <= i < |y| ==> y[i] == ' '
    ensures Finish(x + Compact(p) + y, keepEmojis, emojis) == Compact(p)
  {
    var w := Compact(p);
    var s := x + w + y;
    CompactShape(p);
    forall i | 0 <= i < |s| ensures Accepted(s[i], keepEmojis, emojis) {
      if |x| <= i < |x| + |w| {
        assert s[i] == w[i - |x|];
      }
    }
    FilterIdentity(s, keepEmojis, emojis);
    assert VariationSelector16 !in w;
    NormalizeFramed(x, w, y);
  }

  /** The placeholder as the substitution stage writes it has the same shape,
      with a space on either side. */
  lemma TokenShape(p: Placeholder)
    ensures Token(p) == " " + Compact(p) + " "
    ensures forall i :: 0 <= i < |Token(p)| ==> PlainChar(Token(p)[i]) && !IsDigit(Token(p)[i])
    ensures NoLongRuns(Token(p))
  {
    var t, w := Token(p), Compact(p);
    CompactShape(p);
    assert t == " " + w + " ";
    forall i | 0 <= i < |t| ensures PlainChar(t[i]) && !IsDigit(t[i]) {
      if 0 < i < |t| - 1 {
        assert t[i] == w[i - 1];
      }
    }
  }

  /** Text that padding and repair merely frame with spaces, and that holds no
      digit, is merely framed by the whole white-space stage. */
  lemma InsertWhiteSpacesFramed(t: string)
    requires PadAndRepair(t) == " " + t + " "
    requires forall i :: 0 <= i < |t| ==> !IsDigit(t[i])
    ensures InsertWhiteSpaces(t) == " " + t + " "
  {
    var u := " " + t + " ";
    forall i | 0 <= i < |u| ensures !IsDigit(u[i]) {
      if 0 < i < |u| - 1 {
        assert u[i] == t[i - 1];
      }
    }
    SeparateDigitsIdentity(u);
  }

  /** The white-space stage turns the written placeholder into the unbroken
      token framed by two spaces on each side. */
  lemma InsertWhiteSpacesToken(p: Placeholder)
    ensures InsertWhiteSpaces(Token(p)) == "  " + Compact(p) + "  "
  {
    var t, w := Token(p), Compact(p);
    TokenShape(p);
    PadAndRepairToken(p);
    InsertWhiteSpacesFramed(t);
    assert " " + t + " " == "  " + w + "  ";
  }

  /** The white-space stage turns the unbroken token back into the written
      placeholder. */
  lemma InsertWhiteSpacesCompact(p: Placeholder)
    ensures InsertWhiteSpaces(Compact(p)) == Token(p)
  {
    PadAndRepairCompact(p);
    TokenShape(p);
    SeparateDigitsIdentity(Token(p));
  }

  /** The unbroken placeholder on its own passes the last two steps unchanged. */
  lemma FinishCompact(p: Placeholder, keepEmojis: bool, emojis: set<char>)
    ensures Finish(Compact(p), keepEmojis, emojis) == Compact(p)
  {
    FinishPlaceholder(p, keepEmojis, emojis, "", "");
    assert "" + Compact(p) + "" == Compact(p);
  }

  /** The written placeholder passes the last two steps as the unbroken token. */
  lemma FinishToken(p: Placeholder, keepEmojis: bool, emojis: set<char>)
    ensures Finish(Token(p), keepEmojis, emojis) == Compact(p)
  {
    TokenShape(p);
    FinishPlaceholder(p, keepEmojis, emojis, " ", " ");
  }

  /** Text the optional stages before the white-space stage leave alone goes
      straight to the white-space stage. */
  lemma PipelineStages(c: Config, lib: Library, t: string)
    requires Prepared(c, lib, t) == t
    ensures c.insertWhiteSpaces ==> Pipeline(c, lib, t) == Finish(InsertWhiteSpaces(t), c.keepEmojis, lib.emojis)
    ensures !c.insertWhiteSpaces ==> Pipeline(c, lib, t) == Finish(t, c.keepEmojis, lib.emojis)
  {
  }

  /** A placeholder as the substitution stage writes it, ` [رابط] ` say, comes
      out of the whole pipeline as the unbroken token, whatever the switches,
      when no identifier pattern matches it. */
  lemma PipelineToken(c: Config, lib: Library, p: Placeholder)
    requires lib.unescape(Token(p)) == Token(p)
    requires c.replaceUrlsEmailsMentions ==> NoMatchesIn(lib, Token(p))
    ensures Pipeline(c, lib, Token(p)) == Compact(p)
  {
    TokenShape(p);
    PreparedIdentity(c, lib, Token(p));
    PipelineStages(c, lib, Token(p));
    if c.insertWhiteSpaces {
      InsertWhiteSpacesToken(p);
      FinishPlaceholder(p, c.keepEmojis, lib.emojis, "  ", "  ");
    } else {
      FinishToken(p, c.keepEmojis, lib.emojis);
    }
  }

  /** An unbroken placeholder in the input comes out of the whole pipeline
      unchanged, whatever the switches, when no identifier pattern matches it. */
  lemma PipelineCompact(c: Config, lib: Library, p: Placeholder)
    requires lib.unescape(Compact(p)) == Compact(p)
    requires c.replaceUrlsEmailsMentions ==> NoMatchesIn(lib, Compact(p))
    ensures Pipeline(c, lib, Compact(p)) == Compact(p)
  {
    CompactShape(p);
    PreparedIdentity(c, lib, Compact(p));
    PipelineStages(c, lib, Compact(p));
    if c.insertWhiteSpaces {
      InsertWhiteSpacesCompact(p);
      FinishToken(p, c.keepEmojis, lib.emojis);
    } else {
      FinishCompact(p, c.keepEmojis, lib.emojis);
    }
  }

  /** The source's default switches, with URL, e-mail and mention replacement
      turned off. */
  const NoIdentifiers := Config(true, false, true, true, true, true, true)

  /** `<>` is not a tag, since `[^>]+` needs a character between the angle
      brackets, so the stages before the white-space stage leave it alone. */
  lemma EmptyBracketsPrepared(c: Config, lib: Library)
    requires lib.unescape("<>") == "<>"
    requires !c.replaceUrlsEmailsMentions
    ensures Prepared(c, lib, "<>") == "<>"
  {
    var s := "<>";
    RemoveWhereIdentity(s, IsTashkeel);
    RemoveWhereIdentity(s, IsTatweel);
    ReplaceAllIdentity(s, LineBreak, " ");
    RunEndIs(s, 1, NotGt, 1);
    assert RemoveTags(s[1..]) == s[1..];
    CollapseIdentity(s);
  }

  /** Padding spaces out two characters outside the exempt class, and nothing
      else of the white-space stage applies. */
  lemma InsertWhiteSpacesPair(a: char, b: char)
    requires !IsPadExempt(a) && !IsPadExempt(b) && !IsDigit(a) && !IsDigit(b)
    ensures InsertWhiteSpaces([a, b]) == [' ', a, ' ', ' ', b, ' ']
  {
    var u := [' ', a, ' ', ' ', b, ' '];
    PadAppend([a], [b]);
    assert [a, b] == [a] + [b];
    PadSingle(a);
    PadSingle(b);
    assert Pad([a, b]) == u;
    ReplaceAllIdentity(u, Broken(Url), Compact(Url));
    ReplaceAllIdentity(u, Broken(Email), Compact(Email));
    ReplaceAllIdentity(u, Broken(Mention), Compact(Mention));
    SeparateDigitsIdentity(u);
  }

  /** Two characters standing between spaces normalise to the two words joined
      by one space. */
  lemma NormalizePair(a: char, b: char)
    requires !IsSpace(a) && !IsSpace(b) && a != VariationSelector16 && b != VariationSelector16
    ensures Normalize([' ', a, ' ', ' ', b, ' ']) == [a, ' ', b]
  {
    var u := [' ', a, ' ', ' ', b, ' '];
    forall i | 0 <= i < |u| ensures !([VariationSelector16] <= u[i..]) {
      assert u[i..][0] == u[i];
    }
    ReplaceAllIdentity(u, [VariationSelector16], []);
    WordsPair(a, b);
    assert [[a], [b]][1..] == [[b]];
    assert Join([[a], [b]]) == [a] + " " + [b] == [a, ' ', b];
  }

  /** The fields of two characters standing between spaces. */
  lemma WordsPair(a: char, b: char)
    requires !IsSpace(a) && !IsSpace(b)
    ensures Words([' ', a, ' ', ' ', b, ' ']) == [[a], [b]]
  {
    var u := [' ', a, ' ', ' ', b, ' '];
    WordsSkip(u, 0, 1);
    RunEndIs(u, 1, NotSpace, 2);
    WordsFromWord(u, 1, 2);
    WordsSkip(u, 2, 4);
    RunEndIs(u, 4, NotSpace, 5);
    WordsFromWord(u, 4, 5);
    WordsSkip(u, 5, 6);
    assert u[1..2] == [a] && u[4..5] == [b];
  }

  /** Padding spaces out both angle brackets, which are neither digits nor
      whitespace. */
  lemma AngleBracketsPadded()
    ensures !IsPadExempt('<') && !IsPadExempt('>') && !IsDigit('<') && !IsDigit('>')
    ensures !IsSpace('<') && !IsSpace('>')
  {
  }

  /** Both angle brackets are among the allowed punctuation. */
  lemma AngleBracketsAllowed()
    ensures IsAllowed('<') && IsAllowed('>')
  {
    assert AllowedPunctuation[17] == '<';
    assert AllowedPunctuation[20] == '>';
  }

  /** With URL replacement off and the white-space stage on, `<>` comes out as
      `< >`. */
  lemma EmptyBracketsFirstRun(lib: Library)
    requires lib.unescape("<>") == "<>"
    ensures Pipeline(NoIdentifiers, lib, "<>") == "< >"
  {
    var c := NoIdentifiers;
    EmptyBracketsPrepared(c, lib);
    AngleBracketsPadded();
    AngleBracketsAllowed();
    PipelinePair(c, lib, '<', '>');
  }

  /** Two characters that the stages before the white-space stage leave alone
      and that padding spaces out come out of the pipeline as two words. */
  lemma PipelinePair(c: Config, lib: Library, a: char, b: char)
    requires Prepared(c, lib, [a, b]) == [a, b]
    requires c.insertWhiteSpaces
    requires !IsPadExempt(a) && !IsPadExempt(b) && !IsDigit(a) && !IsDigit(b)
    requires IsAllowed(a) && IsAllowed(b)
    requires !IsSpace(a) && !IsSpace(b) && a != VariationSelector16 && b != VariationSelector16
    ensures Pipeline(c, lib, [a, b]) == [a, ' ', b]
  {
    PipelineStages(c, lib, [a, b]);
    InsertWhiteSpacesPair(a, b);
    FinishPair(a, b, c.keepEmojis, lib.emojis);
  }

  /** Two allowed characters between spaces pass the filter and normalise to
      the two words joined by one space. */
  lemma FinishPair(a: char, b: char, keepEmojis: bool, emojis: set<char>)
    requires IsAllowed(a) && IsAllowed(b)
    requires !IsSpace(a) && !IsSpace(b) && a != VariationSelector16 && b != VariationSelector16
    ensures Finish([' ', a, ' ', ' ', b, ' '], keepEmojis, emojis) == [a, ' ', b]
  {
    var u := [' ', a, ' ', ' ', b, ' '];
    assert IsAllowed(' ');
    ClassesAgree(' ');
    ClassesAgree(a);
    ClassesAgree(b);
    FilterIdentity(u, keepEmojis, emojis);
    NormalizePair(a, b);
  }

  /** `< >` is a tag, so the markup stage turns it into a single space, and
      nothing is left. */
  lemma EmptyBracketsSecondRun(lib: Library)
    requires lib.unescape("< >") == "< >"
    ensures Pipeline(NoIdentifiers, lib, "< >") == ""
  {
    var c := NoIdentifiers;
    EmptyBracketsTag(c, lib);
    SpaceVanishes(c.keepEmojis, lib.emojis);
  }

  /** The stages before the white-space stage turn the tag `< >` into one space. */
  lemma EmptyBracketsTag(c: Config, lib: Library)
    requires lib.unescape("< >") == "< >"
    requires c.removeHtmlMarkup && !c.replaceUrlsEmailsMentions
    ensures Prepared(c, lib, "< >") == " "
  {
    var s := "< >";
    RemoveWhereIdentity(s, IsTashkeel);
    RemoveWhereIdentity(s, IsTatweel);
    ReplaceAllIdentity(s, LineBreak, " ");
    RunEndIs(s, 1, NotGt, 2);
    assert RemoveTags(s) == " ";
    assert Collapse(" ") == " ";
  }

  /** A lone space passes the white-space stage and the filter, and the
      split/join turns it into the empty string. */
  lemma SpaceVanishes(keepEmojis: bool, emojis: set<char>)
    ensures Finish(InsertWhiteSpaces(" "), keepEmojis, emojis) == ""
  {
    var u := " ";
    assert Pad(u) == u;
    ReplaceAllIdentity(u, Broken(Url), Compact(Url));
    ReplaceAllIdentity(u, Broken(Email), Compact(Email));
    ReplaceAllIdentity(u, Broken(Mention), Compact(Mention));
    SeparateDigitsIdentity(u);
    assert InsertWhiteSpaces(u) == u;
    assert IsAllowed(' ');
    ClassesAgree(' ');
    FilterIdentity(u, keepEmojis, emojis);
    ReplaceAllIdentity(u, [VariationSelector16], []);
    WordsSkip(u, 0, 1);
  }

  /** Running the pipeline on its own output can change it: with the default
      switches and URL replacement off, `<>` becomes `< >`, which a second run
      deletes as a tag. */
  lemma PipelineNotIdempotent(lib: Library)
    requires lib.unescape("<>") == "<>" && lib.unescape("< >") == "< >"
    ensures var c := NoIdentifiers;
      var once := Pipeline(c, lib, "<>");
      once == "< >" && Pipeline(c, lib, once) == "" && Pipeline(c, lib, once) != once
  {
    EmptyBracketsFirstRun(lib);
    EmptyBracketsSecondRun(lib);
  }

  /** The loop over one pattern table: each pattern, in table order, is
      substituted throughout the text left by the previous ones. */
  method SubstituteAll(patterns: seq<Matcher>, repl: string, s: string) returns (r: string)
    ensures r == SubEach(patterns, repl, s)
  {
    r := s;
    for k := 0 to |patterns|
      invariant r == SubEach(patterns[..k], repl, s)
    {
      assert patterns[..k + 1][..k] == patterns[..k];
      r := Sub(patterns[k], repl, r);
    }
    assert patterns[..|patterns|] == patterns;
  }

  /** The preprocessor object: its switches are fixed when it is built. */
  class Preprocessor {
    const removeHtmlMarkup: bool
    const replaceUrlsEmailsMentions: bool
    const insertWhiteSpaces: bool
    const stripTashkeel: bool
    const stripTatweel: bool
    const removeNonDigitRepetition: bool
    const keepEmojis: bool
    const language: string
    const library: Library

    function Settings(): Config {
      Config(removeHtmlMarkup, replaceUrlsEmailsMentions, insertWhiteSpaces, stripTashkeel,
             stripTatweel, removeNonDigitRepetition, keepEmojis)
    }

    /** Any language other than Arabic, or none, is replaced by Arabic. */
    constructor(library: Library, removeHtmlMarkup: bool := true, replaceUrlsEmailsMentions: bool := true,
                insertWhiteSpaces: bool := true, stripTashkeel: bool := true, stripTatweel: bool := true,
                removeNonDigitRepetition: bool := true, keepEmojis: bool := true,
                language: Option<string> := Some("ar"))
      ensures Settings() == Config(removeHtmlMarkup, replaceUrlsEmailsMentions, insertWhiteSpaces,
                                   stripTashkeel, stripTatweel, removeNonDigitRepetition, keepEmojis)
      ensures this.language == "ar"
      ensures this.library == library
    {
      this.removeHtmlMarkup := removeHtmlMarkup;
      this.replaceUrlsEmailsMentions := replaceUrlsEmailsMentions;
      this.insertWhiteSpaces := insertWhiteSpaces;
      this.stripTashkeel := stripTashkeel;
      this.stripTatweel := stripTatweel;
      this.removeNonDigitRepetition := removeNonDigitRepetition;
      this.keepEmojis := keepEmojis;
      this.language := if language != Some("ar") then "ar" else language.value;
      this.library := library;
    }

    /** `preprocess`: the text is rewritten stage by stage. */
    method Preprocess(text: string) returns (r: string)
      ensures r == Pipeline(Settings(), library, text)
      ensures forall ch :: ch in r ==> Accepted(ch, keepEmojis, library.emojis)
      ensures WellSpaced(r)
    {
      var t := library.unescape(text);
      if stripTashkeel {
        t := StripTashkeel(t);
      }
      if stripTatweel {
        t := StripTatweel(t);
      }
      if replaceUrlsEmailsMentions {
        t := SubstituteAll(library.urlPatterns, Token(Url), t);
        t := SubstituteAll(library.emailPatterns, Token(Email), t);
        t := Sub(library.mentionPattern, Token(Mention), t);
      }
      if removeHtmlMarkup {
        t := ReplaceAll(t, LineBreak, " ");
        t := RemoveTags(t);
      }
      if removeNonDigitRepetition {
        t := Collapse(t);
      }
      ghost var t5 := t;
      assert t5 == Prepared(Settings(), library, text);
      if insertWhiteSpaces {
        t := Pad(t);
        t := ReplaceAll(t, Broken(Url), Compact(Url));
        t := ReplaceAll(t, Broken(Email), Compact(Email));
        t := ReplaceAll(t, Broken(Mention), Compact(Mention));
        t := SplitRuns(t, IsDigit, IsArabicLetter);
        t := SplitRuns(t, IsArabicLetter, IsDigit);
      }
      ghost var t6 := t;
      assert t6 == (if insertWhiteSpaces then InsertWhiteSpaces(t5) else t5);
      t := Filter(t, keepEmojis, library.emojis);
      t := ReplaceAll(t, [VariationSelector16], []);
      r := Join(Words(t));
      assert r == Finish(t6, keepEmojis, library.emojis);
      FinishShape(t6, keepEmojis, library.emojis);
    }
  }
}
