# Arabic text preprocessor — a verified model

This project models `Preprocessor` from `preprocess.py`, the normaliser that
prepares Arabic text for a language model. A preprocessor is built once with
seven switches. After that, `preprocess` threads one string through a fixed
sequence of stages:

1. HTML entity decoding (always runs).
2. Removal of diacritics (tashkeel) and of the elongation character (tatweel).
3. Replacement of URLs, e-mail addresses and @-mentions by the spaced
   placeholders ` [رابط] `, ` [بريد] ` and ` [مستخدم] `.
4. Removal of `<br />` and of every `</?[^>]+>` construct.
5. Collapse of every run of three or more identical non-digits to two copies.
6. Padding of punctuation with spaces, then repair of the three placeholders.
   After that, digit runs and Arabic-letter runs are separated by spaces.
7. Replacement of every character outside the allowed class by a space; the
   emoji characters are also allowed when emojis are kept (always runs).
8. Deletion of U+FE0F, then splitting at whitespace and joining with single
   spaces (always runs).

Each regular expression of the source is written as an explicit scanner over
`seq<char>`, with the character classes as code-point range tests:

- `re.sub` with a literal pattern and `str.replace` become `Scan.ReplaceAll`.
- The tag pattern becomes `Markup.RemoveTags`.
- The repetition pattern becomes `Repetition.Collapse`.
- The padding pattern becomes `Spacing.Pad`.
- The two digit/letter patterns become `Digits.SplitRuns`.
- The negated allowed class becomes `Filtering.Filter`.
- `" ".join(s.split())` becomes `Whitespace.Join(Whitespace.Words(s))`.

Some code is not visible to the model: `html.unescape`, the URL, e-mail and
mention tables, and the emoji table. These arrive as a `Library` value:

- entity decoding is a function `string -> string`;
- each pattern is a matcher giving the length of its match at a position,
  with 0 meaning no match. `Scan.Sub` turns a matcher into a `re.sub`;
- the emoji table is a set of characters.

The stage functions compose into `Preprocessing.Pipeline`, the functional
model of `preprocess`. The class `Preprocessing.Preprocessor` holds the switches as
immutable fields. Its method `Preprocess` rewrites a local string step by step,
as the source does, with a loop over each pattern table, and is proved equal to
`Pipeline`.

The proved properties:

- No tag-shaped substring survives tag removal.
- No non-digit occurs three times in a row after the collapse.
- The collapse is the run-by-run definition.
- A placeholder passes padding and repair unbroken.
- Padding, repair and digit separation only insert or delete plain spaces.
- No digit touches an Arabic letter after the white-space stage.
- The filter writes only allowed characters.
- The final text is "well spaced": single spaces between words, none at
  either end. Splitting and joining is the identity exactly on well-spaced
  text, so the normalisation is idempotent.
- The whole pipeline's output has the shape above.

With every switch off, the filter and the split/join still run, so the output
is not just the decoded input. `AllOffStable` gives a condition under which the
all-off pipeline returns its input.

Two properties relate one run of the pipeline to another:

- An unbroken placeholder such as `[رابط]` in the input comes out unchanged,
  whatever the switches, when no URL, e-mail or mention pattern matches at any
  position of it (`PipelineCompact`). The spaced placeholder ` [رابط] ` that the substitution
  stage writes comes out as `[رابط]` (`PipelineToken`).
- The pipeline is not idempotent: feeding its output back in can change it.
  With URL, e-mail and mention replacement off and every other switch at its
  default (emojis kept), `<>` is
  not a tag, since `[^>]+` needs at least one character between the brackets.
  The white-space stage pads it to ` <  > ` and the output is `< >`. That is a
  tag, so a second run deletes it and returns the empty string
  (`PipelineNotIdempotent`).

## Model

| member | source | states |
|---|---|---|
| `Preprocessing.Pipeline` | preprocess.py:55-113 | the stages in the source's order; what it promises is stated by `PipelineShape`, `PipelineSeparatesDigits`, `PipelineToken`, `PipelineCompact`, `PipelineNotIdempotent` and `AllOffStable` |
| `Preprocessing.Prepared` | preprocess.py:55-81 | the optional stages before the white-space stage; `PreparedIdentity` gives the inputs it leaves alone |
| `Preprocessing.Finish` | preprocess.py:106-113 | the filter then the split/join; see `FinishShape`, `FinishKeepsApartSpaced` and `FinishPlaceholder` |
| `Preprocessing.Preprocessor.constructor` | preprocess.py:8-52 | the switches are stored as given, each defaulting to on, and the language, defaulting to `ar`, is `ar` whatever was passed (a different tag or none) |
| `Preprocessing.Preprocessor.Preprocess` | preprocess.py:55-113 | the step-by-step rewrite computes the stage pipeline for the stored switches; its output holds only accepted characters and is well spaced |
| `Preprocessing.SubstituteAll` | preprocess.py:66-70 | the loop over a pattern table applies each pattern, in table order, to the text left by the previous ones |
| `Preprocessing.StripTashkeel` | preprocess.py:59-60 | the output holds exactly the input's characters other than the eight diacritics; with `StripTashkeelAppend` and `StripTashkeelIdentity` this fixes the result |
| `Preprocessing.StripTatweel` | preprocess.py:61-62 | the output holds exactly the input's characters other than U+0640; with `StripTatweelAppend` and `StripTatweelIdentity` this fixes the result |
| `Preprocessing.StripTashkeelAppend` | preprocess.py:59-60 | removing diacritics distributes over concatenation, so the remaining characters keep their order |
| `Preprocessing.StripTatweelAppend` | preprocess.py:61-62 | removing U+0640 distributes over concatenation, so the remaining characters keep their order |
| `Preprocessing.ReplaceIdentifiers` | preprocess.py:64-72 | the URL table, the e-mail table, then the mention pattern; see `ReplaceIdentifiersChars` and `PreparedIdentity` |
| `Preprocessing.ReplaceIdentifiersChars` | preprocess.py:64-72 | URL, e-mail and mention substitution writes only input characters and placeholder characters |
| `Preprocessing.ReplaceIdentifiersIdentity` | preprocess.py:64-72 | text where no URL, e-mail or mention pattern matches at any position comes out of the substitution stage unchanged |
| `Preprocessing.StripTashkeelIdentity` | preprocess.py:59-60 | text without any of the eight diacritics passes the diacritic stage unchanged |
| `Preprocessing.StripTatweelIdentity` | preprocess.py:61-62 | text without U+0640 passes the elongation stage unchanged |
| `Preprocessing.PlainUnstripped` | preprocess.py:59-62 | text of space, bracket and basic Arabic letter characters has no diacritic and no U+0640, so both stripping stages leave it unchanged |
| `Preprocessing.InsertWhiteSpacesOnlyMovesSpaces` | preprocess.py:83-104 | the white-space stage changes the text only by inserting and deleting plain spaces |
| `Preprocessing.InsertWhiteSpaces` | preprocess.py:83-104 | padding, repair, then the two separations; see `InsertWhiteSpacesOnlyMovesSpaces`, `InsertWhiteSpacesToken` and `InsertWhiteSpacesCompact` |
| `Preprocessing.InsertWhiteSpacesToken` | preprocess.py:83-104 | a spaced placeholder comes out of the white-space stage as the unbroken token with two spaces on each side |
| `Preprocessing.InsertWhiteSpacesCompact` | preprocess.py:83-104 | an unbroken placeholder comes out of the white-space stage as the spaced placeholder |
| `Preprocessing.PreparedIdentity` | preprocess.py:55-81 | text that decodes to itself, is made of space, bracket and basic Arabic letter characters and has no long runs passes the stages before the white-space stage unchanged, when no identifier pattern matches at any position of it |
| `Preprocessing.FinishPlaceholder` | preprocess.py:106-113 | an unbroken placeholder framed by spaces leaves the last two steps as the bare placeholder |
| `Preprocessing.FinishShape` | preprocess.py:106-113 | after the filter and the split/join, every character is accepted, the text is well spaced and has no U+FE0F |
| `Preprocessing.PipelineShape` | preprocess.py:55-113 | for every switch setting, the output holds only characters of the kept class, is well spaced and has no U+FE0F |
| `Preprocessing.FilterKeepsApart` | preprocess.py:106-111 | the filter creates no new pair of adjacent characters from two classes that exclude the space |
| `Preprocessing.JoinWordsKeepsApart` | preprocess.py:113 | splitting and rejoining with single spaces creates no new adjacent pair from two classes that exclude the space |
| `Preprocessing.FinishKeepsApart` | preprocess.py:106-113 | the case where the filter does not keep U+FE0F (emojis dropped, or U+FE0F outside the emoji table): the last two steps keep such classes apart whatever precedes U+FE0F; `FinishKeepsApartSpaced` covers every emoji table |
| `Preprocessing.DeleteKeepsApart` | preprocess.py:113 | deleting a character that always has a space right before it creates no new adjacent pair from two classes that exclude the space |
| `Preprocessing.FinishKeepsApartSpaced` | preprocess.py:106-113 | the last two steps keep such classes apart whenever every U+FE0F has a space right before it, whatever the emoji table |
| `Preprocessing.PipelineSeparatesDigits` | preprocess.py:83-113 | with white-space insertion on, no digit is next to an Arabic letter in the output, in either order, for every emoji table |
| `Preprocessing.PipelineToken` | preprocess.py:55-113 | for every switch setting, a spaced placeholder in the input comes out as the unbroken token, when no identifier pattern matches at any position of it |
| `Preprocessing.PipelineCompact` | preprocess.py:55-113 | for every switch setting, an unbroken placeholder in the input comes out unchanged, when no identifier pattern matches at any position of it |
| `Preprocessing.PipelineNotIdempotent` | preprocess.py:74-113 | the pipeline is not idempotent: with identifier replacement off and every other switch at its default, emoji keeping included, `<>` gives `< >`, and `< >` gives the empty string, when entity decoding leaves both alone, as `html.unescape` does |
| `Preprocessing.AllOffStable` | preprocess.py:55-113 | with every switch off, text that decodes to itself, is all allowed, lacks U+FE0F and is well spaced comes back unchanged |
| `CharClasses.ClassesAgree` | preprocess.py:147-148 | the class used with emojis and the class used without them are the same set |
| `CharClasses.VariationSelectorRejected` | preprocess.py:147-148 | U+FE0F is in neither allowed class |
| `CharClasses.DigitsAreNotLetters` | preprocess.py:94-104 | no character is both a digit and a letter of the separation class |
| `Scan.RunEnd` | preprocess.py:78 | a greedy character-class run: every character from the start to the end is in the class, and the character at the end is not |
| `Scan.RemoveWhereChars` | preprocess.py:59-62 | deleting a class keeps exactly the characters outside it |
| `Scan.RemoveWhereIdempotent` | preprocess.py:59-62 | deleting a class a second time changes nothing |
| `Scan.ReplaceAllIdentity` | preprocess.py:90-92 | `str.replace` leaves text without an occurrence of the pattern unchanged |
| `Scan.ReplaceAllSplit` | preprocess.py:90-92 | when no occurrence straddles a boundary, replacing in a concatenation replaces in each part |
| `Scan.ReplaceAllRemoveWhere` | preprocess.py:90-92 | a replacement equal to its pattern up to a deleted class leaves the text equal up to that class |
| `Scan.ReplaceAllDeletes` | preprocess.py:113 | replacing a character by nothing removes every copy of it and adds nothing |
| `Scan.ReplaceAllPlain` | preprocess.py:90-92 | text lacking the pattern's first character is copied unchanged, and the replacement goes on in the rest |
| `Scan.ReplaceAll` | preprocess.py:90-92 | `str.replace`; see `ReplaceAllIdentity`, `ReplaceAllSplit`, `ReplaceAllRemoveWhere`, `ReplaceAllDeletes` and `ReplaceAllSpaceBefore` |
| `Scan.ReplaceAllSpaceBefore` | preprocess.py:90-92 | a replacement whose pattern does not end with a space, and whose non-empty replacement lacks a character, keeps a space right before every copy of that character |
| `Scan.SubFromChars` | preprocess.py:67 | `re.sub` writes only input characters and replacement characters |
| `Scan.SubFromNoMatch` | preprocess.py:67 | `re.sub` with a pattern that matches nowhere leaves the text unchanged |
| `Scan.SubFrom` | preprocess.py:67 | `re.sub` from a position: leftmost match, replaced, scanning resumed after it; see `SubFromChars` and `SubFromNoMatch` |
| `Scan.Sub` | preprocess.py:72 | `re.sub` over the whole text; see `SubFromChars` and `SubFromNoMatch` |
| `Scan.SubEachChars` | preprocess.py:66-70 | a table of substitutions writes only input characters and replacement characters |
| `Scan.SubEach` | preprocess.py:66-70 | the patterns of a table applied one after the other; see `SubEachChars` and `SubEachNoMatch` |
| `Scan.SubEachNoMatch` | preprocess.py:66-70 | a table none of whose patterns matches at any position of the text leaves the text unchanged |
| `Markup.TagLength` | preprocess.py:78 | a positive length covers a tag-shaped prefix; zero means no prefix is tag-shaped |
| `Markup.RemoveTags` | preprocess.py:78 | tag removal writes only input characters and spaces, and starts with a space or the first input character; what it does is stated by `RemoveTagsTag`, `RemoveTagsEmptyBrackets`, `RemoveTagsPlain`, `RemoveTagsTagFree` and `RemoveTagsIdentity`, which together fix the result on every input: a `<` either starts a tag, is followed at once by `>`, or has no `>` after it |
| `Markup.RemoveTagsTagFree` | preprocess.py:78 | after tag removal no substring is `<`, one or more non-`>` characters, then `>` |
| `Markup.RemoveTagsIdentity` | preprocess.py:78 | text without tag-shaped substrings passes through unchanged |
| `Markup.TagLengthTag` | preprocess.py:78 | a tag at the front of the text is exactly the match there |
| `Markup.RemoveTagsTag` | preprocess.py:78 | a tag at the front becomes exactly one space, and the text after it is processed on its own |
| `Markup.RemoveTagsEmptyBrackets` | preprocess.py:78 | `<>` is not a tag, since `[^>]+` needs a character other than `>`: both characters are copied and removal goes on after them |
| `Markup.RemoveTagsUnopened` | preprocess.py:78 | a `<` followed at once by `>` is copied, and removal goes on from the next character |
| `Markup.RemoveTagsPlain` | preprocess.py:78 | text without `<` is copied unchanged, and the text after it is processed on its own |
| `Markup.LineBreakReplaced` | preprocess.py:76 | a `<br />` at the front becomes exactly one space, and the text after it is processed on its own |
| `Markup.LineBreakPlain` | preprocess.py:76 | text without `<` is copied unchanged by the line-break replacement |
| `Markup.RemoveMarkupTagFree` | preprocess.py:74-78 | the markup stage leaves no tag-shaped substring, and removing tags again changes nothing |
| `Markup.RemoveMarkupIdentity` | preprocess.py:74-78 | text without `<` comes out of the markup stage unchanged |
| `Markup.RemoveMarkup` | preprocess.py:74-78 | line breaks, then tags; see `LineBreakReplaced`, `LineBreakPlain`, `RemoveTagsTag`, `RemoveTagsEmptyBrackets`, `RemoveTagsPlain` and `RemoveMarkupTagFree` |
| `Markup.NoAngleTagFree` | preprocess.py:78 | text without `<` has no tag-shaped substring |
| `Repetition.Collapse` | preprocess.py:80-81 | the repetition stage; see `CollapseIsByRuns`, `CollapseNoLongRuns`, `CollapseIdentity` and `CollapseIdempotent` |
| `Repetition.RunLength` | preprocess.py:131 | the length of the maximal run of the first character |
| `Repetition.CollapseIsByRuns` | preprocess.py:80-81 | every maximal run of three or more identical non-digits becomes two copies; all other runs are unchanged |
| `Repetition.CollapseByRunsNoLongRuns` | preprocess.py:131 | after the run-by-run collapse no non-digit occurs three times in a row |
| `Repetition.CollapseNoLongRuns` | preprocess.py:80-81 | after the collapse no non-digit occurs three times in a row |
| `Repetition.CollapseIdentity` | preprocess.py:131 | text without such runs is unchanged |
| `Repetition.CollapseIdempotent` | preprocess.py:80-81 | collapsing twice is collapsing once |
| `Spacing.Pad` | preprocess.py:84-88 | the padding pass; see `PadAppend`, `PadSurrounds`, `PadOnlyAddsSpaces` and `PadExemptIdentity` |
| `Spacing.Repair` | preprocess.py:90-92 | the three placeholder repairs; see `RepairBroken`, `RepairAround` and `RepairOnlyRemovesSpaces` |
| `Spacing.PadAndRepair` | preprocess.py:84-92 | padding then repair; see `PlaceholderSurvives`, `PadAndRepairCompact` and `PadAndRepairSpaceBefore` |
| `Spacing.PadAppend` | preprocess.py:84-88 | padding works character by character, so it distributes over concatenation |
| `Spacing.PadSurrounds` | preprocess.py:84-88 | in padded text every character outside the exempt class has a space on each side |
| `Spacing.PadOnlyAddsSpaces` | preprocess.py:84-88 | padding only inserts spaces |
| `Spacing.PadExemptIdentity` | preprocess.py:84-88 | text made of exempt characters is not padded |
| `Spacing.PadToken` | preprocess.py:84-88 | a spaced placeholder is padded into the broken token with two spaces on each side |
| `Spacing.RepairBroken` | preprocess.py:90-92 | the three repairs turn each broken token back into the unbroken one |
| `Spacing.CompactUntouched` | preprocess.py:90-92 | no repair changes an unbroken token |
| `Spacing.BrokenUntouched` | preprocess.py:90-92 | the repair for one placeholder leaves the other broken tokens alone |
| `Spacing.RepairAround` | preprocess.py:90-92 | the repairs act separately on each side of a block framed by two spaces |
| `Spacing.RepairPadded` | preprocess.py:84-92 | repair after padding restores a placeholder and repairs each side independently |
| `Spacing.PadAndRepairToken` | preprocess.py:84-92 | a placeholder on its own comes out of padding and repair with one more space on each side |
| `Spacing.PlaceholderSurvives` | preprocess.py:64-92 | a placeholder written by the substitution stage comes out of padding and repair unbroken, with the text around it treated as if it were absent |
| `Spacing.RepairOnlyRemovesSpaces` | preprocess.py:90-92 | the repairs only delete spaces |
| `Spacing.PadAndRepairSpaceBefore` | preprocess.py:84-92 | after padding and repair every padded character other than a bracket has a space right before it |
| `Spacing.RepairInsideSpaces` | preprocess.py:90-92 | the repairs act inside a single space on each side |
| `Spacing.PadCompact` | preprocess.py:84-88 | an unbroken placeholder is padded into the broken token with one space on each side |
| `Spacing.PadAndRepairCompact` | preprocess.py:84-92 | an unbroken placeholder comes out of padding and repair as the spaced placeholder |
| `Digits.SplitRunsFrom` | preprocess.py:95-99 | one separation pass from a position; see `SplitRunsSeparates`, `SplitRunsKeeps`, `SplitRunsOnlyAddsSpaces` and `SplitRunsIdentity` |
| `Digits.SplitRuns` | preprocess.py:95-99 | one separation pass over the whole text, with the same lemmas |
| `Digits.SeparateDigits` | preprocess.py:94-104 | both passes; see `SeparateDigitsSeparates`, `SeparateDigitsOnlyAddsSpaces` and `SeparateDigitsIdentity` |
| `Digits.SplitRunsSeparates` | preprocess.py:95-104 | after a separation pass no character of the first class is followed by one of the second |
| `Digits.SplitRunsKeeps` | preprocess.py:95-104 | a separation pass creates no pair in the opposite order |
| `Digits.SeparateDigitsSeparates` | preprocess.py:94-104 | after both passes no digit is next to an Arabic letter, in either order |
| `Digits.SplitRunsOnlyAddsSpaces` | preprocess.py:95-104 | a separation pass only inserts spaces |
| `Digits.SeparateDigitsOnlyAddsSpaces` | preprocess.py:94-104 | both passes together only insert spaces |
| `Digits.SplitRunsSpaceBefore` | preprocess.py:95-99 | a separation pass keeps a space right before every copy of a character outside both classes |
| `Digits.SeparateDigitsSpaceBefore` | preprocess.py:94-104 | both passes keep a space right before every copy of a character that is neither a digit, an Arabic letter nor a space |
| `Digits.SplitRunsIdentity` | preprocess.py:95-99 | a pass over text lacking one of the two classes changes nothing |
| `Digits.SeparateDigitsIdentity` | preprocess.py:94-104 | text without digits is unchanged by both passes |
| `Filtering.Filter` | preprocess.py:106-111 | the filter keeps the length of the text |
| `Filtering.FilterAt` | preprocess.py:106-111 | at each position an accepted character is kept and any other becomes a space |
| `Filtering.FilterAccepted` | preprocess.py:106-111 | every character the filter writes is accepted |
| `Filtering.FilterIdentity` | preprocess.py:111 | text of accepted characters is unchanged |
| `Filtering.FilterIdempotent` | preprocess.py:111 | filtering twice is filtering once |
| `Filtering.FilterNoEmojis` | preprocess.py:106-111 | keeping emojis with an empty emoji table filters exactly as not keeping them |
| `Filtering.FilterSpaceBefore` | preprocess.py:106-111 | the filter keeps a space right before every copy of a character other than the space |
| `Whitespace.WordsFrom` | preprocess.py:113 | `split()` from a position; see `WordsAreWords`, `WordsConcat` and `WordsSkip` |
| `Whitespace.Words` | preprocess.py:113 | `split()`; see `WordsAreWords`, `WordsJoin` and `WordsConcat` |
| `Whitespace.Join` | preprocess.py:113 | `" ".join`; see `JoinWellSpaced` and `JoinConcat` |
| `Whitespace.Normalize` | preprocess.py:113 | the last step; see `NormalizeKeeps`, `NormalizeIdempotent` and `NormalizeFramed` |
| `Whitespace.WordsAreWords` | preprocess.py:113 | every field of `split()` is non-empty and holds no whitespace |
| `Whitespace.JoinWellSpaced` | preprocess.py:113 | joining such fields gives well-spaced text |
| `Whitespace.WordsJoin` | preprocess.py:113 | splitting joined fields gives the fields back |
| `Whitespace.WellSpacedFixed` | preprocess.py:113 | well-spaced text is unchanged by split and join |
| `Whitespace.NormalForm` | preprocess.py:113 | split and join leave a text unchanged exactly when it is well spaced |
| `Whitespace.WordsConcat` | preprocess.py:113 | the fields, concatenated, are the text without its whitespace |
| `Whitespace.JoinConcat` | preprocess.py:113 | joining adds only spaces between fields |
| `Whitespace.NormalizeKeeps` | preprocess.py:113 | the final step keeps every non-whitespace character other than U+FE0F, in order; its result is well spaced and has no U+FE0F |
| `Whitespace.NormalizeIdempotent` | preprocess.py:113 | applying the final step again changes nothing |
| `Whitespace.WordsSkip` | preprocess.py:113 | `split()` skips a stretch of whitespace |
| `Whitespace.NormalizeFramed` | preprocess.py:113 | one word framed by whitespace, without U+FE0F, normalises to itself |

## Left out

- HTML entity decoding (`html.unescape`, line 57) is a parameter of the model, a function on strings. Its entity table is not part of this model.
- `str(text)` (line 56) is not modelled: the input is already a string.
- The URL, e-mail and mention tables (lines 133-145) are opaque matchers. A matcher gives a match length at each position, with 0 meaning no match. Their backtracking semantics are not modelled: lookaheads, `\b`, Unicode `\w`, and the delimited pattern at line 135. Each pattern matches at least one character whenever it matches, so reading 0 as "no match" loses nothing. A length running past the end of the text is read as no match.
- The emoji table (lines 26-29 and 107-108) is an abstract set of characters. The class built from its joined keys is taken to mean "one of those code points". A key that happened to contain `-`, `]` or `\` would change the class; this is not modelled.
- `araby.strip_tashkeel` and `araby.strip_tatweel` (lines 60 and 62) belong to an external library that is not part of this model. They are modelled as deleting U+064B-U+0652 and U+0640.
- `\d` and `\D` are modelled as the decimal digits of the Basic Multilingual Plane. Digits beyond U+FFFF are left out.
- The warning logged for a language other than Arabic (line 22) is left out, and so is the import of the emoji package (line 27).
- The commented-out Farasa segmentation (lines 17, 30-44 and 115-126) is not code, so it is left out.
- Update in place and aliasing do not arise: every stage builds a new string, as Python strings are immutable.
