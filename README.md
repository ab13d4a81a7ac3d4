# Slug: a verified model of slug derivation

This project models the core of the `slug` Ruby gem. An ActiveRecord model
declares a source column, for example `headline`. Before a record is created,
`set_slug` fills the slug column from the source in three stages, each of which
rewrites the column in turn:

- `strip_diacritics_from_slug` replaces each letter that the frozen
  `ASCII_APPROXIMATIONS` table lists with its ASCII substitute. It drops
  combining marks (U+0300..U+036F) and keeps every other code point.
- `normalize_slug` applies six rewrites in order:
  - lower-case the text;
  - strip white space at the start, and white space and NUL characters at the end;
  - delete everything outside `[a-z0-9\s-]`;
  - turn each run of white space into one dash;
  - remove one trailing dash;
  - collapse each run of dashes into one.
- `assign_slug_sequence` appends `-n` when the slug is already taken. The
  comment at lib/slug/slug.rb:106-107 and the tests describe `n` as the first
  free instance of the base: the second instance gets `-1`, the thirteenth
  `-12`.
  - That exact-match search is the sequencer the model uses.
  - The code as written takes `n` from a row that a prefix query returns
    instead, which can sequence a value that is free. The first row under
    "## Findings" shows this.

`set_slug` first checks that both columns exist and raises `ArgumentError` if
not. It leaves a slug that is already set alone unless `force` is given. It
does not sequence a recomputed slug that equals the slug it replaces.
`reset_slug` is `set_slug` with `force`.

The model follows Rails 4 (ActiveSupport and ActiveModel 4) on Ruby 2.2 or
later. lib/slug.rb:4-5 requires Rails 4.
- `strip!` is `String#strip!`: the multibyte proxy of Rails 4 passes it on to
  the string.
- `blank?` is true of text made only of Unicode white space.
- `\s` is the ASCII white space, vertical tab included.
- lib/slug/slug.rb:19, 32 and 116 call `class_inheritable_accessor`,
  `before_validation_on_create` and `find(:first, :conditions => ...)`. These
  come from older Rails and are not in Rails 4. That wiring is not modelled.
- ActiveModel 4 refuses the line-anchored format regex of lib/slug/slug.rb:31
  when the class is declared. The second row under "## Findings" says what
  the regex does where it is accepted.

The modules follow the source:

- `SlugText` holds blank values, slug characters and decimal numerals.
- `AsciiApproximations` holds the table.
- `Diacritics` holds the stripper: a loop appending to an accumulator, proved
  against the fold `Stripped`.
- `Normalizer` holds the six rewrites and their properties.
- `Sequencer` holds the search for the first free instance, and the prefix
  query as it is written.
- `Slug` holds the record: a class whose `slug` field every stage rewrites.
  The `respond_to?` checks are two flags. The value `send(slug_source)`
  returns is a field. The slugs already stored in the table are a parameter.
- `SlugExamples` and `SlugScenarios` hold the concrete cases of
  `test/slug_test.rb`, proved from the general lemmas.

Values are Dafny `string`s. A `char` is a Unicode scalar value, which is what
`unpack('U*')` yields. A column holding `nil` is `None`.

## Model

| member | source | states |
|---|---|---|
| AsciiApproximations.Approximation | lib/slug/ascii_approximations.rb:3-13 | every substitute in the table is one or two ASCII letters |
| AsciiApproximations.ApproximationKeys | lib/slug/ascii_approximations.rb:3-13 | exactly the nine code points 198, 208, 216, 222, 223, 230, 240, 248 and 254 have a substitute |
| AsciiApproximations.NoKeyIsCombiningMark | lib/slug/ascii_approximations.rb:4-12 | no key lies in U+0300..U+036F, so the table lookup and the mark removal never compete |
| AsciiApproximations.LatinSubstitutes | lib/slug/ascii_approximations.rb:4-12 | Æ/æ give AE/ae, Ð/ð give D/d, Ø/ø give O/o, Þ/þ give Th/th, ß gives ss |
| Diacritics.StripDiacritics | lib/slug/slug.rb:93-102 | the `inject` loop returns the fold of `Emit` over the code points |
| Diacritics.StrippedConcat | lib/slug/slug.rb:94-101 | stripping works code point by code point: it distributes over concatenation |
| Diacritics.StrippedSnoc | lib/slug/slug.rb:94-100 | one more code point appends exactly what `Emit` gives for it |
| Diacritics.StrippedCons | lib/slug/slug.rb:95-99 | a table key becomes its substitute, a combining mark disappears, any other code point is kept in place |
| Diacritics.StrippedIdentity | lib/slug/slug.rb:97-98 | text with no table key and no combining mark comes out unchanged |
| Diacritics.AsciiIsPlain | lib/slug/slug.rb:97-98 | pure ASCII comes out unchanged |
| Diacritics.StrippedIsPlain | lib/slug/slug.rb:94-101 | the output holds no table key and no combining mark |
| Diacritics.StrippedIdempotent | lib/slug/slug.rb:90-104 | stripping twice is stripping once |
| Normalizer.DowncaseSpec | lib/slug/slug.rb:79 | `downcase!` keeps the length, leaves no capital, and changes only capitals, each to its small letter |
| Normalizer.TrimLeadingSpec | lib/slug/slug.rb:80 | the leading white space is removed and nothing else |
| Normalizer.TrimTrailingSpec | lib/slug/slug.rb:80 | the trailing run of white space and NUL characters is removed and nothing else |
| Normalizer.StripSpec | lib/slug/slug.rb:80 | `strip!` leaves the part between a leading run of white space and a trailing run of white space and NUL; that part neither starts with white space nor ends with white space or NUL |
| Normalizer.StripAround | lib/slug/slug.rb:80 | white space before, and white space and NUL after, text that does not start or end with them is exactly what `strip!` removes |
| Normalizer.DeleteDisallowedKeeps | lib/slug/slug.rb:81 | the deletion keeps exactly the characters in `[a-z0-9\s-]`, and text made only of those is unchanged |
| Normalizer.DeleteDisallowedConcat | lib/slug/slug.rb:81 | the deletion works character by character |
| Normalizer.DashSpaceRunsAlphabet | lib/slug/slug.rb:82 | after the white-space rewrite no white space is left, and every character is a dash or came from the input |
| Normalizer.DashSpaceRunsIdentity | lib/slug/slug.rb:82 | text with no white space is unchanged |
| Normalizer.SpaceRunToDash | lib/slug/slug.rb:82 | a maximal run of white space becomes a single dash |
| Normalizer.CollapseDashesNoDoubleDash | lib/slug/slug.rb:84 | after the collapse no two dashes are adjacent |
| Normalizer.CollapseDashesChars | lib/slug/slug.rb:84 | the collapse adds no character that was not there |
| Normalizer.CollapseDashesIdentity | lib/slug/slug.rb:84 | text with no two adjacent dashes is unchanged |
| Normalizer.DashRunToDash | lib/slug/slug.rb:84 | a maximal run of dashes becomes one dash |
| Normalizer.NormalizedIsSlugText | lib/slug/slug.rb:79-84 | a normalized value holds only `a-z`, `0-9` and `-`, with no two adjacent dashes |
| Normalizer.NormalizedFixesCleanSlug | lib/slug/slug.rb:79-84 | slug text with no double dash and no trailing dash is left as it is |
| Normalizer.SlugCharsPassThrough | lib/slug/slug.rb:79-82 | the first four rewrites leave slug text as it is |
| Normalizer.NormalizedTwice | lib/slug/slug.rb:79-84 | normalizing a normalized value only removes its trailing dash, if any: idempotence fails exactly on results that end in a dash |
| Normalizer.NormalizedPadded | lib/slug/slug.rb:80 | white space around the value makes no difference |
| Normalizer.NormalizedSpaceRun | lib/slug/slug.rb:81-82 | two clean words around a run of white space are joined by one dash |
| Normalizer.NormalizedSlugChars | lib/slug/slug.rb:83-84 | on slug text with no trailing dash, normalizing is collapsing the dash runs |
| Normalizer.NormalizedTrailingDash | lib/slug/slug.rb:83 | one trailing dash after a clean slug is removed |
| Normalizer.NormalizedWords | lib/slug/slug.rb:79-84 | words separated by single spaces become their downcased, punctuation-free forms joined by dashes |
| SlugText.DecimalRoundTrip | lib/slug/slug.rb:111 | reading back the numeral `#{idx}` writes gives the number |
| SlugText.DecimalStringInjective | lib/slug/slug.rb:111 | distinct numbers give distinct suffixes |
| Sequencer.CandidateInjective | lib/slug/slug.rb:111 | distinct instance numbers give distinct slugs |
| Sequencer.LeastFreeUnique | lib/slug/slug.rb:106-107 | there is only one first free instance |
| Sequencer.NextSlugSequence | lib/slug/slug.rb:106-107 | the loop returns the first free instance, which is at most the number of stored slugs |
| Sequencer.RunOfInstances | lib/slug/slug.rb:106-107 | with instances 0 to n - 1 stored, instance n is the first free one |
| Sequencer.PartialMatchIsFree | test/slug_test.rb:251-257 | a stored "rap-metal" does not make "rap" taken |
| Sequencer.NumericBaseThird | test/slug_test.rb:239-243 | with "11111" and "11111-1" stored, the third gets "11111-2" |
| Sequencer.ThirteenthInstance | test/slug_test.rb:259-267 | with twelve instances stored, the thirteenth gets "-12" |
| Sequencer.LeadingDigits | lib/slug/slug.rb:121 | `\d+` takes the longest run of digits at the front |
| Sequencer.RegexReadsInstance | lib/slug/slug.rb:121-122 | the regex reads back the instance number of an instance |
| Sequencer.PartialMatchSequenced | lib/slug/slug.rb:115-125 | the prefix query as written answers 1 for "rap" beside "rap-metal", although "rap" is free |
| Sequencer.LikeQueryOnInstances | lib/slug/slug.rb:115-125 | when the query returns the highest stored instance, its answer is the first free instance |
| Slug.SluggedRecord.ValidateSlugColumns | lib/slug/slug.rb:69-72 | the source column is checked first, then the slug column; no error exactly when both exist |
| Slug.SluggedRecord.StripDiacriticsFromSlug | lib/slug/slug.rb:90-104 | a blank column is left alone; any other is replaced by its stripped form |
| Slug.SluggedRecord.NormalizeSlug | lib/slug/slug.rb:76-86 | a blank column is left alone; any other goes through the six rewrites in order |
| Slug.SluggedRecord.AssignSlugSequence | lib/slug/slug.rb:108-112 | a blank column is left alone; any other becomes its first free instance |
| Slug.SluggedRecord.SetSlug | lib/slug/slug.rb:40-50 | a missing column raises before anything changes; otherwise the column is kept, recomputed, or recomputed and sequenced, as the guards at lines 42 and 49 say |
| Slug.SluggedRecord.ResetSlug | lib/slug/slug.rb:53-55 | `set_slug` with `force`, errors included |
| Slug.KeepsSlugWithoutForce | lib/slug/slug.rb:42 | without `force` a slug that is set is never replaced |
| Slug.ResetKeepsUnchangedSlug | lib/slug/slug.rb:49 | when the recomputed value equals the current slug, the slug is kept even though it is itself stored |
| Slug.SequencedFromUnique | lib/slug/slug.rb:108-112 | the sequenced value is determined |
| Slug.SequencedSlugShape | lib/slug/slug.rb:106-112 | a free value gets no suffix; a taken one gets "-n" with n >= 1; the result is not taken |
| Slug.SetSlugAvoidsTaken | lib/slug/slug.rb:40-50 | the stored slug is the old one, or blank, or not taken |
| Slug.SetSlugStoresLeastFree | lib/slug/slug.rb:40-50 | when a new value replaces the slug, the stored slug is exactly its first free instance |
| Slug.FormatRegexOnOneLine | lib/slug/slug.rb:31 | a value in slug format matches the regex; on one-line values the two agree |
| Slug.FormatRegexAcceptsSecondLine | lib/slug/slug.rb:31 | the line-anchored regex accepts a value whose second line is invalid |
| Slug.CandidateFormat | lib/slug/slug.rb:111 | appending "-n" to a value in slug format keeps it in slug format |
| Slug.SetSlugIsValid | lib/slug/slug.rb:29-31 | a new non-blank slug passes the presence, uniqueness and format validations |
| SlugExamples.AcaiExample | test/slug_test.rb:210-214 | decomposed "açaí" becomes "acai" |
| SlugExamples.TableLettersExample | test/slug_test.rb:216-224 | ÆÐØ, Þßæ and ðøþ become "AEDO", "Thssae" and "doth" |
| SlugExamples.LowercasesExample | test/slug_test.rb:126-130 | "AbC" becomes "abc" |
| SlugExamples.SpaceExample | test/slug_test.rb:132-136 | "a b" becomes "a-b" |
| SlugExamples.TwoSpacesExample | test/slug_test.rb:138-142 | "a  b" becomes "a-b" |
| SlugExamples.TrailingSpaceExample | test/slug_test.rb:150-154 | "ab " becomes "ab" |
| SlugExamples.LeadingSpaceExample | test/slug_test.rb:156-160 | " ab" becomes "ab" |
| SlugExamples.TrailingDashExample | test/slug_test.rb:162-166 | "ab-" becomes "ab" |
| SlugExamples.LeadingDashExample | test/slug_test.rb:168-172 | "-ab" keeps its leading dash |
| SlugExamples.DoubleDashesExample | test/slug_test.rb:174-178 | "a--b--c" becomes "a-b-c" |
| SlugExamples.ValidSlugExample | test/slug_test.rb:180-184 | "a-b-c-d" is left as it is |
| SlugExamples.AcronymsExample | test/slug_test.rb:186-190 | "N.Y.P.D. vs. N.S.A. vs. F.B.I." becomes "nypd-vs-nsa-vs-fbi" |
| SlugExamples.ApostropheExample | test/slug_test.rb:192-196 | "Thomas Jefferson's Papers" becomes "thomas-jeffersons-papers" |
| SlugExamples.NumbersExample | test/slug_test.rb:198-202 | "2010 Election" becomes "2010-election" |
| SlugExamples.HeadlineExample | test/slug_test.rb:11-14 | "Test Headline" becomes "test-headline" |
| SlugExamples.PunctuationExample | test/slug_test.rb:144-148 | the punctuation title `abc!@#$%^&*•¶§∞¢££¡¿()><?""':;][]\.,/` comes through the stripper unchanged and normalizes to "abc" |
| SlugExamples.NothingLeftExample | test/slug_test.rb:51-55 | "$$$" normalizes to the empty string |
| SlugExamples.TrailingNulExample | lib/slug/slug.rb:80-83 | "ab- \0" becomes "ab": `strip!` removes the trailing NUL, so the dash is last and is removed |
| SlugExamples.NotIdempotentExample | lib/slug/slug.rb:83-84 | "ab --" becomes "ab-", and normalizing that again gives "ab" |
| SlugScenarios.FirstInstanceScenario | test/slug_test.rb:228-231 | the first "Test Headline" is stored as "test-headline" |
| SlugScenarios.SecondInstanceScenario | test/slug_test.rb:233-237 | the second is stored as "test-headline-1" |
| SlugScenarios.NumericThirdScenario | test/slug_test.rb:239-243 | the third "11111" is stored as "11111-2" |
| SlugScenarios.PartialMatchScenario | test/slug_test.rb:251-257 | "Rap" beside "rap-metal" is stored as "rap" |
| SlugScenarios.ThirteenthInstanceScenario | test/slug_test.rb:259-263 | the thirteenth "Test Headline" is stored as "test-headline-12" |
| SlugScenarios.PresetSlugScenario | test/slug_test.rb:88-91 | a slug given on creation is kept |
| SlugScenarios.MissingSourceScenario | test/slug_test.rb:45-49 | with no source value the slug stays blank and fails validation |
| SlugScenarios.NothingLeftScenario | test/slug_test.rb:51-55 | "$$$" leaves an empty slug, which fails validation |
| SlugScenarios.BadFormatScenario | test/slug_test.rb:63-69 | "A BAD $LUG." fails the format validation |
| SlugScenarios.TakenSlugScenario | test/slug_test.rb:71-78 | a slug another row holds fails the uniqueness validation |
| SlugScenarios.ResetUnchangedScenario | test/slug_test.rb:100-103 | resetting with the source unchanged keeps the slug |
| SlugScenarios.ResetChangedScenario | test/slug_test.rb:105-109 | resetting after the source became "donkey" changes the slug |
| SlugScenarios.ResetSequencesScenario | test/slug_test.rb:111-116 | resetting to "world cup" beside a stored "world-cup" gives "world-cup-1" |
| SlugScenarios.ResetMovesSequencedSlug | lib/slug/slug.rb:49 | resetting "world-cup-1" with its source unchanged moves it to "world-cup-2": the guard compares the unsequenced value with the stored, sequenced slug, and that slug counts as taken |

## Left out

- Unicode normalization is a foreign library and is not modelled. NFKD runs before stripping, and the stripper takes its input as already decomposed. NFKC runs before normalizing, and the normalizer treats it as the identity.
- Slug.SluggedRecord.StripDiacriticsFromSlug: is stated on the decomposed value, not on the raw source text, because NFKD is not modelled.
- Slug.SluggedRecord.NormalizeSlug: does not apply NFKC before lower-casing, because NFKC is not modelled.
- `downcase!` is modelled on ASCII capitals only. Unicode case mapping of other letters is not modelled. After stripping, the only other letters left are ones the table does not list, and the deletion step then removes them.
- White space for `\s` and `strip!` is the ASCII set: tab, line feed, vertical tab, form feed, carriage return and space.
  - `strip!` also removes NUL characters at the end, as `String#strip` does.
  - NUL characters at the start are kept: some Ruby versions also strip them there, and the model does not.
  - `blank?` uses the same white-space set plus the Unicode spaces it recognises.
- The SQL query at lib/slug/slug.rb:116-117 depends on the database.
  - Which row `find(:first, ...)` returns under `ORDER BY CAST(REPLACE(...))` is not modelled. `IsLikeQueryRow` allows any stored slug that starts with the base.
  - The sequencer the record uses is the exact-match search that the comment at lib/slug/slug.rb:106-107 and the tests describe.
- The Rails wiring at lib/slug/slug.rb:18-33 is not modelled: `class_inheritable_accessor`, the `:column` option, `validates_uniqueness_if` and `before_validation_on_create`.
  - The three validations are kept as the predicate `ValidSlug`.
  - The tests of the `:column` option, of `validates_uniqueness_if` and of single table inheritance (test/slug_test.rb:16-30, 80-86, 245-249) exercise that wiring and have no counterpart in the model.
- `respond_to?` and `send` are two boolean flags and a source field. A source that is not a string is not modelled.
- `to_param` only reads the column and is not modelled.
- The race between computing a sequence and saving the row is a concurrency matter and is not modelled. So is uniqueness enforced by the database.
- The full Latin-1 test string at test/slug_test.rb:216-224 is not reproduced, because its accented letters depend on NFKD. `TableLettersExample` covers the nine letters that have no decomposition and go through the table.

## Findings

| source | as written | input that shows it | evidently intended | confidence | as-written member | corrected member |
|---|---|---|---|---|---|---|
| lib/slug/slug.rb:115-125 | the sequence is the number after `base-` in a row that the prefix query `LIKE 'base%'` returns, plus one, or 0 with no row | stored slugs {"rap-metal"}, new slug "rap": the only row is "rap-metal", the regex finds no number, and the answer is 1, so "rap-1" | the first free instance, "rap" (lib/slug/slug.rb:106-107, test/slug_test.rb:251-257) | not executed | Sequencer.PartialMatchSequenced | Sequencer.NextSlugSequence |
| lib/slug/slug.rb:31 | `/^[a-z0-9-]+$/`, whose anchors match at line boundaries in Ruby. ActiveModel 4, which lib/slug.rb:4-5 requires, raises `ArgumentError` for such a regex without `multiline: true` when the class is declared. Only earlier ActiveModel accepts the regex and validates with it | "ok\nA BAD $LUG." matches the regex on its first line, so earlier ActiveModel passes the format validation. Under ActiveModel 4 no value reaches the validation | the whole value in `[a-z0-9-]+` (`\A...\z`), which every version accepts | not executed; the ActiveModel 4 refusal is taken from its documented behaviour and not modelled | Slug.FormatRegexAcceptsSecondLine | Slug.SetSlugIsValid |
