# Speech-friendly text formatting, in Dafny

This project models the speech formatting module of the Alfred voice agent,
`agent/src/speech_utils.py`. The module rewrites text so that a text-to-speech
engine reads it naturally. It has three parts:

- **Markdown stripping** (`strip_markdown_for_tts`) removes emphasis markers,
  code backticks and link syntax. It then turns score-like ranges such as
  `30-23` into `30 to 23`, so the engine does not say "minus". The pipeline is
  nine regular-expression substitutions run in a fixed order.
- **Ordinal words** (`number_to_ordinal_word`) spell a number as an ordinal.
  Values 1 to 31 come from a table. A round ten from 40 to 90 is its tens word
  followed by `th`. Any other value from 32 to 99 is its tens word, a hyphen and
  the table entry for its ones digit. Values from 100 up become the numeral
  followed by `th`, and 0 becomes the bare `th`.
- **Date and time phrases** (`format_date_speech_friendly`,
  `format_time_speech_friendly`):
  - A date is read as "Thursday, March sixth, 2025".
  - A time is read as "3 PM", "3:30 PM", "noon" or "midnight".

The whole module is pure, so the model is made of functions and lemmas:

| file | module | models |
|---|---|---|
| `options.dfy` | `Options` | the optional-value type |
| `numerals.dfy` | `Numerals` | decimal rendering of naturals (`{n}` in an f-string) and two-digit padding (`{m:02d}`) |
| `markdown_strip.dfy` | `MarkdownStrip` | each substitution as a left-to-right scan, and their composition `Strip` |
| `ordinal_words.dfy` | `OrdinalWords` | `OrdinalWord`, the ordinal function as written, and `FixedOrdinalWord`, its corrected form |
| `speech_time.dfy` | `SpeechTime` | the calendar record `Timestamp`, `DateSpeech` and `TimeSpeech`, plus a reader `ReadTime` that inverts `TimeSpeech` |

How each substitution is modelled:

- Each scan replaces the leftmost match, resumes after it, and never overlaps
  two matches, as Python's `re.sub` does.
- The non-greedy `(.+?)` of the emphasis and code passes takes the shortest
  non-empty content, free of line breaks, that reaches the closing delimiter.
- The range pass's `\d+` is greedy.
- The standalone-marker passes judge `(?<!\w)` and `(?!\w)` against the text
  as it stands when that pass runs.
- `\w` and `\d` are taken in their ASCII sense.

## Model

| member | source | states |
|---|---|---|
| MarkdownStrip.Strip | agent/src/speech_utils.py:13-14 | empty text is returned unchanged, before any substitution runs |
| MarkdownStrip.Unmarked | agent/src/speech_utils.py:18-32 | the eight passes before the range rewrite, in the source's order; no contract of its own, `UnmarkedDeletes` states what it does |
| MarkdownStrip.StripPair | agent/src/speech_utils.py:18-24 | one emphasis or code pass; no contract of its own, carried by `PairAtShortest`, `StripPairCounts`, `StripPairWrapped`, `StripPairPrefix`, `StripPairLone` and `StripPairUntouched` |
| MarkdownStrip.LazyCloseShortest | agent/src/speech_utils.py:18 | the non-greedy search finds the shortest content (at least one character, no line break) that the closing delimiter follows, and finds nothing exactly when no such content exists |
| MarkdownStrip.PairAtShortest | agent/src/speech_utils.py:18-24 | a match at a position opens with the delimiter and closes at the first possible place; no match means no opening delimiter or no closing one |
| MarkdownStrip.StripPairCounts | agent/src/speech_utils.py:18-24 | each emphasis and code pass only deletes copies of its marker character: every other character keeps its count, and the text never grows |
| MarkdownStrip.StripPairWrapped | agent/src/speech_utils.py:18-21 | a delimiter-wrapped run free of the marker and of line breaks is replaced by the run itself, and the scan resumes after the closing delimiter |
| MarkdownStrip.StripPairUntouched | agent/src/speech_utils.py:18-24 | a pass leaves text without its marker character unchanged |
| MarkdownStrip.StripPairPrefix | agent/src/speech_utils.py:18-24 | a pass copies a prefix free of its marker character and goes on after it |
| MarkdownStrip.StripPairLone | agent/src/speech_utils.py:18-19 | a bold pass finds no match in a lone marker, a span free of it and a lone marker, so `*w*` and `_w_` survive to the italic passes |
| MarkdownStrip.StripLinks | agent/src/speech_utils.py:27 | the link pass; no contract of its own, carried by `LinkAtMatches`, `StripLinksAtLink`, `StripLinksNoLink`, `StripLinksCounts`, `StripLinksWrapped` and `StripLinksUntouched` |
| MarkdownStrip.SpanUntilStops | agent/src/speech_utils.py:27 | the span holds no stop character, and ends at one unless it reaches the end of the text |
| MarkdownStrip.LinkAt | agent/src/speech_utils.py:27 | a link found at the start of the text has a non-empty label and target and fits inside the text; what it matches is stated by `LinkAtMatches` |
| MarkdownStrip.LinkAtMatches | agent/src/speech_utils.py:27 | the link pattern matches at a position exactly when a non-empty label free of `]` and a non-empty target free of `)` follow in `[label](target)` form, and then that link is the only one it can match |
| MarkdownStrip.StripLinksAtLink | agent/src/speech_utils.py:27 | wherever the text starts with a `[label](target)` in the sense of `IsLinkAt`, the pass emits the label and resumes after the `)` |
| MarkdownStrip.StripLinksNoLink | agent/src/speech_utils.py:27 | where no `[label](target)` in the sense of `IsLinkAt` starts the text, the pass copies the first character and moves on by one |
| MarkdownStrip.StripLinksCounts | agent/src/speech_utils.py:27 | the link pass only deletes characters: no character count grows, nor the length |
| MarkdownStrip.StripLinksWrapped | agent/src/speech_utils.py:27 | a `[label](target)` link is replaced by its label, and the scan resumes after the `)` |
| MarkdownStrip.StripLinksUntouched | agent/src/speech_utils.py:27 | text without `[` is left unchanged by the link pass |
| MarkdownStrip.DropStandalone | agent/src/speech_utils.py:31-32 | one standalone-marker pass; no contract of its own, carried by `DropStandaloneExactly` and `DropStandaloneCounts` |
| MarkdownStrip.DropStandaloneExactly | agent/src/speech_utils.py:31-32 | for every text, the pass equals the text filtered of exactly those copies of the marker with no word character immediately before or after them, at the ends of the text as well as inside it; everything else keeps its order |
| MarkdownStrip.DropStandaloneCounts | agent/src/speech_utils.py:31-32 | each standalone-marker pass deletes copies of its marker only |
| MarkdownStrip.DropStandaloneSpaced | agent/src/speech_utils.py:31-32 | a marker with a space on each side is deleted and the spaces are kept |
| MarkdownStrip.DropStandaloneAfterWord | agent/src/speech_utils.py:31-32 | a marker right after a word character is kept, as in `snake_case` |
| MarkdownStrip.DropStandaloneBeforeWord | agent/src/speech_utils.py:31-32 | a marker right before a word character is kept, as in `_private` or `*word` |
| MarkdownStrip.DropStandaloneUntouched | agent/src/speech_utils.py:31-32 | text without the marker is left unchanged |
| MarkdownStrip.RewriteRanges | agent/src/speech_utils.py:35 | the range pass; no contract of its own, carried by `RangeAt`, `RewriteRangesLength`, `RewriteRangesKeeps`, `RewriteRangesAt`, `RewriteRangesPrefix` and `RewriteRangesUntouched` |
| MarkdownStrip.RangeAt | agent/src/speech_utils.py:35 | the range pattern matches at a position exactly when digits, `-`, digits follow; the second digit run is greedy and ends at a non-digit or at the end |
| MarkdownStrip.RewriteRangesLength | agent/src/speech_utils.py:35 | the range pass removes hyphens only, and each removed hyphen lengthens the text by exactly three characters (`-` becomes ` to `) |
| MarkdownStrip.RewriteRangesKeeps | agent/src/speech_utils.py:35 | the range pass keeps the count of every character other than `-`, space, `t` and `o` |
| MarkdownStrip.RewriteRangesAt | agent/src/speech_utils.py:35 | `a-b` between two digit runs, not followed by a digit, becomes `a to b`, and the scan resumes after `b` |
| MarkdownStrip.RangeAtSpelled | agent/src/speech_utils.py:35 | on `a-b` followed by a non-digit or the end, the pattern matches exactly the two digit runs `a` and `b` |
| MarkdownStrip.RewriteRangesSkip | agent/src/speech_utils.py:35 | a non-digit is copied and the scan moves on by one character |
| MarkdownStrip.RewriteRangesPrefix | agent/src/speech_utils.py:35 | the range pass copies a prefix that has no hyphen and does not end in a digit, and goes on after it |
| MarkdownStrip.RewriteRangesUntouched | agent/src/speech_utils.py:35 | text without `-` is left unchanged by the range pass |
| MarkdownStrip.StripOnlyRanges | agent/src/speech_utils.py:18-35 | text without `*`, `_`, a backtick or `[` is only subject to the range rewrite |
| MarkdownStrip.StripUntouched | agent/src/speech_utils.py:18-35 | text without `*`, `_`, a backtick, `[` or `-` passes through every stage unchanged |
| MarkdownStrip.UnmarkedDeletes | agent/src/speech_utils.py:18-32 | the eight passes before the range rewrite together only delete characters |
| MarkdownStrip.StripWithoutHyphenShrinks | agent/src/speech_utils.py:18-35 | for text without `-`, the stripped text is never longer and never holds more of any character |
| MarkdownStrip.StripBold | agent/src/speech_utils.py:18 | `**w**` strips to `w` for any non-empty `w` free of markup characters, hyphens and line breaks |
| MarkdownStrip.StripItalic | agent/src/speech_utils.py:18-21 | `*w*` and `_w_` strip to `w` for any non-empty plain `w`: the bold passes leave them to the italic passes |
| MarkdownStrip.StripCode | agent/src/speech_utils.py:24 | `` `w` `` strips to `w` for any non-empty plain `w` |
| MarkdownStrip.StripBoldThenItalic | agent/src/speech_utils.py:19-21 | `__a__ mid _b_` strips to `a mid b` for plain parts: the bold pass removes the double underscores, the italic pass the single ones |
| MarkdownStrip.StripFromLinks | agent/src/speech_utils.py:18-35 | text without emphasis or code markers is subject only to the link, standalone-marker and range passes |
| MarkdownStrip.StripLink | agent/src/speech_utils.py:27 | `[label](target)` strips to `label` for any plain label free of `]` and any target free of `)` and markers |
| MarkdownStrip.StripRange | agent/src/speech_utils.py:35 | `a-b`, with `a` and `b` digit runs, strips to `a to b` |
| MarkdownStrip.StripRangeInText | agent/src/speech_utils.py:35 | a range inside a sentence, `p a-b q`, strips to `p a to b q` when `p` and `q` hold no markup or hyphen and no digit touches the range from outside |
| MarkdownStrip.RewriteChainedRange | agent/src/speech_utils.py:35 | in `a-b-c` only the first range is rewritten, because matches do not overlap |
| MarkdownStrip.StripChainedRange | agent/src/speech_utils.py:35 | `a-b-c` strips to `a to b-c` |
| MarkdownStrip.StripBoldExample | agent/src/speech_utils.py:18 | `**bold**` strips to `bold` |
| MarkdownStrip.StripLinkExample | agent/src/speech_utils.py:27 | `[click here](http://x.com)` strips to `click here` |
| MarkdownStrip.StripScoreExample | agent/src/speech_utils.py:35 | `30-23` strips to `30 to 23` |
| MarkdownStrip.StripChainedRangeExample | agent/src/speech_utils.py:35 | `1-2-3` strips to `1 to 2-3` |
| MarkdownStrip.StripNotIdempotent | agent/src/speech_utils.py:7-37 | stripping twice differs from stripping once: `1-2-3` gives `1 to 2-3`, and stripping that again gives `1 to 2 to 3` |
| MarkdownStrip.StripItalicExample | agent/src/speech_utils.py:20 | `*italic*` strips to `italic` |
| MarkdownStrip.StripCodeExample | agent/src/speech_utils.py:24 | `` `code` `` strips to `code` |
| MarkdownStrip.StripBoldThenItalicExample | agent/src/speech_utils.py:19-21 | `__b__ and _i_` strips to `b and i` |
| MarkdownStrip.StripRangeInTextExample | agent/src/speech_utils.py:35 | `score 100-99 today` strips to `score 100 to 99 today` |
| Numerals.Decimal | agent/src/speech_utils.py:117 | the decimal numeral is a non-empty digit string that starts with `0` only for zero, has one digit exactly below 10 and two exactly from 10 to 99 |
| Numerals.ValueOfDecimal | agent/src/speech_utils.py:117 | reading the numeral back gives the number |
| Numerals.DecimalInjective | agent/src/speech_utils.py:117 | distinct numbers have distinct numerals |
| Numerals.Pad2 | agent/src/speech_utils.py:152 | the padded minute is a digit string of length exactly 2 when below 100, and reads back as the minute |
| OrdinalWords.OrdinalWord | agent/src/speech_utils.py:40-105 | the ordinal function as written; no contract of its own, carried by `OrdinalOfZero`, `OrdinalOfDay`, `OrdinalCompound`, `OrdinalRoundTen`, `OrdinalSpelledOut` and `OrdinalNumeral` |
| OrdinalWords.OrdinalOfZero | agent/src/speech_utils.py:82-98 | 0 is not in the table and has an empty tens word, so it reads as the bare `th` |
| OrdinalWords.TableSpelledOut | agent/src/speech_utils.py:43-75 | every table entry for 1 to 31 is a non-empty word of lower-case letters and hyphens |
| OrdinalWords.OrdinalOfDay | agent/src/speech_utils.py:77-78 | for 1 to 31 the result is exactly the table entry: 1 is "first", 21 "twenty-first", 31 "thirty-first" |
| OrdinalWords.TableTwenties | agent/src/speech_utils.py:64-72 | the table's 21 to 29 are "twenty-" followed by the entry for 1 to 9 |
| OrdinalWords.OrdinalCompound | agent/src/speech_utils.py:82-102 | from 21 to 99 with a non-zero ones digit, the result is the tens word, `-`, and the ordinal of the ones digit; 47 is "forty-seventh" |
| OrdinalWords.CompoundInTable | agent/src/speech_utils.py:64-72 | the table's own compound entries 21-29 and 31 follow the same tens-word, `-`, ones-ordinal rule the source computes beyond the table |
| OrdinalWords.CompoundComputed | agent/src/speech_utils.py:82-102 | from 32 to 99 with a non-zero ones digit, the computed word is the tens word, `-`, and the ordinal of the ones digit; 47 is "forty-seventh" |
| OrdinalWords.OrdinalRoundTen | agent/src/speech_utils.py:97-98 | for a round ten from 40 to 90 the result is the tens word followed by `th` |
| OrdinalWords.OrdinalSpelledOut | agent/src/speech_utils.py:77-102 | from 1 to 99 the result is non-empty and holds no digit, because the ones lookup always hits the table |
| OrdinalWords.OrdinalNumeral | agent/src/speech_utils.py:104-105 | from 100 up the result is the decimal numeral followed by `th`, and that numeral reads back as the number; 100 is "100th" |
| OrdinalWords.OrdinalRoundTenIrregular | agent/src/speech_utils.py:97-98 | 20 and 30 come out regular from the table, but 40 comes out as "fortyth", not the "-ieth" form |
| OrdinalWords.FixedOrdinalWord | agent/src/speech_utils.py:40-105 | the ordinal function with the round tens corrected; no contract of its own, carried by `FixedRoundTensRegular` and `FixedAgreesElsewhere` |
| OrdinalWords.FixedRoundTensRegular | agent/src/speech_utils.py:97-98 | the corrected function gives the "-ieth" form for every round ten from 20 to 90 |
| OrdinalWords.FixedAgreesElsewhere | agent/src/speech_utils.py:40-105 | the corrected function agrees with the original on every input except the round tens from 40 to 90, and gives the table entry for 1 to 31 |
| SpeechTime.DateSpeech | agent/src/speech_utils.py:108-117 | the date reads as weekday name, `, `, month name, space, the table's ordinal word for the day, `, `, the year's numeral |
| SpeechTime.DateSpeechAsWritten | agent/src/speech_utils.py:115 | the date phrase is the same with the original ordinal function in place of the corrected one |
| SpeechTime.DateSpeechExample | agent/src/speech_utils.py:108-117 | Thursday 6 March 2025 reads "Thursday, March sixth, 2025" |
| SpeechTime.DateSpeechInjective | agent/src/speech_utils.py:108-117 | two timestamps with the same date phrase have the same year, month, day and weekday |
| SpeechTime.DateSpeechFields | agent/src/speech_utils.py:108-117 | two timestamps with the same date phrase have the same weekday name, month name, day ordinal and year digits |
| SpeechTime.Hour12 | agent/src/speech_utils.py:139-141 | the 12-hour value lies in 1 to 12 and agrees with the hour modulo 12 |
| SpeechTime.Period | agent/src/speech_utils.py:144 | the period is two letters ending in `M`, led by `A` exactly when the hour is below 12 and by `P` exactly when it is 12 or more |
| SpeechTime.TimeSpeech | agent/src/speech_utils.py:133-152 | "noon" exactly at 12:00 and "midnight" exactly at 0:00; any other time ends in " AM" exactly when the hour is below 12, otherwise in " PM" |
| SpeechTime.TimeSpeechColon | agent/src/speech_utils.py:147-152 | apart from noon and midnight, the phrase contains `:` exactly when the minute is non-zero |
| SpeechTime.ReadTimeSpeech | agent/src/speech_utils.py:120-152 | reading the phrase back gives the original hour and minute, so distinct times are spoken differently |
| SpeechTime.TimeSpeechNoTwelveOClock | agent/src/speech_utils.py:133-149 | "12 AM" and "12 PM" are never produced |
| SpeechTime.TimeSpeechHalfPast | agent/src/speech_utils.py:125 | 15:30 reads "3:30 PM" |
| SpeechTime.TimeSpeechOnTheHour | agent/src/speech_utils.py:124 | 15:00 reads "3 PM" |
| SpeechTime.TimeSpeechAfterMidnight | agent/src/speech_utils.py:139-152 | 0:05 reads "12:05 AM", with the minute padded to two digits |

## Left out

- `agent/src/config.py` and `agent/src/plugins/__init__.py` are not part of this model. They hold environment and file reads, logging, the wall clock and engine adapters.
- Python's Unicode `\w` and `\d` are not modelled; ASCII letters, digits and `_` stand in for them.
- A `None` text argument, which `if not text` would also return unchanged, is not modelled; texts are strings.
- The weekday is an input field of `Timestamp`; deriving it from the date, time zones, and calendar validity of day and month (such as 31 February) are not modelled.
- `strftime("%A")` and `strftime("%B")` are fixed English name tables; other locales are not modelled.
- OrdinalWords.OrdinalWord: requires `n >= 0` (0 is modelled and reads `th`). For negative numbers the source relies on Python's floor division and negative list indexing (-1 reads "ninety-ninth"), and raises an IndexError below -100; no caller passes such values.
- SpeechTime.DateSpeech: uses the corrected ordinal function (see Findings). On days 1 to 31 it provably agrees with the original (`DateSpeechAsWritten`).
- Idempotence of `Strip` is not claimed, and does not hold (`StripNotIdempotent`): `1-2-3` strips to `1 to 2-3`, which strips again to `1 to 2 to 3`.

## Findings

| source | as written | input that shows it | evidently intended | confidence | as-written member | corrected member |
|---|---|---|---|---|---|---|
| agent/src/speech_utils.py:97-98 | a round ten from 40 to 90 gets `th` appended to the cardinal tens word | 40 gives "fortyth" (likewise "fiftyth" up to "ninetyth") | "fortieth", the `-ieth` form the table already uses for "twentieth" and "thirtieth" | not executed | OrdinalWords.OrdinalRoundTenIrregular | OrdinalWords.FixedOrdinalWord |
