# Hindi Shadow Trainer — a Dafny model of its learning core

Hindi Shadow Trainer is a terminal application for learning Hindi. The learner reads a
Hindi sentence aloud. The application transcribes the recording, scores it against the
reference text, and shows which words matched. Words the learner wants to keep go into a
vocabulary store. A spaced-repetition scheduler (a simplified SM-2) then decides when each
word is due again, and a daily review session walks through the words due today.

This project models the parts of the application that decide something:

- `config.dfy` (module `Configuration`): the interface strings in Chinese and English, the
  `get_text` lookup with `str.format` placeholder filling, the current-language switch, and
  the scheduling and scoring constants.
- `srs.dfy` (module `Srs`): `calculate_next_review` and `quality_to_text`.
- `scoring.dfy` (module `Scoring`): text normalisation, the similarity score, word accuracy
  and the score bands.
- `highlighter.dfy` (module `Highlighter`): the greedy word alignment of `highlight_diff`,
  the score colour, and the status column of the comparison table.
- `database.dfy` (module `Database`): the `VocabDatabase` class over its two tables
  (vocabulary and YouTube lesson segments).
- `review.dfy` (module `Review`): the `ReviewMode` session (quality menu, prompt loop,
  review of each due word, statistics table).
- `hinditable.dfy` (module `HindiTable`) and `translator.dfy` (module `Translator`): the
  `HINDI_TO_LATIN` table, `transliterate_hindi`, the deterministic fields of
  `translate_full`, and `format_four_lines`.
- `pytext.dfy` (module `PyText`) and `wrappers.dfy`: the Python string built-ins the code
  relies on (`split`, `strip`, `' '.join`, `isspace`, ASCII `lower`,
  `string.punctuation`), and an `Option` type.

Representation choices:

- Dates are integer day numbers. `date.today()` becomes a `today` parameter.
- Scores and percentages are integers in tenths. `round(x, 1)` on the score becomes
  round-half-even on exact reals, so 100.0 is `1000`.
- Levenshtein's `ratio` comes from a C extension. It is a function parameter with values
  in [0, 1].
- The SQLite tables are maps from id to row, inside a class that also holds the two
  auto-increment counters. Methods that change the store say what they change with
  `modifies`.
- The terminal input of the review session is the sequence of lines the learner types.
  Running out of lines plays the part of `EOFError`.
- The online translators are a `Service` value: unavailable, or available with each call's
  answer or its failure.

Behaviour of the code worth knowing, which the model keeps as it is:

- The interval past the table is `int(last_interval * 1.3)`, which truncates
  (`modules/srs.py:93`). With the six-entry table that branch is never reached.
- `add_word` stores whatever it is given, empty strings included (`modules/database.py:86-90`).
- Updating or deleting an id that is not in the table changes nothing and raises nothing
  (`modules/database.py:133-139`, `181-186`).
- A rating outside 0..5 is accepted. `quality_to_text` reads it as "hard", and the
  scheduler uses it as it is (`modules/srs.py:70`, `120`).
- The docstring of `transliterate_hindi` (`modules/translator.py:54-57`) gives नमस्ते →
  namaste, but the code inserts no inherent vowels, so नमस्ते gives "nmste".

## Model

| member | source | states |
|---|---|---|
| Configuration.Text | config.py:88-94 | Without arguments the result is the language's string for the key, or the key itself when the table lacks it. |
| Configuration.UnknownLanguageFallsBack | config.py:91 | A language without a table reads the Chinese table. |
| Configuration.FormatPlain | config.py:92-93 | A template without braces is returned unchanged, whatever the arguments. |
| Configuration.FormatFillsInOrder | config.py:92-93 | The first `{}` field takes the first argument, and formatting continues with the rest. |
| Configuration.FormatMissingArgument | config.py:92-93 | A `{}` field with no argument left is an error (`IndexError`). |
| Configuration.TextFillsOneField | config.py:88-94 | A message with one field and one argument has the argument in place of the field. |
| Configuration.WordsDueMessage | config.py:75 | The English "words due" message with a count filled in. |
| Configuration.QualityLabelsEverywhere | config.py:13-78 | Every language's table, the fallback included, has the four rating labels. |
| Configuration.SameKeys | config.py:13-78 | The Chinese and English tables define the same keys. |
| Configuration.Config.constructor | config.py:86 | The language is the environment setting, or "zh" when it is unset. |
| Configuration.Config.GetText | config.py:88-94 | Without arguments: the current language's string for the key, or the key itself when that table lacks it. |
| Configuration.Config.SetLanguage | config.py:96-100 | A language with a table becomes current; any other changes nothing. |
| Configuration.IntervalsShape | config.py:126 | Six intervals, each at least one day, strictly increasing. |
| Configuration.ThresholdsOrdered | config.py:121-123 | 0 < poor < good < excellent <= 100. |
| Srs.PyIndex | modules/srs.py:88 | Python list indexing: negative indices count from the end; out of range is an error. |
| Srs.Grow | modules/srs.py:93 | `int(last * 1.3)` truncates: the result is the product rounded down, for non-negative inputs. |
| Srs.NextReview | modules/srs.py:39-101 | The next date is today plus the new interval. A rating below 3 resets to stage 0 for one day. Otherwise the stage goes up by one, capped at 5. |
| Srs.StageStaysInRange | modules/srs.py:70-101 | From a stage in 0..5 the scheduler always answers, the new stage stays in 0..5, and the interval is at least a day. |
| Srs.AlwaysAdvances | modules/srs.py:70-101 | Whenever the scheduler answers, the word is due strictly after today. |
| Srs.RememberedUsesTable | modules/srs.py:81-88 | A remembered word takes the table's interval for its new stage. |
| Srs.LastIntervalIgnored | modules/srs.py:85-95 | With the six-entry table, `last_interval` never changes the result. |
| Srs.MatureSaturates | modules/srs.py:81-95 | Stage 5 remembered again stays at stage 5 for 90 days. |
| Srs.WorkedExamples | modules/srs.py:39-101 | Concrete schedules for sample stages and ratings. |
| Srs.EasinessBranchTruncates | modules/srs.py:89-95 | With a shorter table the easiness branch grows by 1.3 and truncates (15 → 19). A missing or zero last interval falls back to the last table entry. |
| Srs.NegativeStageIndexesFromEnd | modules/srs.py:81-88 | An unchecked negative stage indexes the table from the end, until it falls off the front. |
| Srs.QualityKey | modules/srs.py:111-120 | 0-2 → forgot, 4 → good, 5 → easy, anything else → hard. |
| Srs.QualityToText | modules/srs.py:103-121 | As written: the label for the rating in the current language, whatever `lang` is. |
| Srs.QualityToTextIn | modules/srs.py:103-121 | As intended: the label in `lang`, or in the current language when `lang` is omitted. |
| Srs.QualityToTextIgnoresLang | modules/srs.py:108-121 | Asking for English while the interface is in Chinese gives the Chinese label; the corrected version gives "Good". |
| Scoring.RemovePunct | modules/scoring.py:89 | No punctuation is left, and text without punctuation is unchanged. |
| Scoring.Normalize | modules/scoring.py:74-93 | The result has collapsed whitespace, no punctuation and no upper-case ASCII letter. |
| Scoring.NormalizeIdempotent | modules/scoring.py:74-93 | Normalising twice gives the same as normalising once. |
| Scoring.LStripPunct | modules/scoring.py:97 | Removes exactly the leading run of punctuation. |
| Scoring.RStripPunct | modules/scoring.py:97 | Removes exactly the trailing run of punctuation. |
| Scoring.NormalizeWordKeepsCore | modules/scoring.py:95-97 | Punctuation around a word is removed, inner punctuation is kept, and the word is lower-cased. |
| Scoring.RoundHalfEven | modules/scoring.py:49 | The result is within one half of the value, a whole number is kept, and an exact tie goes to the even neighbour. |
| Scoring.CalculateScore | modules/scoring.py:21-49 | The score is between 0.0 and 100.0. Two empty normalised texts score 100.0; exactly one empty scores 0.0; otherwise the score is the ratio of the normalised texts times 100, rounded to one decimal. |
| Scoring.SelfScore | modules/scoring.py:21-49 | A text scored against itself gets 100.0. |
| Scoring.CountIn | modules/scoring.py:68 | The number of positions whose word occurs in the pool; hence all exactly when every word is in the pool, none exactly when no word is. |
| Scoring.HitsNormalized | modules/scoring.py:63-68 | A position counts after normalising exactly when its normalised word occurs among the normalised reference words. |
| Scoring.Rate | modules/scoring.py:71-72 | 0 without reference words; otherwise correct / total × 100 rounded to one decimal, which lies in 0.0..100.0 when correct <= total and is 100.0 when all are correct. |
| Scoring.GetWordAccuracy | modules/scoring.py:51-72 | The total is the number of reference words. The correct count is the number of attempt words whose normalised form occurs anywhere among the normalised reference words, so it is bounded by the attempt's length, not by the total. The accuracy is correct / total × 100 rounded to one decimal, 0 without reference words. |
| Scoring.GetWordAccuracyOneToOne | modules/scoring.py:51-72 | As intended: the correct count is at most the total, and the accuracy is within 0.0..100.0. |
| Scoring.RepeatedWordOvercounts | modules/scoring.py:68-72 | Reference "w" against attempt "w w" gives 2 of 1 words, 200.0%. |
| Scoring.RepeatedWordCountedOnce | modules/scoring.py:68-72 | Counted one to one, the same attempt gives 1 of 1, 100.0%. |
| Scoring.GetScoreLevel | modules/scoring.py:99-111 | Each band holds exactly the scores between its thresholds (both directions). |
| Scoring.LevelMonotone | modules/scoring.py:99-111 | A higher score never gets a lower band. |
| Highlighter.FirstFree | modules/highlighter.py:60-69 | The hit is -1 or a position at or after the search start. |
| Highlighter.FirstFreeSpec | modules/highlighter.py:60-69 | A hit is free and holds the word, and every earlier position is taken or differs; -1 means no position qualifies. |
| Highlighter.FirstFreeIs | modules/highlighter.py:60-69 | Any position with that characterisation is the one found. |
| Highlighter.Assign | modules/highlighter.py:56-74 | One entry per reference word, each -1 or an attempt position. |
| Highlighter.AssignAt | modules/highlighter.py:56-74 | Entry i is the first free match given the positions taken by the earlier entries. |
| Highlighter.MatchedIffFree | modules/highlighter.py:56-74 | A reference word is matched exactly when some untaken attempt word has its normalised form. |
| Highlighter.AssignInjective | modules/highlighter.py:61-67 | No attempt position is matched twice. |
| Highlighter.MatchedSize | modules/highlighter.py:52-74 | The matched set has one position per green word, at most the length of either list. |
| Highlighter.HighlightDiff | modules/highlighter.py:30-87 | Each reference word is bold green exactly when the alignment matched it. Each attempt word is green exactly when its position was taken. |
| Highlighter.StandardLineAt | modules/highlighter.py:56-74 | Word i of the reference line is styled by entry i of the alignment. |
| Highlighter.MarkStandard | modules/highlighter.py:56-74 | The first loop builds the reference line of the greedy alignment and its matched set. |
| Highlighter.MarkTranscribed | modules/highlighter.py:78-87 | Matched attempt words are green, the others dim, in order. |
| Highlighter.FindFree | modules/highlighter.py:60-69 | The inner loop returns the first free position whose normalised word matches. |
| Highlighter.ScoreColour | modules/highlighter.py:106 | Green from 70, yellow from 50 to below 70, red below 50 (both directions). |
| Highlighter.ColourMatchesLevel | modules/highlighter.py:106-111 | Green is exactly Good or Excellent, yellow exactly Needs Practice, red exactly Keep Trying. |
| Highlighter.StatusOf | modules/highlighter.py:135-146 | The four status rules, tried in order, each as an if-and-only-if. |
| Highlighter.ComparisonTable | modules/highlighter.py:114-150 | One row per position up to the longer list, "-" past the shorter, with the status of the pair. |
| Highlighter.StatusByPosition | modules/highlighter.py:129-146 | Without a literal "-" word: match iff both words exist and are equal; extra iff only the attempt has a word; missed iff only the reference has one. |
| Highlighter.DashPaddingMatches | modules/highlighter.py:132-136 | A reference word "-" past the end of the attempt is reported as a match. |
| Database.Insert | modules/database.py:109-116 | Inserting a row into a listing keeps every row: the new listing is the old one plus that row, as a multiset. |
| Database.InsertOrdered | modules/database.py:112 | Inserting keeps the listing ordered by key, then id. |
| Database.Select | modules/database.py:109-116 | The listing holds exactly the selected rows, each once, ordered by the sort key. |
| Database.DistributionCounts | modules/database.py:168-173 | A stage has a count exactly when some word is at that stage, and the count is the number of such words. |
| Database.DistributionTotal | modules/database.py:168-173 | The stage counts add up to the number of rows. |
| Database.UpdateRow | modules/database.py:133-139 | Only the row with that id changes, to the new schedule; without one, nothing changes. |
| Database.VocabDatabase.constructor | modules/database.py:29-61 | Both tables start empty. |
| Database.VocabDatabase.AddWord | modules/database.py:65-93 | A new row at stage 0, due tomorrow, under an id larger than every existing one. |
| Database.VocabDatabase.GetDueWords | modules/database.py:95-116 | Exactly the words due by today, earliest date first. |
| Database.VocabDatabase.UpdateReview | modules/database.py:118-141 | Only the word with that id changes, to the new schedule. |
| Database.VocabDatabase.GetStatistics | modules/database.py:143-179 | The number of words, the number due today, and the stage distribution. |
| Database.VocabDatabase.DeleteWord | modules/database.py:181-186 | The word with that id is gone; nothing else changes. |
| Database.VocabDatabase.AddYoutubeLesson | modules/database.py:190-212 | A new segment at stage 0, due tomorrow, under a fresh id. |
| Database.VocabDatabase.GetDueYoutubeLessons | modules/database.py:214-232 | Exactly the segments due by today, earliest date first. |
| Database.VocabDatabase.UpdateYoutubeReview | modules/database.py:234-251 | Only the segment with that id changes, to the new schedule. |
| Database.VocabDatabase.GetYoutubeLessonsByVideo | modules/database.py:253-269 | Exactly the segments of that video, by ascending start time. |
| Database.AddedNotDueToday | modules/database.py:84-90 | A word just added is not due today, and the due set is unchanged. |
| Database.DeleteIdempotent | modules/database.py:181-186 | Deleting twice is deleting once; deleting an absent id changes nothing. |
| Database.StatisticsConsistent | modules/database.py:156-173 | The stage counts add up to the total, and only stages that have words appear. |
| Database.UpdateKeepsData | modules/database.py:133-139 | A review changes only the stage, the date and the last quality. |
| Review.PromptAnswer | modules/review.py:126-134 | An empty line is the default "3". A menu key is itself. Anything else is refused and asked again. |
| Review.Ask | modules/review.py:118-134 | The rating is one of 0, 3, 4, 5 and consumes at least one line; running out of input leaves no lines. |
| Review.AskTakesFirstAnswer | modules/review.py:126-134 | The rating comes from the first accepted line, and exactly the lines after it are left. |
| Review.AskRunsOut | modules/review.py:126-134 | With no accepted line the prompt never returns a rating. |
| Review.ChoicesSchedule | modules/review.py:30-35 | "1" resets to stage 0 for a day; "2", "3", "4" and an empty line advance the stage. |
| Review.ReviewOne | modules/review.py:62-116 | A completed review consumes the reveal line and the prompt's answers, and writes the scheduler's new stage and date and the chosen rating to the row with that id, keeping its own columns. No other word changes, and a review that cannot complete changes nothing. |
| Review.ReviewAll | modules/review.py:57-58 | At most every due word is reviewed, and all of them when the session finishes. |
| Review.ReviewAllStep | modules/review.py:57-58 | The session reviews the first word, then the rest, stopping at the first failure. |
| Review.ReviewAllEffect | modules/review.py:42-116 | No word is added or removed. Each reviewed word is due after today, and every other word is unchanged. |
| Review.CompletedSessionClearsToday | modules/review.py:42-60 | After a finished session no word is due today. |
| Review.ReviewMode.constructor | modules/review.py:37-40 | The session works on the given store and input. |
| Review.ReviewMode.AskQuality | modules/review.py:118-134 | The prompt loop gives the rating and the remaining input of `Ask`. |
| Review.ReviewMode.ReviewWord | modules/review.py:62-116 | The store and input afterwards are those of `ReviewOne`; the lesson table and counters are untouched. |
| Review.ReviewMode.Run | modules/review.py:42-60 | Lists the due words and leaves the store and input as `ReviewAll` describes. |
| Review.ReviewMode.ShowStatistics | modules/review.py:136-151 | The total line, the due line, then one line per stage that has words, in ascending stage order, with counts adding up to the total. |
| Review.SortedKeys | modules/review.py:147 | Every key exactly once, strictly ascending. |
| Review.StageLinesListStages | modules/review.py:147-148 | One stage line per key of the distribution, each with that stage's count, in strictly ascending stage order. |
| HindiTable.TableShape | modules/translator.py:18-46 | Every key is one to three Devanagari characters; every value is lower-case Latin letters or digits. |
| HindiTable.PairKeysOfTable | modules/translator.py:18-46 | Every two-character key ends in anusvara, visarga or nukta. |
| HindiTable.ConjunctLookups | modules/translator.py:26-41 | The entries for ज, ्, ञ and ज्ञ. |
| Translator.Transliteration | modules/translator.py:49-93 | As written: the scan over one- and two-character keys, then whitespace collapsed; the result is collapsed. |
| Translator.TransliterationIntended | modules/translator.py:49-93 | As intended: the same with the longest key first, up to three characters; the result is collapsed. |
| Translator.TransliterateHindi | modules/translator.py:49-93 | The loop computes the transliteration, and its whitespace is collapsed. |
| Translator.Scan | modules/translator.py:63-87 | The scan loop computes the rewrite: space kept, two-character key first, then one character, else the character itself. |
| Translator.RewriteOutsideTable | modules/translator.py:80-85 | Text without Devanagari passes through the scan unchanged. |
| Translator.OutsideTableUnchanged | modules/translator.py:49-93 | Text without Devanagari only has its whitespace tidied. |
| Translator.ShortKeysAsWritten | modules/translator.py:72-87 | Every one- or two-character key on its own gives its value. |
| Translator.ConjunctJnaAsWritten | modules/translator.py:72-87 | The three-character key ज्ञ is never matched: it gives "jny", not "gy". |
| Translator.EveryKeyIntended | modules/translator.py:72-87 | As intended (longest key first), every key on its own gives its value. |
| Translator.TableKeysRoundTrip | modules/translator.py:49-93 | For every table key, the intended reading gives its value, and so does the as-written one for keys of up to two characters. |
| Translator.TranslateFull | modules/translator.py:118-155 | The text, its transliteration as `transliterate_hindi` computes it, and each translation or its failure marker; both not-available markers without a service. |
| Translator.UnavailableDisplay | modules/translator.py:151-167 | Without the translators, the four-line display of a one-line text reads back as the text, its transliteration and the two not-available markers. |
| Translator.LinesOfBody | modules/translator.py:157-167 | The four fields, each on one line, are read back as the four lines. |
| Translator.FourLinesRoundTrip | modules/translator.py:157-167 | Splitting the display into lines gives back the four fields when no field has a line break or outer whitespace that `strip` would eat. |
| Translator.BodyUnstripped | modules/translator.py:162-167 | `strip` removes only the f-string's leading line break and trailing indentation. |
| PyText.SplitJoin | modules/scoring.py:93 | Splitting words joined by single spaces gives the words back. |
| PyText.CollapseIdempotent | modules/translator.py:90-91 | Collapsing whitespace gives a collapsed string, and collapsing again changes nothing. |
| PyText.SquashThenStrip | modules/translator.py:91 | `re.sub(r'\s+', ' ', s).strip()` equals `' '.join(s.split())`. |

## Left out

- Audio recording, speech recognition (Whisper), text-to-speech, audio playback and all
  console output (Rich panels, tables, colours as markup) are not modelled. The models
  return the styled words and table rows that would be printed.
- Levenshtein's `ratio` is a C extension and not part of this model. It is a parameter
  with values in [0, 1].
- Scoring.CalculateScore and Scoring.Rate: Python rounds a binary float; the model rounds
  the exact real half-to-even, which can differ at a tie that the float misrepresents.
- Scoring.GetWordAccuracy: its accuracy is rounded by `Rate` and has the same caveat.
- PyText.Lower: only ASCII A-Z are lower-cased. Devanagari has no case, but other scripts
  with case would differ.
- SQLite itself (files, connections, transactions, schema migration) and the `created_at`
  column are not modelled. `get_all_youtube_videos` is left out because its only ordering
  key is `created_at`, a timestamp the model does not keep.
- Database.Select: SQLite gives no order among rows with equal sort keys. The model breaks
  ties by id, which is one permitted order.
- The online translators of `translate_full` are a `Service` parameter. The library
  import, the translator set-up and their exceptions are modelled only as "unavailable"
  or "this call failed".
- Review.ReviewOne: the pronunciation audio and its failure message are not modelled, and
  a review ends when the input runs out. An exception other than running out of input is
  not modelled.
- Configuration.Format: only automatically numbered `{}` fields and doubled braces are
  modelled. Explicit indices, names, conversions and format specs (`{0}`, `{name}`, `{!r}`,
  `{:>3}`) are errors in the model, although Python accepts them. No message template uses
  them. The arguments are strings, where Python formats any object (the count at
  `modules/review.py:52` is an `int`); a caller passes its decimal text.
- Review.PromptAnswer: the prompt library trims whitespace around an answer before it
  checks the answer against the choices. The model checks the line as typed, so " 2 " is
  refused here.
- Review.ReviewMode.ShowStatistics: the numbers are returned as values, not formatted as
  table cells.
- The date arithmetic of `date.today() + timedelta(...)` is integer addition on day
  numbers; calendar dates are not modelled.

## Findings

| source | as written | input that shows it | evidently intended | confidence | as-written member | corrected member |
|---|---|---|---|---|---|---|
| modules/srs.py:103-121 | `lang` defaults to the current language but is then never used; `Config.get_text` always reads the current language | `quality_to_text(4, 'en')` with the interface in Chinese gives "记得 (Good)" | the label in the requested language, "Good" | not executed | Srs.QualityToText, Srs.QualityToTextIgnoresLang | Srs.QualityToTextIn |
| modules/scoring.py:68-72 | every attempt word found anywhere in the reference counts, so a repeated word counts again | reference "w", attempt "w w" gives (2, 1, 200.0) | each reference word matched at most once, accuracy at most 100.0 | not executed | Scoring.GetWordAccuracy, Scoring.RepeatedWordOvercounts | Scoring.GetWordAccuracyOneToOne, Scoring.RepeatedWordCountedOnce |
| modules/translator.py:72-87 | only one- and two-character slices are looked up, so the three-character conjunct keys are never matched | "ज्ञ" gives "jny" instead of the table's "gy" (क्ष and त्र happen to come out as their values) | longest key first, up to three characters | not executed | Translator.Transliteration, Translator.ConjunctJnaAsWritten | Translator.TransliterationIntended, Translator.TableKeysRoundTrip |
