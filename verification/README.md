# eCFR dashboard metrics core in Dafny

This project models the data-processing core of the eCFR analyzer dashboard.
The dashboard is a browser application that shows metrics about the
Electronic Code of Federal Regulations. The core is three transformations
that the dashboard's hooks and API client perform:

- **Word counter** (`countWords` in `src/hooks/useWordCount.ts`). It deletes
  XML comments, turns tags and punctuation into spaces, collapses whitespace,
  splits on spaces, drops pure numbers and counts what is left.
- **Per-agency word counts** (`fetchWordCounts` in the same file). It looks
  an agency up by id, counts each of the agency's titles (a failed title
  counts 0), keeps the titles with words and sums them.
- **Agency normaliser and title fetch rule** (`getAgencies` and
  `getTitleContent` in `src/utils/api.ts`). The normaliser turns raw agency
  records into `{id, name, titles}`. The fetch rule replaces `'current'` by
  today's date and retries a 404 once with `'latest'`.
- **Correction trend** (`fetchCorrections` in
  `src/hooks/useChangeHistory.ts`). It groups corrections by the UTC date of
  their `error_corrected` instant, counts them per date and sorts the dates
  in time order. Any failure leaves the trend empty and sets an error.

Modules:

| file | module | contents |
|---|---|---|
| wrappers.dfy | Wrappers | `Option` and `Result` |
| decimal.dfy | Decimal | `Number.prototype.toString` for safe integers, zero padding, digit parsing, string order |
| js_text.dfy | JsText | the `\s` class, `replace(/\s+/g, ' ')`, `trim`, `split`, and a reference definition of the words of a text |
| civil_date.dfy | CivilDate | time values to UTC calendar dates, `toISOString`, and `new Date("YYYY-MM-DD")` |
| api.dfy | Api | raw and normalised agencies, `getTitleContent` |
| word_count.dfy | WordCount | `countWords`, its properties, and the per-agency aggregation |
| word_count_examples.dfy | WordCountExamples | worked cases of `countWords` |
| change_history.dfy | ChangeHistory | the grouping, the sort, and `fetchCorrections` |

The I/O is replaced by parameters:

- A versioner server is a function from (title, date) to a `Reply`. A reply
  is a body, an HTTP error status, or another error.
- The agency directory is a `Result`: the raw records, or the value the
  request threw.
- The corrections feed is a `Result` of corrections, each carrying its
  already-parsed instant (`Option<int>` milliseconds since the epoch; `None`
  is an invalid date).
- The clock reading for `'current'` is a parameter `now`.

`\s` is the ECMAScript WhiteSpace and LineTerminator set:

- tab, line feed, vertical tab, form feed, carriage return and space;
- U+00A0, U+1680, U+2000 to U+200A, U+2028, U+2029, U+202F, U+205F, U+3000
  and U+FEFF.

## Model

| member | source | states |
|---|---|---|
| WordCount.CountWords | src/hooks/useWordCount.ts:91-116 | A body that is not a string counts 0. Text counts the words of the cleaned text that are not pure numbers. Words are maximal runs of non-whitespace (JsText.Words). |
| JsText.TokensAreWords | src/hooks/useWordCount.ts:102-108 | Collapsing whitespace, trimming, splitting on `' '` and dropping empty pieces yields exactly the maximal non-whitespace runs of the text, in order. |
| JsText.Tokens | src/hooks/useWordCount.ts:102-108 | No contract of its own. JsText.TokensAreWords states that for every text the pipeline yields exactly its words, in order. |
| JsText.CollapseKeepsWords | src/hooks/useWordCount.ts:102 | Replacing every whitespace run by one space does not change the words of the text. |
| JsText.TrimKeepsWords | src/hooks/useWordCount.ts:103 | Trimming does not change the words, and keeps a text whose only whitespace is the space in that form. |
| JsText.SplitOnSpacesGivesWords | src/hooks/useWordCount.ts:107-108 | On text whose only whitespace is the space, the non-empty pieces of `split(' ')` are its words. |
| JsText.JoinSplit | src/hooks/useWordCount.ts:107 | Joining the pieces of `split(sep)` with sep gives back the string. |
| JsText.IsWhitespace | src/hooks/useWordCount.ts:102-103 | The `\s` set listed above. No contract of its own. What it decides is stated by JsText.TokensAreWords, JsText.CollapseKeepsWords and JsText.TrimKeepsWords: the words are the maximal runs of characters outside this set. |
| JsText.CollapseWhitespace | src/hooks/useWordCount.ts:102 | No contract of its own. Its behaviour is stated by JsText.CollapseOnlySpaces, JsText.CollapseSingleSpaced and JsText.CollapseKeepsWords. |
| JsText.CollapseOnlySpaces | src/hooks/useWordCount.ts:102 | After collapsing, the only whitespace is the space. The result is empty exactly when the text is. It starts with a space when the text starts with whitespace, and with the text's first character otherwise. |
| JsText.CollapseSingleSpaced | src/hooks/useWordCount.ts:102 | After collapsing, no two whitespace characters are side by side, and the text is no longer than before. |
| JsText.Trim | src/hooks/useWordCount.ts:103 | No contract of its own. Its behaviour is stated by JsText.TrimShape, JsText.TrimEndShape and JsText.TrimKeepsWords. |
| JsText.TrimShape | src/hooks/useWordCount.ts:103 | The trimmed text neither starts nor ends with whitespace. A text that already neither starts nor ends with whitespace is left as it is. |
| JsText.TrimEndShape | src/hooks/useWordCount.ts:103 | Dropping trailing whitespace keeps a prefix that does not end in whitespace, and everything dropped is whitespace. |
| JsText.Split | src/hooks/useWordCount.ts:107 | There is at least one piece and no piece holds the separator. JsText.JoinSplit shows the pieces give back the string. |
| JsText.NonEmpty | src/hooks/useWordCount.ts:108 | Every piece kept is non-empty. |
| JsText.NonEmptyMultiplicity | src/hooks/useWordCount.ts:108 | Each non-empty piece is kept exactly as often as it occurs, and the empty piece not at all. |
| WordCount.StripComments | src/hooks/useWordCount.ts:94 | No contract of its own. Its behaviour is stated by WordCount.StripCommentsDeletes, WordCount.CommentVanishes, WordCount.TagSurvivesComments and WordCount.StripCommentsAppend. |
| WordCount.StripCommentsDeletes | src/hooks/useWordCount.ts:94 | Comment removal only deletes: the result is a subsequence of the text. |
| WordCount.TagEnd | src/hooks/useWordCount.ts:97 | No contract of its own. It finds where a match of `<[^>]+>` starting at the front ends: the first `>`, with at least one character between it and the `<`. WordCount.TagBecomesSpace states the replacement that follows from it. |
| WordCount.ReplaceTags | src/hooks/useWordCount.ts:97 | No contract of its own. Its behaviour is stated by WordCount.ReplaceTagsPlainPrefix and WordCount.TagBecomesSpace. |
| WordCount.ReplaceTagsPlainPrefix | src/hooks/useWordCount.ts:97 | Text that holds no `<` is kept unchanged in front of whatever follows, so text without `<` has no tags to replace. |
| WordCount.ReplacePunctuation | src/hooks/useWordCount.ts:101 | The length is kept. What the replacement does to the count is stated by WordCount.SeparatorSplitsCount (a run of punctuation splits the text like whitespace) and WordCount.BlankTextCountsZero (text of only punctuation and whitespace counts 0). |
| WordCount.IsPunctuation | src/hooks/useWordCount.ts:101 | No contract of its own. It holds for exactly the twenty-one characters of the class. WordCount.SeparatorSplitsCount and WordCount.BlankTextCountsZero state that these characters separate words like whitespace. |
| WordCount.CleanText | src/hooks/useWordCount.ts:94-101 | No contract of its own. WordCount.TagSurvivesComments, WordCount.TagBecomesSpace, WordCount.StripCommentsAppend and WordCount.SeparatorSplitsCount state how comments, tags and punctuation pass through it, and WordCount.CountWords counts the words of its result. |
| WordCount.IsNumber | src/hooks/useWordCount.ts:109 | No contract of its own. It holds for a non-empty run of ASCII digits and nothing else. WordCount.SingleToken states that such a token counts 0 and any other plain token counts 1. |
| WordCount.WithoutNumbers | src/hooks/useWordCount.ts:109 | No pure number remains and the list does not grow. |
| WordCount.WithoutNumbersMultiplicity | src/hooks/useWordCount.ts:109 | Each word that is not a pure number is kept exactly as often as it occurs, and numbers not at all. |
| WordCount.Find | src/hooks/useWordCount.ts:94 | The result is the first occurrence of the pattern at or after the start position, or None when there is none. |
| WordCount.CommentVanishes | src/hooks/useWordCount.ts:94 | A complete `<!-- … -->` block whose body holds no `-->` is removed entirely. |
| WordCount.StripCommentsAppend | src/hooks/useWordCount.ts:94 | Comment removal works piecewise when the first piece leaves no comment open and the second starts with `<`. |
| WordCount.AppendedCommentIgnored | src/hooks/useWordCount.ts:94 | Appending a complete comment block to text that leaves no comment open does not change the count. |
| WordCount.PlainTextTerminated | src/hooks/useWordCount.ts:94 | Text without `<` leaves no comment open. |
| WordCount.TagSurvivesComments | src/hooks/useWordCount.ts:94 | When a holds no `<` and the tag body t is non-empty, holds no `>` and no `<`, and does not start with `!--`: comment removal keeps a, the tag `<t>`, and removes comments from b alone. |
| WordCount.TagBecomesSpace | src/hooks/useWordCount.ts:97 | When a holds no `<` and the tag body t is non-empty and holds no `>`: the tag `<t>` becomes exactly one space, a is kept, and tags are replaced in b alone. |
| WordCount.TagSeparatesWords | src/hooks/useWordCount.ts:97 | When a holds no `<` and the tag body t is non-empty, holds no `>` and no `<`, and does not start with `!--`: `a<t>b` counts as many words as a and b together. |
| WordCount.SeparatorSplitsCount | src/hooks/useWordCount.ts:101-103 | When a holds no `<`, a non-empty run of whitespace and punctuation, of any length, separates: the count of a+run+b is the count of a plus the count of b. |
| WordCount.BlankTextCountsZero | src/hooks/useWordCount.ts:100-111 | Text made only of whitespace and punctuation, the empty text included, counts 0. |
| WordCount.SingleToken | src/hooks/useWordCount.ts:106-111 | A non-empty token with no `<`, no whitespace and no punctuation counts 0 if it is only ASCII digits, and 1 otherwise. |
| WordCount.WithoutNumbersConcat | src/hooks/useWordCount.ts:109 | Dropping numbers from two word lists joined is dropping them from each list. |
| WordCountExamples.LettersCountOne | src/hooks/useWordCount.ts:106-111 | A run of letters counts 1. |
| WordCountExamples.DigitsCountZero | src/hooks/useWordCount.ts:109 | A run of digits counts 0. |
| WordCountExamples.TagBetweenWords | src/hooks/useWordCount.ts:97 | `x<name>y` counts 2. |
| WordCountExamples.WrappedWord | src/hooks/useWordCount.ts:97 | `<p>w</p>` counts 1. |
| WordCountExamples.PunctuationSplits | src/hooks/useWordCount.ts:101 | `x` punctuation `y` counts 2. |
| WordCountExamples.NumbersDropped | src/hooks/useWordCount.ts:106-109 | `w n` counts 1, `n.` counts 0 and `nw` counts 1, for letters w and digits n. |
| WordCountExamples.CommentIgnored | src/hooks/useWordCount.ts:94 | `w<!-- … -->` counts 1. |
| WordCount.FindAgency | src/hooks/useWordCount.ts:33-37 | None exactly when no agency has the id; otherwise the first agency with that id. |
| WordCount.FirstWithId | src/hooks/useWordCount.ts:33 | The position of the first raw record whose short-name-or-slug id is the one looked up, or the list length when there is none. |
| WordCount.FindNormalized | src/hooks/useWordCount.ts:33 | Looking an id up among the normalised agencies finds the normalisation of the first raw record with that id. |
| WordCount.TitleWordCount | src/hooks/useWordCount.ts:41-64 | A title counts the words of its `'latest'` body. Any failed request counts 0. |
| WordCount.CountTitles | src/hooks/useWordCount.ts:40-66 | One entry per title, in the agency's title order, each with that title's own count. |
| WordCount.WithWords | src/hooks/useWordCount.ts:68 | Only entries with a positive count remain, in their original order, each exactly as often as it occurs in the input. |
| WordCount.Summarize | src/hooks/useWordCount.ts:68-74 | The breakdown holds exactly the entries with words, in order and with their multiplicities. The total is the sum of all counts, and it is 0 only when the breakdown is empty. |
| WordCount.RunningSum | src/hooks/useWordCount.ts:69 | The reduce never ends below its start, and ends at its start exactly when every count is 0. |
| WordCount.RunningSumIsTotal | src/hooks/useWordCount.ts:69 | The left-to-right `reduce` from acc is acc plus the sum of the counts. |
| WordCount.WithWordsKeepsTotal | src/hooks/useWordCount.ts:68-69 | Dropping the entries without words does not change the total. |
| WordCount.BreakdownOfTitles | src/hooks/useWordCount.ts:40-74 | Every breakdown entry is one of the agency's titles with its own positive count. Every title with words appears in the breakdown. |
| WordCount.TotalsAdd | src/hooks/useWordCount.ts:40-69 | The total over two title lists joined is the sum of their totals, so a title listed twice is counted twice. |
| WordCount.FetchWordCounts | src/hooks/useWordCount.ts:22-81 | No id: nothing changes. Failed directory request: its message (or the fallback) is the error. Unknown id: the not-found error. Either failure keeps the old data. Success: no error, and the summary of the first matching agency's titles. |
| Api.NormalizeAgency | src/utils/api.ts:54-58 | No contract of its own. Api.NormalizeAgencies states the id, name and titles of each agency it builds, and Api.TitlesReadBack states that each title string is the canonical numeral of its title number. |
| Api.NormalizeAgencies | src/utils/api.ts:54-58 | One agency per raw record, in order. The id is the short name when it is present and non-empty, otherwise the slug. The name is copied, and there is one title per reference. |
| Api.AgencyId | src/utils/api.ts:55 | The id is the short name when it is present and non-empty, otherwise the slug. It is empty only when both are. |
| Api.TitleStrings | src/utils/api.ts:57 | Title i is the decimal text of reference i's title number. |
| Api.TitlesReadBack | src/utils/api.ts:57 | Every title string is a canonical numeral, with no leading zero and no `-0`, and it parses back to the title number it came from. |
| Api.TitlesKeepMultiplicity | src/utils/api.ts:57 | A title number referenced k times appears k times among the titles: duplicates are kept. |
| Decimal.NatToDecimal | src/utils/api.ts:57 | The digits of a natural number have no leading zero; they start with `0` only for zero itself. |
| Decimal.IntToDecimal | src/utils/api.ts:57 | `toString` of a safe integer is a canonical numeral: a minus sign exactly for negative numbers, then digits without a leading zero, and never `-0`. |
| Decimal.CanonicalDigitsUnique | src/utils/api.ts:57 | A digit string without a leading zero is the numeral of its own value, so a number has exactly one canonical numeral. |
| Decimal.CanonicalIntegerUnique | src/utils/api.ts:57 | A canonical numeral that parses to n is exactly the text `toString` prints for n. |
| Decimal.IntToDecimalRoundTrip | src/utils/api.ts:57 | The decimal text of a safe integer parses back to it. |
| Decimal.IntToDecimalInjective | src/utils/api.ts:57 | Different title numbers give different strings. |
| Api.RequestDate | src/utils/api.ts:72-77 | A date other than `'current'` is used as given. For `'current'` the date is a ten-character key that parses to UTC midnight of the clock's day. |
| Api.GetTitleContent | src/utils/api.ts:70-92 | One or two requests. The first uses today's UTC date for `'current'` and the given date otherwise. A second request happens exactly when the date is not `'latest'` and the first reply is a 404, and it asks for `'latest'`. The call settles with the last reply. |
| CivilDate.CivilFromDays | src/hooks/useChangeHistory.ts:31-32 | The result is a valid calendar date whose day number is z, so it inverts the day numbering. With CivilDate.CivilRoundTrip the two conversions are inverse in both directions. |
| CivilDate.ToIsoString | src/hooks/useChangeHistory.ts:31-32 | No contract of its own. It prints the instant's UTC date, `T`, and the time of day. CivilDate.IsoDate states that the text before the first `T` is the `YYYY-MM-DD` of the instant's UTC day. |
| CivilDate.CivilRoundTrip | src/hooks/useChangeHistory.ts:31-33 | Converting a valid calendar date to its day number and back gives the same date. |
| CivilDate.CivilFromDaysOrder | src/hooks/useChangeHistory.ts:31-33 | Later days have later calendar dates, and conversely. |
| CivilDate.IsoDate | src/hooks/useChangeHistory.ts:31-33 | The key is the `YYYY-MM-DD` text of the calendar date of the instant's UTC day, and that date has a four-digit year. |
| CivilDate.IsoDateRoundTrip | src/hooks/useChangeHistory.ts:31-33 | Reading back the ISO date of an instant gives UTC midnight of the instant's day. |
| CivilDate.IsoDateSameDay | src/hooks/useChangeHistory.ts:31-34 | Two instants get the same date key exactly when they fall on the same UTC day. |
| CivilDate.IsoDateOrder | src/hooks/useChangeHistory.ts:31-33 | For four-digit years, string order on date keys is day order. |
| CivilDate.ParseDateKey | src/hooks/useChangeHistory.ts:44 | No contract of its own. Its behaviour is stated by CivilDate.ParseDateKeyRoundTrip, CivilDate.ParseDateKeyPrints and CivilDate.DateKeyTimeOrder. |
| CivilDate.ParseDateKeyRoundTrip | src/hooks/useChangeHistory.ts:44 | The key of a valid date with a four-digit year parses to UTC midnight of that date. |
| CivilDate.ParseDateKeyPrints | src/hooks/useChangeHistory.ts:44 | A key that parses is exactly the ISO date printed for the time it parses to, and that time lies in the four-digit years. |
| CivilDate.DateKeyTimeOrder | src/hooks/useChangeHistory.ts:44 | For keys that parse, string order is the order of the parsed times, and equal times mean equal keys. |
| Decimal.PaddedRoundTrip | src/hooks/useChangeHistory.ts:31-33 | A zero-padded field reads back as its number. |
| Decimal.PaddedOrder | src/hooks/useChangeHistory.ts:31-33 | Zero-padded numbers of the same width compare as strings as they do as numbers. |
| ChangeHistory.DateKeys | src/hooks/useChangeHistory.ts:31-33 | One key per correction, in order, each the ISO date of that correction's instant. |
| ChangeHistory.KeysAreDays | src/hooks/useChangeHistory.ts:31-33 | Each correction's key parses to UTC midnight of the day its instant falls on. |
| ChangeHistory.OccurrencesByDay | src/hooks/useChangeHistory.ts:31-34 | The number of corrections with a date key equals the number of corrections in that UTC day. |
| ChangeHistory.Bump | src/hooks/useChangeHistory.ts:34 | The key's count goes up by one, every other count is unchanged, and the sum goes up by one. |
| ChangeHistory.BumpShape | src/hooks/useChangeHistory.ts:34 | The key joins the record's keys. The keys stay distinct and every count stays positive. |
| ChangeHistory.Tally | src/hooks/useChangeHistory.ts:30-36 | Each key's count is the accumulator's count plus the number of times the key occurs. The sum grows by the number of keys. |
| ChangeHistory.TallyShape | src/hooks/useChangeHistory.ts:30-36 | The record's keys are the accumulator's keys plus the computed keys. They stay distinct and every count stays positive. |
| ChangeHistory.OccurrencesAreCounts | src/hooks/useChangeHistory.ts:30-36 | How often the reduce meets a key is the number of corrections on that date. |
| ChangeHistory.Insert | src/hooks/useChangeHistory.ts:44 | Inserting into a sorted list gives a sorted list holding the old points plus the new one. |
| ChangeHistory.Time | src/hooks/useChangeHistory.ts:44 | No contract of its own. It is the parsed time of a date key. CivilDate.DateKeyTimeOrder states that comparing these times is comparing the keys as strings, and ChangeHistory.KeysAreDays that each key's time is UTC midnight of its correction's day. |
| ChangeHistory.SortBy | src/hooks/useChangeHistory.ts:44 | The sort returns a sorted permutation of its input. |
| ChangeHistory.SortCounts | src/hooks/useChangeHistory.ts:39-44 | Sorting keeps every date's count and the sum. |
| ChangeHistory.SortDates | src/hooks/useChangeHistory.ts:39-44 | Sorting keeps the set of dates, their distinctness and the positive counts. |
| ChangeHistory.SortedDistinctIsStrict | src/hooks/useChangeHistory.ts:44 | Sorted by parsed time with distinct dates means strictly ascending in time. |
| ChangeHistory.AscendingDistinct | src/hooks/useChangeHistory.ts:39-43 | A strictly ascending trend has one point per date. |
| ChangeHistory.AscendingDatesLex | src/hooks/useChangeHistory.ts:44 | In a strictly ascending trend the dates are also in string order. |
| ChangeHistory.CountOfEntry | src/hooks/useChangeHistory.ts:39-43 | With distinct dates, each point's changes are the count recorded for its date. |
| ChangeHistory.Trends | src/hooks/useChangeHistory.ts:30-44 | The trend is strictly ascending in time with positive counts. Each date's count is the number of corrections on that date, and the counts sum to the number of corrections. |
| ChangeHistory.TrendUnique | src/hooks/useChangeHistory.ts:39-44 | Two strictly ascending lists of positive counts that agree on every date's count are equal. |
| ChangeHistory.TrendsUnique | src/hooks/useChangeHistory.ts:30-44 | Any list that describes the corrections that way is the computed trend. |
| ChangeHistory.ValidPermutation | src/hooks/useChangeHistory.ts:31-33 | Whether all dates are valid does not depend on the order of the corrections. |
| ChangeHistory.OccurrencesPermutation | src/hooks/useChangeHistory.ts:30-36 | Reordering the corrections does not change how many fall on any date. |
| ChangeHistory.FetchCorrectionsPermutation | src/hooks/useChangeHistory.ts:25-46 | The published trend and error depend only on which corrections arrive, not on their order. |
| ChangeHistory.ErrorText | src/hooks/useChangeHistory.ts:48 | The message is never empty. It is the thrown error's message when that is non-empty, and the fixed fallback otherwise. |
| ChangeHistory.FetchCorrections | src/hooks/useChangeHistory.ts:23-49 | A failed request gives an empty trend and `err.message`, or the fallback message. An invalid date gives an empty trend and the `toISOString` error. Otherwise there is no error and the trend describes the corrections. |

## Left out

- React state plumbing (`useState`, `useEffect`, the loading flags) and all
  `console` logging. The published state is modelled as a value the
  functions return.
- `Promise.all` concurrency: the titles are counted as a sequential map,
  which keeps the same result order.
- axios, the HTTP transport, the proxy and the static server. Replies,
  thrown values and the clock are parameters.
- WordCount.TitleWordCount: a server reply is a function of (title, date),
  so two requests for the same title get the same reply.
- The JavaScript `Date` string parser, which is host-defined. Corrections
  carry an already-parsed instant or "invalid".
- ChangeHistory.FetchCorrections: instants outside the years 0000 to 9999 are
  excluded by a precondition. There `toISOString` prints a six-digit year
  and the date key has another shape.
- ChangeHistory.FetchCorrections: the message for an invalid date is
  modelled as V8's `"Invalid time value"`; other engines word it
  differently.
- ChangeHistory.FetchCorrections: a thrown `null` or `undefined` would make
  `err.message` itself throw inside the catch; that case is not modelled.
- ChangeHistory.Tally: the reduce is modelled as computing all keys first
  and then tallying them. The reduce would stop at the first invalid date
  instead, but either way the outcome is the empty trend with the
  `toISOString` error.
- ChangeHistory.SortBy: the insertion sort is not stable (points with equal
  keys come out in reverse order), while `Array.prototype.sort` is. The
  points `Trends` sorts have distinct dates, so the result is the same.
- Decimal.IntToDecimal: title numbers outside the safe-integer range
  (magnitude above 2^53 - 1) are excluded by the `SafeInteger` type. A
  double cannot hold every such integer exactly, so the number `toString`
  prints may differ from the one the server sent.
  Title numbers are modelled as integers. A `number` that is not an integer,
  or is NaN or infinite, prints as `1.5`, `NaN` or `Infinity`, and the model
  cannot represent it.
- JavaScript strings are UTF-16 code units while Dafny's `char` is a Unicode
  scalar value. No character of `\s`, of the punctuation class or of the
  markup lies outside the Basic Multilingual Plane, so the counts agree.
- The code keeps duplicate titles, groups corrections per UTC day only, has
  no date-range filter and no structured-document word walker. The model
  does the same: duplicates are counted twice (WordCount.TotalsAdd).
- Api.GetTitleContent: for `'current'` the clock reading `now` must lie in
  the years 0000 to 9999 (a precondition, also on Api.RequestDate). Outside
  them `toISOString` prints a six-digit signed year, which is not modelled.
- `getTitleStructure`, `getTitles`, `useECFRData` and the UI components
  are not part of this model.
