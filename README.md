# ME2 exam practice quiz — a Dafny model of its core

The application is a single-page quiz for the ME2 clinical-engineering
certification exam. Around its user interface sits a small core:

- the list of years whose question banks are loaded;
- the derivation of the quiz from the loaded questions and the session
  parameters. It filters by year range, then by keyword or category. It
  orders the result by (year, 午前 before 午後, index) or shuffles it, and
  then cuts it to the requested count;
- the correctness check of an answer against a question's expected answer,
  which is one string or an array of strings. The source repeats it at
  `src/App.js:123-126`, `src/App.js:283-288`, `src/App.js:300-304` and
  `src/components/CategoryChart.js:23-25`; here it is one function,
  `Quiz.IsCorrect`;
- the session state machine: start, answer once per position, results once
  every position is answered, retry of the wrong and unanswered questions,
  back to the top screen;
- the score shown on the results screen;
- the classification of text pieces into display math, inline math and
  plain text;
- the per-category statistics behind the results chart, and the bar
  labels `"<correct>/<total>"`.

Modules, one per concern:

- `Wrappers` (`wrappers.dfy`): `Option`, which stands for `undefined` and
  for `NaN`.
- `JsStrings` (`strings.dfy`): the JavaScript string operations the core
  uses. These are `trim`, ASCII `toLowerCase`, `includes`, `startsWith`,
  `endsWith`, `slice`, `Number(s)`, `toString` and the string order.
- `Quiz` (`quiz.dfy`): question records and the correctness check.
- `Derivation` (`derivation.dfy`): the year-list loop and the
  quiz-derivation pipeline, as functions and lemmas.
- `Session` (`session.dfy`): the class `QuizSession` with the fields
  `quiz`, `answers`, `started` and `showResults`. The module also holds the
  retry transform and the score.
- `MathText` (`math_text.dfy`): segment classification.
- `CategoryChart` (`category_chart.dfy`): the statistics loop and the chart
  data.

Inputs that the source gets from the outside world are parameters here:

- the merged question collection;
- the session parameters;
- the random choices of the shuffle, given as `picks`.

## Model

| member | source | states |
|---|---|---|
| `JsStrings.Trim` | src/App.js:83 | `searchTerm.trim()` is empty exactly when every character is ECMAScript white space or a line terminator |
| `JsStrings.LowerChar` | src/App.js:84-87 | the lowered character is never an upper-case ASCII letter and equals the original up to ASCII case |
| `JsStrings.Lower` | src/App.js:84-87 | `toLowerCase` leaves no upper-case ASCII letter, and the result equals the input position by position up to ASCII case |
| `JsStrings.LowerIdempotent` | src/App.js:84-87 | lowering an already lowered string changes nothing |
| `JsStrings.LowerIgnoresCase` | src/App.js:84-87 | two strings that differ only in ASCII case lower to the same string |
| `JsStrings.JsSlice` | src/App.js:104 | `s.slice(from, to)` is never longer than `s`; for a non-negative start it is the run of `s` from `from`, of length min(to, len) - from (empty past the end), and a negative `to` counts from the end |
| `JsStrings.JsNumber` | src/App.js:49-50 | `Number("")` is 0; a digit string reads as a non-negative number; a negative result needs a leading '-'; any non-digit after the first character, or a first character that is neither '-' nor a digit, gives NaN |
| `JsStrings.Includes` | src/App.js:86-87 | `hay.includes(needle)` holds exactly when `needle` occurs in `hay` at some position |
| `JsStrings.NatToString` | src/components/CategoryChart.js:42 | the decimal form of a count is a non-empty string of digits with no leading zero (unless the count is 0) |
| `JsStrings.IntToString` | src/App.js:53 | `y.toString()` is non-empty and starts with '-' exactly for negative `y` |
| `JsStrings.NumberOfIntToString` | src/App.js:49-53 | `Number(y.toString()) == y` for every integer, so the year strings pushed by the loop name the years counted |
| `JsStrings.DigitsOfNatToString` | src/components/CategoryChart.js:42 | the digits written for a count read back as that count |
| `JsStrings.StrLessIrreflexive` | src/App.js:98 | no year string sorts strictly before itself |
| `JsStrings.StrLessTransitive` | src/App.js:98 | the year-string order is transitive |
| `JsStrings.StrLessTotal` | src/App.js:98 | of two different year strings, one sorts strictly before the other |
| `Quiz.IsCorrect` | src/App.js:123-126 | a missing answer is never correct; a given one is correct exactly when it is among the accepted strings: the single expected string, or the members of the array |
| `Quiz.SingletonArrayIsSingle` | src/App.js:123-126 | an array holding one string accepts exactly what that string alone accepts |
| `Derivation.YearList` | src/App.js:48-54 | the years from `Number(startYear)` to `Number(endYear)`, ascending and consecutive, each written with `toString` and reading back as that year; none when start > end or either bound is NaN |
| `Derivation.Filter` | src/App.js:76-79 | `filter` keeps exactly the elements its predicate accepts, never more than it is given, with no element more often than before |
| `Derivation.FilterKeepsEveryCopy` | src/App.js:76-79 | every copy of an accepted element is kept and no copy of a rejected one |
| `Derivation.FilterCons` | src/App.js:76-79 | filtering a list with one more element in front puts that element in front of the result exactly when it is accepted |
| `Derivation.FilterAppend` | src/App.js:76-79 | filtering a concatenation is the concatenation of the filtered parts, so `filter` keeps the relative order of what it keeps |
| `Derivation.ByTopic` | src/App.js:83-91 | the topic step (keyword filter via `MatchesKeyword`, else category filter, else nothing) never adds a question and never repeats one more often than it was loaded |
| `Derivation.KeywordIgnoresCase` | src/App.js:83-87 | `MatchesKeyword` with the lower-cased term gives the same answer for two search terms that differ only in ASCII case |
| `Derivation.MatchIgnoresTextCase` | src/App.js:84-87 | `MatchesKeyword` gives the same answer for two questions whose text and options differ only in ASCII case |
| `Derivation.SortsBeforeTotal` | src/App.js:97-101 | the comparator `SortsBefore` orders any two questions one way or the other by (year, part, index) |
| `Derivation.SortsBeforeTransitive` | src/App.js:97-101 | the comparator `SortsBefore`, (year, 午前 < 午後, index), is transitive |
| `Derivation.Insert` | src/App.js:97-101 | inserting into a sorted list keeps it sorted and adds exactly the one question |
| `Derivation.Sort` | src/App.js:96-101 | the fixed-order sort returns a permutation of its input, non-decreasing under (year, part, index) |
| `Derivation.InsertStable` | src/App.js:96-101 | inserting a question keeps the relative order of the questions with each sort key, and puts the new one in front of those with its own key |
| `Derivation.SortStable` | src/App.js:96-101 | the sort is stable: the questions with equal (year, part, index) keep their relative order |
| `Derivation.Shuffle` | src/App.js:93-94 | whatever the random choices, the shuffle returns a permutation of its input |
| `Derivation.ByTopicKeeps` | src/App.js:83-91 | with a non-blank search term, the questions whose lower-cased text or one of whose lower-cased options contains the lower-cased untrimmed term are kept; otherwise, with a category other than "すべて", the questions of exactly that category are kept; otherwise all are kept |
| `Derivation.WildcardKeepsAll` | src/App.js:89-91 | with no keyword and the category "すべて", the topic step removes nothing |
| `Derivation.OrderedMembers` | src/App.js:76-101 | every question of `Ordered` (the year filter `ByYear`, then the topic step, together `Matching`, then sorted or shuffled) is a loaded one inside the numeric year range (`InYearRange`) that passes the keyword or category step |
| `Derivation.OrderedIsPermutation` | src/App.js:93-101 | the ordered list `Ordered` is a permutation of the filtered list `Matching`; with shuffle off it is sorted by (year, part, index) |
| `Derivation.SliceIsPrefix` | src/App.js:104 | `slice(0, n)` is a prefix of the list, never longer than it, and of at most `n` elements for non-negative `n` |
| `Derivation.Derive` | src/App.js:73-106 | with questions loaded, the new quiz draws each question at most as often as it matches, and is no longer than a non-negative `numQuestions` |
| `Derivation.DeriveTruncates` | src/App.js:104 | for a non-negative count, the quiz is the prefix of the ordered list of length min(numQuestions, number of matches) |
| `Derivation.DeriveWithoutQuestions` | src/App.js:74 | with no questions loaded the quiz is left unchanged |
| `Derivation.DerivedQuestions` | src/App.js:73-106 | every question of a derived quiz is a loaded one, satisfies Number(startYear) <= Number(year) <= Number(endYear) (`InYearRange`) and passes the keyword filter (`MatchesKeyword`) or the category filter |
| `Derivation.KeywordOverridesCategory` | src/App.js:83-91 | with a non-blank search term, the derived quiz does not depend on the selected category |
| `Session.Retry` | src/App.js:120-127 | the retry quiz is never longer than the quiz |
| `Session.WrongPositions` | src/App.js:120-127 | the positions whose answer is missing or fails the check: all of them, only them, strictly ascending |
| `Session.RetryTakesWrongPositions` | src/App.js:119-127 | the retried quiz is the in-order subsequence of the quiz at the wrong or unanswered positions |
| `Session.RetryFromQuiz` | src/App.js:119-127 | every retried question is a question of the quiz |
| `Session.CorrectPlusRetry` | src/App.js:119-127 | the correctly answered positions plus the retried questions make up the whole quiz |
| `Session.CorrectCountIsEntries` | src/App.js:300-305 | counting correct answers position by position gives the number of correct entries of the answer map |
| `Session.Score` | src/App.js:300-305 | the score counts the entries of the answer map that pass the check; score + length of the retry quiz = quiz length |
| `Session.CoverageByCount` | src/App.js:112 | for answer keys inside the quiz, key count == quiz length exactly when every position is answered |
| `Session.BoundedSetSize` | src/App.js:112 | helper for `CoverageByCount`: a set of positions below n has at most n members |
| `Session.TwoQuestionExample` | src/App.js:119-127 | answers "A" (correct) and "C" (wrong, expected "B") score 1, and the retry keeps only the second question |
| `Session.QuizSession.constructor` | src/App.js:22-28 | a new session has an empty quiz, no answers, is not started and shows no results |
| `Session.QuizSession.Start` | src/App.js:226 | start sets `started` and changes nothing else |
| `Session.QuizSession.Answer` | src/App.js:108-117 | an answered position is never overwritten; otherwise exactly that entry is added; results turn on when the answer count reaches the quiz length (when keys fit, exactly when every position is answered) and never turn off |
| `Session.QuizSession.RetryIncorrect` | src/App.js:119-133 | the quiz becomes the wrong or unanswered questions in order; answers are cleared, results hidden, the session stays started; the new length plus the correct count is the old length |
| `Session.QuizSession.Reset` | src/App.js:321-326 | back to the top clears the answers, the results and `started`, and keeps the quiz |
| `Session.QuizSession.Recompute` | src/App.js:73-106 | the derivation effect replaces the quiz with the derived one and leaves the answers and flags as they are |
| `MathText.Classify` | src/App.js:139-145 | a piece starting and ending with "$$" is block math with two characters cut from each end; else one starting and ending with "$" is inline math with one cut from each end; anything else is plain text, unchanged |
| `MathText.ClassifyKeepsContent` | src/App.js:139-145 | putting the delimiters back on a classified piece gives the piece again, except for "$", "$$" and "$$$" |
| `MathText.DollarOnlyParts` | src/App.js:139-145 | "$" reads as empty inline math, "$$" and "$$$" as empty block math |
| `CategoryChart.CategoriesDistinctMembers` | src/components/CategoryChart.js:27-29 | the chart categories (`Categories`) are distinct and are exactly the non-empty categories that occur in the quiz |
| `CategoryChart.CategoriesInFirstAppearanceOrder` | src/components/CategoryChart.js:27-29 | categories come in order of first appearance in the quiz |
| `CategoryChart.CategoryStats` | src/components/CategoryChart.js:16-35 | the loop creates one entry per category that occurs, in first-appearance order; each entry's total is that category's question count and its correct count is the number of its positions that pass the check |
| `CategoryChart.TallySkip` | src/components/CategoryChart.js:19 | a question without a category leaves the order and the entries as they are |
| `CategoryChart.TallyCount` | src/components/CategoryChart.js:19-34 | a question of category `c` adds `c` with zero counts when it is new, then adds one to its total and, when the answer passes, one to its correct count; the entries stay the counts of the longer prefix |
| `CategoryChart.PrefixCategories` | src/components/CategoryChart.js:27-29 | helper for `CategoryStats` (the unfolding of `Categories` at a one-longer prefix): one more question appends its category to the list exactly when it has one and it is new |
| `CategoryChart.PrefixStep` | src/components/CategoryChart.js:18-34 | helper for `CategoryStats` (the unfolding of `TotalIn` and `CorrectIn` at a one-longer prefix): one more question adds one to a category's total when it is of that category, and one to its correct count when its answer also passes |
| `CategoryChart.AbsentHasNoTotal` | src/components/CategoryChart.js:27-29 | a category without an entry has no questions, so a new entry starts at zero |
| `CategoryChart.CorrectAtMostTotal` | src/components/CategoryChart.js:21-34 | a category's correct count is at most its answered count, which is at most its total; unanswered positions never add to `correct` |
| `CategoryChart.PresentHasTotal` | src/components/CategoryChart.js:27-31 | every category with an entry has total >= 1 |
| `CategoryChart.SumTotalsAppend` | src/components/CategoryChart.js:31 | helper for `TotalsSumToCharted`: the sum of totals over two lists of categories is the sum of the two sums |
| `CategoryChart.SumTotalsStep` | src/components/CategoryChart.js:18-31 | one more question adds one to the sum over distinct categories exactly when its category is among them |
| `CategoryChart.TotalsSumToCharted` | src/components/CategoryChart.js:18-31 | the category totals add up to the number of questions with a non-empty category; questions without one are skipped |
| `CategoryChart.LabelReadsBack` | src/components/CategoryChart.js:42 | the label `"<correct>/<total>"` (`Label`) has exactly one '/', and the digits on each side read back as the two counts |
| `CategoryChart.Chart` | src/components/CategoryChart.js:37-43 | one chart entry per distinct category, in first-appearance order, with its correct count, total and label; every entry has 1 <= total and correct <= total |

## Left out

- Year discovery (`src/App.js:31-45`) and the loading of the yearly files (`src/App.js:56-70`). These use bundler context, dynamic `import()`, `Promise.all` and `.catch`. The merged question collection is a parameter of `Derivation.Derive` and `Session.QuizSession.Recompute`.
- The regular-expression split of `src/App.js:137`. Only the classification of each piece is modelled.
- All rendering: JSX, KaTeX, Recharts, `classnames`, and images. When an effect runs is left out too, as is React's batching of state updates. `handleAnswer`'s early check and its updater are modelled as one step on the same answer map.
- The `Array.isArray` guard of `src/components/CategoryChart.js:14`: the quiz is always a sequence here.
- The percentage `ratio` of `src/components/CategoryChart.js:41`, which is floating-point formatting with `toFixed(1)`.
- `Derivation.Shuffle`: the source sorts with a random comparator (`src/App.js:94`). Its random choices are the `picks` parameter, and only "some permutation of the filtered list" is modelled. The distribution is not.
- `JsStrings.Lower`: lowers ASCII letters only. JavaScript's `toLowerCase` also lowers non-ASCII letters, such as full-width Latin letters.
- `JsStrings.StrLessTotal`: `localeCompare` is modelled as code-point lexicographic order. Locale collation is not modelled; for the four-digit year strings of the question banks the two agree.
- `JsStrings.JsNumber`: `Number(s)` is modelled only for the empty string (0), and for an optional minus sign followed by decimal digits. Leading or trailing white space, '+', fractions, exponents and hexadecimal all read as NaN here, although JavaScript accepts them.
- `Derivation.DeriveTruncates`: states the length only for a non-negative `numQuestions`. `Derive` itself follows `slice`, so a negative count drops that many questions from the end. `numQuestions` is an integer here, so neither a NaN count nor a fractional one (`Number(e.target.value)` at `src/App.js:196` can give 2.5, which `slice` truncates to 2) is modelled.
- `part` values other than 午前/午後 are not representable. In the source they make `partOrder` give NaN.
- The optional `questionImage` and `optionImages` fields are not modelled, since they only affect rendering.
- `CategoryChart.CategoryStats`: the key order of `categoryStats` is kept as an explicit list. This matches JavaScript's key order only for category names that are not integer-like, and for names other than special keys such as `__proto__`.
- `Session.QuizSession.Answer`: an out-of-range position is excluded by a precondition, because the interface only offers the displayed positions.
- `Session.QuizSession.Recompute`: re-deriving does not clear the answers, as in the source. So the fact that every answer key lies inside the quiz is a precondition of `Session.Score`, not a class invariant.
- `Session.Score`: requires every answer key to lie inside the quiz. In the source an out-of-range key makes the score expression fail (`src/App.js:301`), so no score is promised for it.
