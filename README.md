# Chronological spam backtest, modelled in Dafny

This project models `src/time_eval.py`, the temporal evaluation protocol of a
spam/ham classifier trained on the SpamAssassin corpus. The model follows it
step by step:

- **Date extraction.** `extract_date_utc` finds the first line of an email
  that starts with `Date:`, in any letter case. It strips the rest of that
  line and hands it to the email date parser. It normalises the result to
  UTC and keeps it only when the UTC year lies in 1990 .. 2010.
- **Loading.** `load_rows` walks the `easy_ham` and `spam_2` folders in
  sorted path order. It keeps every regular file whose date extracts,
  labelled 0 (ham) or 1 (spam).
- **Splitting.** `main` sorts the rows by date and cuts them into four
  contiguous blocks with `np.array_split`.
- **Backtest.** For windows 1, 2 and 3, `main` trains on every earlier block
  and scores the current block through `fit_predict`. That function
  thresholds the spam probabilities and counts the confusion matrix.
  It computes binary precision, recall and F1 with zero division giving 0.
  The tested block is then appended to the training rows.

Modules, in dependency order:

| module | file | what it holds | where the source's operations live |
|---|---|---|---|
| `Options` | `options.dfy` | `Option` | |
| `Calendar` | `calendar.dfy` | proleptic Gregorian date-times: the field ranges `datetime` accepts, `toordinal`, instants in seconds, moving by less than a day (what `astimezone` does), and the field-wise order of two UTC `datetime`s | `Shift` (`astimezone`), `DateLt`/`DateLe` (comparing dates) |
| `DateHeader` | `date_header.dfy` | `str.strip`, the pattern `^Date:\s*(.+)$` under `IGNORECASE` and `MULTILINE` with Python's backtracking semantics, the UTC normalisation and `extract_date_utc` | `FirstMatch`/`Search` (`DATE_RE.search`), `RawDate` (`m.group(1).strip()`), `ToUtc`, `ExtractDateUtc` (`extract_date_utc`) |
| `Sorting` | `sorting.dfy` | a stable insertion sort, the reference definition of Python's `sorted`, with permutation, order and stability lemmas | `SortBy` (`sorted`) |
| `Loader` | `loader.dfy` | `load_folder` and `load_rows` as methods whose loops append to the row list, plus the function that specifies them | `LoadFolder`, `LoadRows` (methods); `FolderRows`, `LoadedRows` (their specifications) |
| `Metrics` | `metrics.dfy` | thresholding, the confusion counts, `precision_recall_fscore_support` with `zero_division=0`, and `fit_predict` | `Predict`, `Cell`, `Score`, `FitPredict` (`fit_predict`) |
| `Splitting` | `splitting.dfy` | `np.array_split(rows, 4)` | `ArraySplit` |
| `Backtest` | `backtest.dfy` | the sort by date, the expanding-window loop of `main`, and the properties of the protocol | `Chronological` (`sorted(rows, key=...)`), `Backtest` and `Evaluate` (methods, the loop of `main`), `TrainingRows` and `WindowReport` (what window i trains on and reports) |

Parameters stand in for the code the model cannot see:

- The date grammar of `parsedate_to_datetime` is `parse: Parser`. It maps
  the raw header value to the six time-tuple fields and an optional offset
  in seconds. What `parsedate_to_datetime` does with those fields is
  modelled: it builds a `datetime` (a ValueError becomes None) and
  attaches the `timezone`.
- The trained TF-IDF and logistic-regression pipeline is `fit: Fit`. It maps
  the training texts and labels to the spam probability of a text.
- Folders are given as listings of `FileEntry(name, isFile, text)`, with the
  text already decoded.
- Probabilities and rates are exact `real`s.

Where a reader might expect otherwise, the model follows the code:

- Loaded rows are not an unordered collection. Ham rows come first, then
  spam rows, each folder in sorted path order. The stable sort therefore
  breaks ties between equal dates in exactly that order, and
  `Backtest.ChronologicalOrder` states it.
- A prediction is spam when the probability is at least the threshold
  (`>=`), not strictly above it.
- The year window is checked on the UTC reading, not on the header's local
  year.
- `\s*` in the pattern also matches newlines. A bare `Date:` line therefore
  takes its value from the next non-blank line (`DateHeader.BareDateLine`).

## Model

| member | source | states |
|---|---|---|
| `Calendar.DaysInMonth` | src/time_eval.py:25 | a month has 28 to 31 days, 29 exactly for February of a leap year |
| `Calendar.DaysBeforeYearStep` | src/time_eval.py:29 | consecutive years start the length of a year apart in the ordinal count |
| `Calendar.DaysBeforeYearMonotone` | src/time_eval.py:29 | each later year starts at least 365 days later |
| `Calendar.OrdinalWithinYear` | src/time_eval.py:29 | a date's ordinal lies after the start of its year and no later than the start of the next |
| `Calendar.OrdinalBounds` | src/time_eval.py:25-29 | every date a `datetime` accepts has an ordinal in 1 .. 3652059 |
| `Calendar.SecondsBounds` | src/time_eval.py:25-29 | every valid date-time denotes an instant between the first and the last second `datetime` can hold |
| `Calendar.NextDay` | src/time_eval.py:29 | the day after a date is a valid date whose ordinal is one more |
| `Calendar.PrevDay` | src/time_eval.py:29 | the day before a date is a valid date whose ordinal is one less |
| `Calendar.AtSecond` | src/time_eval.py:29 | the date-time t seconds after midnight of a date is valid, on that date, and denotes that instant |
| `Calendar.Shift` | src/time_eval.py:29 | moving by less than a day gives a valid date-time exactly delta seconds later, and fails (OverflowError) exactly when the instant leaves years 1 .. 9999 |
| `Calendar.DateLtIsEarlier` | src/time_eval.py:89 | the field-wise order Python uses for two UTC `datetime`s puts the earlier instant first |
| `Calendar.DateLeIsInstantOrder` | src/time_eval.py:89 | for valid date-times, sorting no later is the same as denoting no later an instant, both ways |
| `Calendar.SecondsInjective` | src/time_eval.py:26-29 | a valid date-time is determined by the instant it denotes |
| `DateHeader.SpaceEnd` | src/time_eval.py:15 | the greedy whitespace run from a position: all whitespace, stopped by a non-space or the end |
| `DateHeader.SpaceStart` | src/time_eval.py:23 | the whitespace run ending at a position: all whitespace, stopped by a non-space or the start |
| `DateHeader.Strip` | src/time_eval.py:23 | `strip()` returns a slice that neither begins nor ends with whitespace, and cuts only whitespace on either side |
| `DateHeader.LineEnd` | src/time_eval.py:15 | `.+$` runs to the next newline or the end of the text, over no newline |
| `DateHeader.LastNonNewline` | src/time_eval.py:15 | where backtracking gives back `\s*`: the last non-newline position of a range, or None when the range is all newlines |
| `DateHeader.GroupStart` | src/time_eval.py:15 | the capture group starts at the last place the greedy `\s*` allows, or nowhere can it start |
| `DateHeader.MatchAtSpec` | src/time_eval.py:15 | the match at a position exists exactly when `^`, `Date:` and a possible group start hold there, and its value is the group the backtracking matcher captures, both ways |
| `DateHeader.FirstMatch` | src/time_eval.py:20 | `search` finds the leftmost position where the pattern matches, and none matches before it |
| `DateHeader.ToUtc` | src/time_eval.py:24-29 | a converted date-time comes from a constructible tuple and is its UTC reading: the same wall clock with no zone, the same instant with one |
| `DateHeader.ToUtcFails` | src/time_eval.py:24-29 | the conversion fails exactly when the tuple is not a `datetime` or no date-time of years 1 .. 9999 is its UTC reading |
| `DateHeader.ExtractDateUtc` | src/time_eval.py:18-35 | a returned date is a valid UTC date-time of 1990 .. 2010 |
| `DateHeader.ExtractDateUtcSpec` | src/time_eval.py:18-35 | the result is u exactly when a `Date:` line is found, its stripped value parses, the fields make a `datetime`, u is its UTC reading and u's year is in 1990 .. 2010; every other case, failures included, gives None |
| `DateHeader.UtcReadingUnique` | src/time_eval.py:26-29 | a parsed local time has at most one UTC reading |
| `DateHeader.NoDateLine` | src/time_eval.py:20-22 | a text with no line starting with `Date:` has no raw date and no extracted date |
| `DateHeader.FirstDateLine` | src/time_eval.py:15-23 | the first line starting with `Date:` decides: the raw value is the stripped text from the first non-blank character after the colon to the end of that character's line |
| `DateHeader.SingleLineHeader` | src/time_eval.py:15-23 | for a first header line `Date: v` with v trimmed and ending its line, the raw value is exactly v |
| `DateHeader.HeaderLineLayout` | src/time_eval.py:15 | on a `Date: v` line the prefix matches, `\s*` takes the one space, and `.+$` takes exactly v |
| `DateHeader.BareDateLine` | src/time_eval.py:15-23 | after a bare `Date:` line the raw value is read from the next line |
| `DateHeader.LineEndOfLine` | src/time_eval.py:15 | `.+$` ends at the newline that ends a newline-free stretch |
| `DateHeader.StripOfTrimmed` | src/time_eval.py:23 | `strip()` leaves a value alone that neither starts nor ends with whitespace |
| `DateHeader.EasternOffsetExample` | src/time_eval.py:28-29 | 15 Jan 2003 08:30 at -0500 converts to 13:30 UTC |
| `DateHeader.NewYearEveInUtc` | src/time_eval.py:28-29 | 31 Dec 2010 23:00 at -0500 converts to 1 Jan 2011 04:00 UTC |
| `DateHeader.YearWindowAfterConversion` | src/time_eval.py:30-33 | a header of 31 Dec 2010 23:00 -0500 yields no date, because the window applies to the UTC year |
| `Sorting.Insert` | src/time_eval.py:89 | inserting adds exactly x to the multiset of elements |
| `Sorting.SortBy` | src/time_eval.py:89 | the sorted sequence is a permutation of its input |
| `Sorting.InsertSorted` | src/time_eval.py:89 | inserting into a sorted sequence keeps it sorted |
| `Sorting.PrependSorted` | src/time_eval.py:89 | an element that sorts no later than all of a sorted sequence may go in front |
| `Sorting.SortByIsSorted` | src/time_eval.py:89 | the result of `sorted` is in order under any total preorder |
| `Sorting.TiedWithAppend` | src/time_eval.py:89 | the elements tied with y in a concatenation are those of each part, in order |
| `Sorting.InsertTiedWith` | src/time_eval.py:89 | inserting x adds x in front of its own tie class and changes no other class |
| `Sorting.InsertPastTiedWith` | src/time_eval.py:89 | the step where x moves past a head it does not tie with: the tie classes are unchanged but for x |
| `Sorting.NotBothTied` | src/time_eval.py:89 | an element x sorts after cannot tie with the same key as x |
| `Sorting.SortByIsStable` | src/time_eval.py:89 | `sorted` is stable: the elements of each tie class keep their input order |
| `Sorting.SortedSplit` | src/time_eval.py:89-96 | in a sorted sequence every element before a cut sorts no later than every element after it |
| `Loader.NameLeTotal` | src/time_eval.py:43 | any two file names compare one way or the other |
| `Loader.NameLeTransitive` | src/time_eval.py:43 | the path order is transitive |
| `Loader.ByNameIsTotalPreorder` | src/time_eval.py:43 | sorting paths by name is sorting under a total preorder |
| `Loader.LoadFolder` | src/time_eval.py:42-50 | the loop appends to `rows`, in sorted path order, one row for each regular file whose date extracts, and nothing else |
| `Loader.LoadRows` | src/time_eval.py:38-54 | the rows are easy_ham's rows followed by spam_2's |
| `Loader.FolderRowsMembers` | src/time_eval.py:44-50 | a row comes from a folder exactly when some entry of it yields that row |
| `Loader.FolderRowsFields` | src/time_eval.py:47-50 | every row of a folder carries the folder's label and the date extracted from its own text |
| `Loader.SortedFolderMembers` | src/time_eval.py:42-50 | a row is in a loaded folder exactly when some regular file of the listing has its text and extracts to its date, and the label is the folder's |
| `Loader.LoadedRowsMembers` | src/time_eval.py:42-54 | a loaded row is exactly a regular file of easy_ham labelled 0, or of spam_2 labelled 1, whose date extracts, and its date is the extracted date |
| `Loader.HamBeforeSpam` | src/time_eval.py:52-53 | in the loaded rows no spam row is followed by a ham row |
| `Loader.LabelledBlocks` | src/time_eval.py:52-53 | rows all labelled 0 followed by rows all labelled 1 never have a 1 before a 0 |
| `Loader.FolderInPathOrder` | src/time_eval.py:43 | each folder is read in sorted path order, every entry once |
| `Metrics.Ratio` | src/time_eval.py:73 | `zero_division=0`: the ratio lies in [0, 1], is 0 for a zero denominator, and multiplied back gives the numerator otherwise |
| `Metrics.ScoreReport` | src/time_eval.py:70-79 | each confusion cell counts the test positions with its label whose probability is at least the threshold (prediction 1) or below it (prediction 0); the cells sum to `test_n`; `spam_in_test` is FN + TP and `predicted_spam` is FP + TP; precision, recall and F1 follow from the cells |
| `Metrics.WithRates` | src/time_eval.py:73-80 | the report carries the given counts, precision TP/(TP+FP) and recall TP/(TP+FN) (each 0 on a zero denominator), F1 their harmonic mean, all in [0, 1] |
| `Metrics.RatiosAreRates` | src/time_eval.py:73 | sklearn's three ratios of the cells are precision, recall and F1 as defined above |
| `Metrics.CellIdentities` | src/time_eval.py:72-78 | the four cells partition the test set; the label sum is the spam row, the prediction sum the spam column |
| `Metrics.CellCountsPositions` | src/time_eval.py:70-72 | each cell counts exactly the set of test positions it names |
| `Metrics.HarmonicMean` | src/time_eval.py:73 | 2TP/(2TP+FP+FN) is the harmonic mean of precision and recall, and 0 when both are 0 |
| `Metrics.HarmonicOfQuotients` | src/time_eval.py:73 | the harmonic mean of a/b and a/c is 2a/(b+c) |
| `Metrics.OutcomesArePositions` | src/time_eval.py:58-72 | the positions counted over the label and probability vectors are the test rows with that label and that prediction |
| `Metrics.FitPredictReport` | src/time_eval.py:57-81 | `fit_predict` reports `test_n` as the test size and each cell as the number of test rows with its true label that the classifier trained on the training rows scores at or above (spam) or below (ham) the threshold, plus the sums and rates above |
| `Splitting.BlockStartClosedForm` | src/time_eval.py:91 | block k starts after k whole shares n div 4, plus one item for each earlier block among the first n mod 4 |
| `Splitting.BlockStartMonotone` | src/time_eval.py:91 | blocks start in order, and the four blocks together reach n |
| `Splitting.Block` | src/time_eval.py:91 | block k has n div 4 items, plus one for the first n mod 4 blocks |
| `Splitting.ArraySplit` | src/time_eval.py:91 | `np.array_split(rows, 4)` gives 4 blocks of those sizes |
| `Splitting.ArraySplitPrefix` | src/time_eval.py:91-92 | the first i blocks concatenated are the first BlockStart(i) rows: the blocks are contiguous and in order |
| `Splitting.ArraySplitConcat` | src/time_eval.py:91 | the four blocks concatenate to the sorted rows |
| `Splitting.TestBlocksCoverRest` | src/time_eval.py:95-96 | blocks 1, 2 and 3 are, in order, exactly the rows after block 0, so each of those rows is tested once |
| `Backtest.ByDateIsTotalPreorder` | src/time_eval.py:89 | comparing rows by date is a total preorder |
| `Backtest.ChronologicalOrder` | src/time_eval.py:89 | the sorted rows are a permutation of the loaded rows, in date order, and rows with equal dates keep loader order |
| `Backtest.Backtest` | src/time_eval.py:91-103 | the loop produces three reports, report i - 1 being `fit_predict` of every block before i against block i |
| `Backtest.NextWindow` | src/time_eval.py:95-103 | one loop turn appends window i's report, and `train_accum += test_block` gives window i + 1's training rows |
| `Backtest.AccumulatedWindow` | src/time_eval.py:92-103 | blocks 0 .. i - 1 concatenated are the rows before block i, and adding block i gives blocks 0 .. i |
| `Backtest.Evaluate` | src/time_eval.py:84-103 | `main` reports as loaded count the number of sorted rows and, for each window, the report of the rows before its block against that block |
| `Backtest.ExpandingWindow` | src/time_eval.py:103 | after window i the training rows grow by exactly its test block |
| `Backtest.TrainingPrecedesTest` | src/time_eval.py:89-97 | every training row of window i is dated no later than every row of its test block |
| `Backtest.LoadedDatesValid` | src/time_eval.py:30-50 | every loaded row has a valid UTC date of 1990 .. 2010 |
| `Backtest.TrainedNoLaterThanTested` | src/time_eval.py:88-97 | in the backtest `main` runs, every email trained on in window i was sent no later than every email tested in it |
| `Backtest.EarlierRowsEarlierInstants` | src/time_eval.py:89-97 | for rows with valid dates, the date order of the windows is the order of the instants |
| `Backtest.WindowRowsAreLoaded` | src/time_eval.py:89-96 | training and test rows of a window are loaded rows |

## Left out

- File-system access is not modelled: `glob`, `is_file`, and `read_text(errors="ignore")` with its decoding (src/time_eval.py:43-46). A folder is a listing of entries with a regular-file flag and text. `FileEntry.text` is the text as `read_text` returns it: decoded, and with `\r\n` and lone `\r` already translated to `\n`. The pattern's `^` and `$` therefore only need to recognise `\n`.
- The fixed data paths of `main` (src/time_eval.py:85-86) are left out. The two listings are parameters.
- The grammar inside `parsedate_to_datetime` is a foreign library, so it is the parameter `parse`. The model covers what follows the grammar: building the `datetime`, the range checks of `datetime` and `timezone`, and the UTC conversion. Microseconds are left out because a header never yields them.
- The `except Exception` of src/time_eval.py:34-35 has no separate control flow in the model. Each failure inside the `try` block is a `None` path of `ToUtc` or `parse`.
- The TF-IDF and logistic-regression pipeline (src/time_eval.py:63-69) is the parameter `fit`. Its floating-point internals are out of scope.
- Floating point is left out. Probabilities, the threshold and the rates are exact reals, and `float(...)` and `int(...)` conversions are identities.
- sklearn's failures on an empty or single-class training block are not modelled. The source does not handle them: the run aborts.
- Printing is not modelled: the `Loaded rows` line and the per-window report with `.3f` formatting (src/time_eval.py:94, 98-101). `Backtest.Evaluate` returns the printed values instead.
- Loader.NameLe: paths are compared by file name only. Every path of one folder shares the folder prefix, so on POSIX this is the order `sorted` gives the paths. On Windows `pathlib` compares path parts case-folded, which `NameLe` does not model.
- `streamlit_app/app.py` is not part of this model. It is an interactive front end with three pieces of logic, all out of scope here. It rejects blank or whitespace-only input with a warning (streamlit_app/app.py:27-28). It re-reads the threshold file on every request (streamlit_app/app.py:17-18, 30). It applies the `>=` threshold test, the same test `Metrics.Predict` models for `fit_predict`.
- The `tzinfo` of the returned date-time is not represented. Every value the model returns is UTC.
