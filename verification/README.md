# Hakone Ekiden monitor — a verified model of its ranking core

`HakoneEkidenMonitor` (main.py) searches a video site for a keyword and
writes a weekly Markdown report with two tables:

- **The week table.** Videos published in the last seven days, ranked by play count.
- **The classic table.** Videos ranked by a weighted score over clicks, reviews
  ("scores") and favourites ("stow").

This project models the logic between the HTTP calls and the file write. It
covers:

- the count normaliser `_parse_count`;
- the two collectors `fetch_week_videos_top_by_click` and
  `fetch_top_click_candidates`;
- the weighted scorer `compute_weighted_hot`, with its inner `normalize`;
- the filter in `run` that drops week videos from the classic list;
- the rows that `generate_report` builds.

Each page request becomes an input value `PageResponse`. It is either
`Failed`, for any of the reasons the code breaks on, or `Page(items)`. The
clock reading is a parameter.

Modules, one file each:

| file | module | what it holds |
|---|---|---|
| prelude.dfy | `Prelude` | `Option`, Python's slice `s[:n]` (`Take`), subsequences, distinctness by a key |
| strings.dfy | `Strings` | `str(n)`, `str.replace`, `sep.join`, character counting |
| count.dfy | `CountNormalizer` | the raw field type, Python `or` and truthiness, `strip`, `float()` on decimal text, `int()` truncation, `_parse_count` |
| count_facts.dfy | `CountFacts` | what `_parse_count` guarantees |
| items.dfy | `Items` | search items, video records, highlight stripping, collector state |
| stable_sort.dfy | `StableSort` | `list.sort(key=..., reverse=True)`: a stable descending sort, proved sorted, a permutation, stable, and unique with those properties |
| week.dfy | `WeekCollector` | the seven-day collector: an imperative method proved against a page-walk function |
| gather.dfy | `CandidateGatherer` | the candidate collector, in the same style |
| scorer.dfy | `WeightedScorer` | min-max normalisation and the in-place scoring and sort over an `array` |
| report.dfy | `Report` | the classic-list filter, title escaping, table rows and report lines |
| monitor.dfy | `Monitor` | `run`: everything wired together with the monitor's constants |

Every loop of the source is a `method` whose `ensures` ties its result to a
specification function:

- **The collectors.** `FetchWeekTopByPlay` and `FetchTopClickCandidates`
  walk the pages in an outer loop. The inner item loops are `ScanPage` and
  `GatherPage`. Their results are tied to `WeekPass` and `GatherPass`, with
  `break` and `continue` where the source has them.
- **The scorer.** `ComputeWeightedHot` writes a score into each cell of the
  candidate array, then sorts the array in place.
- **The report.** `GenerateReport` appends rows to its line list.

Lemmas state what the specification functions guarantee.

Three behaviours of the code are easy to miss, and the model keeps them:

- **The seen-set.** Out-of-window videos never enter `seen`: a bvid is
  added only for in-window videos (main.py:146-151), and
  `WeekCollector.ScanItem` does the same.
- **Negative counts.** `_parse_count` returns a negative value for a
  negative native number and for text such as `-1万`, and so does
  `CountNormalizer.ParseCount`. Non-negativity is proved only for the
  digit-and-dot fallback (`CountFacts.FallbackNonNegative`).
- **Unescaped cells.** Only the title is escaped (main.py:301-302). The
  date, author and play count are written as they are (main.py:303, 315),
  so an author name containing `|` adds a cell to its row. This is why
  `Report.NewRowWellFormed` and `Report.OldRowWellFormed` assume a plain
  author.

## Model

| member | source | states |
|---|---|---|
| `CountNormalizer.ParseCount` | main.py:89-108 | `None` gives 0, a native int gives itself, a native float gives its truncation toward zero |
| `CountNormalizer.Trunc` | main.py:95 | `int(x)` truncates toward zero: `r <= x < r + 1` for `x >= 0`, `r - 1 < x <= r` below zero |
| `CountNormalizer.ParseUnsigned` | main.py:99-106 | an unsigned decimal numeral reads as a non-negative value |
| `CountNormalizer.KeepNumeric` | main.py:103 | the kept text holds only digits and `.`, in their original order (a subsequence of the input), and every digit and `.` of the input is kept: each character occurs as often as in the input if it is a digit or `.`, and not at all otherwise |
| `CountNormalizer.Or` | main.py:152 | Python's `a or b` on raw fields: the result is one of the two, truthy exactly when one of them is, and the first whenever the first is truthy; see also `CountFacts.OrFallsBackOnlyOnZero` |
| `CountNormalizer.Strip` | main.py:96 | `str.strip()`; see `CountFacts.StripShape` and `CountFacts.StripKeeps` |
| `CountNormalizer.ParseFloat` | main.py:99-106 | `float()` on decimal text; see `CountFacts.NumeralParse`, `CountFacts.FractionParse` and `CountFacts.ParseFloatRejects` |
| `CountNormalizer.LeadingDigits` | main.py:99-106 | inside `float()`, the leading run of digits is all digits and is followed by a non-digit or the end |
| `CountNormalizer.DecimalValue` | main.py:99-106 | the exact value of `whole.frac` is non-negative |
| `CountFacts.StripShape` | main.py:96 | `strip()` removes exactly the maximal leading and trailing whitespace runs and keeps the middle |
| `CountFacts.StripKeeps` | main.py:96 | `strip()` keeps every non-whitespace character and adds none |
| `CountFacts.StripNoSpace` | main.py:96 | text without whitespace is unchanged by `strip()` |
| `CountFacts.OrFallsBackOnlyOnZero` | main.py:152 | `a or b` falls back to `b` only when `a` is falsy, and a falsy `a` parses to 0 |
| `CountFacts.BothUnitsGiveZero` | main.py:98-108 | text with both `亿` and `万` fails `float()` after removing `亿`, and so gives 0 |
| `CountFacts.NoDigitsGiveZero` | main.py:103-105 | unitless text without digits gives 0 |
| `CountFacts.FallbackNonNegative` | main.py:103-106 | unitless text never gives a negative count |
| `CountFacts.KeepNumericDots` | main.py:103 | without digits, only dots are kept |
| `CountFacts.OnlyDotsFail` | main.py:106-108 | `float()` of dots alone fails, and the failure gives 0 |
| `CountFacts.ParseFloatRejects` | main.py:99-108 | a character outside digits, `.`, signs and whitespace makes `float()` fail |
| `CountFacts.ParseFloatNoMinus` | main.py:99-106 | without a `-`, `float()` is non-negative |
| `CountFacts.UnsignedRejects` | main.py:99-106 | an unsigned numeral with a character other than a digit or `.` is rejected |
| `CountFacts.NumeralParse` | main.py:106 | `float()` of a digit string is its decimal value |
| `CountFacts.FractionParse` | main.py:99-106 | `float("a.b")` is the exact value of `a.b` |
| `CountFacts.FractionUnsigned` | main.py:99-106 | the unsigned reader accepts `a.b` with that value |
| `CountFacts.UnitSuffix` | main.py:98-101 | removing a trailing unit leaves the numeral, which `strip()` leaves alone |
| `CountFacts.DecimalRoundTrip` | main.py:103-106 | parsing the decimal text of `n` gives `n` back |
| `CountFacts.KeepNumericIdentity` | main.py:103 | digit text is kept whole |
| `CountFacts.WanRoundTrip` | main.py:100-101 | the text of `n` followed by `万` parses to `n * 10^4` |
| `CountFacts.YiRoundTrip` | main.py:98-99 | the text of `n` followed by `亿` parses to `n * 10^8` |
| `CountFacts.WanDecimal` | main.py:100-101 | `a.b万` parses to the truncation of `a.b × 10^4` |
| `CountFacts.YiDecimal` | main.py:98-99 | `a.b亿` parses to the truncation of `a.b × 10^8` |
| `CountFacts.OneDecimal` | main.py:99-101 | a one-digit fraction `a.b` has the value `a + b/10` |
| `CountFacts.WanExample` | main.py:100-101 | `1.2万` gives 12000 |
| `CountFacts.YiExample` | main.py:98-99 | `3.4亿` gives 340000000 |
| `CountFacts.ParseCountExamples` | main.py:89-108 | `1.2万` gives 12000, `3.4亿` gives 340000000, `None` gives 0, `abc` gives 0, `1,234` gives 1234, and 1500 gives 1500 |
| `CountFacts.KeepNumericConcat` | main.py:103 | the filter works character by character: filtering a concatenation concatenates the filtered parts |
| `CountFacts.GroupedParse` | main.py:96-106 | digits grouped by one separator such as `,` or a space parse to the value of all the digits: the separator is dropped and nothing else is lost |
| `CountFacts.GroupedExample` | main.py:96-106 | `1,234` and `1 234` both give 1234 |
| `CountFacts.NegativeNumeral` | main.py:101 | `float()` of a minus sign followed by digits is the negated value of the digits |
| `CountFacts.WanNegative` | main.py:96-101 | `-` followed by the text of `n` and `万` gives the negative count `-(n * 10^4)` |
| `CountFacts.DigitsLeading` | main.py:99-106 | the leading-digit run of digit text is all of it |
| `CountFacts.LeadingDigitsBound` | main.py:99-106 | the leading-digit run stops at the first non-digit |
| `CountFacts.LeadingDigitsAtLeast` | main.py:99-106 | the leading-digit run covers every leading digit |
| `Strings.NatToStringRoundTrip` | main.py:303 | reading back the decimal rendering `str(n)` of a play count gives `n` |
| `Strings.IntToString` | main.py:303 | `str(i)` is non-empty and consists of digits, with a leading `-` only for negatives; for `i >= 0` the digits read back as `i`, and for `i < 0` the text starts with `-` and the digits after it read back as `-i` |
| `Strings.ReplaceCharRemoves` | main.py:302 | replacing a character by text without it leaves no occurrence |
| `Strings.ReplaceCharKeeps` | main.py:302 | replacing one character keeps every other character |
| `Strings.ReplaceAllSkips` | main.py:154 | `replace` copies unchanged a part that cannot start the pattern |
| `Strings.JoinCount` | main.py:303 | joining parts free of a character counts that character once per separator |
| `Strings.JoinAbsent` | main.py:317 | a character in neither the parts nor the separator is not in their join |
| `Strings.ReplaceCharConcat` | main.py:302 | `replace` of one character distributes over concatenation |
| `Strings.CountConcat` | main.py:303 | occurrence counts add up over concatenation |
| `Items.StripHighlight` | main.py:154 | removing `<em class="keyword">` and `</em>` around a highlighted keyword leaves the plain title |
| `Items.RemoveOpenTag` | main.py:154 | the first `replace` removes the opening tag and leaves the closing tag |
| `Items.RemoveCloseTag` | main.py:154 | the second `replace` removes the closing tag |
| `Items.StripKeyword` | main.py:154 | the two `replace` calls on the title; see `Items.PlainTitle`, `Items.StripHighlight` and `Items.StripHighlights` |
| `Items.PlainTitle` | main.py:154 | a title without `<` is left unchanged (the same `replace` calls appear at main.py:211) |
| `Items.StripHighlights` | main.py:154 | a title with any number of highlighted keywords, `a0 <em class="keyword">k1</em> a1 … <em class="keyword">kn</em> an` with `<`-free pieces, becomes `a0 k1 a1 … kn an` |
| `Items.WeekRecord` | main.py:152-164 | the record the week collector builds from an item; see `WeekCollector.WeekPassFrom` |
| `Items.CandidateRecord` | main.py:209-220 | the record the candidate gatherer builds from an item; see `CandidateGatherer.GatherPassFrom` |
| `Items.Ids` | main.py:285 | the set of bvids of a list: every record's bvid is in it and every member is some record's bvid |
| `Items.InAllItems` | main.py:136 | every item of an answered page is among the items of all answered pages |
| `StableSort.SortDesc` | main.py:174 | `sort(key, reverse=True)`; its four defining properties are the lemmas below |
| `StableSort.SortDescSorted` | main.py:174 | `sort(reverse=True)` yields a non-increasing order by the key |
| `StableSort.SortDescPermutes` | main.py:174 | the sort is a permutation of its input |
| `StableSort.SortDescStable` | main.py:174 | records with equal keys keep their relative order |
| `StableSort.SortDescUnique` | main.py:174 | any sorted arrangement with the same equal-key groups is the sort's result, so the result is determined |
| `StableSort.SortDescMembers` | main.py:174 | the sort keeps exactly the same members |
| `StableSort.SortDescDistinct` | main.py:174 | the sort keeps bvids pairwise distinct |
| `StableSort.InsertSorted` | main.py:174 | inserting into a sorted list keeps it sorted |
| `StableSort.InsertPermutes` | main.py:174 | inserting adds exactly that element |
| `StableSort.InsertStable` | main.py:174 | an inserted record goes after the earlier records with its key |
| `StableSort.SortedSameGroupsEqual` | main.py:174 | two sorted lists with the same equal-key groups are equal |
| `WeekCollector.FetchWeekTopByPlay` | main.py:110-175 | returns the first `limit` collected records sorted by play. The records are in-window and have distinct non-empty bvids. At most `max_pages` pages are requested |
| `WeekCollector.ScanPage` | main.py:141-165 | the item loop skips non-videos, out-of-window, bvid-less and seen items, and records the rest. `all_older` is true iff no in-window video was seen |
| `WeekCollector.ScanItemsGood` | main.py:141-165 | the item loop keeps the records in-window, with distinct non-empty bvids that are all in `seen` |
| `WeekCollector.SortedOutput` | main.py:174-175 | the sorted, truncated output keeps these properties |
| `WeekCollector.WeekPassStops` | main.py:120-171 | pages are requested in order up to `max_pages`. Only a failed page, an empty page or one without in-window videos ends the walk early |
| `WeekCollector.FirstPageOlder` | main.py:167-168 | a first page without any in-window video ends the walk after one request with nothing collected |
| `WeekCollector.NoneInWindowChangesNothing` | main.py:142-147 | a page without in-window videos adds nothing |
| `WeekCollector.WeekFromIgnoresLater` | main.py:120-171 | pages after the one the walk stopped at do not affect the result |
| `WeekCollector.ScanItemsExtends` | main.py:142-165 | the item loop only appends to `collected` |
| `WeekCollector.WeekPass` | main.py:117-171 | the state when the loop over pages ends; see the lemmas of this module |
| `WeekCollector.ScanItemsCovers` | main.py:142-165 | after the item loop, `seen` is exactly the set of collected bvids, and every in-window video item with a bvid has its bvid among them |
| `WeekCollector.WeekPassCovers` | main.py:117-171 | the collector misses nothing it looked at: every in-window video item with a bvid on a requested page has its bvid among the collected records, and `seen` holds exactly their bvids |
| `WeekCollector.WeekFromKeeps` | main.py:117-165 | records are only ever appended |
| `WeekCollector.WeekPassFrom` | main.py:142-165 | every record is built from an in-window video item of an answered page |
| `CandidateGatherer.FetchTopClickCandidates` | main.py:177-230 | returns at most `candidate_count` records sorted by click, with distinct non-empty bvids. At most `max_pages` pages are requested |
| `CandidateGatherer.GatherPage` | main.py:202-223 | the item loop skips non-videos, bvid-less and seen items, and breaks once `candidate_count` records are held |
| `CandidateGatherer.GatherItemsGood` | main.py:202-223 | the item loop keeps the bvids distinct and non-empty and never holds more than `candidate_count` records |
| `CandidateGatherer.GatherPassGood` | main.py:184-224 | the whole walk collects at most `candidate_count` records with distinct non-empty bvids |
| `CandidateGatherer.SortedOutput` | main.py:229-230 | the sorted, truncated output keeps these properties |
| `CandidateGatherer.GatherPassStops` | main.py:184-226 | at most `max_pages` pages are requested, and every page before the last was answered with items. The walk ends early only on a failed or empty page or with `candidate_count` records |
| `CandidateGatherer.GatherPass` | main.py:181-226 | the state when the `while` loop ends; see the lemmas of this module |
| `CandidateGatherer.GatherItemsCovers` | main.py:202-223 | unless the item loop broke on reaching `candidate_count`, every video item with a bvid on the page has its bvid collected, and `seen` is exactly the set of collected bvids |
| `CandidateGatherer.GatherPassCovers` | main.py:181-226 | if fewer than `candidate_count` records were collected, every video item with a bvid on a requested page has its bvid among them, and `seen` holds exactly their bvids |
| `CandidateGatherer.GatherPassFrom` | main.py:202-221 | every record is built from a video item of an answered page |
| `Prelude.Take` | main.py:175 | Python's slice `s[:n]`: a prefix of `s`, of length `min(n, len(s))` for `n >= 0` and `max(len(s) + n, 0)` for negative `n` |
| `WeightedScorer.MinOf` | main.py:245 | `min(arr)` is an element and at most every element |
| `WeightedScorer.MaxOf` | main.py:246 | `max(arr)` is an element and at least every element |
| `WeightedScorer.Normalize` | main.py:244-249 | `normalize` keeps the length and maps every value into [0, 1] |
| `WeightedScorer.Ratio` | main.py:249 | `(v - mn) / (mx - mn)` lies in [0, 1] |
| `WeightedScorer.NormalizeConstant` | main.py:247-248 | a dimension with max = min normalises to 1.0 for every candidate |
| `WeightedScorer.NormalizeMonotone` | main.py:249 | normalisation keeps the order of values |
| `WeightedScorer.NormalizeOrder` | main.py:244-249 | normalised values compare as the raw values do, in both directions |
| `WeightedScorer.RatioEnds` | main.py:249 | `(v - mn) / (mx - mn)` is 0.0 at the minimum and 1.0 at the maximum |
| `WeightedScorer.NormalizeExtremes` | main.py:249 | unless constant, the least value maps to 0.0 and the greatest to 1.0 |
| `WeightedScorer.WithScores` | main.py:257-259 | every candidate with its weighted score attached; keeps the length. See `WeightedScorer.WithScoresChangesOnlyScore` |
| `WeightedScorer.WeightedHot` | main.py:232-262 | what `compute_weighted_hot` returns; see `WeightedScorer.WeightedHotShape` |
| `WeightedScorer.ComputeWeightedHot` | main.py:232-262 | sorts the array in place into the stable descending score order of the scored candidates and returns its first `top_n`. Empty input gives empty output |
| `WeightedScorer.AttachScores` | main.py:257-259 | every candidate gets `_weighted_score` = Σ normalised value × weight, and nothing else changes |
| `WeightedScorer.SortByScore` | main.py:261 | the in-place sort leaves the array equal to the stable descending sort of its old contents |
| `WeightedScorer.WithScoresChangesOnlyScore` | main.py:257-259 | scoring sets `_weighted_score` to the candidate's weighted sum and changes no other field |
| `WeightedScorer.ScoreBounds` | main.py:258 | with non-negative weights each score lies in [0, w_click + w_scores + w_stow] |
| `WeightedScorer.SumBounds` | main.py:258 | a weighted sum of values in [0, 1] lies in [0, sum of the weights] |
| `WeightedScorer.ConstantScores` | main.py:247-258 | candidates that agree on all three counts all score the sum of the weights |
| `WeightedScorer.ClickOnlyRanking` | main.py:251-258 | with all weight on clicks, one candidate scores at most another exactly when it has at most as many clicks |
| `WeightedScorer.WeightedHotShape` | main.py:237-262 | the result is sorted by score and has `min(top_n, n)` candidates. They are scored candidates and a prefix of the full ranking. Empty input gives empty output |
| `WeightedScorer.WeightedHotDistinct` | main.py:257-262 | scoring and ranking never duplicate a bvid |
| `Report.Exclude` | main.py:286 | the list comprehension that drops week bvids; see `Report.ExcludeMembers` |
| `Report.SelectOld` | main.py:285-287 | the classic list; see `Report.SelectOldShape` |
| `Report.ExcludeMembers` | main.py:286 | a scored video survives the filter iff its bvid is not a week bvid |
| `Report.ExcludeSubseq` | main.py:286 | the filter keeps the scored order |
| `Report.ExcludeSorted` | main.py:286 | the filter keeps the descending score order |
| `Report.ExcludeDistinct` | main.py:286 | the filter keeps bvids distinct |
| `Report.SelectOldShape` | main.py:285-287 | the classic list shares no bvid with the week list and keeps the scored order. It has `min(5, survivors)` entries and is a prefix of the survivors |
| `Report.SelectOldComplete` | main.py:285-287 | when at most five survive, every surviving video is listed |
| `Report.SelectOldRanked` | main.py:285-287 | the classic list stays sorted and free of repeated bvids |
| `Report.EscapeCell` | main.py:302 | the three `replace` calls on a title; see the escape lemmas below |
| `Report.EscapeCellConcat` | main.py:302 | escaping works character by character: it distributes over concatenation |
| `Report.EscapeBar` | main.py:302 | a `\|` in a title becomes `&#124;` and the text around it is escaped on its own |
| `Report.EscapeLineFeed` | main.py:302 | a `\n` in a title becomes a space |
| `Report.EscapeReturn` | main.py:302 | a `\r` in a title becomes a space |
| `Report.EscapeCellPlain` | main.py:302 | an escaped title contains no `\|`, `\n` or `\r` |
| `Report.EscapeCellKeeps` | main.py:302 | escaping keeps every other character |
| `Report.EscapeCellIdentity` | main.py:312 | a title without those characters is left unchanged |
| `Report.ReplaceCharAbsent` | main.py:302 | a later `replace` brings no `\|` or line break back |
| `Report.ReplaceCharAbsentSame` | main.py:312 | replacing a character that does not occur changes nothing |
| `Report.NewRow` | main.py:303 | one week row; see `Report.NewRowWellFormed` |
| `Report.OldRow` | main.py:313-315 | one classic row; see `Report.OldRowWellFormed` |
| `Report.ReportLines` | main.py:292-315 | the lines of the report; see `Report.ReportLayout` |
| `Report.RowCells` | main.py:303 | a row of plain cells has one more bar than cells and no line break |
| `Report.NewRowWellFormed` | main.py:303 | whatever the title, a week row has exactly four cells on one line when date, author and bvid are plain (only the title is escaped by the source) |
| `Report.OldRowWellFormed` | main.py:313-315 | likewise a classic row has exactly five cells on one line |
| `Report.UrlPlain` | main.py:158 | the video link adds no bar or line break |
| `Report.TitleCellPlain` | main.py:303 | the linked, escaped title cell is plain |
| `Report.IntToStringPlain` | main.py:303 | the rendered play count is plain |
| `Report.GenerateReport` | main.py:292-317 | the report text is the newline join of the header, week rows, classic header, and either the placeholder or the classic rows |
| `Report.AppendNewRows` | main.py:300-303 | the loop appends one week row per video, in order |
| `Report.AppendOldRows` | main.py:310-315 | the loop appends one classic row per video, in order |
| `Report.NewRowsAt` | main.py:300-303 | the k-th week row renders the k-th week video |
| `Report.OldRowsAt` | main.py:310-315 | the k-th classic row renders the k-th classic video |
| `Report.ReportLayout` | main.py:294-315 | `report_lines` has 8 + n + max(m, 1) entries (the joined text has two more line breaks, from the `\n` inside the summary and classic-header entries): the week rows at positions 5 to 4 + n, the classic header from 5 + n, the placeholder at 8 + n when no classic video exists, then the classic rows |
| `Monitor.Run` | main.py:264-290 | gives at most 10 week videos, in-window and sorted by play, and at most 5 classic videos sorted by score. Neither list repeats a bvid and they share none. The report is built from the two lists |

## Left out

- HTTP requests, headers, cookies and `dotenv` are left out (main.py:1-25, 130, 193). Each page answer is an input `PageResponse`. A status other than 200, a non-zero `code`, non-JSON and an exception in the envelope all become `Failed`.
- `fetch_videos` (main.py:27-87) is not called by `run`, and it is not part of this model.
- Reading the cookie (main.py:14-18) and the cookie check in `run` (main.py:267-268) are left out. That check would fail with a `TypeError` when no cookie is set, because `self.cookie` is then `None`.
- `print`, and the random 5-8 s `sleep` between the two searches are left out. They do not affect any value.
- `time.time()` and `datetime.date.today()` are parameters (`now`, `today`).
- `strftime('%Y-%m-%d')` on local time is the parameter `date: int -> string`. `f"{score:.3f}"` is the parameter `fmt: real -> string`. Time zones and float formatting are outside the model.
- Writing the report file is left out. `GenerateReport` returns the text.
- Floating point is exact `real` arithmetic. Rounding in `float()`, in the `×10^4`/`×10^8` products, in normalisation and in the weighted sums is not modelled.
- `CountNormalizer.ParseFloat` accepts the decimal forms `d`, `d.`, `d.d` and `.d` with an optional sign and surrounding whitespace. Exponents, `_` separators, `inf`/`nan` and non-ASCII digits are read as failures, which give 0 like the `except` branch. `isdigit()` is ASCII-only here. Values of `play` and the other fields that are neither `None`, numbers nor strings (booleans, lists) are not represented.
- An exception raised mid-page (an item that is not a dict, a `pubdate` that is not a number) is not modelled. The source then leaves the page loop (`except Exception: break`) but keeps the records appended earlier on that page (main.py:165-171, 221-226). The model's items are well-formed records, and a `Failed` page contributes no records at all.
- Dicts are values: that two lists can share a dict is not modelled. The scorer's array holds copies, which is equivalent for `run`, where the candidate list is not used again.
- WeekCollector.WeekPassCovers: states that every in-window bvid is collected, not that the record kept for a repeated bvid is built from its first occurrence on the pages.
- CandidateGatherer.GatherPassCovers: likewise states that every bvid is collected while the count is not reached, not that the record kept for a repeated bvid comes from its first occurrence (main.py:206-208); `CandidateGatherer.GatherPassFrom` only says each record comes from some video item.
- `WeightedScorer.Normalize` and `WeightedScorer.AttachScores` require a non-empty input. The source calls them only after `if not candidates: return []`, and `min([])` would raise.

## Findings

None claimed.
