# Phone-number PII detector for Redash query logs

`analyze_phone_pii.py` reads the audit-log exports of a Redash instance (CSV files
whose `additional_properties` column holds a JSON object with the SQL `query` that
was run). It picks out the log rows whose query could have exposed phone numbers
and writes them to a single output CSV. Each output row carries the extra column
`matched_phone_pattern`, which says why the row was picked.

A query is picked when three conditions hold:

- it is not empty;
- it contains the whole word `select`, in any case;
- either it names a phone-like column, or it is a `select *` query whose `from`
  clause names a table that commonly holds phone numbers.

The column names are the 19 regexes of `PHONE_PATTERNS`. For a column match, the
recorded pattern is the matched text as the query spells it. The tables are the 8
regexes of `PHONE_TABLES`. For a table match, the recorded pattern is
`SELECT * from ` followed by the table token.

This project models that logic in Dafny:

- `text.dfy` (module `Text`): character classes (ASCII `\w`, `\s`, quotes,
  table-token characters), lower-casing, case-insensitive comparison, regex word
  boundaries `\b`, and the end of a run of characters of one class.
- `classifier.dfy` (module `Classifier`): `find_phone_pattern_in_query` as the
  function `FindPhonePattern`.
  - The two pattern lists are constants.
  - Each regex is written out as the search Python's backtracking engine performs:
    positions are tried left to right, and alternatives in the engine's priority
    order.
  - In the first table entry `\to_contact?\b`, the escape `\t` takes the `t` of
    `to_contact`. The entry is therefore a TAB, then `o_contac`, then an optional
    `t`, then `\b`, and the model uses exactly that. The entry never matches a plain
    `to_contact`. On `select * from <TAB>o_contact` it matches, and the TAB is part
    of the table name returned.
  - The table regex `\bfrom\s+([`"]?)([^\s,`"]*<table>[^\s,`"]*)\1` is modelled
    with its greedy quantifiers, its optional opening quote and the backreference
    to that quote, so the captured group 2 is the one Python returns.
- `rows.dfy` (module `Rows`): the row loop of `process_csv_file`.
  - The method `ProcessCsvFile` runs a `while` loop over the rows the CSV reader
    yields.
  - It is proved equal to the pure function `FileMatches`.
  - A row is skipped on a JSON decode error and kept when the classifier returns
    a pattern. Any other exception ends the loop, and the matches found so far are
    returned.
- `consolidate.dfy` (module `Consolidate`): the accumulation part of `main`.
  - The files are visited in order. A missing file is skipped.
  - Each match is tagged with its pattern and appended to the output.
  - The output's columns come from the first file with matches.
  - Without any match, the header comes from the first readable file, or else is
    the fixed default line.
  - The methods `ConsolidateFiles`, `VisitFile`, `AppendTagged` and
    `ReadFallbackHeader` are proved against the pure function
    `Consolidated`.
- `worked_queries.dfy` (module `WorkedQueries`): whole-query results for queries
  that show the classifier's edge cases.

## Model

| member | source | states |
|---|---|---|
| Classifier.FindPhonePattern | analyze_phone_pii.py:52-85 | A result, when there is one, is never the empty string, so the caller's truthiness test keeps every result |
| Classifier.ResultNeedsSelect | analyze_phone_pii.py:57-65 | A query gets a result only if it is non-empty and contains `select` as a whole word, in any case |
| Classifier.SelectGuardIsWholeWord | analyze_phone_pii.py:61-64 | Searching `\bselect\b` in the lower-cased query succeeds exactly when the original query has a word `select` in any case |
| Classifier.ColumnMatchIsWholeWord | analyze_phone_pii.py:17-37 | A column pattern matches at a position exactly when a whole word starts there and fits the pattern (the token, or for `to_contact` the token, `_` and more word characters); the match is then the entire word |
| Classifier.ColumnSearchFindsWord | analyze_phone_pii.py:69-71 | `re.search` with a column pattern finds the leftmost whole word that fits, and finds nothing exactly when no word fits |
| Classifier.ColumnStageFindsWord | analyze_phone_pii.py:69-74 | The column loop stops at the first list entry that matches anywhere; no earlier entry matches; the hit is the leftmost fitting word; the loop gives nothing exactly when no entry matches |
| Classifier.ColumnResultIsFirstFit | analyze_phone_pii.py:69-74 | For a `select` query, if entry `j` is the first entry that matches and position `i` holds its leftmost fitting word, the result is that word as the query spells it |
| Classifier.ColumnMatchEndLower | analyze_phone_pii.py:61-64 | A column pattern matches the lower-cased text exactly where and as far as it matches the original text (IGNORECASE makes the lower-casing irrelevant) |
| Classifier.SelectStarLower | analyze_phone_pii.py:78 | `select\s+\*` is found in the lower-cased query exactly when it is found in the query |
| Classifier.TablePatternIsWholeWord | analyze_phone_pii.py:41-50 | A table pattern ends at `e` exactly when its lead holds (a word boundary, or for the first entry the TAB that `\t` denotes, after which the stem is `o_contac`), the whole word after the lead fits (the stem, or the stem and the optional letter), and `e` is that word's end |
| Classifier.TablePatternEnds | analyze_phone_pii.py:41-50 | Every end a table pattern can reach is at a word boundary and closes a run of word characters |
| Classifier.OptionalEnds | analyze_phone_pii.py:41-50 | For an entry with an optional letter, the ends are listed in the engine's order: after the optional letter first, then right after the stem, each only where a boundary stands |
| Classifier.AloneEnds | analyze_phone_pii.py:41-50 | For an entry without an optional letter, the only end is right after the stem, and only where a boundary stands |
| Classifier.PhonePatternsWellFormed | analyze_phone_pii.py:17-37 | Every column token is a non-empty lower-case word |
| Classifier.PhoneTablesWellFormed | analyze_phone_pii.py:41-50 | Every table stem is a non-empty lower-case word, and every optional character is a lower-case letter |
| Classifier.TryStarts | analyze_phone_pii.py:81 | The split of a token into `[^\s,`"]*`, pattern, `[^\s,`"]*` that the engine finds puts a table-pattern end inside the token, and the token closes as the backreference demands |
| Classifier.TryStartsIsRightmost | analyze_phone_pii.py:81 | The greedy first `[^\s,`"]*` gives back one character at a time: the pattern start used is the rightmost one from which some end can be closed, the end and close are what the ends loop picks there, and nothing is found exactly when no start can be closed |
| Classifier.TryStartsFromRun | analyze_phone_pii.py:81 | Over the whole token run after group 1, group 2 fails to form exactly when no pattern start in the run leads to a closable end |
| Classifier.TrySpaces | analyze_phone_pii.py:81 | After `from`, `\s+` gives back spaces one at a time; any capture found has its group 2 made of token characters around a table-pattern match, and its closing quote matches its opening one |
| Classifier.TrySpacesIsLongest | analyze_phone_pii.py:81 | The capture found uses the longest whitespace run after which group 1 and group 2 can be matched, it is what matching from that point gives, no longer run works, and nothing is found exactly when no run length works |
| Classifier.TableSearch | analyze_phone_pii.py:81-82 | The table regex's `re.search` gives its leftmost match, and no match starts before it |
| Classifier.TableStage | analyze_phone_pii.py:79-83 | The table loop stops at the first entry whose regex matches, and no earlier entry matches |
| Classifier.ColumnSearch | analyze_phone_pii.py:70-71 | `re.search` with a column pattern reports the leftmost position where the pattern matches, with the end of that match; no position before it matches, and nothing is reported only when no position matches |
| Classifier.ColumnStage | analyze_phone_pii.py:69-74 | The loop over `PHONE_PATTERNS` reports the first entry whose search succeeds, with that search's result; every earlier entry's search fails, and nothing is reported only when every search fails |
| Classifier.SelectStarAt | analyze_phone_pii.py:78 | Where `select\s+\*` matches, `select` is followed by at least one whitespace character and more text |
| Classifier.SelectStarMeans | analyze_phone_pii.py:78 | `select\s+\*` matches at a position exactly when `select` in any case stands there, followed by one or more whitespace characters and then `*` |
| Classifier.HasSelectStar | analyze_phone_pii.py:78 | A query that matches `select\s+\*` is at least eight characters long |
| Classifier.HasSelectStarMeans | analyze_phone_pii.py:78 | `re.search` with `select\s+\*` succeeds exactly when some position holds `select` in any case, one or more whitespace characters, then `*` |
| Classifier.CloseFrom | analyze_phone_pii.py:81 | The second `[^\s,`"]*` gives back characters until the back-reference `\1` holds; where it stops lies within the run, and the closing quote (if any) stands there |
| Classifier.CloseFromIsLargest | analyze_phone_pii.py:81 | The position where the second `[^\s,`"]*` stops is the largest one at which `\1` holds, and nothing is found exactly when `\1` holds at no position in the range |
| Classifier.CloseAfter | analyze_phone_pii.py:81 | After a pattern end, the back-reference closes exactly when some token run from there is followed by the closing quote (or, without a quote, by anything); the close used is the longest such run |
| Classifier.TryEnds | analyze_phone_pii.py:81 | The end of the table pattern that is used is one of its possible ends; a run of token characters follows it, and the back-reference holds after that run |
| Classifier.TryEndsIsFirst | analyze_phone_pii.py:81 | The end used is the first in the engine's order after which the rest of the regex can close; every earlier end cannot close; the close is the longest possible; nothing is found exactly when no end can close |
| Classifier.TryEndsAt | analyze_phone_pii.py:81 | From a given pattern start, the ends loop fails exactly when no reachable end can be closed |
| Classifier.TryOpenings | analyze_phone_pii.py:81 | Any capture found starts at the given position, holds a table-pattern match inside a token run, and is closed by the same quote as the one group 1 took |
| Classifier.TryOpeningsPrefersQuote | analyze_phone_pii.py:81 | Group 1 first tries the quote and then the empty string: a capture is found exactly when one of the two can be completed; when the quoted form can, it is the one returned; for a well-formed table entry, a quote at that position rules out the unquoted form, so any capture found took the quote |
| Classifier.QuoteStartsNoPattern | analyze_phone_pii.py:81 | For a well-formed table entry, when group 1 is empty and a quote stands at the opening, group 2 cannot form, since the quote cannot be part of the token |
| Classifier.TableMatchAt | analyze_phone_pii.py:81 | A match of the table regex at a position is a well-formed capture: a word-bounded `from`, whitespace, an optional quote, then group 2 around a table-pattern match, closed by the same quote |
| Classifier.TableMatchAtIsComplete | analyze_phone_pii.py:81 | The table regex matches at a position exactly when some well-formed capture starts there, and the match found uses whitespace at least as long as any such capture's |
| Classifier.CaptureFound | analyze_phone_pii.py:81 | Any well-formed capture at a position makes the regex match there, with an opening no earlier than that capture's |
| Classifier.CaptureOpens | analyze_phone_pii.py:81 | At the opening of a well-formed capture, group 1 and group 2 can be matched |
| Classifier.CaptureTokenShape | analyze_phone_pii.py:81 | Group 2 of a table match is a run of characters that are not whitespace, `,`, a backtick or `"` (the TAB of the first entry excepted) |
| Classifier.CaptureQuotesMatch | analyze_phone_pii.py:81 | When group 1 took a quote, the same quote closes group 2 |
| Classifier.TableResult | analyze_phone_pii.py:76-83 | A result for a query that names no phone column needs `select *`, and is `SELECT * from ` followed by group 2 of some table regex's match |
| Classifier.TableResultIsFirstMatch | analyze_phone_pii.py:76-83 | For a `select *` query that names no phone column, the result is taken from the first table regex that matches |
| Rows.ProcessCsvFile | analyze_phone_pii.py:87-115 | The loop returns exactly the specified matches of the file: kept rows in order with their patterns, up to the first row that raises an uncaught exception |
| Rows.CollectMatches | analyze_phone_pii.py:92-115 | The loop over rows, for any per-row outcome, returns the specified matches |
| Rows.ExamineRow | analyze_phone_pii.py:100-110 | Only a row whose `additional_properties` cell is present can raise an exception that leaves the loop; a pattern the classifier returns for a row is never empty |
| Rows.PresentCellOutcomes | analyze_phone_pii.py:100-110 | Per decoded cell: a decode error skips the row; a non-object, a truthy non-string `query`, or a cell with no field (`json.loads(None)`) leaves the loop; a missing or falsy non-string `query` gives no match; a string `query` gets the classifier's answer |
| Rows.Matches | analyze_phone_pii.py:92-115 | A file never yields more matches than it has rows |
| Rows.KeptIffClassified | analyze_phone_pii.py:105-106 | A classified row is kept exactly when the classifier gave it a pattern |
| Rows.SkippedRows | analyze_phone_pii.py:100-110 | A row whose JSON cannot be decoded is skipped; a row without the column reads as `{}` and is classified as not matching |
| Rows.EmptyQueryNoMatch | analyze_phone_pii.py:57-58 | A row without `query` has the empty query, which gets no result |
| Rows.UnkeptRowIsTransparent | analyze_phone_pii.py:100-110 | Removing a skipped or unmatched row does not change the file's matches |
| Rows.AbortKeepsEarlierMatches | analyze_phone_pii.py:112-115 | After an uncaught exception the file's matches are those of the rows before it, which are still returned |
| Rows.MatchesAppend | analyze_phone_pii.py:92-107 | Without an exception in the first part, the matches of two runs of rows are the matches of the first followed by those of the second |
| Rows.MatchesAreKeptRows | analyze_phone_pii.py:105-107 | Every match is a row of the file with the classifier's non-empty pattern; every kept row before the first exception is among the matches |
| Rows.SetLookup | analyze_phone_pii.py:150-151 | After setting a key in a row, the key reads the new value and every other key reads as before |
| Rows.SetKeys | analyze_phone_pii.py:150-151 | Setting a key keeps the key order, and appends the key when it is new |
| Rows.SetUniqueKeys | analyze_phone_pii.py:150-151 | Setting a key keeps the keys distinct |
| Consolidate.ConsolidateFiles | analyze_phone_pii.py:129-182 | The file loop and the header choice produce exactly the specified report |
| Consolidate.VisitFile | analyze_phone_pii.py:133-152 | One file appends the tagged copies of its matches (nothing when it is missing), and sets the columns only when none are set yet and it has matches |
| Consolidate.AppendTagged | analyze_phone_pii.py:149-152 | The inner loop appends the tagged copy of every match, in order |
| Consolidate.ReadFallbackHeader | analyze_phone_pii.py:162-173 | The fallback loop finds the header of the first present file whose header can be read, with the new column added |
| Consolidate.Consolidated | analyze_phone_pii.py:159-189 | The report's rows are all tagged matches; with rows, the header is the columns of the first file with matches; every column header ends with `matched_phone_pattern` |
| Consolidate.FirstSchema | analyze_phone_pii.py:141-146 | The columns, once set, end with `matched_phone_pattern` |
| Consolidate.FallbackFieldnames | analyze_phone_pii.py:162-173 | A fallback header, when one is found, ends with `matched_phone_pattern` |
| Consolidate.OutputRowsFromMatches | analyze_phone_pii.py:133-152 | Every output row is the tagged copy of a match of some present file that has matches |
| Consolidate.RowsIffSchema | analyze_phone_pii.py:141-152 | There are output rows exactly when the columns have been set |
| Consolidate.AllOutputRowsAppend | analyze_phone_pii.py:133-152 | The output of two runs of files is the output of the first followed by that of the second |
| Consolidate.FirstSchemaAppend | analyze_phone_pii.py:141-146 | The columns set by two runs of files are those of the first run when it sets any, else those of the second |
| Consolidate.MissingFileSkipped | analyze_phone_pii.py:134-136 | A missing file changes neither the output rows nor the columns |
| Consolidate.NoMatchesNoSchema | analyze_phone_pii.py:141-146 | Without any file with matches, no columns are set |
| Consolidate.SchemaFromFirstMatchingFile | analyze_phone_pii.py:141-146 | The columns are the keys of the first match of the first file with matches, followed by the new column |
| Consolidate.FallbackFromFirstReadable | analyze_phone_pii.py:162-173 | The fallback header comes from the first present file with a readable header; without one there is none |
| Consolidate.TagSetsOnlyTheColumn | analyze_phone_pii.py:149-152 | A tagged copy holds the pattern in `matched_phone_pattern`, keeps every other column, keeps keys distinct, and adds the column last when it is new |
| Consolidate.TaggedRowAt | analyze_phone_pii.py:149-152 | The k-th output row of a file is the tagged copy of its k-th match |
| Consolidate.HeaderWithoutMatches | analyze_phone_pii.py:159-182 | Without any match the output has no rows, and its header is the fallback header or else the fixed default line |
| WorkedQueries.UpdateHasNoResult | analyze_phone_pii.py:63-65 | `update phone` names a phone column but has no `select`, so it gets no result |
| WorkedQueries.TelephoneIsNotTel | analyze_phone_pii.py:22-27 | `select telephone` gives `telephone`: `\btel\b` does not fit inside a longer word, so the later entry `telephone` decides |
| WorkedQueries.PhoneNumberIsNotPhone | analyze_phone_pii.py:19-24 | `select phone_number` gives `phone_number`: `_` is a word character, so `\bphone\b` does not match |
| WorkedQueries.SuffixedToContactIsWhole | analyze_phone_pii.py:18 | `select to_contact_orig` gives the whole word `to_contact_orig` |
| WorkedQueries.NameHasNoResult | analyze_phone_pii.py:67-85 | `select name` names no phone column and has no `select *`, so it gets no result |
| WorkedQueries.NoColumnNoStarNoResult | analyze_phone_pii.py:69-85 | A query in which no word fits a column pattern and which has no `select *` gets no result |
| WorkedQueries.ContactsTableFallback | analyze_phone_pii.py:76-83 | `select * from contacts` gives `SELECT * from contacts`: the TAB-led first table entry fails and `\bcontacts?\b` takes the optional `s` |
| WorkedQueries.ContactsSecondTable | analyze_phone_pii.py:81 | On `select * from contacts`, the second table regex matches at `from` with group 2 `contacts` |
| WorkedQueries.TabToContactTable | analyze_phone_pii.py:42 | `select * from <TAB>o_contact` gives `SELECT * from <TAB>o_contact`: the first table entry is TAB, `o_contac`, `t?`, and `\s+` gives back the TAB so that group 2 can start with it |
| WorkedQueries.TabFirstTable | analyze_phone_pii.py:42 | On that query the first table regex matches at `from`, with group 2 the TAB and `o_contact` |
| WorkedQueries.TryStartsNone | analyze_phone_pii.py:81 | Where the table pattern can start nowhere in the token, the regex cannot form group 2 from it |
| WorkedQueries.RightmostStart | analyze_phone_pii.py:81 | When the pattern can start only at the first position of a token run and closes from there, group 2 starts there, with that end and close |

## Left out

- File I/O is not modelled: opening files, existence checks, and the stderr progress and warning messages. Whether each file exists, the rows its reader yields and whether its header can be read are inputs (`InputFile`).
- The six hard-coded file names and the `__main__` entry point are not modelled; the file list is an input.
- CSV parsing and writing are not modelled: `csv.DictReader`, `DictWriter`, and `field_size_limit`. A row is a sequence of key/value pairs as the reader yields it. The written report is a header plus rows.
- `DictWriter` raising on a row whose keys are not among the columns is not modelled. This can happen when a later file has other columns than the first file with matches; the model's report just holds the rows.
- `json.loads` is a parameter `decode` returning a decode error, a non-object, or an object with or without `query`. JSON parsing itself is not modelled.
- A read error part-way through a file is modelled as the reader yielding fewer rows.
- The fallback header is an input per file, because the second read of the file is I/O. The fallback loop's `except: continue` is the case where that input is `None`.
- Regexes use ASCII `\w` and ASCII case folding. Python's Unicode `\w`, Unicode `lower()` and IGNORECASE folding of non-ASCII letters are not modelled. `\s` is modelled as the full set of characters for which `str.isspace()` holds.
- On an exception part-way through a file, `process_csv_file` still returns the matches found before it: the outer `except` at :112 falls through to the `return` at :115. The model keeps those matches too (`Rows.AbortKeepsEarlierMatches`).
