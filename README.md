# daily-poem-bot, modelled in Dafny

The bot runs once a day. It draws random text ids from the Ben-Yehuda project library and
fetches each record. It skips a record that is not a poem, that has no download URL, or
whose page cleans to fewer than 20 characters. Otherwise it cleans the downloaded page into
plain text and a short HTML rendering, asks a list of Gemini backends, in order, for a
commentary, and mails the poem with that commentary. It stops after the first poem that
passes every filter and is mailed without error; a send that raised moves on to the next id. This project models the parts of
`main.py` that make decisions:

- `clean_html`: line filtering, joining, the word budget and the 50-line truncation
  (`normalizer.dfy`).
- `format_date`: the date shown in the mail (`metadata.dfy`).
- The ordered backend fallback of `get_ai_analysis`: the 1500-character excerpt, the
  model-name cleanup and the fence stripping (`commentary.dfy`).
- The discovery loop of `main`: up to 100 attempts, each filter that skips an attempt,
  and what reaches the mail server (`discovery.dfy`, `mailing.dfy`).

`strings.dfy` holds the subset of Python's `str` the code relies on: `isspace`, `strip`,
`split`, `join`, `replace`, `in`, `len(s.split())` and `str(int)`. `common.dfy` holds
`Option`, `Min` and a first-match search.

Everything the outside world answers is an input to the model:
- the random draws;
- the record and page fetches, with the page given as its text runs after the
  headings are removed;
- each backend's reply;
- how the SMTP exchange ends.

`GetAiAnalysis`, `TryOnce` and `Run` are methods with loops or early returns, as in the
source. Each is proved against a function (`Analysis`, `Attempt`, `Delivered`) whose
properties are proved as lemmas.

## Model

| member | source | states |
|---|---|---|
| Common.FirstIndex | main.py:94-106 | the index found satisfies the predicate and no earlier element does; `None` only when no element does |
| Common.FirstIndexIsUnique | main.py:94-106 | an element that satisfies the predicate with none before it is the one found |
| Strings.LStripShape | main.py:112 | left-stripping drops a prefix made only of whitespace and leaves a non-space first character |
| Strings.RStripShape | main.py:112 | right-stripping drops a suffix made only of whitespace and leaves a non-space last character |
| Strings.Strip | main.py:112 | a non-empty stripped string starts and ends with a non-space character |
| Strings.StripEmptyIffBlank | main.py:113 | `line.strip()` is empty exactly when the line is all whitespace |
| Strings.StripTrimmed | main.py:112 | stripping a string that has no whitespace at either end changes nothing |
| Strings.Split | main.py:113 | splitting gives at least one part, and no part contains the separator |
| Strings.Join | main.py:114 | `sep.join(parts)` (also `"<br>".join` at main.py:117); stated by Strings.JoinSplit, Strings.SplitJoin, Strings.ReplaceCharIsJoinSplit and Strings.WordCountJoin |
| Strings.JoinCons | main.py:114 | adding a character to the first part adds it to the front of the join |
| Strings.JoinSplit | main.py:113-114 | joining the parts of a split with the same separator gives the original text |
| Strings.SplitJoin | main.py:113-114 | splitting a join of separator-free parts gives the parts back |
| Strings.SplitNoSeparator | main.py:122 | a text without the separator splits into itself alone |
| Strings.SplitAround | main.py:122 | splitting `a + sep + b` gives the parts of `a` followed by the parts of `b` |
| Strings.ReplaceChar | main.py:115 | `final_text.replace('\n', '<br>')`; its meaning is stated by Strings.ReplaceCharIsJoinSplit |
| Strings.ReplaceCharIsJoinSplit | main.py:115 | replacing every newline by `<br>` is the same as splitting on newlines and joining with `<br>` |
| Strings.Contains | main.py:113 | Python's `p in s`; stated by Strings.ContainsFirstChar, Strings.ContainsPrefixOf and Strings.ShorterNotContained |
| Strings.ContainsFirstChar | main.py:113 | a text that contains a marker contains the marker's first character |
| Strings.ContainsPrefixOf | main.py:104 | a text containing "```html" contains "```" |
| Strings.RemoveAll | main.py:104 | `s.replace(p, '')` (also used for "models/" at main.py:95), scanning left to right without overlap; its properties are stated by the RemoveAll and RemoveFence lemmas below |
| Strings.ShorterNotContained | main.py:104 | a text shorter than a pattern does not hold it |
| Strings.RemoveAllKeepsPrefix | main.py:104 | a leading piece without the pattern's first character passes through the removal unchanged |
| Strings.RemoveAllAbsent | main.py:95 | removing every occurrence of an absent pattern leaves the text unchanged |
| Strings.RemoveFenceKeepsHead | main.py:104 | removing fences keeps a first character that is not a backtick |
| Strings.RemoveFenceNoDoubleStart | main.py:104 | a text that does not start with two backticks still does not after fence removal |
| Strings.RemoveFenceLeavesNone | main.py:104 | after `.replace('```', '')` no "```" remains, including ones formed by joining the pieces left around a removed fence |
| Strings.WordCount | main.py:116 | `len(s.split())`, counting maximal runs of non-whitespace; stated by the word-count lemmas below |
| Strings.WordsAtMostLength | main.py:116 | a text has no more whitespace-separated words than characters |
| Strings.WordsFromAppend | main.py:116 | the word count of a concatenation is the sum of the counts, with a word split across the seam counted once |
| Strings.WordsFromSpace | main.py:116 | whitespace holds no words |
| Strings.StripKeepsWords | main.py:112 | stripping does not change the number of words |
| Strings.WordCountJoin | main.py:114-116 | the words of lines joined by newlines are the sum of the words of the lines |
| Strings.NatToString | main.py:123 | `str(n)` of a natural number is a non-empty string of digits without a leading zero |
| Strings.NatToStringRoundTrip | main.py:123 | reading back the digits of `str(n)` gives `n` |
| Strings.DigitRoundTrip | main.py:123 | a digit character reads back as its digit |
| Strings.IntToString | main.py:123 | `str(n)` is non-empty and starts with '-' exactly when `n` is negative; after the optional sign come only decimal digits, with no leading zero, which read back as `abs(n)` |
| Normalizer.Keep | main.py:113 | the list comprehension's condition: `line.strip()` non-empty and neither marker in the line; restated through Strings.StripEmptyIffBlank in Normalizer.SurvivingLinesFilter |
| Normalizer.KeepLines | main.py:113 | every kept line passes the filter and comes from the page; every page line that passes is kept; kept lines are in page order |
| Normalizer.KeepLinesCounts | main.py:113 | each line that passes the filter is kept as many times as it occurs, and a line that fails is not kept at all |
| Normalizer.PageLines | main.py:112-113 | `soup.get_text(separator='\n').strip().splitlines()` on the page's text runs; its lines are related to the clean text by Normalizer.CleanTextLines and Normalizer.SurvivingLinesFilter |
| Normalizer.Clean | main.py:109-118 | `clean_html`; its contract is stated by Normalizer.CleanTextIgnoresBudget and Normalizer.CleanRendering |
| Normalizer.SurvivingLines | main.py:113 | `clean_lines`: the page lines that pass the filter; stated by Normalizer.SurvivingLinesFilter, Normalizer.CleanTextLines and Normalizer.SurvivingLinesHaveNoNewline |
| Normalizer.CleanTextIgnoresBudget | main.py:112-118 | the returned plain text is the surviving lines joined by newlines, whatever the word budget |
| Normalizer.CleanRendering | main.py:115-118 | truncated exactly when the text has more words than the budget; otherwise the rendering is the text with newlines replaced by `<br>` in the RTL div; when truncated it is the first 50 lines joined by `<br>`, then "...", in the div |
| Normalizer.SurvivingLinesHaveNoNewline | main.py:113 | no surviving line contains a newline |
| Normalizer.CleanTextEmpty | main.py:113-114 | the plain text is empty exactly when no line survives the filter |
| Normalizer.CleanTextLines | main.py:113-114 | a non-empty plain text splits back into the surviving lines, none of them blank or holding a credit marker |
| Normalizer.SurvivingLinesFilter | main.py:113 | every page line that is not blank and holds neither marker survives, as many times as the page has it; no other line survives; the survivors keep the page's order |
| Normalizer.CleanWordBound | main.py:112-116 | the plain text never has more words than the page |
| Normalizer.KeepLinesSumWords | main.py:113 | filtering lines never adds words |
| Normalizer.KeepLinesOfKept | main.py:113 | filtering lines that all pass the filter changes nothing |
| Normalizer.CleanIdempotent | main.py:109-118 | cleaning the plain text again gives the same result, provided the text has no whitespace at either end |
| Normalizer.TruncationIgnoresBudget | main.py:116-118 | with at most 50 surviving lines, a truncated rendering shows every line, and so more words than the budget |
| Normalizer.CreditLineDropped | main.py:112-113 | a "פרויקט בן-יהודה" line between two kept lines is dropped and the two lines survive |
| Normalizer.CleanAroundCredit | main.py:112-116 | such a page gives the two lines joined by a newline, not truncated when it is shorter than the budget |
| Normalizer.CleanNotIdempotentWhenIndented | main.py:112-114 | cleaning is not idempotent without CleanIdempotent's trim condition: a credit line followed by " ab" cleans to " ab", which cleans to "ab" |
| Normalizer.IndentedAfterCredit | main.py:112-114 | a credit line followed by " ab" cleans to " ab": the page is stripped before the credit line is dropped |
| Normalizer.IndentStripped | main.py:112-114 | the single line " ab" cleans to "ab" |
| Metadata.FormatDate | main.py:120-123 | the result is empty exactly when there is no three-part date, no raw date and no non-zero year; a three-part date gives a result with '/' |
| Metadata.FormatDateRaw | main.py:123 | without a three-part date, a non-empty raw publication date is shown as it is |
| Metadata.FormatDateReorders | main.py:122 | "y-m-d" is shown "d/m/y" |
| Metadata.FormatDateYear | main.py:123 | otherwise a non-zero year is shown as `str(year)`: a positive year as its decimal digits, a negative one as '-' followed by the decimal digits of its magnitude; the digits read back as the magnitude |
| Metadata.FormatDateExampleStructured | main.py:120-122 | "2023-05-17" is shown "17/05/2023" |
| Metadata.FormatDateExampleYear | main.py:123 | year 1948 alone is shown "1948" |
| Metadata.FormatDateExampleNothing | main.py:123 | a record with no date fields gives "" |
| Commentary.CleanModelName | main.py:95 | `model_raw.replace("models/", "").strip()`; stated by Commentary.CleanModelNameDropsPrefix |
| Commentary.CleanModelNameDropsPrefix | main.py:95 | a configured "models/NAME" becomes NAME when NAME has no "models/" and no surrounding whitespace |
| Commentary.Excerpt | main.py:74 | the excerpt is the prefix of the text of length min(1500, length of the text): the whole text when it is that short, else its first 1500 characters |
| Commentary.StripFences | main.py:104 | the returned reply holds no "```" |
| Commentary.StripFencesKeepsPlain | main.py:104 | a reply without fences is returned unchanged |
| Commentary.StripFencesUnwraps | main.py:104 | HTML wrapped as "```html" + t + "```", with no backtick in t, comes out as t |
| Commentary.Succeeds | main.py:100-104 | a reply ends the fallback when it has status 200 and a readable first candidate; stated by Commentary.AnalysisFirstSuccess and Commentary.RateLimitIsFailure |
| Commentary.ReplyText | main.py:104 | the text of the first candidate of a successful reply, before fence removal; stated by Commentary.AnalysisFirstSuccess |
| Commentary.Analysis | main.py:94-107 | the analysis the fallback yields; stated by Commentary.AnalysisFirstSuccess, Commentary.AnalysisAllFail and Commentary.AnalysisHasNoFence, and produced by Commentary.GetAiAnalysis |
| Commentary.Contacted | main.py:94-107 | how many backends are contacted; stated by Commentary.AnalysisFirstSuccess and Commentary.AnalysisAllFail |
| Commentary.GetAiAnalysis | main.py:94-107 | the result is the first successful reply, fence-stripped, or the apology; backends are contacted in order, up to and including the first success, each with its cleaned name, the same excerpt and the same date hint |
| Commentary.AnalysisFirstSuccess | main.py:100-104 | if the first k backends fail and the next succeeds, its reply is the analysis and k+1 backends are contacted |
| Commentary.AnalysisAllFail | main.py:107 | if every backend fails, the analysis is the apology and all are contacted |
| Commentary.AnalysisHasNoFence | main.py:104-107 | the analysis never holds "```" |
| Commentary.RateLimitIsFailure | main.py:105 | a 429 reply is a failure and never ends the fallback |
| Mailing.Delivered | main.py:215 | the mails that reach the server over a run of attempts, in order; stated by Mailing.DeliveredAppend, Mailing.NothingDelivered, Mailing.AtMostOneDelivery and Mailing.DuplicateDelivery |
| Mailing.DeliveredAppend | main.py:215 | the mails handed over by two runs of attempts are those of the first run followed by those of the second |
| Mailing.DeliveredOne | main.py:215 | one attempt hands over its own mail, if any |
| Mailing.NothingDelivered | main.py:215 | no mail reaches the server exactly when no attempt hands one over |
| Mailing.RejectedDeliverNothing | main.py:130-153 | attempts that were all skipped deliver nothing |
| Mailing.AtMostOneDelivery | main.py:215-217 | if no earlier attempt was mailed or reached the server, the server gets the last attempt's mail if that one was mailed, else nothing |
| Mailing.DuplicateDelivery | main.py:215-220 | if an attempt's mail reaches the server and then `quit()` raises, a later completed send makes the server receive two mails |
| Discovery.SourceInfo | main.py:143 | `meta.get('bibliographic_info') or meta.get('source', '')`: the bibliographic info when it is non-empty, otherwise the source field when present; empty exactly when both fields are absent or empty |
| Discovery.Attempt | main.py:130-217 | one pass of the loop body as a value; stated by Discovery.AttemptFilters and computed by Discovery.TryOnce |
| Discovery.AttemptFilters | main.py:130-215 | an attempt reaches the mail server exactly when the record answers 200, the genre is "poetry", a download URL is set, the page is fetched and the clean text has at least 20 characters; it ends the loop exactly when the SMTP exchange completes; the mail carries the cleaned rendering, the commentary, the formatted date and the source info |
| Discovery.SkippedWhenNotPoetry | main.py:136-138 | an attempt whose record is not a poem is skipped |
| Discovery.NeverPoetry | main.py:127-138 | when no record is a poem, every attempt made is skipped |
| Discovery.TryOnce | main.py:130-215 | one pass of the loop body ends as `Attempt` describes |
| Discovery.TryAt | main.py:128-215 | attempt i ends with the outcome that `Attempt` gives for input i |
| Discovery.Run | main.py:127-220 | between 1 and 100 ids are drawn, in order, each in 1..59083; each outcome is `Attempt` of its input; no attempt before the last was mailed; the loop stopped early exactly when the last attempt was mailed, and otherwise ran all 100; the mails handed over are `Delivered` of the outcomes |

## Left out

- Loading the environment and the `exit(1)` when a credential is missing (main.py:1-22): configuration, not logic.
- The HTTP requests, `BeautifulSoup` parsing, heading removal and `random.randint` are not modelled. Their results are inputs: the page is given as its text runs after the headings are removed.
- The author portrait lookup (main.py:32-56) is not modelled. It only adds an image to the mail and catches its own exceptions.
- The prompt wording and the bibliographic context line in it (main.py:67-91). Only the excerpt, the date hint and the model name reach the request model.
- The MIME message and HTML template (main.py:158-214). The mail is modelled by the fields it carries.
- The half-second pause after a 429 reply (main.py:105). It has no effect other than time.
- All `print` calls.
- Normalizer.PageLines: `splitlines()` is modelled as a split on '\n' only. Python also splits on '\r', '\v', '\f' and other line separators.
- Normalizer.Clean: the truncated rendering is cut at 50 surviving lines, not at the word budget, so it can show more words than the budget (see Normalizer.TruncationIgnoresBudget).
- Metadata.Meta: `year` is taken to be a JSON number. A string year would be returned by `str` as it is.
- Malformed JSON from the library or a backend is modelled as a reply that raised, which is how the `try` blocks treat it.
- Python integers are unbounded, as Dafny's are, so no width is modelled.
