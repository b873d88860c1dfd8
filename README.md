# VerifiAI forensic auditor — a Dafny model of its core

VerifiAI is a Streamlit app. It sends a research manuscript (PDF) and its raw
dataset (CSV) to a Gemini model, which audits whether the paper's claims
agree with the data. This project models the logic behind the
"EXECUTE FORENSIC AUDIT" button in `src/app.py` and proves properties of it.

The button runs these steps:

- Reads the prompt file (`load_prompts`).
- Extracts the text of the first six pages of the paper
  (`extract_pdf_text_fast`).
- Summarises the dataset (`get_data_summary_fast`).
- Builds the prompt.
- Calls the model through a retry loop (`safe_audit_call`). The loop backs
  off on quota errors.
- Scrapes the "Integrity Score" out of the report and shows the report with a
  chart of the target column.

The modules follow the source:

| module | file | models |
|---|---|---|
| `Wrappers` | `wrappers.dfy` | `Option` |
| `Text` | `text.dfy` | the Python string operations the app uses: `in`, `split(sep)`, `strip()`, and the `str.isdigit` filter |
| `Prompts` | `prompts.dfy` | `load_prompts` |
| `PdfText` | `pdf_text.dfy` | `extract_pdf_text_fast`, as a method with a loop over the pages |
| `DataSummary` | `data_summary.dfy` | `get_data_summary_fast` and pandas' `duplicated().sum()` and `value_counts()` on the parsed table |
| `AuditClient` | `audit_client.dfy` | `safe_audit_call`, as a method with the retry loop |
| `AuditRun` | `audit_run.dfy` | prompt assembly, the gate on empty paper text, the score scrape and the button handler |

Where the code's effects cannot be reproduced, they are replaced:

- **Remote model.** A parameter `remote: (Request, nat) -> CallOutcome` says
  what attempt `n` of a request produces: an answer, a quota error
  (`ResourceExhausted`) or any other error.
- **Sleeps.** The seconds slept are recorded as a list of waits.
- **PDF reader.** Replaced by what it reports: the document is unreadable, or
  each page gives a text or raises.
- **CSV reader.** Replaced by the table it produces.
- **Prompt file.** Replaced by the outcome of reading it: missing,
  unreadable, or a content string.
- **Page.** Replaced by a `Screen` value that says what ends up displayed.

## Model

| member | source | states |
|---|---|---|
| `Text.Contains` | src/app.py:29 | `sep in s`: true exactly when `sep` occurs in `s` at some index |
| `Text.Split` | src/app.py:30-31 | Python `split(sep)`: piece 0 is the text before the first separator; there is a piece 1 exactly when the separator occurs, and it is the text between the first and second occurrences; no piece contains the separator |
| `Text.JoinSplit` | src/app.py:30-31 | joining the pieces of `split` with the separator gives back the original string |
| `Text.Strip` | src/app.py:30-31 | `strip()`: the result is a slice of the input, what is cut on both sides is whitespace (Python's `isspace` set), and the result neither starts nor ends with whitespace |
| `Text.StripUnique` | src/app.py:30-31 | whitespace + core + whitespace strips to exactly the core whenever the core does not start or end with whitespace |
| `Text.Digits` | src/app.py:135 | `"".join(filter(str.isdigit, s))`: only digits and never longer than `s`; an all-digit string is kept whole, and a string with no digit gives `""` |
| `Text.DigitsAppend` | src/app.py:135 | the digit filter distributes over concatenation |
| `Prompts.LoadPrompts` | src/app.py:22-35 | a missing file gives the two defaults; an unreadable file gives the default system prompt and "Analyze the data."; a file lacking either marker gives the default system prompt and the whole content; otherwise the system section is the stripped text after the first `SYSTEM_INSTRUCTION:`, cut at the next system marker and then at `AUDIT_LOGIC:`, and the audit logic is the stripped text between the first and second `AUDIT_LOGIC:`; neither section contains its marker |
| `Prompts.StripKeepsAbsence` | src/app.py:30-31 | stripping cannot create a marker that was absent |
| `Prompts.SystemSectionOfLayout` | src/app.py:30 | in the layout `SYSTEM_INSTRUCTION:` x `AUDIT_LOGIC:` y, the cut system section is exactly x when x holds neither marker |
| `Prompts.AuditSectionOfLayout` | src/app.py:31 | in the same layout the cut audit section is exactly y when neither x nor y holds `AUDIT_LOGIC:` |
| `Prompts.LayoutRoundTrip` | src/app.py:29-32 | a file written in that layout loads back as (strip(x), strip(y)) |
| `PdfText.PagesToProcess` | src/app.py:45 | `min(max_pages, page count)` as `range` uses it: never more than the page count; 0 for a budget of zero or less; otherwise the smaller of the budget and the page count |
| `PdfText.ExtractPdfText` | src/app.py:38-60 | the method returns `ExtractedText`: an unreadable document or a failing page among the first `min(max_pages, n)` pages gives `""`, otherwise the texts of those pages joined in order; pages are visited in order 0, 1, …; after a failure no later page is read, and the last page visited is the one that failed |
| `PdfText.JoinPagesAppend` | src/app.py:49-52 | the text of a run of pages is the text of its first part followed by the text of the rest |
| `PdfText.JoinPagesSplitsBack` | src/app.py:49-52 | when no page text holds a newline, splitting the result on `"\n"` gives exactly the non-empty page texts in order, then one empty piece |
| `PdfText.ExtractIgnoresLaterPages` | src/app.py:45-50 | pages after the first `max_pages` never affect the result |
| `PdfText.ExtractWholeDocument` | src/app.py:45-57 | with a budget of at least the page count, the result is the whole document's text (or `""` when any page fails) |
| `DataSummary.DuplicateCount` | src/app.py:72 | duplicate rows plus distinct rows make up all the rows; at most n-1 of n rows are duplicates |
| `DataSummary.DuplicateCountIsRepeats` | src/app.py:72 | `duplicated().sum()` with `keep='first'`: the count equals the number of rows equal to an earlier row |
| `DataSummary.LastColumn` | src/app.py:78 | `df.iloc[:, -1]`: one cell per row, each the row's last cell |
| `DataSummary.Distinct` | src/app.py:78 | the distinct values of the column, each once, and exactly the values of the column |
| `DataSummary.SortByCount` | src/app.py:78 | the result is in non-increasing order of count and is a permutation of the input |
| `DataSummary.ValueCounts` | src/app.py:145 | `value_counts()`: every distinct value of the column exactly once, with its exact number of occurrences (at least 1), in non-increasing order of count, and no other value |
| `DataSummary.ValueCountsTotal` | src/app.py:145 | the counts add up to the number of rows |
| `DataSummary.ClassBalance` | src/app.py:78 | `value_counts().head(5)`: at most five entries, min(5, number of distinct values) of them, with exact counts, distinct values and non-increasing order; a value left out means five were listed, each at least as frequent as it |
| `DataSummary.ClassBalanceWithinRows` | src/app.py:78 | the reported class balance covers no more rows than the table has |
| `DataSummary.Summarize` | src/app.py:62-79 | `total_rows` and `columns` are the table's; duplicates are exact exactly when there are at most 10,000 rows, and then equal the number of repeated rows (at most n-1); `class_balance` is `ClassBalance` of the last column |
| `AuditClient.Backoffs` | src/app.py:89 | the wait after attempt i is `2*i + 3` seconds |
| `AuditClient.Run` | src/app.py:85-92 | the retry loop: at most 3 calls and at least 1; a `None` result comes after exactly 3 calls and 3 waits; any other result comes with one wait fewer than calls |
| `AuditClient.RunAfterRateLimits` | src/app.py:85-91 | after k quota errors the loop has slept waits 3, 5, … for them and then behaves as a fresh loop from attempt k |
| `AuditClient.ExhaustedRetries` | src/app.py:85-92 | three quota errors in a row: three calls, waits [3, 5, 7], result `None` |
| `AuditClient.FirstAnswerReturned` | src/app.py:85-87 | an answer at attempt k, after k quota errors, is returned after k+1 calls and the waits for the k errors |
| `AuditClient.OtherErrorNotRetried` | src/app.py:86-88 | any other error at attempt k escapes after k+1 calls and is not retried |
| `AuditClient.SafeAuditCall` | src/app.py:82-92 | the method's result, call count and waits are those of `Run` on the request (model, system instruction, prompt); between 1 and 3 calls |
| `AuditRun.Excerpt` | src/app.py:124 | `paper[:8000]`: a prefix of the paper, of length min(|paper|, 8000) |
| `AuditRun.AssemblePrompt` | src/app.py:124 | the prompt is laid out as the audit logic, the `[DATA STATS]` label, the printed stats, the `[PAPER TEXT]` label and the excerpt; each part is stated at its position, and the length is the sum of the parts; the excerpt is at most 8000 characters, a prefix of the paper |
| `AuditRun.PromptIgnoresTextBeyondLimit` | src/app.py:124 | text past the first 8000 characters of the paper does not change the prompt |
| `AuditRun.ScrapeScore` | src/app.py:133-138 | no score exactly when the report lacks `Integrity Score:`, with no error; otherwise the score is the digits, in order, of the text between the first marker and the next one, cut at its first `/` (stripping changes no digit); a score holds only digits |
| `AuditRun.StripKeepsScoreDigits` | src/app.py:134-135 | the digits before the first `/` are the same with or without the surrounding whitespace that `strip()` removes |
| `AuditRun.ScoreOfStatedLine` | src/app.py:134-136 | a report containing `Integrity Score:`, optional whitespace and then `87/100` scores "87", whatever comes before (without the marker) or after |
| `AuditRun.ScoreWithoutDigits` | src/app.py:134-135 | a score line whose text before the first `/` (and before any second marker) holds no digit, such as `N/A/100`, scores "" |
| `AuditRun.Display` | src/app.py:129-145 | only an answer shows a report: it shows the response text, the scraped score, and a chart of the last column's `value_counts()`, whose counts add up to the number of rows; `None` shows nothing; an escaped error is shown as that error |
| `AuditRun.AuditRequest` | src/app.py:118-127 | the request goes to `gemini-3-flash-preview` with the loaded system instruction and the assembled prompt |
| `AuditRun.ExecuteForensicAudit` | src/app.py:106-147 | a missing upload shows the warning, and only then; the model is called exactly when both files are present and the paper yielded text; an empty paper shows nothing and makes no call; a call sends `AuditRequest` and the page shows `Display` of what the retry loop ended in |

## Left out

- The page itself is replaced by the `Screen` value. This covers Streamlit widgets, layout, the status box and spinner, the progress bar, the PDF error message, the retry warning and the chart drawing.
- Reading `GEMINI_API_KEY` from the environment and stopping when it is missing are not modelled. That is configuration, run before the handler.
- `time.sleep` is recorded as the list of waits. The 0.3-second pause after extraction is not modelled.
- The PyPDF2 reader and `pandas.read_csv` are replaced by their results. A CSV that fails to parse, which makes the handler raise, is not modelled.
- `AuditRun.ExecuteForensicAudit`: requires a table with at least one column and one cell per column in every row. `read_csv` never produces anything else. On a zero-column table `iloc[:, -1]` would raise.
- `PdfText.ExtractPdfText`: any exception, including one on a later page, returns `""`. Text already gathered from earlier pages is dropped, and the model keeps this behaviour.
- `DataSummary.Summarize`: above 10,000 rows the model records only that the duplicate figure is an estimate (`Estimated`). The random 2,000-row sample and the scaled float estimate are not modelled, because they depend on a random generator.
- `DataSummary.ClassBalance`: states counts, not the fractions `value_counts(normalize=True)` reports. Each fraction is the count divided by the number of rows, and floating-point rounding is not modelled.
- `DataSummary.ValueCounts`: the model breaks ties between equal counts by first appearance. The contract promises only non-increasing counts, because pandas' tie order is an implementation detail. Missing values (NaN), which `value_counts` drops, are not modelled: every cell is a string.
- `AuditRun.AssemblePrompt`: takes the stats dictionary as the text Python prints for it, through a `render` parameter. Python's `dict` repr is not modelled.
- `Text.Digits`: keeps the ASCII digits `0`–`9` only. Python's `str.isdigit` also accepts other Unicode digits, such as superscripts.
- `Text.Strip`: follows `str.isspace` on characters, not on bytes or grapheme clusters.
- `AuditRun.Display`: assumes a response object is truthy and its `.text` can be read. A blocked response whose `.text` raises is not modelled.
- Reading the prompt file is replaced by its outcome. Any exception while opening or decoding it is the `Unreadable` case.
