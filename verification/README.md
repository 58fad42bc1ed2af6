# Bulk mail sender — a Dafny model of the send pipeline

The modelled program is a Streamlit page that loads a recipient table, lets an
operator write one email (subject, body with `{Column}` placeholders,
attachments), and sends one personalised message per recipient over a single
authenticated SMTP connection. This project models the pure logic inside the
"Send Emails" handler of `app.py`:

- **Body personalisation** (`Template`, on top of `Strings`): for each column
  of the table, in order, every non-overlapping `{column}` in the text produced
  so far is replaced by the row's value, or by `""` when the cell is missing.
  `Strings.ReplaceAll` is Python's `str.replace` for a non-empty pattern and
  `Strings.Contains` is Python's `in`. The preview renders the same fold on the
  first row, but shows a missing cell as `nan`.
- **Recipient selection** (`Dataset`): the rows whose address cell is present,
  in table order, cut to the first 3 in test mode.
- **The campaign loop** (`Campaign`): the relay is an oracle with one outcome
  for connect/starttls/login, one outcome per send (delivered, or refused with
  the exception text), and one for `quit`. A run returns the exception it
  reports (if any), the counters `sent`/`failed`/`failures`, and a trace of
  actions `Send(message)`, `SleepDelay(seconds)`, `SleepHalf`, `Quit`.

Rendering is deterministic because `Template.Render` is a Dafny function of
its inputs; there is no hidden state to state a lemma about.

Files: `optional.dfy` (Option), `strings.dfy` (search and replace),
`dataset.dfy` (table, recipient selection), `template.dfy` (rendering,
preview), `campaign.dfy` (the send loop and run).

### Behaviour worth knowing

- A failing connect, starttls or login ends the run without calling `quit`:
  `app.py` has no `finally`, so the connection is not closed on that path. A
  failing `quit` is reported as an error, and the counters are then never
  displayed.
- Rendering can leave a column token in the body. Replacement can build a new
  token from the text around a replaced one: `{{A}A}` with `A` missing
  renders to `{A}` (`Template.RenderCanLeaveToken`).
- A refused send waits 0.5 s instead of the configured delay, and it does so
  after the last recipient too. The configured delay is waited exactly N−1
  times for N > 0 recipients whenever every send before the last one is
  delivered; the last may be refused (`Campaign.AllButLastDeliveredWaits`).
  Each refusal among the first N−1 sends removes one delay.
- A recipient is eligible when the address cell is present (pandas `notna`),
  even when it holds blank (whitespace-only) text.
- Placeholder matching is plain substring replacement of the whole `{name}`
  text. With brace-free names, a token can never match across another
  token's braces, so tokens of non-columns always survive
  (`Template.RenderKeepsUnknownToken`).

## Model

| member | source | states |
|---|---|---|
| Strings.FindFrom | app.py:277-281 | The search behind `in` and `replace`: the result is the first index at or after `k` where the pattern occurs, and `None` means it occurs nowhere from `k` on. |
| Strings.Contains | app.py:277 | The guard `placeholder in body` is true exactly when the placeholder occurs somewhere in the body. |
| Strings.ReplaceAll | app.py:278-281 | Python's `str.replace` with a non-empty placeholder. Its contract is carried by the lemmas below: `ReplaceAllIsScan` (leftmost, non-overlapping), `ReplaceAbsent`, `ReplaceWithItself`, `ReplaceLeading` and `ReplaceAround`. |
| Strings.ReplaceAllIsScan | app.py:278-281 | `str.replace` (find the next occurrence, copy up to it, emit the value, jump past it) equals a scanner that replaces a match where one starts and otherwise copies one character: replacement is leftmost and non-overlapping. |
| Strings.ReplaceAbsent | app.py:277-281 | Replacing a placeholder that does not occur leaves the text unchanged, so the presence guard does not affect the result. |
| Strings.ReplaceWithItself | app.py:278-281 | Replacing a pattern by itself is the identity: replacement only touches the occurrences. |
| Strings.ReplaceLeading | app.py:278-281 | An occurrence is replaced once, and the inserted value is not searched again by the same call, even when it contains the pattern. |
| Strings.ReplaceAround | app.py:278-281 | When no match can straddle a segment `m`, replacing in `a + m + b` keeps `m` and replaces in `a` and `b` as if each stood alone. |
| Template.CellText | app.py:280 | A present cell contributes its text in both renderers. A missing cell contributes `""` when sending (line 280) and a non-empty text in the preview, where `str()` of the missing value is used (line 198). |
| Template.Render | app.py:274-281 | The left-to-right fold of one replacement per column. `PersonalizeBody` proves the loop as written computes it; `RenderWithoutTokens`, `RenderKeepsUnknownToken` and `RenderSameText` state what it keeps and what it depends on. |
| Template.PersonalizeBody | app.py:274-281 | The personalisation loop as written, guard included, returns the left-to-right fold `Render` over all columns with missing cells as `""`. |
| Template.RenderWithoutTokens | app.py:275-281 | A body with no `{column}` token for any column comes back unchanged. |
| Template.RenderKeepsUnknownToken | app.py:275-281 | A `{name}` token for a name that is not a column survives verbatim, whatever the row's values, provided names are brace-free; the text on either side renders as if alone. |
| Template.EarlierValueSeenByLaterColumn | app.py:275-281 | A value inserted for an earlier column is rewritten by a later column's replacement: `{A}` with `A = "{B}"`, `B = "x"` renders to `x`. |
| Template.RenderCanLeaveToken | app.py:275-281 | Rendering can leave a column token in the output: `{{A}A}` with `A` missing renders to `{A}`. |
| Template.MissingCellRendering | app.py:280 | A token of a missing cell becomes `""` when sending, and `nan` in the preview. |
| Template.RenderSameText | app.py:198 | The rendered body depends on the row only through the text of each column's cell, so the two renderers agree wherever the cell texts agree. |
| Template.Preview | app.py:192-198 | The preview exists exactly when the table has a first row. |
| Template.PreviewMatchesSendingWithoutMissing | app.py:195-198 | When the first row has no missing cell, the preview is exactly the body that row would be sent. |
| Dataset.Eligible | app.py:248 | A row is kept exactly when it is a row of the table whose address cell is present, and no more rows come out than went in. |
| Dataset.EligibleAppend | app.py:248 | Filtering distributes over concatenation, so rows keep their table order. |
| Dataset.EligibleCount | app.py:248 | The number of eligible rows equals the count of rows with an address, counted independently. |
| Dataset.Recipients | app.py:248-250 | No more rows come out than the table has, at most 3 in test mode, and each is a table row with an address. `RecipientsShape` gives the exact prefix. |
| Dataset.RecipientsShape | app.py:248-252 | The processed rows are the first `n` eligible rows, with `n` = min(3, eligible count) in test mode and the eligible count otherwise. |
| Dataset.RecipientsWellFormed | app.py:248-250 | Every processed row has an address and a cell for every column. |
| Dataset.SelectRecipients | app.py:248-250 | A loop over the rows, then `head(3)` in test mode, yields exactly the processed rows, at most 3 in test mode, each a table row with an address. |
| Dataset.DisplayedSendCount | app.py:218 | The figure as written never understates the number of processed rows, and outside test mode it equals it. |
| Dataset.DisplayedCountOverstates | app.py:218 | The "Emails to Send" figure shows 3 in test mode even when only 1 row has an address and 1 email is sent. |
| Dataset.IntendedSendCount | app.py:218 | The intended figure equals the number of processed rows; it is at most 3 in test mode and at most the eligible count. |
| Campaign.Compose | app.py:265-300 | A message carries the entered sender, subject and attachments and its row's address cell as recipient. A body without any column token is sent unchanged. |
| Campaign.Pause | app.py:310-318 | At most one wait per iteration: 0.5 s exactly when the send was refused, the configured delay exactly when it was delivered and more recipients follow, and no wait after a delivery to the last recipient. |
| Campaign.Attempt | app.py:303-318 | One iteration appends the send attempt followed by exactly that iteration's `Pause`. A delivery raises `sent` and leaves `failed` and the failure list alone; a refusal raises `failed` and appends the message's address with the exception text. |
| Campaign.ComposeAll | app.py:263-271 | One message per processed row, in row order, each addressed to its own row's address cell. |
| Campaign.Deliver | app.py:263-318 | After `n` iterations of the send loop over the composed messages, `sent + failed == n` and the failure list has one entry per failure. |
| Campaign.RunCampaign | app.py:243-346 | A setup failure reports its fault with zero counts and an empty trace, so nothing is sent. Otherwise `sent + failed` equals the number of processed rows, and no error is reported exactly when `quit` succeeds. |
| Campaign.DeliverAttemptsEach | app.py:263-303 | The send attempts in the loop's trace after `n` iterations are exactly the first `n` messages, in order, whatever the earlier outcomes. |
| Campaign.CampaignSendsComposed | app.py:254-303 | After a successful login the messages sent are exactly the composed messages, one per processed row, in order. |
| Campaign.CampaignAttemptsEveryRecipient | app.py:263-303 | After a successful login the sent messages are one per processed row, in order, even if sends fail. Each has the entered subject, sender and attachments, and its own row's address and rendered body. |
| Campaign.DeliverOutcomes | app.py:303-316 | `sent` counts the delivered outcomes. The failure list is the refused messages' addresses with their exception texts, in order. |
| Campaign.CampaignOutcomes | app.py:243-316 | Over a whole run, `sent` is the number of deliveries and `failed` the number of refusals. `failures` lists each refused address with its reason, in recipient order. |
| Campaign.DeliverWaits | app.py:310-318 | The loop waits 0.5 s once per refusal. It waits the configured delay once per delivery, except a delivery to the last recipient. |
| Campaign.DeliverDelaysBetweenSends | app.py:310-312 | Every configured delay in the loop's trace directly follows a send attempt. It is directly followed by another unless the loop has not yet reached the last recipient. |
| Campaign.CampaignWaits | app.py:261-318 | Over a run there is one 0.5 s wait per refusal plus one after login. The configured-delay count is the delivery count, minus one if the last recipient was delivered. Every configured delay sits between two send attempts. |
| Campaign.AllButLastDeliveredWaits | app.py:310-318 | For N > 0 recipients the configured delay is waited exactly N − 1 times if and only if every send before the last one is delivered. |
| Campaign.MiddleFailureIsIsolated | app.py:314-318 | With three recipients whose second send is refused, the run ends with 2 sent, 1 failed, and only the second address in the failure list. |

## Left out

- The Streamlit page is not modelled: widgets, session state, the confirmation checkbox and button, status text, progress bar, metrics and balloons (lines 11-191, 200-217, 219-240, 305-308, 323-357). These are presentation only.
- CSV loading, its fallback chain and header stripping (lines 57-100) are not modelled. Tables are given as distinct column names plus rows of `Missing | Str(text)` cells.
- Duplicate column names after header stripping are not modelled (line 85 can turn the distinct headers `A` and `A ` into two columns `A`). In `app.py` a duplicated name makes `row[col]` a series, so the `pd.notna` test on line 280 raises and every send whose body holds that token is counted as failed. `Table.Valid` requires distinct names instead.
- Python's `str()` of numeric or float cells is not modelled. Cells hold text already.
- Real SMTP, MIME building, base64 encoding and the `Content-Disposition` header (lines 257-259, 268-273, 282-303, 321) are not modelled. They are library calls: the relay is an oracle, and host, port and password go only to it. Seeking an attachment back to the start and reading it is modelled as the message carrying the attachment's whole content.
- `time.sleep` is recorded as trace events, without wall-clock time.
- The preview's "To:" line and attachment list (lines 200-208) are display only. An empty table makes the preview's `iloc[0]` raise; the model says `None` there.
- `Campaign.RunCampaign` accepts an empty table, but `app.py` never runs a campaign on one. The send section's condition (line 211) includes the preview's (line 187), so the `IndexError` of `iloc[0]` at line 192 stops the page before the send button is drawn. On an empty table the model's run is the one the handler would perform (log in, wait, quit), which the program cannot reach.
- Composing a message is assumed not to raise (reading an attachment, for example), so `Campaign.ComposeAll` builds every message before the loop. This matches composing inside each iteration, because composition reads nothing the loop changes.
- A UI call that raises after a successful send would count one recipient as both sent and failed. UI calls are assumed not to raise, so this case is not modelled.
- Strings.ReplaceAll: requires a non-empty pattern. Python's empty-pattern `replace` is not modelled because a placeholder `{name}` is never empty.
- Template.RenderKeepsUnknownToken: proved only for brace-free names. Column names containing braces are not covered.

## Findings

| source | as written | input that shows it | evidently intended | confidence | as-written member | corrected member |
|---|---|---|---|---|---|---|
| app.py:218 | In test mode "Emails to Send" shows 3, whatever the number of rows with an address. | Test mode on a table with a single row that has an address: 3 is shown, 1 email is sent. | min(3, rows with an address), the number the run processes. | medium; not executed | Dataset.DisplayedCountOverstates | Dataset.IntendedSendCount |
