# data-validator: a Dafny model of its record store, scraper session and dashboard filter

data-validator is a Streamlit application for checking scraped property
listings before they are used. Three parts of it carry logic that can be
stated precisely, and this project models them and proves what they do:

- **The record store** (`utils/bigquery_utils.py`). A warehouse table of
  property records is modelled as a `class Table` with a `seq<Record>` field.
  `fetch_data`, `fetch_data_all` and `summary_query` are reads of that
  state. `update_validation` is a method that changes it. The UPDATE
  statement is built as text, quotes spliced in with no escaping. A minimal
  reader of single-quoted literals, applied to each spliced value on its
  own, stands for the warehouse's parser. With it the model proves the round
  trip for quote-free ids, names and timestamps, and shows how a quote
  inside a value breaks that value's literal. What the warehouse does with
  the whole statement once a quote has broken a literal is not modelled
  (see "Left out").
- **The scraper page's session** (`pages/3_Scraper.py`). `class Session` holds
  the three session keys `properties`, `selected_links` and
  `screenshot_results`, each possibly absent. Its methods are the search
  button, the checkbox loop that keeps `selected_links` in step with the
  boxes, the capture button's result loop, the reset button and the save
  button. The checkbox loop is proved against the function `Synced`, which
  describes it, and `Synced` is proved duplicate-free, order-keeping and
  equal in membership to the independent "last explicit tick decides"
  description `LastTick`.
- **The dashboard's filter panel** (`pages/2_Dashboard.py`). The property-type
  options, the price and room slider bounds, and the filtered rows are pure
  functions of the fetched rows and the widget values.

Modules: `Wrappers` (Option), `Records` (the record type), `Seqs` (filter,
subsequence, duplicate-freedom, Python's `list.remove`), `SqlText` (quoting,
joining and reading back literals), `RecordStore`, `Scraper` and `Dashboard`.

Semantics fixed by the model:

- **NULL and NaN.** A nullable column is an `Option`. `WHERE is_validated =
  FALSE` does not match a NULL flag. `SUM` over an empty table is NULL, so
  the two summary sums are `Option<nat>`. A NaN price or room count compares
  false and is never kept by the dashboard filter.
- **No row order from the store.** `LIMIT 100` has no `ORDER BY`, so the
  query fixes neither which rows are returned nor their order. `fetch_data` therefore
  promises only how many rows it returns, where they come from and, when at
  most 100 qualify, that all of them are returned.
- **Python semantics.** `int()` on a float rounds toward zero. `sorted` on
  `str` is code-point lexicographic order. pandas' `min`/`max` skip NaN
  and give NaN for a column with no value, and `int()` of NaN raises
  `ValueError`; the slider bounds model that case as `None`.
- **Streamlit checkboxes.** A box's reported value is either what the user
  set or, for a box with no state yet, its default `link in
  selected_links`. The loop receives these values as the parameter
  `boxes`.
- **Popping session keys.** `st.session_state.pop` without a default raises
  on a missing key. Reset and save pop their keys one at a time, and the
  outcome names the key that was missing; pops done before it stay done.

## Model

| member | source | states |
|---|---|---|
| SqlText.FormatIds | utils/bigquery_utils.py:83 | one quoted entry per id, in the ids' order, each `Quoted(id)`: the id between single quotes with nothing escaped (`Quoted` is also the f-string literal of lines 88-89) |
| SqlText.SingleRoundTrip | utils/bigquery_utils.py:88-89 | the SET literal `'{v}'` reads back as exactly `v` if and only if `v` holds no quote |
| SqlText.InListRoundTrip | utils/bigquery_utils.py:90 | `InList`, which is `JoinComma` (the `','.join`) over `FormatIds`: for a non-empty id list, the comma-joined IN list reads back as exactly the ids, entry by entry and in order, if and only if no id holds a quote |
| SqlText.QuoteInIdSplitsIt | utils/bigquery_utils.py:83 | since nothing is escaped, the id `a','b` gives the same IN list as the two ids `a` and `b`, and it reads back as those two ids |
| SqlText.QuotedBreaksEarly | utils/bigquery_utils.py:88 | a quoted value holding a quote is read as a literal strictly shorter than the value |
| RecordStore.PlainUpdateReadsBack | utils/bigquery_utils.py:83-90 | `BuildUpdate`, the statement text of lines 83-91 (quoted user, quoted timestamp, IN list): with no quote in ids, user or timestamp, the statement the literal reader reads sets exactly that user and timestamp on exactly those ids |
| RecordStore.QuotedUserBreaksLiteral | utils/bigquery_utils.py:88 | a user name with a quote does not read back as one literal, so the literal reader does not accept the statement, whatever the ids |
| RecordStore.ApplyValidationEffect | utils/bigquery_utils.py:86-90 | `ApplyValidation`, the UPDATE's effect on the table: every row whose id is listed gets `is_validated` TRUE, `validated_by` the user and the one timestamp, all other columns untouched; every other row is unchanged |
| RecordStore.ApplyValidationTwice | utils/bigquery_utils.py:85-91 | running the update again with the same ids and user at a later time gives the table a single run at that time gives, differing from the first run's result only in `validation_timestamp` |
| RecordStore.Table.FetchData | utils/bigquery_utils.py:50-55 | returns min(100, number of rows with flag FALSE) rows, each a stored row with flag FALSE, no row more often than it is stored; when at most 100 qualify, every qualifying row as often as it is stored |
| RecordStore.Table.FetchAll | utils/bigquery_utils.py:63-66 | returns every stored row, each as often as it is stored |
| RecordStore.Table.Summary | utils/bigquery_utils.py:102-108 | `total_rows` is the row count; the two sums are NULL exactly on an empty table and otherwise count the rows whose flag is TRUE, respectively FALSE |
| RecordStore.Table.UpdateValidation | utils/bigquery_utils.py:69-92 | no ids: returns at once with the table unchanged; a statement the literal reader does not accept: query error with the table unchanged; otherwise the table becomes the readable statement applied to it, which for quote-free inputs is exactly the given ids set validated by the user at `now` |
| RecordStore.FlagPartition | utils/bigquery_utils.py:105-106 | every row is counted exactly once among TRUE, FALSE and NULL flags |
| RecordStore.SummaryAddsUp | utils/bigquery_utils.py:102-108 | on a non-empty table with no NULL flag, validated plus unvalidated equals the total |
| Seqs.Remove | pages/3_Scraper.py:69-70 | `list.remove` guarded by membership: a present link makes the list one element shorter; an absent link leaves the list as it is; no other value disappears and none appears; a duplicate-free list stays duplicate-free and no longer holds the link (which occurrence goes, and that the order is kept, is `RemoveDropsFirst`) |
| Seqs.RemoveDropsFirst | pages/3_Scraper.py:70 | removing a present link deletes exactly its first occurrence and keeps every other element in its order |
| Scraper.ToListings | pages/3_Scraper.py:39 | one session row per search hit, in order, with title and link copied and `Select` false |
| Scraper.StepNoDup | pages/3_Scraper.py:60-70 | `Step`, one loop turn, on `Checked`, the value the box reports (the user's setting, else the default `link in selected_links`): one turn keeps a duplicate-free selection duplicate-free |
| Scraper.SyncedNoDup | pages/3_Scraper.py:54-70 | the selection after the loop has no duplicate |
| Scraper.SyncedMembership | pages/3_Scraper.py:54-70 | after the loop a link is selected if and only if `LastTick` says so: the last row of that link whose box the user set decides, and otherwise its earlier membership stands |
| Scraper.TickedRowDecides | pages/3_Scraper.py:60-70 | a row whose box the user set, with no later user-set row for the same link, decides whether that link is selected |
| Scraper.UnsetLinkKeepsMembership | pages/3_Scraper.py:68-70 | a link that no row sets explicitly keeps its membership, so nothing is removed except by unticking |
| Scraper.SyncedOrder | pages/3_Scraper.py:54-70 | the selection after the loop is a subsequence of the old selection followed by the displayed links, and every selected link was selected before or is displayed |
| Scraper.SyncedKeepsOrder | pages/3_Scraper.py:54-70 | the selection after the loop is `Kept` (the old selection without the links some row set unticked, in their old order) followed by a subsequence of the displayed links: already-selected links keep their relative order and newly ticked links follow in display order |
| Scraper.Session.StoreSearchResults | pages/3_Scraper.py:34-43 | a non-empty search result replaces `properties` by its rows; an empty or failed search leaves every key unchanged |
| Scraper.Session.ShowSearchResults | pages/3_Scraper.py:46-70 | with no `properties` nothing changes; otherwise the selection becomes `Synced` of the existing selection (an empty one only when absent) over the displayed links, and stays duplicate-free |
| Scraper.Session.CaptureScreenshots | pages/3_Scraper.py:72-106 | with properties and a non-empty selection, `screenshot_results` is created if absent and gains exactly the usable captures in their order; a failed capture adds nothing; otherwise nothing changes |
| Scraper.Session.KeepUsable | pages/3_Scraper.py:88-106 | the result list grows by exactly the captures that are `Usable` (the two error-key tests of lines 91 and 100: no error key, and none in the AI response), in input order |
| Scraper.Session.Reset | pages/3_Scraper.py:12-14 | pops `properties` then `selected_links`, stopping with a missing-key outcome at the first absent one; `screenshot_results` is untouched |
| Scraper.Session.SaveResults | pages/3_Scraper.py:109-122 | if the insert fails, or `screenshot_results` is absent (the insert's argument, read before any pop), nothing changes; otherwise pops `properties`, `selected_links` and `screenshot_results` in turn, stopping at the first absent one |
| Dashboard.SortedUnique | pages/2_Dashboard.py:114 | strictly ascending, and holds exactly the values of its input |
| Dashboard.TypeOptions | pages/2_Dashboard.py:114 | `'All'` first, then strictly ascending types, a type listed if and only if some row has it |
| Dashboard.TypeOptionsAreTheSortedTypes | pages/2_Dashboard.py:114 | the options are `'All'` followed by the one ascending, repeat-free listing of the table's types |
| Dashboard.Trunc | pages/2_Dashboard.py:119-120 | `int()` rounds toward zero: the result is within one of the value, on the side of zero |
| Dashboard.SliderBounds | pages/2_Dashboard.py:119-120 | no bounds exactly when the column has no value; otherwise lo <= hi, each value's truncation lies between them, and each bound is some value's truncation |
| Dashboard.FilterRows | pages/2_Dashboard.py:141-149 | the type mask then the range mask equal the one-pass filter by `Matches`: an order-keeping subsequence of the rows, sound and complete for the chosen type (none for `'All'`) and both inclusive ranges |
| Dashboard.ShownCountIsMatchingRows | pages/2_Dashboard.py:152 | the shown count equals the number of matching rows |
| Dashboard.WholeWithinBounds | pages/2_Dashboard.py:119-126 | a whole-number value lies within its column's slider bounds |
| Dashboard.DefaultSelectionKeepsWholeValues | pages/2_Dashboard.py:119-149 | a non-empty table whose prices and room counts are all whole numbers has slider bounds, and at `'All'` with both sliders at their full range it is shown in full |
| Dashboard.TruncatedBoundDropsTopRow | pages/2_Dashboard.py:119-146 | prices 1.0 and 2.5 with room counts 1.0 and 2.0 give the price range 1..2 and the room range 1..2 (distinct bounds on both sliders), and the 2.5 row is hidden even at the default selection |

## Left out

- Rendering, widgets, maps, charts, CSS and the tooltip column written at `pages/2_Dashboard.py:159`: presentation only.
- Authentication (`Home.py`, `login.py`) and the auth check at `pages/3_Scraper.py:18-20`: foreign libraries and an OAuth flow.
- `pages/1_Validator.py`: UI around one `update_validation` call, with no state of its own.
- `utils/scraper_utils.py`: browser screenshots and image encoding are I/O.
- `search_properties` and `capture_screenshots_async` are not part of this model. `pages/3_Scraper.py:6` imports them from `utils/scraper_utils.py`, which defines neither, so the page as written fails at import; the model describes the page as if the import succeeded. Their results come in as the parameters `found` and `captured`, with `None` standing for an exception. `asyncio.run` is not modelled.
- `create_bigquery_table` and `insert_into_bigquery` are not part of this model. `pages/3_Scraper.py:7` imports them from `utils/bigquery_utils.py`, which defines neither, so this import fails too; the model assumes it succeeded. Whether they returned normally is the parameter `inserted` of `Scraper.Session.SaveResults`.
- Client and credential setup (`utils/bigquery_utils.py:12-41`, `pages/3_Scraper.py:25-30`): files and environment. Project, dataset and table names are not modelled; the one table is the `Table` object.
- The current Jamaica time (`utils/bigquery_utils.py:79-80`) is the opaque string parameter `now`. Its text form is not modelled.
- Failures of the warehouse itself (network, permissions) are not modelled. The only failure `Table.UpdateValidation` reports is a statement the literal reader cannot read.
- RecordStore.Table.UpdateValidation: the warehouse parses the whole spliced statement, but the model reads each spliced value on its own. A quote in a value can therefore form a different valid statement, which the model reports as a query error with the table unchanged. Two examples: the user `a' || 'b` gives `validated_by = 'a' || 'b'`, which stores `ab`; the id `x') OR ('1'='1` gives `WHERE property_id IN ('x') OR ('1'='1')`, which marks every row validated. The contract is exact only for input with no quote, backslash or newline (see the `RecordStore.ReadUpdate` line).
- RecordStore.QuotedUserBreaksLiteral: states what the per-value literal reader does, not the warehouse. A user name such as `a' || 'b` is rejected by the reader but forms valid SQL that the warehouse runs.
- RecordStore.ReadUpdate: the warehouse's SQL dialect is reduced to one quoted literal (or a comma list of them) per spliced value, with no backslash escapes and no other SQL syntax. A backslash anywhere in a value (GoogleSQL reads it as the start of an escape), or a raw newline (GoogleSQL does not allow one in a single-quoted literal), is read differently by the warehouse and is not modelled.
- `str(r)` on a non-string id (`utils/bigquery_utils.py:83`): ids are strings in the model.
- Floating point: the percentages at `pages/2_Dashboard.py:83` and `:92`, the map centre means at 155-156, and the progress ratio on the validator page. Prices and room counts are exact reals, not IEEE doubles.
- Dashboard.TypeOptions: a NULL `property_type` is not modelled (types are strings). pandas would list it as NaN, and sorting it beside strings raises.
- Dashboard.SliderBounds: Streamlit's own check that the slider's minimum is below its maximum (equal bounds) is not modelled. The chosen ranges are taken as parameters.
- Streamlit's rerun model is not modelled: `st.rerun`, and the save button nested inside the capture button's branch (`pages/3_Scraper.py:109`), which a real rerun may never reach. `Session.SaveResults` models what the code does when it is reached.
- A screenshot that fails to decode (`pages/3_Scraper.py:95`) raises partway through the result loop, keeping the captures appended before it. Decoding is I/O and not modelled, so `Session.KeepUsable` always runs to the end of the list.
- The spinner and the `st.warning` / `st.error` messages are not modelled. The capture path's per-result messages are not modelled; only the list update is.
