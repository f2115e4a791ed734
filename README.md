# Index-constituent ticker bookkeeping

This project models the constituent-ticker bookkeeping of `modules/generate_data.py`,
and proves properties of it in Dafny. Its three parts are:

- `change_ticker` normalises a raw ETF-holding ticker. It looks the ticker up in a
  fixed rename table of 43 entries. Only when the ticker is not a key does it delete
  every run of characters outside `A`–`Z` (the regular expression `[^A-Z]+` replaced
  by the empty string).
- `simple_surviving_stocks` returns the normalised tickers held in both the first and
  the last snapshot of an index's constituent history.
- `all_times_stocks` walks a window of snapshots. It keeps a running intersection
  (the survivors) and a growing list of every normalised ticker seen (the union).

A holding is a `(ticker, name)` pair and a snapshot is a sequence of holdings. A
history, or a window, is a non-empty sequence of snapshots.

Files:

- `tickers.dfy` (module `Tickers`) holds the rename table and the regular-expression
  filter. The filter removes one maximal non-`A`–`Z` run (`NonUpperRun`) at a time,
  as one regex match does. The file also holds `ChangeTicker` and its lemmas.
  - The filter's result is characterised by three facts: every character is in
    `A`–`Z`, it is an in-order subsequence of the input, and it keeps every
    `A`–`Z` character of the input as often as the input has it.
  - `StripNonUpperUnique` proves that these three facts determine the result.
- `ticker_examples.dfy` (module `TickerExamples`) holds concrete cases.
  - The lookup precedes the filter.
  - `change_ticker` is not idempotent.
- `constituents.dfy` (module `Constituents`) holds snapshots and the two survivor
  operations.
  - `SimpleSurvivingStocks` is a function, because the source is a pair of
    comprehensions and an intersection.
  - `AllTimesStocks` is a method whose `for` loop mirrors the source loop, including
    the skipped `i == 0` step. It is proved against the specification functions
    `Survivors` (the intersection over every snapshot) and `EverListed` (the union).

## Model

| member | source | states |
|---|---|---|
| Tickers.ChangeTickerSpec | modules/generate_data.py:58-108 | A ticker that is a key of the rename table yields the mapped value, and the filter is not applied. Otherwise the result has only `A`–`Z` characters. It is an in-order subsequence of the ticker, keeps each `A`–`Z` character's multiplicity, and is no longer than the ticker. |
| Tickers.NonUpperRun | modules/generate_data.py:107 | One match of `[^A-Z]+` at the start of a string: the returned length covers only non-`A`–`Z` characters and stops at an `A`–`Z` character or at the end. |
| Tickers.StripNonUpperSpec | modules/generate_data.py:107 | The substitution leaves only `A`–`Z` characters. It keeps them in their original order, and keeps every `A`–`Z` character as many times as the input holds it. |
| Tickers.StripNonUpperUnique | modules/generate_data.py:107 | Any string that is all `A`–`Z`, is a subsequence of the input and keeps the input's `A`–`Z` multiplicities equals the substitution's result, so that characterisation is complete. |
| Tickers.StripNonUpperKeepsUpper | modules/generate_data.py:107 | A string made only of `A`–`Z` is left unchanged by the substitution. |
| Tickers.StripNonUpperIdempotent | modules/generate_data.py:107 | Applying the substitution twice gives the same as applying it once. |
| Tickers.StripNonUpperAppend | modules/generate_data.py:107 | The substitution distributes over concatenation: filtering `a + b` equals filtering `a`, then `b`, and joining the results. |
| Tickers.StripNonUpperEmptyIff | modules/generate_data.py:107 | The substitution yields the empty string exactly when the input has no `A`–`Z` character. |
| Tickers.UpperTickerUnchanged | modules/generate_data.py:104-107 | A ticker that is not a table key and already consists only of `A`–`Z` is returned unchanged. |
| Tickers.RenameValuesNonEmpty | modules/generate_data.py:59-103 | Every value of the rename table is non-empty, so a table hit never yields the empty ticker. |
| Tickers.ChangeTickerEmptyIff | modules/generate_data.py:58-108 | `change_ticker` returns the empty string exactly when the ticker is not a table key and has no `A`–`Z` character. |
| TickerExamples.LookupBeforeFilter | modules/generate_data.py:59-107 | "BF.B" becomes "BF-B" through the table, although the filter alone would give "BFB". "-" becomes "LPRAX", although the filter alone would give "". |
| TickerExamples.ChangeTickerNotIdempotent | modules/generate_data.py:59-107 | "BF-B" is not a key and becomes "BFB", while "BFB" maps back to "BF-B", so applying `change_ticker` twice differs from applying it once. |
| Constituents.TickerSetListed | modules/generate_data.py:111-113 | A ticker is in a snapshot's normalised set exactly when some holding of the snapshot normalises to it. |
| Constituents.SimpleSurvivingStocks | modules/generate_data.py:124-129 | A ticker is in the result exactly when some holding of the first snapshot and some holding of the last snapshot normalise to it, so the result is a subset of each end's tickers. |
| Constituents.AllTimesStocks | modules/generate_data.py:110-122 | The first result is the intersection over every snapshot of the window, and the second is the union. The first is contained in the second. With a single snapshot both equal that snapshot's ticker set. The loop invariant says that after snapshot i the running results cover snapshots 0..i. |
| Constituents.SurvivorsSnoc | modules/generate_data.py:115-119 | Taking one more snapshot into the window intersects the survivors with that snapshot's tickers, which is the loop's step on `symbols`. |
| Constituents.EverListedSnoc | modules/generate_data.py:115-118 | Taking one more snapshot into the window adds its tickers to the union, which is the loop's step on `all_symbols`. |
| Constituents.ElementsAppend | modules/generate_data.py:117-122 | Extending the ticker list and then taking its set equals the union of the two lists' sets. |
| Constituents.SingleSnapshotWindow | modules/generate_data.py:111-122 | For a one-snapshot window the intersection and the union both equal that snapshot's ticker set. |
| Constituents.SurvivorsWithinEverListed | modules/generate_data.py:110-122 | Every ticker in the intersection is also in the union. |
| Constituents.SurvivorsWithinSimple | modules/generate_data.py:110-129 | The all-times survivors of a window are among its simple survivors. With one or two snapshots the two notions coincide. |
| Constituents.NamesIgnored | modules/generate_data.py:111-128 | Windows whose snapshots carry the same tickers in the same positions, whatever the company names, give the same simple survivors, the same intersection and the same union. |
| Constituents.WindowOrderIrrelevant | modules/generate_data.py:110-122 | Two windows holding the same snapshots, in any order and with any repetition, give the same intersection and the same union. |

## Left out

- `index_components_finder` (modules/generate_data.py:13-56) is not part of this model. It is HTTP requests, HTML and JSON parsing, and pickle writing against a remote site.
- `modules/performance_measures_helper.py`, `shiny/fx_shiny_visor.py`, `streamlit/fx_visor.py` and `mysql_server_cnf/fx_catcher.py` are not part of this model. They are floating-point statistics, dashboard UI, market-data downloads and configuration loading.
- The pandas label slice `financial_index[start_date:end_date]` is not modelled. `AllTimesStocks` takes the already-sliced window, and the dates are dropped from its parameters.
- An empty window or history makes the source raise `IndexError` at `[0]`. The model states this as `requires |window| > 0` and `requires |history| > 0` rather than modelling the exception.
- `AllTimesStocks`: in the source, `all_symbols` aliases the first snapshot's ticker list, which `extend` then grows in place. The model keeps that list as a local sequence. The aliasing is invisible to callers, because the list is built inside the call.
- Tickers are Dafny strings of Unicode characters. Pandas cells that are not strings (a missing ticker read as a float NaN, for instance) would make `re.sub` raise `TypeError`, and they are not modelled.
- The rename table is written as a `match` over the 43 string keys rather than as a dictionary value. Its entries and their order are those of the source.
