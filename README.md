# Binance price-drop alerts: one checkout cycle

The program polls the Binance exchange for a list of trading symbols. In each
cycle it fetches every symbol's current ticker price and the high of its
current one-hour candlestick. It then prints an alert for every symbol whose
price is more than one percent below that high. This project models one such
cycle, `run_checkout` in `main.py`, and proves what it does.

The model has four modules:

- `Wrappers` (wrappers.dfy): `Option` stands for Python's `None`-or-value, and `Result` stands for a step that may raise.
- `Pairing` (pairing.dfy): Python's `zip`, plus the dictionary a comprehension builds from pairs (`DictOf`, where a later key overwrites an earlier one), plus `LastIndex`.
- `Fetch` (fetch.dfy): covers the two fetchers and the two batch helpers.
  - `OutcomeOf` is a fetch's status rule: a price on status 200, otherwise not available. Both fetchers share it.
  - `GatherBatch` is a batch helper. It appends one task per symbol in a loop and joins them in task order. Its `Endpoint` parameter says whether it plays `get_multiple_prices` or `get_multiple_highest_hour_prices`.
  - The network is a parameter `answer(i, s)`: the response that the i-th request of a batch, the one for symbol `s`, receives.
- `Checkout` (checkout.dfy): the cycle itself.
  - `Compare` is the comparison `price < high * 0.99`. It is an error when either side is `None`, because Python raises `TypeError` there.
  - `HighMap` is the symbol-to-high dictionary.
  - `Scan` is the loop over the price list.
  - `CycleOf` is a whole cycle over the fetched lists.
  - `RunCheckout` is the imperative cycle. It is proved to equal `CycleOf` on the gathered outcomes.
  - `CheckoutSpec` and the lemmas after it describe `CycleOf` position by position, without the dictionary. They say that position i is decided against the high at the last position of its symbol.

Prices are exact `real`s and the factor is `0.99` (that is, 99/100). A cycle's
result is `Cycle(alerts, abort)`. `alerts` holds the alerted symbols in the
order they are printed. `abort` is the position and the missing operand when
the loop raised; alerts printed before that stay printed.

Three points of the code's behaviour are easy to misread, and the model
follows the code on each:

- A price or high that is not available does not make the code skip that symbol. `None * 0.99` or `None < x` raises, and the cycle stops at that position (`ScenarioMissingPriceAborts`).
- Results are paired with symbols by list position, not by key. For a duplicated symbol, every position of it is compared with the high fetched at its last position (`HighMapLastWins`, `ScenarioDuplicateLastHighWins`).
- The threshold is fixed at one percent. It is not configurable.

## Model

| member | source | states |
|---|---|---|
| Pairing.Zip | main.py:71 | `zip` pairs element i of one list with element i of the other and stops at the shorter list |
| Pairing.DictOf | main.py:70-72 | the comprehension's keys are exactly the keys of the pairs |
| Pairing.DictOfLastWins | main.py:70-72 | a key maps to the value of its last pair: later pairs overwrite earlier ones |
| Pairing.LastIndex | main.py:70-72 | the position it returns holds the symbol, and no later position does (the position whose value the comprehension keeps) |
| Pairing.ZipDictKeys | main.py:70-72 | zipping equally long key and value lists gives a dictionary keyed by exactly the key list's elements |
| Pairing.ZipDictAt | main.py:70-72 | the value stored for the key at position i is the value at that key's last position |
| Fetch.OutcomeOf | main.py:36-40 | a fetch yields `None` exactly when the status is not 200, and otherwise the decoded price (the rule at main.py:17-21 is the same) |
| Fetch.GatherBatch | main.py:43-54 | one request per symbol in list order, and a result list of the same length whose element i is the outcome of the request for symbol i |
| Fetch.Requests | main.py:44-46 | the task list a batch builds, one request per symbol in list order; no contract of its own: `GatherBatch` states its elements |
| Fetch.Outcomes | main.py:47 | the list `gather` returns, element i being the outcome of request i (the same at main.py:54); no contract of its own: `GatherBatch` states its length and elements |
| Checkout.HighMap | main.py:70-72 | the comprehension over `zip(symbol, highest_prices)`; no contract of its own: `HighMapKeys`, `HighMapHasSymbols` and `HighMapLastWins` state its keys and values |
| Checkout.Scan | main.py:74-77 | the `for` loop over `zip(symbol, prices)` after its first n positions; no contract of its own: `ScanReach`, `ScanAlerts` and `ScanStaysAborted` state what it does |
| Checkout.CycleOf | main.py:69-77 | one cycle over the fetched lists, built from `HighMap` and `Scan`; no contract of its own: `CheckoutSpec`, `CompletesIffAvailable`, `AlertIff` and `AlertsFromList` state its properties |
| Checkout.Compare | main.py:76 | the comparison raises when the high is `None` (checked first, `MissingHigh`) or when only the price is `None` (`MissingPrice`); otherwise it is true exactly when price < high × 0.99 |
| Checkout.CompareOkTrue | main.py:76 | a comparison that does not raise has both operands available, and it alerts exactly when price < high × 0.99 |
| Checkout.CompareBoundary | main.py:76 | a price of exactly 0.99 × high does not alert: the comparison is strict |
| Checkout.CompareOnePercent | main.py:59-76 | the docstring says '1 percent lower'; for a positive high, the code alerts exactly when the drop is strictly more than one percent |
| Checkout.HighMapKeys | main.py:70-72 | the high map's keys are exactly the symbols of the list |
| Checkout.HighMapHasSymbols | main.py:70-76 | every symbol the loop looks up is a key of the high map, so the lookup never raises `KeyError` |
| Checkout.HighMapLastWins | main.py:70-72 | for a duplicated symbol, the map holds the high from its last position |
| Checkout.AlertPositionsSpec | main.py:74-77 | the alerting positions strictly increase (at most one alert per position, in list order); a position is among them exactly when its decision is to alert |
| Checkout.HighMapAgrees | main.py:70-76 | looking up position i's symbol in the high map gives the decision against the high at that symbol's last position |
| Checkout.ScanReach | main.py:74-76 | the loop stops at the first position whose comparison raises; every comparison before it succeeds |
| Checkout.ScanAlerts | main.py:74-77 | the loop's alerts are the symbols of the alerting positions before the stop, in list order |
| Checkout.ScanStaysAborted | main.py:74-76 | once the loop has raised, the remaining positions change nothing |
| Checkout.CheckoutSpec | main.py:65-77 | a cycle raises at the first failing position; its alerts are the symbols of the earlier positions whose decision is to alert, in list order |
| Checkout.CompletesIffAvailable | main.py:74-76 | a cycle completes exactly when every price and every symbol's last-position high are available |
| Checkout.AlertIff | main.py:74-76 | in a completed cycle, position i alerts exactly when its price is strictly below 0.99 × the high mapped to its symbol |
| Checkout.AlertsFromList | main.py:74-77 | every alert names a symbol of the list, and there are no more alerts than list positions |
| Checkout.PositionsBounded | main.py:74-77 | a generic fact about sequences, used for the bound in `AlertsFromList`: strictly increasing positions below b number at most b |
| Checkout.ScenarioDropAlerts | main.py:74-77 | XRPUSDT at 0.98 against a high of 1.00 alerts |
| Checkout.ScenarioSmallDropSilent | main.py:74-77 | XRPUSDT at 0.995 against a high of 1.00 does not alert |
| Checkout.ScenarioMissingPriceAborts | main.py:74-76 | a missing price at position 0 stops the cycle there, before a later symbol that would alert |
| Checkout.ScenarioDuplicateLastHighWins | main.py:70-76 | with a duplicated symbol, both positions use the last high, and a missing earlier high is never read |
| Checkout.RunCheckout | main.py:57-77 | an empty list issues no request and emits nothing; otherwise all ticker requests are issued, then all candlestick requests, and the alerts and the abort equal `CycleOf` applied to the gathered outcomes |

## Left out

- HTTP sessions, URL construction and JSON decoding (main.py:13-19, 32-38). These are I/O and a foreign library. A response is modelled as its status plus the price already decoded from its body.
- OutcomeOf: a status-200 response whose body lacks `price`, or lacks `data[0][2]`, or does not parse as a float raises in the source. The model assumes a 200 response always carries a decodable price, because decoding is not modelled.
- The concurrency and timing of `asyncio.gather` (main.py:47, 54). Only its order-preserving result is modelled.
- The exchange's answers are a parameter `answer(i, symbol)`. Nothing about how prices evolve is modelled.
- The `while True` loop, `asyncio.sleep(1)` and the hard-coded symbol list in `main` (main.py:84-91). These are process-level scheduling, and each pass is one `RunCheckout`.
- An aborting cycle is the last one. The `TypeError` at main.py:76 escapes `run_checkout` and `main`, and the loop at main.py:86-88 has no handler, so the program ends. The model covers one cycle, so it does not say that no later cycle runs.
- Transport errors. An aiohttp connection error or time-out in any one fetch (main.py:15-16, 34-35) propagates out of `asyncio.gather` (main.py:47, 54), which is called without `return_exceptions`. That aborts the cycle before any comparison. The model gives every request a `Response`, so this abort is not represented.
- IEEE double rounding in `price < high * 0.99`. The model uses exact rationals, so it does not capture how float rounding behaves at the boundary.
- The text of the printed alert (main.py:77). An alert is its symbol.
- CycleOf: it requires the price and high lists to be as long as the symbol list. The batch helpers always return such lists, so the truncation of `zip` on unequal lists (modelled by `Zip`) never happens in a cycle.
