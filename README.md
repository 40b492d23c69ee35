# satUSD liquidity monitor — a Dafny model

The monitor loads a DeFi pool page, finds the table row of the `satUSD-v1`
pool, and reads its liquidity in US dollars. When the liquidity is strictly
above a configured threshold, it sends a Telegram alert. It can notify on
every check, or only when the state changes from "not above" to "above".

This project models the core of `monitor.py` and proves properties of it:

- `wrappers.dfy` — the `Option` type.
- `text.dfy` — character classes and text operations:
  - the `[\d.]` characters;
  - the white space of Python's `str.isspace`;
  - maximal runs;
  - `str.replace` with an empty replacement;
  - `str.strip`;
  - substring occurrence.
- `decimal.dfy` — `float()` on a string of digits and dots, read as an exact
  rational. It includes the `ValueError` cases, and a formatter whose output
  `float()` reads back exactly.
- `value_parser.dfy` — `parse_liquidity_value`:
  - removes `$` and `,`;
  - strips white space;
  - splits off one trailing K/M/B suffix (either case);
  - reads the first `[\d.]+` run;
  - scales the result.
- `row_scan.dfy` — the row loop of `get_liquidity_from_page`:
  - the marker test;
  - the primary pattern `([\d.]+)\s*satUSD-v1\s*\$?([\d.]+)`, with the leftmost
    match and greedy groups, as Python's matcher resolves it;
  - the fallback `re.findall(r'\$([\d.]+)')`, taking its second-to-last amount;
  - a malformed number, which makes the whole extraction `None`;
  - the first deciding row, which ends the scan.

  The loop is a method proved equal to a recursive specification.
- `monitor.dfy` — `check_and_notify`:
  - the state kept between checks: unknown, below or above;
  - the strict comparison against the threshold;
  - the two notification modes.

  The class `SatUsdMonitor` holds the threshold, the mode and the last state. A
  ghost log `sent` records the value of every alert sent. Pure functions
  `Step` and `Run` give the effect of one check and of a series of checks.
  Lemmas about them compare the two modes.

A few behaviours of the code are worth noting:

- The extractor converts the matched amount with `float()` directly.
  `parse_liquidity_value` is never called on it. So a thousands separator cuts
  the amount at the comma: `$1,234.56` is read as 1 (`RowScan.ThousandsSeparatorCutsAmount`).
- The code has no failure counter, no heartbeat, no retry and no start-up
  notice. A failed reading only returns `False`.
- The unit-suffix test looks only at the text's last character, so a unit name
  that ends in K, M or B scales the value: `"1.2 bnb"` is read as 1.2 billion
  (`ValueParser.UnitEndingInSuffixLetter`).
- The pool name is hard-coded as `satUSD-v1` (`RowScan.Marker`). The
  configured `asset_name` appears only in the alert text.

## Model

| member | source | states |
|---|---|---|
| ValueParser.Clean | monitor.py:50 | the cleaned text has no `$`, no `,`, and no white space at either end; every other character that is not white space occurs in it exactly as often as in the input |
| ValueParser.CleanIsStrip | monitor.py:50 | on a text without `$` and `,`, cleaning is exactly `strip()`; with the two lemmas below this determines the cleaned text of every input |
| ValueParser.CleanDropsComma | monitor.py:50 | a `,` anywhere in the text is dropped and the characters around it are kept in order |
| ValueParser.CleanDropsDollar | monitor.py:50 | a `$` anywhere in the text is dropped and the characters around it are kept in order |
| ValueParser.ParseRun | monitor.py:46-71 | an optional `$`, a run of digits and dots that `float()` accepts, and an optional unit letter parse to the run's value times the unit's multiplier |
| ValueParser.SameCleanSameParse | monitor.py:46-71 | two texts that clean to the same string parse to the same result |
| ValueParser.SplitSuffix | monitor.py:53-62 | when the last character is K, M or B (either case), it is split off and gives its multiplier; otherwise the text is kept whole with multiplier 1; the multiplier is always 1, 1000, 1000000 or 1000000000 |
| ValueParser.Scale | monitor.py:68 | scaling by the multiplier keeps the value non-negative, leaves it unchanged for multiplier 1, never makes it smaller, and gives 0 only for 0 |
| ValueParser.FirstRun | monitor.py:65-66 | `None` exactly when no character is a digit or a dot; otherwise the maximal run starting at the first such character |
| ValueParser.ParseLiquidityValue | monitor.py:38-71 | `None` for a missing or empty text; every value produced is non-negative |
| ValueParser.ParseFormatted | monitor.py:50-68 | a fixed-point number, optionally after `$` and before one K/M/B suffix, parses to its exact value times the suffix's multiplier |
| ValueParser.ParsePointed | monitor.py:50-68 | digits, a dot and digits (either side may be empty, not both), optionally `$`-prefixed and suffixed, parse to their digits over ten to the fraction length, times the multiplier |
| ValueParser.ParseLeading | monitor.py:50-71 | for a run of digits and dots (whole or with a fraction) followed by other text without `$`, `,` or trailing white space, only that first run is read: the result is its `float()` value times the multiplier of the text's last character, so a unit name is ignored when the text's last character is not K, M or B (either case) and scales the value when it is; a run `float()` rejects gives `None` |
| ValueParser.DocExampleDollar | monitor.py:42 | `"$20.39"` parses to 20.39 |
| ValueParser.DocExampleThousands | monitor.py:43 | `"1.5K"` parses to 1500 |
| ValueParser.DocExampleMillions | monitor.py:44 | `"2.3M"` parses to 2300000 |
| ValueParser.DocExampleWithUnit | monitor.py:41 | `"20.40 satUSD-v1"` parses to 20.40 |
| ValueParser.UnitEndingInSuffixLetter | monitor.py:53-68 | a unit name ending in a suffix letter scales the value: `"1.2 bnb"` parses to 1200000000 |
| ValueParser.SuffixOnlyLast | monitor.py:54-62 | only the last character is tested for a suffix: `"1.5Kx"` parses to 1.5, unscaled |
| ValueParser.NoRunGivesNone | monitor.py:65-71 | a text with no digit and no dot parses to `None` |
| ValueParser.RejectedNoDigits | monitor.py:71 | `"abc"` parses to `None` |
| ValueParser.ParseWholeRun | monitor.py:65-70 | a text made only of digits and dots parses to exactly what `float()` makes of it, `None` where `float()` raises |
| ValueParser.TwoDotsGivesNone | monitor.py:65-70 | any text made of digits and dots with two dots makes `float()` raise, and the parse gives `None` rather than an exception |
| ValueParser.DollarIgnored | monitor.py:50 | a `$` anywhere in the text makes no difference to the parse |
| ValueParser.CommaIgnored | monitor.py:50 | a thousands separator anywhere in the text makes no difference to the parse |
| ValueParser.ThousandsSeparatorIgnored | monitor.py:50-68 | `"$1,234.56"` parses to 1234.56 |
| ValueParser.FractionOnly | monitor.py:65-68 | a `$` amount with no integer part, such as `$.5`, parses to its fraction digits over ten to their number |
| ValueParser.NoIntegerPart | monitor.py:65-68 | `"$.5"` parses to 0.5 |
| ValueParser.RejectedTwoDots | monitor.py:67-70 | `"1.2.3"` makes `float()` raise, so the parse gives `None` |
| ValueParser.RejectedLoneDot | monitor.py:67-70 | `"$."` leaves a lone dot, which `float()` rejects, so the parse gives `None` |
| Decimal.DecimalValue | monitor.py:67-70 | `float()` of a run of digits and dots succeeds exactly when the run has at most one dot and at least one digit; the value is non-negative |
| Decimal.PointedValue | monitor.py:68 | digits, a dot and digits, with at least one digit in all, read as all the digits over ten to the number of fraction digits (`.5` is 0.5, `5.` is 5) |
| Decimal.TwoDotsRejected | monitor.py:67-70 | any run with two dots is rejected |
| Decimal.FormatFixedRoundTrip | monitor.py:68 | round trip: the fixed-point text of m / 10^k reads back as exactly m / 10^k |
| RowScan.GroupTwo | monitor.py:122 | `\$?([\d.]+)`: the `$` is taken only when a digit or a dot follows it, and group 2 is a maximal run of digits and dots |
| RowScan.PrimaryAt | monitor.py:122 | a match at a position yields a group 2 after that position, made of digits and dots and maximal |
| RowScan.PrimaryAtSound | monitor.py:122 | every match reported is a match of the pattern: group 1, spaces, the marker, spaces, an optional `$`, group 2 |
| RowScan.PrimaryAtComplete | monitor.py:122 | whenever the pattern can match at a position, the matcher reports a match there, with group 2 starting at that group's start and running to the end of its run |
| RowScan.PrimarySearch | monitor.py:122-123 | `re.search`: `None` exactly when the pattern matches nowhere; otherwise a matching position before which nothing matches |
| RowScan.FindAmounts | monitor.py:131 | every amount `findall` returns is a non-empty run of digits and dots |
| RowScan.FindAmountsAll | monitor.py:131 | the `findall` scan misses nothing: it returns the amount after every `$` that a digit or a dot follows, in order |
| RowScan.ReadFloat | monitor.py:125 | a row's number raises exactly when `float()` rejects it; a number `float()` accepts always yields `float()`'s value |
| RowScan.RowLiquidity | monitor.py:104-139 | only a row containing `satUSD-v1` can decide; the values it yields are non-negative |
| RowScan.PrimaryDecides | monitor.py:122-128 | the primary pattern takes precedence: the row is decided by group 2 of the leftmost match, and the `$` amounts are not looked at |
| RowScan.MarkerThenDollar | monitor.py:122-128 | a row made of an amount, the marker and a `$` amount is read from the `$` amount, whatever follows it |
| RowScan.ExampleRow | monitor.py:110-128 | the row `20.40 satUSD-v1 $20.39 $0.5 $1` yields 20.39 |
| RowScan.ThousandsSeparatorCutsAmount | monitor.py:122-125 | `1234.56 satUSD-v1 $1,234.56` yields 1: the extractor does not remove commas |
| RowScan.FallbackSecondToLast | monitor.py:131-139 | when the primary pattern matches nowhere in a marker row, two or more `$` amounts give the second to last; fewer give nothing and the scan goes on |
| RowScan.ScanRows | monitor.py:104-151 | every value the scan returns is non-negative |
| RowScan.ScanFirstDeciding | monitor.py:104-156 | the first row that decides wins: its value, or `None` if its number raises; earlier rows are passed over and later rows are not looked at |
| RowScan.ScanNoneDeciding | monitor.py:141-151 | when no row decides, the result is `None` |
| RowScan.PageLiquidity | monitor.py:73-156 | a value is returned only when the page loaded, and it is non-negative |
| RowScan.GetLiquidityFromPage | monitor.py:102-156 | the row loop, with its early returns, computes exactly `PageLiquidity` |
| Monitor.StateOf | monitor.py:201 | the state is "above" exactly when the liquidity is strictly greater than the threshold, and never unknown after a reading |
| Monitor.Step | monitor.py:192-226 | a failed reading keeps the state and sends nothing; a reading sets the state from the comparison; at most one alert, whose value is the reading, above the threshold |
| Monitor.Run | monitor.py:186-226 | over a series of checks, no more alerts than readings, and every alert is above the threshold |
| Monitor.RunState | monitor.py:192-216 | after a series of checks, the state is that of the last successful reading, or the starting state if none succeeded |
| Monitor.AlwaysModeAlerts | monitor.py:212-214 | notifying on every check alerts exactly the readings above the threshold, in order, whatever the state |
| Monitor.ChangeOnlyAlerts | monitor.py:205-211 | notifying on change only alerts exactly the readings above the threshold whose previous successful reading was not above (or, when no successful reading precedes it, whose starting state is not above) |
| Monitor.AboveUntilBelow | monitor.py:192-216 | once a reading is above the threshold, the state stays "above" through failed and above readings |
| Monitor.ChangeOnlyNeedsDip | monitor.py:205-211 | in change-only mode, between two alerts there is a successful reading at or below the threshold |
| Monitor.ChangeOnlyAlertsFewer | monitor.py:203-214 | change-only mode never sends more alerts than notifying on every check |
| Monitor.ShouldNotify | monitor.py:203-214 | an alert is due only for a value strictly above the threshold: always in every-check mode, and in change-only mode exactly when the last state is not "above" |
| Monitor.BelowAboveAbove | monitor.py:203-216 | below, then two different values above, from a fresh start: one alert (the first) in change-only mode, two (both, in order) otherwise |
| Monitor.AtThresholdNoAlert | monitor.py:201 | the comparison is strict: a reading equal to the threshold sets the state to "not above" and sends nothing |
| Monitor.SatUsdMonitor.constructor | monitor.py:28-32 | a new monitor starts with the state unknown and nothing sent |
| Monitor.SatUsdMonitor.CheckAndNotify | monitor.py:186-226 | returns true exactly when a liquidity was read; the new state and the alerts appended to the log are those of `Step` on the old state |

## Left out

- The browser session (Playwright launch, `goto`, `wait_for_selector`, the three-second sleep, timeouts) is not modelled. The page is a parameter: `None` stands for a failure inside the `try` of monitor.py:88-156 (navigation, the wait for the marker, reading the rows), which the code reports as `None`; otherwise the page is the visible text of every row, in order. Starting the browser, its context and its page (monitor.py:79-86) happens outside that `try`, so a failure there raises out of `check_and_notify` instead of returning `False`; the model does not capture that exception, and `CheckAndNotify` returning false stands only for failures inside the `try`.
- The per-cell logging loop (monitor.py:112-117), every `log` call and the write of `debug_page.html` are not modelled: they do not affect the result.
- `send_telegram_message` is not modelled: each alert is appended to the ghost log `sent`. The code ignores whether sending succeeded, so the log is complete.
- `format_alert_message` (text formatting), `run_once` (one call of `check_and_notify`), `run_continuous` (a loop with a sleep that calls `check_and_notify` and logs and swallows any exception it raises, monitor.py:232-247), `test_connection` (which calls `get_liquidity_from_page` and `send_telegram_message` directly and prints the outcome, monitor.py:250-276) and the command-line entry point are not modelled: they are scheduling, I/O and printing around the modelled operations.
- `float` is modelled as exact rationals: IEEE rounding and the printed `.2f` values are not modelled.
- `\d` in the three patterns and the digits `float()` accepts are modelled as the ASCII digits only. In Python, both also accept other Unicode decimal digits.
- Only the runs of digits and dots that the patterns can match reach `float()`. Its other accepted forms (signs, exponents, `inf`, underscores) cannot occur there and are not modelled.
- `config.example.py` and the `config` module are not part of this model: the threshold and the notification mode are constructor parameters, and the bot token, chat id and URL are not modelled.
