# Browser test harness core, in Dafny

This project models the reliability core of a Playwright/Cucumber browser-test
repository and its k6 performance-report converters, and proves properties of
that model.

- **`pages.dfy` (module `Pages`)** models `BasePage`, the interaction layer that
  every page object inherits. The browser page is an abstract `Page` object with
  three parts:
  - the log (`trace`) of every call made on it;
  - the values of its input fields;
  - an oracle that answers each call, given the call and its position in the log.

  A Playwright exception is a `Threw` reply. `BasePage` has these operations:
  - the seven wait wrappers;
  - `safeClick`: wait VISIBLE, wait ATTACHED, then up to 3 click attempts with a
    200 ms pause after each failed attempt except the last, whose exception is
    rethrown unchanged;
  - `safeType`: clear the field, then fill it;
  - `safeGetText`, `safeIsVisible` (which swallows exceptions) and `navigateTo`.

  Each is a method whose postcondition ties the new log, the new fields and the
  outcome to a pure specification (`SafeClickRun`, `IssueAll`, `Replay`).
  Lemmas about those specifications prove what the operations promise:
  - the number of attempts and pauses;
  - which exception escapes;
  - that a completed `safeType` leaves the field holding exactly the typed text.
- **`drivers.dfy` (module `Drivers`)** models `PlaywrightFactory`.
  - Its three per-thread slots (engine, browser, page) are maps keyed by an
    execution-unit id.
  - Handles are numbers handed out in increasing order.
  - A log records what was started and stopped.
  - The class's `GetPage` and `Close` are proved against the pure `GetPageSpec`
    and `CloseSpec`.
  - Lemmas cover lazy reuse, creation order, variant choice and the headless
    flag, close order, idempotent close, a fresh triple after close, and
    isolation between units.
- **`k6.dfy` (module `K6`)** holds the parsed k6 NDJSON entry and the Allure
  types that both converters share.
- **`k6_converter.dfy` (module `K6Converter`)** models
  `performance-tests/converters/convert-k6-to-allure.js`. It covers:
  - the metric fold over one results file, proved against a filter-based
    specification;
  - the sorted copy, proved to be the unique nondecreasing permutation;
  - the 95th-percentile pick, proved to be a duration that more than 95% of the
    durations do not exceed;
  - the status and steps;
  - the file names (`file.replace('.json', '')` removes the first `.json`, not
    necessarily the suffix);
  - the loop over the `.json` files of the results directory, with exit code 1
    when there are none.
- **`k6_legacy.dfy` (module `K6LegacyConverter`)** models the older
  `performance-tests/convert-k6-to-allure.js`. It writes one always-passed
  result with one step per `http_req_duration` entry of any type.

Two behaviours of `getPage` when the configuration has no `browser` value:
- It does not default to chromium. `toLowerCase` on the null name
  (src/test/java/drivers/PlaywrightFactory.java:42) throws after the new engine
  was stored (line 38).
- The unit still has no page, so the next `getPage` creates another engine and
  overwrites the stored one without stopping it. After two such failures
  `close` stops only the second engine (`Drivers.RepeatedFailureLeaksEngine`).

## Model

| member | source | states |
|---|---|---|
| Pages.BasePage.constructor | src/test/java/pages/BasePage.java:32-34 | the page object works on the page it is given |
| Pages.BasePage.WaitForVisible | src/test/java/pages/BasePage.java:46-49 | issues exactly one wait for state VISIBLE on the selector, leaves fields unchanged, propagates its exception |
| Pages.BasePage.WaitForHidden | src/test/java/pages/BasePage.java:57-60 | issues exactly one wait for state HIDDEN, propagating its exception |
| Pages.BasePage.WaitForAttached | src/test/java/pages/BasePage.java:68-71 | issues exactly one wait for state ATTACHED, propagating its exception |
| Pages.BasePage.WaitForDetached | src/test/java/pages/BasePage.java:79-82 | issues exactly one wait for state DETACHED, propagating its exception |
| Pages.BasePage.WaitForPageLoad | src/test/java/pages/BasePage.java:88-90 | issues exactly one wait for the LOAD state, propagating its exception |
| Pages.BasePage.WaitForNetworkIdle | src/test/java/pages/BasePage.java:97-99 | issues exactly one wait for the NETWORKIDLE state, propagating its exception |
| Pages.BasePage.WaitForUrlContains | src/test/java/pages/BasePage.java:107-109 | issues exactly one URL wait on the glob `**fragment**`, propagating its exception |
| Pages.UrlGlob | src/test/java/pages/BasePage.java:107-109 | the glob is the fragment between two `**`, four characters longer |
| Pages.BasePage.SafeClick | src/test/java/pages/BasePage.java:132-152 | the loop issues exactly the calls of `SafeClickRun` (waits, then the click attempts with pauses) and ends with its outcome; fields unchanged |
| Pages.SafeClickShape | src/test/java/pages/BasePage.java:132-152 | whatever the browser answers: wait VISIBLE comes first, no click comes before wait ATTACHED, at most 3 clicks, and exactly one 200 ms pause between consecutive clicks |
| Pages.SafeClickSucceedsOn | src/test/java/pages/BasePage.java:132-143 | if the waits pass and attempt k is the first click that returns, safeClick issues the waits and exactly k clicks with k-1 pauses, and completes |
| Pages.SafeClickExhausted | src/test/java/pages/BasePage.java:132-151 | if the waits pass and all three clicks throw, safeClick makes 3 clicks with 2 pauses and raises the third click's exception unchanged |
| Pages.RetryRunIsAttempts | src/test/java/pages/BasePage.java:139-151 | the retry loop always makes between 1 and the remaining number of attempts, alternating click and pause |
| Pages.RetrySucceedsOn | src/test/java/pages/BasePage.java:139-143 | the loop stops at the first attempt whose click returns |
| Pages.RetryExhausted | src/test/java/pages/BasePage.java:144-150 | when every remaining attempt throws, the last attempt's exception escapes and there is no pause after it |
| Pages.AttemptCallsAlternate | src/test/java/pages/BasePage.java:139-151 | k attempts are 2k-1 calls: clicks at even positions, 200 ms pauses at odd positions |
| Pages.AttemptCallsCounts | src/test/java/pages/BasePage.java:139-151 | k attempts hold k clicks and k-1 pauses |
| Pages.BasePage.SafeType | src/test/java/pages/BasePage.java:169-176 | issues the four calls of safeType up to the first that throws, propagates that exception, and the fields become `Replay` of those calls |
| Pages.IssueStopsAtFirstFailure | src/test/java/pages/BasePage.java:169-176 | a straight-line operation issues a prefix of its calls: all of them iff every call returns, else up to the first that threw, whose exception is raised |
| Pages.SafeTypeCompletes | src/test/java/pages/BasePage.java:169-176 | safeType completes iff both waits and both fills return, and then all four calls were issued in order |
| Pages.SafeTypeSetsField | src/test/java/pages/BasePage.java:173-175 | after a completed safeType the field holds exactly the text, whatever it held before, and no other field changed |
| Pages.BasePage.SafeGetText | src/test/java/pages/BasePage.java:184-187 | waits VISIBLE, then reads the inner text; either failure propagates; nothing else is issued |
| Pages.BasePage.SafeIsVisible | src/test/java/pages/BasePage.java:201-208 | true exactly when the visibility query returns true; an exception gives false and is not propagated |
| Pages.BasePage.NavigateTo | src/test/java/pages/BasePage.java:219-222 | navigates, then waits for LOAD only if navigation returned; either failure propagates |
| Drivers.PlaywrightFactory.constructor | src/test/java/drivers/PlaywrightFactory.java:22-24 | all three slots start empty, with no handle handed out and nothing started |
| Drivers.PlaywrightFactory.GetPage | src/test/java/drivers/PlaywrightFactory.java:34-64 | the new state and the result are those of `GetPageSpec` |
| Drivers.PlaywrightFactory.Close | src/test/java/drivers/PlaywrightFactory.java:77-95 | the new state is that of `CloseSpec` |
| Drivers.GetPageReuses | src/test/java/drivers/PlaywrightFactory.java:34-35 | once a unit holds a page, getPage returns it and changes nothing; a second call returns the same page |
| Drivers.GetPageCreatesInOrder | src/test/java/drivers/PlaywrightFactory.java:35-61 | on first use: engine, then browser (configured variant and headless flag), then page, each stored; the page is fresh; validity kept |
| Drivers.GetPageWithoutBrowserName | src/test/java/drivers/PlaywrightFactory.java:37-42 | without a "browser" entry getPage fails after storing the engine; no browser or page is stored |
| Drivers.RepeatedFailureLeaksEngine | src/test/java/drivers/PlaywrightFactory.java:35-42 | a second failing getPage overwrites the first engine without stopping it; a later close stops only the second engine, never the first |
| Drivers.VariantChoice | src/test/java/drivers/PlaywrightFactory.java:41-46 | firefox or webkit exactly when the name equals that word ignoring case; chromium for every other name |
| Drivers.VariantIgnoresCase | src/test/java/drivers/PlaywrightFactory.java:42 | the variant depends only on the lower-cased name |
| Drivers.LowerIdempotent | src/test/java/drivers/PlaywrightFactory.java:42 | lower-casing twice is lower-casing once |
| Drivers.EqualsIgnoreCaseIsLowerEquality | src/test/java/drivers/PlaywrightFactory.java:51 | two strings are equal ignoring case iff their lower-case forms are equal |
| Drivers.HeadlessFlag | src/test/java/drivers/PlaywrightFactory.java:51 | headless iff the value is present and lower-cases to "true"; absent gives false |
| Drivers.CloseOrder | src/test/java/drivers/PlaywrightFactory.java:77-95 | close stops exactly the handles the unit holds, page before browser before engine, and nothing of another unit |
| Drivers.CloseIdempotent | src/test/java/drivers/PlaywrightFactory.java:77-95 | after close the unit holds nothing; close on a unit that holds nothing changes nothing |
| Drivers.CloseThenGetPageIsFresh | src/test/java/drivers/PlaywrightFactory.java:34-95 | getPage after close returns a page, and the new page, browser and engine are none of the handles the unit held before |
| Drivers.OperationsPreserveValid | src/test/java/drivers/PlaywrightFactory.java:34-95 | getPage and close keep every stored handle issued and no browser or page shared between units |
| Drivers.OtherUnitsUntouched | src/test/java/drivers/PlaywrightFactory.java:22-24 | getPage and close for one unit leave every other unit's slots as they were |
| K6Converter.ExtractMetrics | performance-tests/converters/convert-k6-to-allure.js:62-81 | the loop's four accumulators equal `MetricsOf`: duration-sample values and times, and the sums over request samples |
| K6Converter.DurationsAreSampleValues | performance-tests/converters/convert-k6-to-allure.js:68-72 | one duration and one timestamp per duration sample, the k-th being that sample's value and time |
| K6Converter.SamplesMembership | performance-tests/converters/convert-k6-to-allure.js:68-80 | an entry is kept iff it is in the input with the metric and type "Point" |
| K6Converter.IgnoresNonPoints | performance-tests/converters/convert-k6-to-allure.js:68-80 | inserting an entry whose type is not "Point" anywhere changes none of the four results |
| K6Converter.MetricsOfAppend | performance-tests/converters/convert-k6-to-allure.js:62-81 | on concatenated input, durations and timestamps concatenate in input order and the two counters add |
| K6Converter.SortAscendingCorrect | performance-tests/converters/convert-k6-to-allure.js:85 | the sorted copy is nondecreasing and a permutation of the durations |
| K6Converter.SortedPermutationUnique | performance-tests/converters/convert-k6-to-allure.js:85 | there is only one nondecreasing permutation, so the sort result does not depend on the algorithm |
| K6Converter.P95Index | performance-tests/converters/convert-k6-to-allure.js:86 | the index is floor(0.95·n) and lies below n whenever n ≥ 1 |
| K6Converter.P95IsPercentile | performance-tests/converters/convert-k6-to-allure.js:86 | no durations gives 0; otherwise the pick is one of the durations and more than 95% of the durations are at most it |
| K6Converter.ReportStatus | performance-tests/converters/convert-k6-to-allure.js:129-151 | failed iff failedRequests > 0; four steps; the "Failed requests" step has the result's status, the other three pass; no parameters |
| K6Converter.IndexOfFrom | performance-tests/converters/convert-k6-to-allure.js:51 | finds the first occurrence of the pattern at or after a position, or reports that there is none |
| K6Converter.ScriptNameDropsSuffix | performance-tests/converters/convert-k6-to-allure.js:51 | a file whose only ".json" is its suffix yields a name that gives back the file when ".json" is appended |
| K6Converter.ScriptNameRemovesFirst | performance-tests/converters/convert-k6-to-allure.js:51 | an earlier ".json" is removed instead of the suffix: "a.json.json" gives "a.json" |
| K6Converter.OutputNamesDistinct | performance-tests/converters/convert-k6-to-allure.js:104-153 | the histogram, trend and result names of one script are pairwise different |
| K6Converter.Indices | performance-tests/converters/convert-k6-to-allure.js:94 | the histogram labels are 0, 1, …, n-1 |
| K6Converter.FileOutputsAgree | performance-tests/converters/convert-k6-to-allure.js:94-148 | the histogram data is a sorted permutation of the trend data; the trend data is the duration samples in input order; the attachment sources name the two chart files written; the three paths differ |
| K6Converter.ConvertFile | performance-tests/converters/convert-k6-to-allure.js:50-157 | writes the histogram, the trend and the result of `FileOutputs`, in that order |
| K6Converter.JsonFiles | performance-tests/converters/convert-k6-to-allure.js:34 | a listing entry is processed iff it ends with ".json" |
| K6Converter.ConvertAll | performance-tests/converters/convert-k6-to-allure.js:34-157 | no ".json" file: exit code 1 and nothing written; otherwise exit code 0 and, for the k-th file, the three outputs of that file, in listing order |
| K6LegacyConverter.Convert | performance-tests/convert-k6-to-allure.js:14-34 | path allure-results/k6-result.json; name "k6 performance test"; always passed; no attachments or parameters; the steps appended for the entries, in order |
| K6LegacyConverter.DurationStepsShape | performance-tests/convert-k6-to-allure.js:22-32 | one step per `http_req_duration` entry, each named "http_req_duration", passed, no attachments |
| K6LegacyConverter.DurationStepsAppend | performance-tests/convert-k6-to-allure.js:22-32 | steps follow input order: the steps of a concatenation are the concatenation of the steps |
| K6LegacyConverter.CountsEveryType | performance-tests/convert-k6-to-allure.js:22-23 | entries of any type make a step, so there are at least as many steps as the newer converter has durations, and equally many iff every duration entry is a "Point" |

## Left out

- The Playwright calls are an oracle. The model holds no DOM, no timing and no
  timeouts: a wait either returns or throws.
- `page.waitForTimeout(200)` is a logged `Sleep(200)` that never fails.
- Pages.BasePage.constructor: takes the page as a parameter instead of calling
  the factory's `getPage`. The page object itself does not depend on the factory.
- Drivers.PlaywrightFactory.GetPage: `Playwright.create`, `launch` and `newPage`
  never fail in the model. A failure part-way through, which would leave some
  slots set, is not modelled; only a missing "browser" value fails.
- Drivers.PlaywrightFactory.Close: the Playwright `close` calls never fail. A
  throwing close, which would skip the later steps, is not modelled.
- Threads are execution-unit ids. Each `ThreadLocal` is one map keyed by unit.
  Concurrent interleaving is not modelled.
- Drivers.Lower: case mapping is ASCII only and independent of locale. Java's
  `toLowerCase` uses the JVM's default locale and also maps non-ASCII letters
  (for example the Kelvin sign lower-cases to "k").
- Drivers.VariantChoice: assumes a locale-independent lower-casing. Under a
  Turkish or Azerbaijani default locale, `toLowerCase` maps `I` to the dotless
  `ı`. "FIREFOX" and "WEBKIT" then match neither case at
  src/test/java/drivers/PlaywrightFactory.java:43-44, so chromium is launched,
  while the model picks firefox or webkit. `Boolean.parseBoolean` does not
  depend on the locale, so Drivers.HeadlessFlag is unaffected.
- `ConfigManager` and the hooks that call `getPage` and `close` are not part of
  this model. The page objects, flows, step definitions and runner are not part
  of it either. The configuration is a map passed to the factory.
- k6 values are integers. The source's values are JavaScript doubles.
- K6Converter.P95Index: uses the exact integer (95·n)/100. The source multiplies
  by the double 0.95, which could round differently where n·0.95 lies within a
  rounding error of an integer.
- K6Converter.Report: the average step keeps the sum and count it divides. The
  floating-point average, `toFixed(2)` and the NaN shown for no durations are
  not modelled. Step titles are structured values, not formatted text.
- Timestamps are integers. The conversion to `Date` and ISO strings is not
  modelled.
- Chart rendering is not modelled: a chart is its labels and data.
- File-system reads, writes and `mkdir` are not modelled. The directory listing
  and a `read` function are parameters, and outputs are path/content values.
- `JSON.parse` failures, console output and `process.exit` are not modelled;
  the exit code is a returned value.
- K6LegacyConverter.Convert: the `start`/`stop` fields (`Date.now()`) of each
  step are left out. Reading the fixed `results.json` is the `metrics`
  parameter.
- The k6 load scripts are not part of this model.
