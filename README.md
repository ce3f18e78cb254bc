# Jobs-comparison monitor: the historical baseline

This project models how the Scrapy Cloud jobs-comparison monitor
(`ZyteJobsComparisonMonitor`) computes its baseline, and proves properties of that model.
The monitor runs at the end of a crawl. It:

1. checks that the two required settings are present and positive
   (`SPIDERMON_JOBS_COMPARISON` and `SPIDERMON_JOBS_COMPARISON_THRESHOLD`);
2. resolves the tag filter, which is the sorted intersection of the configured tags and the
   running job's own tags;
3. pages through the job-list API, at most 1000 records per call, applying the client-side
   close-reason filter and, in the `monitors/` variant, the spider-argument filter, until
   enough qualifying jobs have been collected or a page comes back short;
4. takes the mean `items` count of those jobs, scales it by the threshold and rounds up. The
   result is the minimum `item_scraped_count` the current job must reach.

The repository holds two copies of the monitor, and both are modelled:

- `zyte_spidermon/monitors/jobs_comparison.py` has the close-reason filter and the
  spider-argument filter. It is modelled by module `MonitorsJobsComparison`.
- `zyte_spidermon/jobs_comparison.py` has the close-reason filter only. It is modelled by
  module `JobsComparison`, which runs the shared loop with the argument filter switched off.

Shared modules:

| module | holds |
|---|---|
| `Results` | `Option` and `Result` |
| `Jobs` | the job record; `_has_desired_args`; `_get_args_to_filter`; the per-job test `Qualifies`; the page filter `FilterJobs` with its two halves, `Raises` (some job's test raises) and `Kept` (the jobs that pass) |
| `Tags` | Python's `str` order; `sorted(set(a) & set(b))`; `_get_tags_to_filter` |
| `Pagination` | the `_get_jobs` loop: the specification function `Collect`/`Iterate`, the imperative `GetJobs` proved equal to it, and lemmas about the calls it makes |
| `Baseline` | `math.ceil` and the mean-times-threshold arithmetic of `get_threshold` |
| `MonitorConfig` | the settings record, the two "not configured" checks of `run`, and the outcome of a run |

How the outside world is modelled:

- **The job API** is modelled for pagination by `history`: the jobs the API lists for the
  state and tag filters, in the order it returns them. A call with offset `start` and count
  `count` returns `history[start .. min(start + count, |history|)]`, and nothing past the end.
- **The monitor modules** take the API as a function from (states, tag filter) to such a
  history. This function is pure: the API is assumed to list the same jobs on every call.
- **Settings** come in as a `Config` record.
- **The running job's tags** come in as an optional list.
- **`item_scraped_count`** is a number passed to `Run`.

Behaviour of the code that readers may not expect (the model follows the code in each case):

- **The loop stops when a page holds fewer than 1000 jobs.** It does not compare the page
  with the count it asked for. Whenever fewer than 1000 jobs are still missing, the call asks
  for fewer than 1000, so the loop always stops after that call. When the client-side filters
  drop some of the jobs on that page, the loop returns fewer qualifying jobs than the target,
  even though the API has more to give. `Pagination.ShortPageStopsBeforeTarget` shows a
  concrete case. The general statement is that every collection is a run in which the loop
  stops at a short page or at the target (`Pagination.FetchIsTrace`). It is not a statement
  that the loop returns `min(target, all qualifying jobs)`.
- **The argument test requires equality, not "all the desired arguments".** The docstring at
  `zyte_spidermon/monitors/jobs_comparison.py:47-49` says a job with all the desired arguments
  is processed. `_has_desired_args` first checks that every desired key is present, then
  requires the job's `spider_args` to equal the desired mapping exactly, so extra arguments
  exclude a job. A job without `spider_args` counts as having `{}`, with one exception: a
  non-empty desired mapping and no `spider_args` key raises `KeyError` on
  `job["spider_args"]`. That exception aborts the whole computation.
- **Two setting names are undefined.** `_get_jobs` and `_get_args_to_filter` read
  `SPIDERMON_JOBS_COMPARISON_ARGUMENTS_ENABLED` and `SPIDERMON_JOBS_COMPARISON_ARGUMENTS`
  (`zyte_spidermon/monitors/jobs_comparison.py:86` and `:143`), but the module never defines
  them, so those lines raise `NameError` as written. The model reads the two settings the
  names evidently refer to as the `Config` fields `argumentsEnabled` (default `false`) and
  `arguments`.
- **No qualifying job means division by zero.** `len(jobs)` is zero, so `get_threshold`
  raises `ZeroDivisionError`. The model gives `Failure(ZeroDivision)`. `Run` then reports
  `Raised(ZeroDivision)`.

## Model

| member | source | states |
|---|---|---|
| MonitorConfig.CheckConfig | zyte_spidermon/monitors/jobs_comparison.py:58-75 | The first check fails exactly when the job count is absent or ≤ 0. The second fails exactly when the first passes and the threshold is absent or ≤ 0. When both pass, the target is the configured count (≥ 1) and the threshold is the configured value (> 0). |
| MonitorConfig.States | zyte_spidermon/monitors/jobs_comparison.py:167-169 | The state filter: the configured list, or `finished` alone when the setting is unset. |
| MonitorConfig.HasTag | zyte_spidermon/monitors/jobs_comparison.py:101 | `tags or None`: an empty tag list sends no tag filter, any other list is sent as it is. |
| MonitorsJobsComparison.Run | zyte_spidermon/monitors/jobs_comparison.py:58-77 | A failed check reports NotConfigured with the first setting that failed, whatever the API lists. Otherwise the outcome is the threshold's exception, or the check `item_scraped_count >= expected` against `Threshold`. |
| MonitorsJobsComparison.GetThreshold | zyte_spidermon/monitors/jobs_comparison.py:162-176 | Returns `Threshold`: the loop over the API's listing for the states (default `finished`) and the resolved tags, then `ExpectedMinimum` of the collected jobs. |
| MonitorsJobsComparison.CriteriaOf | zyte_spidermon/monitors/jobs_comparison.py:81-87 | The client-side filters of this variant: the close-reason list, the argument-filter switch and the desired mapping from `_get_args_to_filter`. |
| MonitorsJobsComparison.Listing | zyte_spidermon/monitors/jobs_comparison.py:97-102 | What the job API lists for the configured states and the resolved tag filter. |
| MonitorsJobsComparison.Threshold | zyte_spidermon/monitors/jobs_comparison.py:162-176 | `get_threshold` by definition: the loop over that listing for the configured number of jobs, an exception from it passed on, else `ExpectedMinimum` of the jobs collected at the configured threshold. `ThresholdErrors` and `BaselineJobsHaveDesiredArgs` state its properties. |
| MonitorsJobsComparison.ThresholdErrors | zyte_spidermon/monitors/jobs_comparison.py:171-175 | The threshold raises ZeroDivision exactly when collection succeeds with no jobs. It raises MissingSpiderArgs only when the argument filter is on with a non-empty desired mapping. |
| MonitorsJobsComparison.BaselineJobsHaveDesiredArgs | zyte_spidermon/monitors/jobs_comparison.py:104-111 | With the argument filter on, every job the mean is taken over has exactly the desired arguments. |
| Pagination.GetJobs | zyte_spidermon/monitors/jobs_comparison.py:89-120 | The imperative `while True` loop returns exactly `Fetch`: the same jobs, the same calls in the same order, and the same exception. |
| Pagination.Fetch | zyte_spidermon/monitors/jobs_comparison.py:89-120 | `_get_jobs`'s loop by definition: it starts at offset 0 with nothing kept. `GetJobs` is proved equal to it, and `FetchIsTrace` and the lemmas after it state its properties. |
| Pagination.Collect | zyte_spidermon/monitors/jobs_comparison.py:94-118 | The loop from any iteration on, given the offset reached and the jobs kept so far. It is the same as `Iterate`. |
| Pagination.Iterate | zyte_spidermon/monitors/jobs_comparison.py:95-118 | One iteration by definition. It asks for `min(target − kept, 1000)` at the current offset and filters the page. It raises if a job's test raises. It stops, with this call, on a short page or once the target is reached. Otherwise it goes on from the offset advanced by the page's length, with this call put first. |
| Pagination.AppendQualifying | zyte_spidermon/monitors/jobs_comparison.py:104-111 | The `for job in current_jobs` loop raises exactly when some job's test raises, and the error is MissingSpiderArgs. Otherwise it appends the jobs that pass, in page order. |
| Pagination.Page | zyte_spidermon/monitors/jobs_comparison.py:97-102 | A call returns at most `count` jobs: the listing from `start` up to `start + count` or the end, and nothing at all from an offset at or past the end. |
| Pagination.CollectRaises | zyte_spidermon/monitors/jobs_comparison.py:104-109 | An iteration whose page raises raises that exception. |
| Pagination.CollectStops | zyte_spidermon/monitors/jobs_comparison.py:113-116 | An iteration whose page is short, or which reaches the target, ends the run with one call and what has been kept so far. |
| Pagination.CollectContinues | zyte_spidermon/monitors/jobs_comparison.py:113-118 | Any other iteration makes its call and goes on from the offset advanced by the page's length. |
| Pagination.CollectIsTrace | zyte_spidermon/monitors/jobs_comparison.py:94-118 | From any offset whose prefix was filtered into `acc`, a successful run is a trace (see `FetchIsTrace`) and keeps at most the target. |
| Pagination.FetchIsTrace | zyte_spidermon/monitors/jobs_comparison.py:94-118 | A successful collection is a trace. The first call is at offset 0. Each call asks for `min(target − kept so far, 1000)`. The offset advances by the length of each full page. The run stops at the first short page or once the target is reached. The result is exactly the filtered prefix fetched, and holds at most `target` jobs. |
| Pagination.RequestCountsInRange | zyte_spidermon/monitors/jobs_comparison.py:96 | Every call asks for between 1 and 1000 jobs. |
| Pagination.FetchedJobsQualify | zyte_spidermon/monitors/jobs_comparison.py:104-111 | The result is an in-order subsequence of the listing. Each job in it passes the close-reason filter and, when the filter is enabled, has the desired arguments. |
| Pagination.CollectFailure | zyte_spidermon/monitors/jobs_comparison.py:108 | From any offset, the loop raises only MissingSpiderArgs, and only with the argument filter on and a non-empty desired mapping. |
| Pagination.FetchFailure | zyte_spidermon/monitors/jobs_comparison.py:108 | The same for the whole collection. |
| Pagination.SingleRequestBelowMax | zyte_spidermon/monitors/jobs_comparison.py:96-116 | A target below 1000 makes exactly one call, `(0, target)`. |
| Pagination.CollectAllQualify | zyte_spidermon/monitors/jobs_comparison.py:94-118 | Over a listing that the filter keeps whole and that is long enough, a run from any offset makes the full-page calls `FullPageRequests` and keeps exactly the next `target − kept` jobs. |
| Pagination.FetchAllQualify | zyte_spidermon/monitors/jobs_comparison.py:94-118 | When every listed job qualifies and there are at least `target` of them, the result is the first `target` jobs, fetched in full pages of 1000 with one last call for the rest. |
| Pagination.ThreeRequestsFor2500 | zyte_spidermon/monitors/jobs_comparison.py:94-118 | A target of 2500, with every job qualifying, makes calls for 1000, 1000 and 500 and returns the first 2500 jobs. |
| Pagination.ShortPageStopsBeforeTarget | zyte_spidermon/monitors/jobs_comparison.py:113-116 | A concrete case: target 2, and the first listed job is dropped by the close-reason filter. One call of 2 returns one job, although the listing holds two qualifying ones. |
| Jobs.ArgsToFilter | zyte_spidermon/monitors/jobs_comparison.py:138-148 | The desired mapping is the setting when it is set, and empty exactly when the setting is unset or empty. |
| Jobs.HasDesiredArgs | zyte_spidermon/monitors/jobs_comparison.py:150-160 | Raises (the KeyError) exactly when the desired mapping is non-empty and the job has no `spider_args`. Otherwise it is true exactly when the job's arguments, absent read as `{}`, equal the desired mapping. |
| Jobs.Qualifies | zyte_spidermon/monitors/jobs_comparison.py:105-109 | The per-job test by definition: the close-reason test first, then the argument test when it is enabled. `QualifiesMeaning` states what it comes to. |
| Jobs.Raises | zyte_spidermon/monitors/jobs_comparison.py:104-109 | Whether the `for job` loop over a page stops on an exception. `RaisesMeaning` states what it comes to. |
| Jobs.FilterJobs | zyte_spidermon/monitors/jobs_comparison.py:104-111 | What the `for job` loop does to a page by definition: the exception when `Raises`, else the `Kept` jobs. `FilterJobsCorrect` states what it comes to. |
| Jobs.QualifiesMeaning | zyte_spidermon/monitors/jobs_comparison.py:104-109 | The per-job test raises exactly when the close reason is accepted, the argument filter is on with a non-empty mapping, and the job lacks `spider_args`. It keeps the job exactly when the close-reason list is empty or contains the job's reason, and, with the argument filter on, the job's arguments equal the desired ones. |
| Jobs.Kept | zyte_spidermon/monitors/jobs_comparison.py:104-111 | A page never yields more jobs than it holds. |
| Jobs.RaisesMeaning | zyte_spidermon/monitors/jobs_comparison.py:104-109 | A page raises exactly when the test of one of its jobs raises. |
| Jobs.KeptMeaning | zyte_spidermon/monitors/jobs_comparison.py:104-111 | The kept jobs are an in-order subsequence of the page. A job is among them exactly when it is on the page and its test passes. Each passing job is kept as many times as the page holds it, and a failing one not at all. |
| Jobs.FilterJobsCorrect | zyte_spidermon/monitors/jobs_comparison.py:104-111 | Filtering raises MissingSpiderArgs exactly when some job's test raises. Otherwise it keeps an in-order subsequence holding exactly the passing jobs, each as many times as it occurs on the page. |
| Jobs.RaisesAppend | zyte_spidermon/monitors/jobs_comparison.py:104-111 | Two consecutive runs of jobs raise exactly when one of them does. |
| Jobs.KeptAppend | zyte_spidermon/monitors/jobs_comparison.py:104-111 | Filtering two consecutive runs keeps what filtering each run keeps, in order. |
| Jobs.FilterJobsAppend | zyte_spidermon/monitors/jobs_comparison.py:104-111 | Filtering pages one after the other, as the loop does, equals filtering their concatenation. |
| Jobs.FilterJobsKeepsAll | zyte_spidermon/monitors/jobs_comparison.py:104-111 | When every job passes, filtering keeps all of them, in order. |
| Jobs.CloseReasonExample | zyte_spidermon/monitors/jobs_comparison.py:105-106 | Close reasons `finished, cancelled, finished`, filtered on `finished`, keep the first and the third job, in order. |
| Jobs.ArgumentsExample | zyte_spidermon/monitors/jobs_comparison.py:150-160 | Desired `{"is_full_crawl": True}`: a job with exactly that argument passes, one with `{}` fails, and one with an extra argument fails. |
| Tags.BelowTotal | zyte_spidermon/monitors/jobs_comparison.py:136 | Python's `str` order is total: two different strings are ordered one way or the other. |
| Tags.BelowTransitive | zyte_spidermon/monitors/jobs_comparison.py:136 | The order is transitive. |
| Tags.BelowIrreflexive | zyte_spidermon/monitors/jobs_comparison.py:136 | No string is below itself. |
| Tags.Insert | zyte_spidermon/monitors/jobs_comparison.py:135-136 | Adding one tag to a strictly sorted list keeps it strictly sorted, with exactly the old tags plus the new one. |
| Tags.SortDistinct | zyte_spidermon/monitors/jobs_comparison.py:135-136 | `sorted(set(xs))` is strictly ascending and holds exactly the elements of `xs`. |
| Tags.Intersect | zyte_spidermon/monitors/jobs_comparison.py:135 | The set intersection holds exactly the tags present in both lists. |
| Tags.TagsToFilter | zyte_spidermon/monitors/jobs_comparison.py:122-136 | The tag filter is strictly ascending, and holds exactly the configured tags that the running job also carries. It is empty when either side is absent or empty. |
| Tags.SortedByElements | zyte_spidermon/monitors/jobs_comparison.py:135-136 | Two strictly sorted lists with the same elements are equal, so the tag filter is the unique sorted form of the intersection. |
| Tags.TagsExample | zyte_spidermon/monitors/jobs_comparison.py:122-136 | Configured `a, b` with current `b, c` give the filter `[b]`. |
| Baseline.Ceil | zyte_spidermon/monitors/jobs_comparison.py:175 | `math.ceil`: the least integer not below its argument. |
| Baseline.SumItems | zyte_spidermon/monitors/jobs_comparison.py:173 | `sum(job.get("items", 0) for job in jobs)`, where a job without `items` counts as 0. `SumItemsAppend` and `SumItemsPermutation` state its properties. |
| Baseline.Mean | zyte_spidermon/monitors/jobs_comparison.py:173 | The item sum divided by the number of jobs, for a non-empty list of jobs. |
| Baseline.ExpectedMinimum | zyte_spidermon/monitors/jobs_comparison.py:173-175 | Raises ZeroDivision exactly when there are no jobs. Otherwise it returns the least integer not below mean × threshold. |
| Baseline.SumItemsAppend | zyte_spidermon/monitors/jobs_comparison.py:173 | The item sum of two runs of jobs is the sum of their sums. |
| Baseline.SumItemsPermutation | zyte_spidermon/monitors/jobs_comparison.py:173 | Two lists holding the same jobs, each the same number of times, have the same item sum, in whatever order they hold them. |
| Baseline.ExpectedMinimumOrderFree | zyte_spidermon/monitors/jobs_comparison.py:173-175 | Any reordering of the collected jobs, with the same multiset of jobs, gives the same baseline or the same exception. |
| Baseline.SumItemsUniform | zyte_spidermon/monitors/jobs_comparison.py:173 | Jobs that each scraped `k` items sum to `k` per job. A missing `items` counts as 0. |
| Baseline.UniformItems | zyte_spidermon/monitors/jobs_comparison.py:173-175 | Jobs that each scraped `k` items, with threshold 1, expect exactly `k`. |
| Baseline.ExpectedMinimumMonotone | zyte_spidermon/monitors/jobs_comparison.py:175 | A higher threshold never lowers the expected minimum. |
| Baseline.ExpectedMinimumExample | zyte_spidermon/monitors/jobs_comparison.py:173-175 | Items 100, 200 and 300 with threshold 0.9 expect 180. |
| JobsComparison.Run | zyte_spidermon/jobs_comparison.py:55-74 | The same two checks and outcome as `MonitorsJobsComparison.Run`, for the variant without the argument filter. |
| JobsComparison.GetThreshold | zyte_spidermon/jobs_comparison.py:127-141 | Returns this variant's `Threshold`: the shared loop with the close-reason filter only, then `ExpectedMinimum`. |
| JobsComparison.CriteriaOf | zyte_spidermon/jobs_comparison.py:78-80 | This variant's filters: the close-reason list only, with the argument filter off. |
| JobsComparison.Listing | zyte_spidermon/jobs_comparison.py:90-95 | What the job API lists for the configured states and the resolved tag filter. |
| JobsComparison.Threshold | zyte_spidermon/jobs_comparison.py:127-141 | This variant's `get_threshold` by definition: the shared loop with the close-reason filter only, then `ExpectedMinimum` at the configured threshold. `ThresholdErrors` states its properties. |
| JobsComparison.GetJobs | zyte_spidermon/jobs_comparison.py:76-109 | This variant's `_get_jobs` never raises, and returns the shared loop's result with the argument filter off. |
| JobsComparison.ThresholdErrors | zyte_spidermon/jobs_comparison.py:136-140 | Collection always succeeds. The only exception is ZeroDivision, raised exactly when no job qualified. |
| JobsComparison.CloseReasonsRespected | zyte_spidermon/jobs_comparison.py:97-100 | With a close-reason list, every collected job's close reason is in it. |
| JobsComparison.NoCloseReasonsKeepsAll | zyte_spidermon/jobs_comparison.py:87-107 | Without a close-reason list, every fetched job is kept: the result is the listing up to the end of the last page. |

## Left out

- The Scrapy Cloud client (`Client`, `client.spider.jobs.list`) and the network: replaced by
  the `history` sequence and the `JobApi` function. The model does not capture server-side
  filtering by state and tag, or the API changing between calls.
- Reading and converting settings (`getint`, `getfloat`, `getlist`, `getdict`, `getbool`, and
  the `.attributes` membership test): replaced by the already-typed `Config` record.
  Conversion errors are not modelled.
- The `SHUB_JOB_DATA` environment variable and `json.loads`: the running job's tags are an
  input. A malformed JSON blob, which raises in the code, is not modelled.
- The spidermon framework: `BaseStatMonitor.run`, the assertion message, and how a raised
  `NotConfigured` is reported. `run` is modelled as its checks followed by the comparison
  `item_scraped_count >= get_threshold()`.
- IEEE-754 floats: the threshold and the mean are exact reals, so rounding differences in
  `previous_count * threshold` before `math.ceil` are not modelled.
- Python's cross-type equality of argument values (`True == 1`, `1 == 1.0`): values are
  compared structurally. A `spider_args` key present with value `None` is not distinguished
  from an absent key.
- Pagination.GetJobs: when the loop raises, the model's result does not say which calls had
  already been made, because the exception discards them in the code as well.
- `get_threshold` called outside `run`: the model's `GetThreshold` requires that `run`'s checks
  passed, which is the only way the framework calls it.
- Idempotence of the computation follows from every member being a function of its inputs, so
  it has no lemma of its own.
- Tests, packaging (`setup.py`) and the `utils` module are not part of this model.
