/** The monitor of `zyte_spidermon/jobs_comparison.py`: the same design with the close-reason
    filter only, the `argsEnabled = false` instance of the shared pagination. */
module JobsComparison {
  import opened Results
  import opened Jobs
  import opened Tags
  import Pagination
  import opened Baseline
  import opened MonitorConfig

  /** Only the close-reason filter; the argument settings are not read. */
  function CriteriaOf(cfg: Config): Criteria {
    Criteria(cfg.closeReasons, false, map[])
  }

  function Listing(cfg: Config, api: JobApi, currentTags: Option<seq<string>>): seq<Job> {
    api(States(cfg), HasTag(TagsToFilter(cfg.tags, currentTags)))
  }

  /** The value `get_threshold` returns or the exception it raises. */
  function Threshold(cfg: Config, api: JobApi, currentTags: Option<seq<string>>): Result<int, Error>
    requires CheckConfig(cfg).Enabled?
  {
    var g := CheckConfig(cfg);
    match Pagination.Fetch(Listing(cfg, api, currentTags), g.target, CriteriaOf(cfg))
    case Failure(e) => Failure(e)
    case Success(f) => ExpectedMinimum(f.jobs, g.threshold)
  }

  /** `_get_jobs` of this file: the shared loop with the argument filter off, which cannot
      raise. */
  method GetJobs(history: seq<Job>, numberOfJobs: nat, closeReasons: seq<string>) returns (f: Pagination.Fetched)
    requires numberOfJobs >= 1
    ensures Pagination.Fetch(history, numberOfJobs, Criteria(closeReasons, false, map[])) == Success(f)
  {
    var c := Criteria(closeReasons, false, map[]);
    Pagination.FetchFailure(history, numberOfJobs, c);
    var r := Pagination.GetJobs(history, numberOfJobs, c);
    f := r.value;
  }

  /** `get_threshold`, called once `run`'s checks have passed. */
  method GetThreshold(cfg: Config, api: JobApi, currentTags: Option<seq<string>>) returns (r: Result<int, Error>)
    requires CheckConfig(cfg).Enabled?
    ensures r == Threshold(cfg, api, currentTags)
  {
    var numberOfJobs := cfg.jobsComparison.value;
    var threshold := cfg.threshold.value;
    var states := States(cfg);
    var tags := TagsToFilter(cfg.tags, currentTags);
    var history := api(states, HasTag(tags));
    var jobs := GetJobs(history, numberOfJobs, cfg.closeReasons);
    r := ExpectedMinimum(jobs.jobs, threshold);
  }

  /** `run`: the two checks, before any call to the job API, then the stat check. */
  method Run(cfg: Config, api: JobApi, currentTags: Option<seq<string>>, itemScrapedCount: nat) returns (o: Outcome)
    ensures CheckConfig(cfg).Disabled? ==> o == NotConfigured(CheckConfig(cfg).setting)
    ensures CheckConfig(cfg).Enabled? ==>
      o == match Threshold(cfg, api, currentTags)
           case Failure(e) => Raised(e)
           case Success(x) => Checked(x, itemScrapedCount >= x)
  {
    var g := CheckConfig(cfg);
    if g.Disabled? {
      return NotConfigured(g.setting);
    }
    var threshold := GetThreshold(cfg, api, currentTags);
    match threshold
    case Failure(e) => o := Raised(e);
    case Success(x) => o := Checked(x, itemScrapedCount >= x);
  }

  /** The only exception `get_threshold` raises here is the division by zero, exactly when
      no listed job qualified. */
  lemma ThresholdErrors(cfg: Config, api: JobApi, currentTags: Option<seq<string>>)
    requires CheckConfig(cfg).Enabled?
    ensures var f := Pagination.Fetch(Listing(cfg, api, currentTags), CheckConfig(cfg).target, CriteriaOf(cfg));
      && f.Success?
      && (Threshold(cfg, api, currentTags).Failure? <==> f.value.jobs == [])
      && (Threshold(cfg, api, currentTags).Failure? ==> Threshold(cfg, api, currentTags).error == ZeroDivision)
  {
    Pagination.FetchFailure(Listing(cfg, api, currentTags), CheckConfig(cfg).target, CriteriaOf(cfg));
  }

  /** With a close-reason list, every collected job's close reason is in it. */
  lemma CloseReasonsRespected(history: seq<Job>, numberOfJobs: nat, closeReasons: seq<string>)
    requires numberOfJobs >= 1 && closeReasons != []
    ensures var f := Pagination.Fetch(history, numberOfJobs, Criteria(closeReasons, false, map[]));
      f.Success? ==> forall j :: j in f.value.jobs ==> j.closeReason.Some? && j.closeReason.value in closeReasons
  {
    Pagination.FetchedJobsQualify(history, numberOfJobs, Criteria(closeReasons, false, map[]));
  }

  /** Without a close-reason list every fetched job is kept, in API order: the result is the
      listing up to the end of the last page. */
  lemma NoCloseReasonsKeepsAll(history: seq<Job>, numberOfJobs: nat)
    requires numberOfJobs >= 1
    ensures var f := Pagination.Fetch(history, numberOfJobs, Criteria([], false, map[]));
      && f.Success?
      && |f.value.requests| >= 1
      && f.value.jobs == history[..Pagination.PageEnd(history, f.value.requests[|f.value.requests| - 1])]
  {
    var c := Criteria([], false, map[]);
    Pagination.FetchFailure(history, numberOfJobs, c);
    Pagination.FetchIsTrace(history, numberOfJobs, c);
    var f := Pagination.Fetch(history, numberOfJobs, c).value;
    var prefix := history[..Pagination.PageEnd(history, f.requests[|f.requests| - 1])];
    FilterJobsKeepsAll(prefix, c);
  }
}
