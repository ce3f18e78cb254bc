/** The monitor of `zyte_spidermon/monitors/jobs_comparison.py`: close-reason filter and, when
    enabled, the spider-argument filter. */
module MonitorsJobsComparison {
  import opened Results
  import opened Jobs
  import opened Tags
  import opened Pagination
  import opened Baseline
  import opened MonitorConfig

  /** The client-side filters: close reasons, and the argument filter from its two settings. */
  function CriteriaOf(cfg: Config): Criteria {
    Criteria(cfg.closeReasons, cfg.argumentsEnabled, ArgsToFilter(cfg.arguments))
  }

  /** What the API lists for the configured states and the tags shared with the running job. */
  function Listing(cfg: Config, api: JobApi, currentTags: Option<seq<string>>): seq<Job> {
    api(States(cfg), HasTag(TagsToFilter(cfg.tags, currentTags)))
  }

  /** The value `get_threshold` returns or the exception it raises. */
  function Threshold(cfg: Config, api: JobApi, currentTags: Option<seq<string>>): Result<int, Error>
    requires CheckConfig(cfg).Enabled?
  {
    var g := CheckConfig(cfg);
    match Fetch(Listing(cfg, api, currentTags), g.target, CriteriaOf(cfg))
    case Failure(e) => Failure(e)
    case Success(f) => ExpectedMinimum(f.jobs, g.threshold)
  }

  /** `get_threshold`, called once `run`'s checks have passed. */
  method GetThreshold(cfg: Config, api: JobApi, currentTags: Option<seq<string>>) returns (r: Result<int, Error>)
    requires CheckConfig(cfg).Enabled?
    ensures r == Threshold(cfg, api, currentTags)
  {
    var numberOfJobs := cfg.jobsComparison.value;
    var threshold := cfg.threshold.value;
    var states := States(cfg);
    var tags := TagsToFilter(cfg.tags, currentTags);
    var history := api(states, HasTag(tags));
    var jobs := GetJobs(history, numberOfJobs, CriteriaOf(cfg));
    match jobs
    case Failure(e) => r := Failure(e);
    case Success(f) => r := ExpectedMinimum(f.jobs, threshold);
  }

  /** `run`: the two checks, before any call to the job API, then the stat check against the
      computed threshold. */
  method Run(cfg: Config, api: JobApi, currentTags: Option<seq<string>>, itemScrapedCount: nat) returns (o: Outcome)
    ensures CheckConfig(cfg).Disabled? ==> o == NotConfigured(CheckConfig(cfg).setting)
    ensures CheckConfig(cfg).Enabled? ==>
      o == match Threshold(cfg, api, currentTags)
           case Failure(e) => Raised(e)
           case Success(x) => Checked(x, itemScrapedCount >= x)
  {
    var g := CheckConfig(cfg);
    if g.Disabled? {
      return NotConfigured(g.setting);
    }
    var threshold := GetThreshold(cfg, api, currentTags);
    match threshold
    case Failure(e) => o := Raised(e);
    case Success(x) => o := Checked(x, itemScrapedCount >= x);
  }

  /** `get_threshold` raises a division by zero exactly when no listed job qualified, and the
      missing-arguments error only with the argument filter on and a non-empty desired mapping. */
  lemma ThresholdErrors(cfg: Config, api: JobApi, currentTags: Option<seq<string>>)
    requires CheckConfig(cfg).Enabled?
    ensures var g := CheckConfig(cfg);
      var f := Fetch(Listing(cfg, api, currentTags), g.target, CriteriaOf(cfg));
      && (Threshold(cfg, api, currentTags) == Failure(ZeroDivision) <==> f.Success? && f.value.jobs == [])
      && (Threshold(cfg, api, currentTags) == Failure(MissingSpiderArgs) ==>
            cfg.argumentsEnabled && ArgsToFilter(cfg.arguments) != map[])
  {
    var g := CheckConfig(cfg);
    FetchFailure(Listing(cfg, api, currentTags), g.target, CriteriaOf(cfg));
  }

  /** With the argument filter on, every job the baseline is computed from has exactly the
      desired spider arguments (absent arguments read as none). */
  lemma BaselineJobsHaveDesiredArgs(cfg: Config, api: JobApi, currentTags: Option<seq<string>>)
    requires CheckConfig(cfg).Enabled? && cfg.argumentsEnabled
    ensures var f := Fetch(Listing(cfg, api, currentTags), CheckConfig(cfg).target, CriteriaOf(cfg));
      f.Success? ==> forall j :: j in f.value.jobs ==> EffectiveArgs(j) == ArgsToFilter(cfg.arguments)
  {
    FetchedJobsQualify(Listing(cfg, api, currentTags), CheckConfig(cfg).target, CriteriaOf(cfg));
  }
}
