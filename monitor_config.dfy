/** The monitor's settings as an immutable record, the "not configured" guard of `run`, and
    the outcome of a run. */
module MonitorConfig {
  import opened Results
  import opened Jobs

  /** The settings the monitor reads; `None` is a setting absent from the project settings. */
  datatype Config = Config(
    jobsComparison: Option<int>,               // SPIDERMON_JOBS_COMPARISON
    threshold: Option<real>,                   // SPIDERMON_JOBS_COMPARISON_THRESHOLD
    states: Option<seq<string>>,               // SPIDERMON_JOBS_COMPARISON_STATES
    tags: seq<string>,                         // SPIDERMON_JOBS_COMPARISON_TAGS, empty when unset
    closeReasons: seq<string>,                 // SPIDERMON_JOBS_COMPARISON_CLOSE_REASONS, empty when unset
    arguments: Option<map<string, Value>>,     // SPIDERMON_JOBS_COMPARISON_ARGUMENTS
    argumentsEnabled: bool)                    // SPIDERMON_JOBS_COMPARISON_ARGUMENTS_ENABLED, false when unset

  /** The two settings without which the monitor does not run. */
  datatype Setting = JobsComparison | JobsComparisonThreshold

  /** The result of `run`'s two checks. */
  datatype Guard = Disabled(setting: Setting) | Enabled(target: nat, threshold: real)

  /** `run`'s checks: first the number of jobs, then the threshold; each must be present and
      positive. */
  function CheckConfig(cfg: Config): (g: Guard)
    ensures g == Disabled(JobsComparison) <==>
      cfg.jobsComparison.None? || cfg.jobsComparison.value <= 0
    ensures g == Disabled(JobsComparisonThreshold) <==>
      && cfg.jobsComparison.Some? && cfg.jobsComparison.value > 0
      && (cfg.threshold.None? || cfg.threshold.value <= 0.0)
    ensures g.Enabled? ==>
      && cfg.jobsComparison == Some(g.target as int) && g.target >= 1
      && cfg.threshold == Some(g.threshold) && g.threshold > 0.0
  {
    if cfg.jobsComparison.None? || cfg.jobsComparison.value <= 0 then Disabled(JobsComparison)
    else if cfg.threshold.None? || cfg.threshold.value <= 0.0 then Disabled(JobsComparisonThreshold)
    else Enabled(cfg.jobsComparison.value, cfg.threshold.value)
  }

  /** The state filter, `("finished",)` when unset. */
  function States(cfg: Config): seq<string> {
    cfg.states.GetOr(["finished"])
  }

  /** `has_tag=tags or None`: no tag filter is sent for an empty tag list. */
  function HasTag(tags: seq<string>): Option<seq<string>> {
    if tags == [] then None else Some(tags)
  }

  /** The job API's listing of the spider's jobs for a state filter and an optional tag
      filter, in the order the API returns them. */
  type JobApi = (seq<string>, Option<seq<string>>) -> seq<Job>

  /** What a run of the monitor comes to: skipped as not configured, an exception from the
      baseline computation, or the `item_scraped_count >= expected` check made. */
  datatype Outcome = NotConfigured(setting: Setting) | Raised(error: Error) | Checked(expected: int, passed: bool)
}
