/** Historical job records as the job API lists them, and the client-side filters the monitor
    applies to them: close reason and, when enabled, spider arguments. */
module Jobs {
  import opened Results

  /** A spider-argument or setting value. */
  datatype Value = Str(s: string) | Int(i: int) | Bool(b: bool)

  /** One historical job: its `items` count, `close_reason` and `spider_args`, each of which
      the record may lack. */
  datatype Job = Job(items: Option<nat>, closeReason: Option<string>, spiderArgs: Option<map<string, Value>>)

  /** The exceptions that escape from the baseline computation. */
  datatype Error =
    | MissingSpiderArgs   // `job["spider_args"]` on a record without that key (KeyError)
    | ZeroDivision        // the mean over zero qualifying jobs

  /** The client-side filter settings, resolved once per run. */
  datatype Criteria = Criteria(closeReasons: seq<string>, argsEnabled: bool, args: map<string, Value>)

  /** The job's arguments, an absent `spider_args` read as the empty mapping. */
  function EffectiveArgs(job: Job): map<string, Value> {
    job.spiderArgs.GetOr(map[])
  }

  /** Python's `v in l` for a value that may be `None`: `None` is in no list of strings. */
  predicate InList(v: Option<string>, l: seq<string>) {
    v.Some? && v.value in l
  }

  /** `_get_args_to_filter`: the desired-arguments mapping, empty when the setting is unset. */
  function ArgsToFilter(setting: Option<map<string, Value>>): (r: map<string, Value>)
    ensures r == map[] <==> setting.None? || setting.value == map[]
    ensures setting.Some? ==> r == setting.value
  {
    match setting
    case None => map[]
    case Some(m) => if m == map[] then map[] else m
  }

  /** `_has_desired_args`: the empty-case rule, then the key-presence check, then equality. */
  function HasDesiredArgs(job: Job, args: map<string, Value>): (r: Result<bool, Error>)
    ensures r.Failure? <==> args != map[] && job.spiderArgs.None?
    ensures r.Failure? ==> r.error == MissingSpiderArgs
    ensures r.Success? ==> (r.value <==> EffectiveArgs(job) == args)
  {
    if args == map[] && (job.spiderArgs.None? || job.spiderArgs.value == map[]) then Success(true)
    else if args == map[] then Success(false)
    else if job.spiderArgs.None? then Failure(MissingSpiderArgs)
    else if !(forall a :: a in args ==> a in job.spiderArgs.value) then Success(false)
    else Success(args == job.spiderArgs.value)
  }

  /** Whether the pagination loop keeps `job`: the close-reason test, then the argument test. */
  function Qualifies(job: Job, c: Criteria): Result<bool, Error>
  {
    if c.closeReasons != [] && !InList(job.closeReason, c.closeReasons) then Success(false)
    else if c.argsEnabled then HasDesiredArgs(job, c.args)
    else Success(true)
  }

  /** The test raises exactly when the job is still in the running on its close reason, the
      argument test is on with a non-empty mapping and the job has no arguments; it keeps the
      job exactly when the close reason is accepted and, if the argument test is on, the job's
      arguments are the desired ones. */
  lemma QualifiesMeaning(job: Job, c: Criteria)
    ensures Qualifies(job, c).Failure? <==>
      (c.closeReasons == [] || InList(job.closeReason, c.closeReasons)) &&
      c.argsEnabled && c.args != map[] && job.spiderArgs.None?
    ensures Qualifies(job, c).Failure? ==> Qualifies(job, c).error == MissingSpiderArgs
    ensures Qualifies(job, c) == Success(true) <==>
      (c.closeReasons == [] || InList(job.closeReason, c.closeReasons)) &&
      (c.argsEnabled ==> EffectiveArgs(job) == c.args)
  {
  }

  /** `a` is `b` with some elements deleted, the rest in their order. */
  ghost predicate SubsequenceOf(a: seq<Job>, b: seq<Job>)
    decreases |b|
  {
    if a == [] then true
    else if b == [] then false
    else (a[0] == b[0] && SubsequenceOf(a[1..], b[1..])) || SubsequenceOf(a, b[1..])
  }

  /** Whether the test of some job of `jobs` raises, which aborts the loop over them. */
  predicate Raises(jobs: seq<Job>, c: Criteria)
  {
    jobs != [] && (Qualifies(jobs[0], c).Failure? || Raises(jobs[1..], c))
  }

  /** The jobs of `jobs` whose test passes, in their order. */
  function Kept(jobs: seq<Job>, c: Criteria): (r: seq<Job>)
    ensures |r| <= |jobs|
  {
    if jobs == [] then []
    else (if Qualifies(jobs[0], c) == Success(true) then [jobs[0]] else []) + Kept(jobs[1..], c)
  }

  /** The jobs of a page that the pagination loop appends, or the exception of the first job
      whose test raises. */
  function FilterJobs(jobs: seq<Job>, c: Criteria): Result<seq<Job>, Error>
  {
    if Raises(jobs, c) then Failure(MissingSpiderArgs) else Success(Kept(jobs, c))
  }

  /** Filtering raises exactly when the test of some job raises. */
  lemma {:induction false} RaisesMeaning(jobs: seq<Job>, c: Criteria)
    ensures Raises(jobs, c) <==> exists i :: 0 <= i < |jobs| && Qualifies(jobs[i], c).Failure?
  {
    if jobs != [] {
      RaisesMeaning(jobs[1..], c);
      if Raises(jobs[1..], c) {
        var i :| 0 <= i < |jobs[1..]| && Qualifies(jobs[1..][i], c).Failure?;
        assert jobs[i + 1] == jobs[1..][i];
      }
      if exists i :: 0 <= i < |jobs| && Qualifies(jobs[i], c).Failure? {
        var i :| 0 <= i < |jobs| && Qualifies(jobs[i], c).Failure?;
        if i > 0 {
          assert jobs[1..][i - 1] == jobs[i];
        }
      }
    }
  }

  /** The kept jobs are an in-order subsequence holding exactly the jobs whose test passes,
      each as many times as the page holds it: identical records are distinct jobs. */
  lemma {:induction false} KeptMeaning(jobs: seq<Job>, c: Criteria)
    ensures SubsequenceOf(Kept(jobs, c), jobs)
    ensures forall j :: j in Kept(jobs, c) <==> j in jobs && Qualifies(j, c) == Success(true)
    ensures forall j ::
              multiset(Kept(jobs, c))[j] == if Qualifies(j, c) == Success(true) then multiset(jobs)[j] else 0
  {
    if jobs != [] {
      var rest := Kept(jobs[1..], c);
      KeptMeaning(jobs[1..], c);
      assert jobs == [jobs[0]] + jobs[1..];
      assert multiset(jobs) == multiset{jobs[0]} + multiset(jobs[1..]);
      if Qualifies(jobs[0], c) == Success(true) {
        assert Kept(jobs, c) == [jobs[0]] + rest;
        assert ([jobs[0]] + rest)[1..] == rest;
        assert multiset(Kept(jobs, c)) == multiset{jobs[0]} + multiset(rest);
      } else {
        assert Kept(jobs, c) == rest;
      }
    }
  }

  /** What filtering does: it raises exactly when some job's test raises, and otherwise keeps
      an in-order subsequence of the jobs holding exactly those that pass the tests, each as
      many times as it occurs. */
  lemma FilterJobsCorrect(jobs: seq<Job>, c: Criteria)
    ensures FilterJobs(jobs, c).Failure? <==> exists i :: 0 <= i < |jobs| && Qualifies(jobs[i], c).Failure?
    ensures FilterJobs(jobs, c).Failure? ==> FilterJobs(jobs, c).error == MissingSpiderArgs
    ensures FilterJobs(jobs, c).Success? ==> SubsequenceOf(FilterJobs(jobs, c).value, jobs)
    ensures FilterJobs(jobs, c).Success? ==>
      forall j :: j in FilterJobs(jobs, c).value <==> j in jobs && Qualifies(j, c) == Success(true)
    ensures FilterJobs(jobs, c).Success? ==>
      forall j ::
        multiset(FilterJobs(jobs, c).value)[j] == if Qualifies(j, c) == Success(true) then multiset(jobs)[j] else 0
  {
    RaisesMeaning(jobs, c);
    KeptMeaning(jobs, c);
  }

  lemma {:induction false} RaisesAppend(a: seq<Job>, b: seq<Job>, c: Criteria)
    ensures Raises(a + b, c) <==> Raises(a, c) || Raises(b, c)
  {
    if a == [] {
      assert a + b == b;
    } else {
      assert (a + b)[0] == a[0] && (a + b)[1..] == a[1..] + b;
      RaisesAppend(a[1..], b, c);
    }
  }

  lemma {:induction false} KeptAppend(a: seq<Job>, b: seq<Job>, c: Criteria)
    ensures Kept(a + b, c) == Kept(a, c) + Kept(b, c)
  {
    if a == [] {
      assert a + b == b;
    } else {
      assert (a + b)[0] == a[0] && (a + b)[1..] == a[1..] + b;
      KeptAppend(a[1..], b, c);
      var head := if Qualifies(a[0], c) == Success(true) then [a[0]] else [];
      assert head + (Kept(a[1..], c) + Kept(b, c)) == (head + Kept(a[1..], c)) + Kept(b, c);
    }
  }

  /** Filtering two consecutive runs of jobs is filtering each and concatenating; an error in
      either run makes the whole raise. */
  lemma FilterJobsAppend(a: seq<Job>, b: seq<Job>, c: Criteria)
    ensures FilterJobs(a + b, c) ==
      match FilterJobs(a, c)
      case Failure(e) => Failure(e)
      case Success(ka) =>
        match FilterJobs(b, c)
        case Failure(e) => Failure(e)
        case Success(kb) => Success(ka + kb)
  {
    RaisesAppend(a, b, c);
    KeptAppend(a, b, c);
  }

  /** When every job qualifies, filtering keeps all of them, in order. */
  lemma {:induction false} FilterJobsKeepsAll(jobs: seq<Job>, c: Criteria)
    requires forall i :: 0 <= i < |jobs| ==> Qualifies(jobs[i], c) == Success(true)
    ensures FilterJobs(jobs, c) == Success(jobs)
  {
    if jobs != [] {
      var rest := jobs[1..];
      assert forall i :: 0 <= i < |rest| ==> rest[i] == jobs[i + 1];
      FilterJobsKeepsAll(rest, c);
      assert Qualifies(jobs[0], c) == Success(true);
      assert [jobs[0]] + rest == jobs;
    }
  }

  /** Close reasons `finished, cancelled, finished` filtered on `finished` keep the first
      and the third job, in order. */
  lemma CloseReasonExample(a: Job, b: Job, d: Job)
    requires a.closeReason == Some("finished") && b.closeReason == Some("cancelled")
    requires d.closeReason == Some("finished")
    ensures var r := FilterJobs([a, b, d], Criteria(["finished"], false, map[]));
      r == Success([a, d])
  {
    var c := Criteria(["finished"], false, map[]);
    assert [a, b, d][1..] == [b, d] && [b, d][1..] == [d] && [d][1..] == [];
    assert Qualifies(a, c) == Success(true) && Qualifies(d, c) == Success(true);
    assert Qualifies(b, c) == Success(false);
    assert Kept([d], c) == [d];
    assert Kept([b, d], c) == [d];
    assert Kept([a, b, d], c) == [a, d];
    assert !Raises([d], c) && !Raises([b, d], c) && !Raises([a, b, d], c);
  }

  /** Desired `is_full_crawl: True`: a job with exactly that argument qualifies, one with no
      arguments and one with an extra argument do not. */
  lemma ArgumentsExample()
    ensures var args := map["is_full_crawl" := Bool(true)];
      && HasDesiredArgs(Job(None, None, Some(map["is_full_crawl" := Bool(true)])), args) == Success(true)
      && HasDesiredArgs(Job(None, None, Some(map[])), args) == Success(false)
      && HasDesiredArgs(Job(None, None, Some(map["is_full_crawl" := Bool(true), "extra" := Int(1)])), args) == Success(false)
  {
    var args := map["is_full_crawl" := Bool(true)];
    var none: map<string, Value> := map[];
    assert "is_full_crawl" in args && "is_full_crawl" !in none;
    var m := map["is_full_crawl" := Bool(true), "extra" := Int(1)];
    assert "extra" in m;
    assert "extra" !in map["is_full_crawl" := Bool(true)];
  }
}
