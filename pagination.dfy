/** `_get_jobs`: the paginated collection of qualifying historical jobs.

    The job API is modelled by `history`, the jobs it lists for the configured states and tags,
    in the order it returns them; a request for `count` jobs from offset `start` returns
    `history[start .. min(start + count, |history|)]`, nothing from beyond the end. */
module Pagination {
  import opened Results
  import opened Jobs

  /** The job API returns at most this many jobs per call. */
  const MaxApiCount: nat := 1000

  /** One call of the job-list API: an offset and a requested count. */
  datatype Request = Request(start: nat, count: nat)

  /** The outcome of a collection: the qualifying jobs and the calls made, in order. */
  datatype Fetched = Fetched(jobs: seq<Job>, requests: seq<Request>)

  function Min(a: int, b: int): int {
    if a <= b then a else b
  }

  /** Where the page answering `req` ends in `history`. */
  function PageEnd(history: seq<Job>, req: Request): nat {
    Min(req.start + req.count, |history|)
  }

  /** The page the API returns for `req`. */
  function Page(history: seq<Job>, req: Request): (p: seq<Job>)
    ensures |p| <= req.count
    ensures req.start <= |history| ==> p == history[req.start .. PageEnd(history, req)]
    ensures req.start >= |history| ==> p == []
  {
    if req.start >= |history| then [] else history[req.start .. PageEnd(history, req)]
  }

  /** Puts the earlier requests in front of a collection's outcome. */
  function After(requests: seq<Request>, r: Result<Fetched, Error>): Result<Fetched, Error> {
    match r
    case Failure(e) => Failure(e)
    case Success(f) => Success(Fetched(f.jobs, requests + f.requests))
  }

  /** The loop from one iteration on: `start` jobs fetched so far, `acc` kept so far. */
  function Collect(history: seq<Job>, target: nat, c: Criteria, start: nat, acc: seq<Job>): Result<Fetched, Error>
    requires |acc| < target
    decreases |history| - start, 1
  {
    Iterate(history, target, c, start, acc)
  }

  /** One iteration: ask for the number of jobs still missing, capped at `MaxApiCount`, filter
      the page, and stop on a short page or once the target is reached, else go on from the
      offset advanced by the page's length. */
  function Iterate(history: seq<Job>, target: nat, c: Criteria, start: nat, acc: seq<Job>): Result<Fetched, Error>
    requires |acc| < target
    decreases |history| - start, 0
  {
    var req := Request(start, Min(target - |acc|, MaxApiCount));
    var page := Page(history, req);
    match FilterJobs(page, c)
    case Failure(e) => Failure(e)
    case Success(kept) =>
      if |page| < MaxApiCount || |acc + kept| >= target then Success(Fetched(acc + kept, [req]))
      else After([req], Collect(history, target, c, start + |page|, acc + kept))
  }

  /** The whole collection for a target of `target` qualifying jobs. */
  function Fetch(history: seq<Job>, target: nat, c: Criteria): Result<Fetched, Error>
    requires target >= 1
  {
    Collect(history, target, c, 0, [])
  }

  lemma AfterAfter(r1: seq<Request>, r2: seq<Request>, r: Result<Fetched, Error>)
    ensures After(r1, After(r2, r)) == After(r1 + r2, r)
  {
    if r.Success? {
      assert r1 + (r2 + r.value.requests) == (r1 + r2) + r.value.requests;
    }
  }

  lemma AfterNothing(r: Result<Fetched, Error>)
    ensures After([], r) == r
  {
    if r.Success? {
      assert [] + r.value.requests == r.value.requests;
    }
  }

  /** The body of the `for job in current_jobs` loop: appends to `total` the jobs of `page`
      that pass the filters, in page order, or stops at the first job whose test raises. */
  method AppendQualifying(total: seq<Job>, page: seq<Job>, c: Criteria) returns (result: Result<seq<Job>, Error>)
    ensures result.Failure? <==> Raises(page, c)
    ensures result.Failure? ==> result.error == MissingSpiderArgs
    ensures result.Success? ==> result.value == total + Kept(page, c)
  {
    var extended := total;
    ghost var kept: seq<Job> := [];
    var i := 0;
    assert page[i..] == page;
    while i < |page|
      invariant 0 <= i <= |page|
      invariant extended == total + kept
      invariant Raises(page, c) == Raises(page[i..], c)
      invariant Kept(page, c) == kept + Kept(page[i..], c)
    {
      var job := page[i];
      assert page[i..][0] == job && page[i..][1..] == page[i + 1..];
      if c.closeReasons == [] || InList(job.closeReason, c.closeReasons) {
        var keep := true;
        if c.argsEnabled {
          var has := HasDesiredArgs(job, c.args);
          if has.Failure? {
            return Failure(has.error);
          }
          keep := has.value;
        }
        if keep {
          assert kept + ([job] + Kept(page[i + 1..], c)) == (kept + [job]) + Kept(page[i + 1..], c);
          extended := extended + [job];
          kept := kept + [job];
        } else {
          assert [] + Kept(page[i + 1..], c) == Kept(page[i + 1..], c);
        }
      } else {
        assert [] + Kept(page[i + 1..], c) == Kept(page[i + 1..], c);
      }
      i := i + 1;
    }
    assert kept + [] == kept;
    return Success(extended);
  }

  /** One iteration of the loop whose filtering raises. */
  lemma CollectRaises(history: seq<Job>, target: nat, c: Criteria, start: nat, acc: seq<Job>,
                      req: Request, page: seq<Job>, e: Error)
    requires |acc| < target
    requires req == Request(start, Min(target - |acc|, MaxApiCount)) && page == Page(history, req)
    requires FilterJobs(page, c) == Failure(e)
    ensures Collect(history, target, c, start, acc) == Failure(e)
  {
    assert Collect(history, target, c, start, acc) == Iterate(history, target, c, start, acc);
  }

  /** One iteration of the loop after which it stops. */
  lemma CollectStops(history: seq<Job>, target: nat, c: Criteria, start: nat, acc: seq<Job>,
                     req: Request, page: seq<Job>, kept: seq<Job>, jobs: seq<Job>)
    requires |acc| < target
    requires req == Request(start, Min(target - |acc|, MaxApiCount)) && page == Page(history, req)
    requires FilterJobs(page, c) == Success(kept) && jobs == acc + kept
    requires |page| < MaxApiCount || |jobs| >= target
    ensures Collect(history, target, c, start, acc) == Success(Fetched(jobs, [req]))
  {
    assert Collect(history, target, c, start, acc) == Iterate(history, target, c, start, acc);
  }

  /** One iteration of the loop after which it goes on from offset `next` with `jobs` kept. */
  lemma CollectContinues(history: seq<Job>, target: nat, c: Criteria, start: nat, acc: seq<Job>,
                         req: Request, page: seq<Job>, kept: seq<Job>, jobs: seq<Job>, next: nat)
    requires |acc| < target
    requires req == Request(start, Min(target - |acc|, MaxApiCount)) && page == Page(history, req)
    requires FilterJobs(page, c) == Success(kept) && jobs == acc + kept
    requires |page| >= MaxApiCount && |jobs| < target && next == start + |page|
    ensures Collect(history, target, c, start, acc) == After([req], Collect(history, target, c, next, jobs))
  {
    assert Collect(history, target, c, start, acc) == Iterate(history, target, c, start, acc);
  }

  /** The pagination loop of `_get_jobs`, on a history the API serves page by page. */
  method GetJobs(history: seq<Job>, target: nat, c: Criteria) returns (result: Result<Fetched, Error>)
    requires target >= 1
    ensures result == Fetch(history, target, c)
  {
    var total: seq<Job> := [];
    var start: nat := 0;
    var requests: seq<Request> := [];
    AfterNothing(Fetch(history, target, c));
    while true
      invariant start <= |history| && |total| < target
      invariant Fetch(history, target, c) == After(requests, Collect(history, target, c, start, total))
      decreases |history| - start
    {
      var req := Request(start, Min(target - |total|, MaxApiCount));
      var page := Page(history, req);
      var appended := AppendQualifying(total, page, c);
      if appended.Failure? {
        CollectRaises(history, target, c, start, total, req, page, appended.error);
        return Failure(appended.error);
      }
      ghost var kept := FilterJobs(page, c).value;
      var jobs := appended.value;
      if |page| < MaxApiCount || |jobs| >= target {
        CollectStops(history, target, c, start, total, req, page, kept, jobs);
        AfterAfter(requests, [req], Success(Fetched(jobs, [])));
        return Success(Fetched(jobs, requests + [req]));
      }
      var next: nat := start + |page|;
      CollectContinues(history, target, c, start, total, req, page, kept, jobs, next);
      AfterAfter(requests, [req], Collect(history, target, c, next, jobs));
      total, requests, start := jobs, requests + [req], next;
    }
  }

  /** `req` is the request the loop issues once the first `req.start` jobs of the history have
      been fetched: fewer than `target` of those qualified, and it asks for the number still
      missing, capped at `MaxApiCount`. */
  ghost predicate RequestAt(history: seq<Job>, target: nat, c: Criteria, req: Request)
  {
    && req.start <= |history|
    && FilterJobs(history[..req.start], c).Success?
    && |FilterJobs(history[..req.start], c).value| < target
    && req.count == Min(target - |FilterJobs(history[..req.start], c).value|, MaxApiCount)
  }

  /** After `req` the loop went on to `next`: the page was full and the offset advanced by its
      length. */
  ghost predicate Continues(history: seq<Job>, req: Request, next: Request)
  {
    |Page(history, req)| == MaxApiCount && next.start == req.start + |Page(history, req)|
  }

  /** After `last` the loop stopped: the page was short or the target was reached. */
  ghost predicate Stops(history: seq<Job>, target: nat, last: Request, jobs: seq<Job>)
  {
    |Page(history, last)| < MaxApiCount || |jobs| >= target
  }

  /** A run of the loop that starts at offset `start`, as a sequence of calls with the jobs kept
      from everything they fetched. */
  ghost predicate TraceFrom(history: seq<Job>, target: nat, c: Criteria, start: nat, f: Fetched)
  {
    && |f.requests| >= 1
    && f.requests[0].start == start
    && (forall k :: 0 <= k < |f.requests| ==> RequestAt(history, target, c, f.requests[k]))
    && (forall k :: 0 <= k < |f.requests| - 1 ==> Continues(history, f.requests[k], f.requests[k + 1]))
    && Stops(history, target, f.requests[|f.requests| - 1], f.jobs)
    && FilterJobs(history[..PageEnd(history, f.requests[|f.requests| - 1])], c) == Success(f.jobs)
  }

  /** A call that went on to a run from the next offset, followed by that run, is a run. */
  lemma TraceCons(history: seq<Job>, target: nat, c: Criteria, req: Request, rest: Fetched)
    requires RequestAt(history, target, c, req)
    requires TraceFrom(history, target, c, req.start + MaxApiCount, rest)
    requires |Page(history, req)| == MaxApiCount
    ensures TraceFrom(history, target, c, req.start, Fetched(rest.jobs, [req] + rest.requests))
  {
    var f := Fetched(rest.jobs, [req] + rest.requests);
    assert forall k :: 1 <= k < |f.requests| ==> f.requests[k] == rest.requests[k - 1];
    assert Continues(history, req, rest.requests[0]);
  }

  lemma {:induction false} CollectIsTrace(history: seq<Job>, target: nat, c: Criteria, start: nat, acc: seq<Job>)
    requires start <= |history| && |acc| < target
    requires FilterJobs(history[..start], c) == Success(acc)
    ensures Collect(history, target, c, start, acc).Success? ==>
      && TraceFrom(history, target, c, start, Collect(history, target, c, start, acc).value)
      && |Collect(history, target, c, start, acc).value.jobs| <= target
    decreases |history| - start
  {
    var req := Request(start, Min(target - |acc|, MaxApiCount));
    var page := Page(history, req);
    var end := PageEnd(history, req);
    assert page == history[start..end] && |page| == end - start;
    assert history[..end] == history[..start] + page;
    FilterJobsAppend(history[..start], page, c);
    assert RequestAt(history, target, c, req);
    if FilterJobs(page, c).Success? {
      var kept := FilterJobs(page, c).value;
      var jobs := acc + kept;
      assert FilterJobs(history[..end], c) == Success(jobs);
      if |page| >= MaxApiCount && |jobs| < target {
        CollectContinues(history, target, c, start, acc, req, page, kept, jobs, end);
        CollectIsTrace(history, target, c, end, jobs);
        var rest := Collect(history, target, c, end, jobs);
        if rest.Success? {
          TraceCons(history, target, c, req, rest.value);
        }
      } else {
        CollectStops(history, target, c, start, acc, req, page, kept, jobs);
        assert Stops(history, target, req, jobs);
      }
    } else {
      CollectRaises(history, target, c, start, acc, req, page, FilterJobs(page, c).error);
    }
  }

  /** A successful collection is a run of the pagination loop: the first call is at offset 0,
      every call asks for the number of qualifying jobs still missing capped at 1000, the offset
      advances by exactly the length of each full page, the loop stops at the first short page
      or once the target is reached, and the result is exactly the qualifying jobs of the
      fetched prefix of the history, never more than the target. */
  lemma FetchIsTrace(history: seq<Job>, target: nat, c: Criteria)
    requires target >= 1
    ensures Fetch(history, target, c).Success? ==>
      && TraceFrom(history, target, c, 0, Fetch(history, target, c).value)
      && |Fetch(history, target, c).value.jobs| <= target
  {
    assert history[..0] == [];
    CollectIsTrace(history, target, c, 0, []);
  }

  /** Every call asks for between 1 and 1000 jobs. */
  lemma RequestCountsInRange(history: seq<Job>, target: nat, c: Criteria)
    requires target >= 1
    ensures Fetch(history, target, c).Success? ==>
      forall k :: 0 <= k < |Fetch(history, target, c).value.requests| ==>
        1 <= Fetch(history, target, c).value.requests[k].count <= MaxApiCount
  {
    FetchIsTrace(history, target, c);
    if Fetch(history, target, c).Success? {
      var f := Fetch(history, target, c).value;
      forall k | 0 <= k < |f.requests| ensures 1 <= f.requests[k].count <= MaxApiCount {
        assert RequestAt(history, target, c, f.requests[k]);
      }
    }
  }

  /** The collected jobs are an in-order subsequence of the history (nothing is re-sorted),
      and each of them passes the close-reason filter and, when enabled, the argument filter. */
  lemma FetchedJobsQualify(history: seq<Job>, target: nat, c: Criteria)
    requires target >= 1
    ensures Fetch(history, target, c).Success? ==>
      && SubsequenceOf(Fetch(history, target, c).value.jobs, history)
      && forall j :: j in Fetch(history, target, c).value.jobs ==>
           && (c.closeReasons == [] || InList(j.closeReason, c.closeReasons))
           && (c.argsEnabled ==> EffectiveArgs(j) == c.args)
  {
    FetchIsTrace(history, target, c);
    if Fetch(history, target, c).Success? {
      var f := Fetch(history, target, c).value;
      var end := PageEnd(history, f.requests[|f.requests| - 1]);
      assert f.jobs == Kept(history[..end], c);
      KeptMeaning(history[..end], c);
      SubsequenceOfExtension(f.jobs, history[..end], history[end..]);
      assert history[..end] + history[end..] == history;
      forall j | j in f.jobs
        ensures (c.closeReasons == [] || InList(j.closeReason, c.closeReasons)) && (c.argsEnabled ==> EffectiveArgs(j) == c.args)
      {
        QualifiesMeaning(j, c);
      }
    }
  }

  /** A subsequence of a sequence is a subsequence of any extension of it. */
  lemma {:induction false} SubsequenceOfExtension(a: seq<Job>, b: seq<Job>, more: seq<Job>)
    requires SubsequenceOf(a, b)
    ensures SubsequenceOf(a, b + more)
    decreases |b|
  {
    if a != [] {
      assert (b + more)[0] == b[0] && (b + more)[1..] == b[1..] + more;
      if a[0] == b[0] && SubsequenceOf(a[1..], b[1..]) {
        SubsequenceOfExtension(a[1..], b[1..], more);
      } else {
        SubsequenceOfExtension(a, b[1..], more);
      }
    }
  }

  /** Collection raises only on the missing-arguments error, and only when the argument filter
      is enabled with a non-empty desired mapping. */
  lemma {:induction false} CollectFailure(history: seq<Job>, target: nat, c: Criteria, start: nat, acc: seq<Job>)
    requires |acc| < target
    ensures Collect(history, target, c, start, acc).Failure? ==>
      Collect(history, target, c, start, acc).error == MissingSpiderArgs && c.argsEnabled && c.args != map[]
    decreases |history| - start
  {
    var req := Request(start, Min(target - |acc|, MaxApiCount));
    var page := Page(history, req);
    if FilterJobs(page, c).Failure? {
      CollectRaises(history, target, c, start, acc, req, page, MissingSpiderArgs);
      RaisesMeaning(page, c);
      var i :| 0 <= i < |page| && Qualifies(page[i], c).Failure?;
      QualifiesMeaning(page[i], c);
    } else {
      var kept := FilterJobs(page, c).value;
      var jobs := acc + kept;
      if |page| >= MaxApiCount && |jobs| < target {
        var next: nat := start + |page|;
        CollectContinues(history, target, c, start, acc, req, page, kept, jobs, next);
        CollectFailure(history, target, c, next, jobs);
      } else {
        CollectStops(history, target, c, start, acc, req, page, kept, jobs);
      }
    }
  }

  lemma FetchFailure(history: seq<Job>, target: nat, c: Criteria)
    requires target >= 1
    ensures Fetch(history, target, c).Failure? ==>
      Fetch(history, target, c).error == MissingSpiderArgs && c.argsEnabled && c.args != map[]
  {
    CollectFailure(history, target, c, 0, []);
  }

  /** A target below 1000 makes exactly one call, for the target itself. */
  lemma SingleRequestBelowMax(history: seq<Job>, target: nat, c: Criteria)
    requires 1 <= target < MaxApiCount
    ensures Fetch(history, target, c).Success? ==>
      Fetch(history, target, c).value.requests == [Request(0, target)]
  {
    var req := Request(0, target);
    var page := Page(history, req);
    assert |page| < MaxApiCount;
    match FilterJobs(page, c)
    case Failure(e) => CollectRaises(history, target, c, 0, [], req, page, e);
    case Success(kept) => CollectStops(history, target, c, 0, [], req, page, kept, [] + kept);
  }

  /** The calls the loop makes from offset `start` when every fetched job qualifies and
      `missing` more are wanted: full pages of 1000 while more than 1000 are missing, then one
      call for the rest. */
  function FullPageRequests(start: nat, missing: nat): seq<Request>
    requires missing >= 1
    decreases missing
  {
    if missing <= MaxApiCount then [Request(start, missing)]
    else [Request(start, MaxApiCount)] + FullPageRequests(start + MaxApiCount, missing - MaxApiCount)
  }

  /** Filtering keeps a run of jobs whole exactly when it keeps every piece of it whole. */
  lemma KeptWholeSlice(history: seq<Job>, c: Criteria, i: nat, j: nat)
    requires i <= j <= |history| && FilterJobs(history, c) == Success(history)
    ensures FilterJobs(history[i..j], c) == Success(history[i..j])
  {
    var a, b, d := history[..i], history[i..j], history[j..];
    assert history == a + (b + d);
    RaisesAppend(a, b + d, c);
    RaisesAppend(b, d, c);
    KeptWholeSplit(a, b + d, c);
    KeptWholeSplit(b, d, c);
  }

  /** When filtering keeps `a + b` whole it keeps `a` and `b` whole. */
  lemma KeptWholeSplit(a: seq<Job>, b: seq<Job>, c: Criteria)
    requires Kept(a + b, c) == a + b
    ensures Kept(a, c) == a && Kept(b, c) == b
  {
    KeptAppend(a, b, c);
    var ka, kb := Kept(a, c), Kept(b, c);
    assert |ka| == |a| && |kb| == |b|;
    assert ka == (a + b)[..|a|] && kb == (a + b)[|a|..];
  }

  lemma {:induction false} CollectAllQualify(history: seq<Job>, target: nat, c: Criteria, start: nat, acc: seq<Job>)
    requires |acc| < target && start + (target - |acc|) <= |history|
    requires FilterJobs(history, c) == Success(history)
    ensures Collect(history, target, c, start, acc) ==
      Success(Fetched(acc + history[start..start + (target - |acc|)], FullPageRequests(start, target - |acc|)))
    decreases target - |acc|
  {
    var missing := target - |acc|;
    var count := Min(missing, MaxApiCount);
    var req := Request(start, count);
    var page := history[start..start + count];
    assert Page(history, req) == page;
    KeptWholeSlice(history, c, start, start + count);
    var jobs := acc + page;
    if missing <= MaxApiCount {
      assert count == missing && FullPageRequests(start, missing) == [req];
      CollectStops(history, target, c, start, acc, req, page, page, jobs);
    } else {
      var next := start + count;
      assert count == MaxApiCount && target - |jobs| == missing - MaxApiCount;
      assert FullPageRequests(start, missing) == [req] + FullPageRequests(next, missing - MaxApiCount);
      var tail, more := history[next..start + missing], FullPageRequests(next, missing - MaxApiCount);
      CollectAllQualify(history, target, c, next, jobs);
      assert next + (target - |jobs|) == start + missing;
      FullPageStep(history, target, c, start, acc, req, page, jobs, next, tail, more);
      SliceSplit(history, start, next, start + missing);
    }
  }

  /** A full page that is kept whole, followed by a run from the next offset that keeps `tail`
      with calls `more`, is a run keeping the page and then `tail`. */
  lemma FullPageStep(history: seq<Job>, target: nat, c: Criteria, start: nat, acc: seq<Job>,
                     req: Request, page: seq<Job>, jobs: seq<Job>, next: nat, tail: seq<Job>, more: seq<Request>)
    requires |acc| < target && target - |acc| > MaxApiCount
    requires req == Request(start, MaxApiCount) && page == Page(history, req) && |page| == MaxApiCount
    requires FilterJobs(page, c) == Success(page) && jobs == acc + page && next == start + MaxApiCount
    requires Collect(history, target, c, next, jobs) == Success(Fetched(jobs + tail, more))
    ensures Collect(history, target, c, start, acc) == Success(Fetched(acc + (page + tail), [req] + more))
  {
    CollectContinues(history, target, c, start, acc, req, page, page, jobs, next);
    assert jobs + tail == acc + (page + tail);
  }

  lemma SliceSplit(s: seq<Job>, i: nat, j: nat, k: nat)
    requires i <= j <= k <= |s|
    ensures s[i..k] == s[i..j] + s[j..k]
  {
  }

  /** When the history holds at least `target` jobs and all of them qualify, the loop returns
      the first `target` of them, fetched in full pages of 1000 and one last call for the
      remainder. */
  lemma FetchAllQualify(history: seq<Job>, target: nat, c: Criteria)
    requires 1 <= target <= |history|
    requires forall i :: 0 <= i < |history| ==> Qualifies(history[i], c) == Success(true)
    ensures Fetch(history, target, c) == Success(Fetched(history[..target], FullPageRequests(0, target)))
  {
    FilterJobsKeepsAll(history, c);
    CollectAllQualify(history, target, c, 0, []);
    assert [] + history[0..target] == history[..target];
  }

  /** A target of 2500 with every listed job qualifying, over a history of at least 2500 jobs,
      makes calls for 1000, 1000 and 500 jobs and returns the first 2500. */
  lemma ThreeRequestsFor2500(history: seq<Job>, c: Criteria)
    requires |history| >= 2500
    requires forall i :: 0 <= i < |history| ==> Qualifies(history[i], c) == Success(true)
    ensures Fetch(history, 2500, c) ==
      Success(Fetched(history[..2500], [Request(0, 1000), Request(1000, 1000), Request(2000, 500)]))
  {
    FetchAllQualify(history, 2500, c);
    assert FullPageRequests(2000, 500) == [Request(2000, 500)];
    assert FullPageRequests(1000, 1500) == [Request(1000, 1000), Request(2000, 500)];
    assert FullPageRequests(0, 2500) == [Request(0, 1000), Request(1000, 1000), Request(2000, 500)];
  }

  /** The loop stops on any page shorter than 1000, also one that is short only because fewer
      than 1000 jobs were asked for: with a target of 2 and the first job dropped by the
      close-reason filter, one call returns one job although the history holds two that qualify. */
  lemma ShortPageStopsBeforeTarget(cancelled: Job, done: Job)
    requires cancelled.closeReason == Some("cancelled") && done.closeReason == Some("finished")
    ensures var c := Criteria(["finished"], false, map[]);
      && Fetch([cancelled, done, done], 2, c) == Success(Fetched([done], [Request(0, 2)]))
      && FilterJobs([cancelled, done, done], c) == Success([done, done])
  {
    var c := Criteria(["finished"], false, map[]);
    var h := [cancelled, done, done];
    assert Qualifies(cancelled, c) == Success(false);
    assert Qualifies(done, c) == Success(true);
    assert Page(h, Request(0, 2)) == [cancelled, done];
    assert [cancelled, done][1..] == [done] && [done][1..] == [];
    assert h[1..] == [done, done] && [done, done][1..] == [done];
    assert !Raises([done], c);
    assert [cancelled, done][0] == cancelled && !Raises([cancelled, done], c);
    assert !Raises([done, done], c) && !Raises(h, c);
    assert Kept([done], c) == [done];
    assert Kept([cancelled, done], c) == [done];
    assert Kept([done, done], c) == [done, done];
    assert Kept(h, c) == [done, done];
    assert [] + [done] == [done];
    CollectStops(h, 2, c, 0, [], Request(0, 2), [cancelled, done], [done], [done]);
  }
}
