/** `get_threshold`'s arithmetic: the mean item count of the collected jobs, scaled by the
    threshold fraction and rounded up. Numbers are exact reals, not IEEE doubles. */
module Baseline {
  import opened Results
  import opened Jobs

  /** `math.ceil`: the least integer not below `x`. */
  function Ceil(x: real): (r: int)
    ensures x <= r as real < x + 1.0
  {
    if x.Floor as real == x then x.Floor else x.Floor + 1
  }

  /** `sum(job.get("items", 0) for job in jobs)`. */
  function SumItems(jobs: seq<Job>): nat
    decreases |jobs|
  {
    if jobs == [] then 0 else SumItems(jobs[..|jobs| - 1]) + jobs[|jobs| - 1].items.GetOr(0)
  }

  function Mean(jobs: seq<Job>): real
    requires jobs != []
  {
    SumItems(jobs) as real / |jobs| as real
  }

  /** `math.ceil(previous_count * threshold)` with `previous_count` the mean item count; the
      division raises when no job was collected. */
  function ExpectedMinimum(jobs: seq<Job>, threshold: real): (r: Result<int, Error>)
    ensures r.Failure? <==> jobs == []
    ensures r.Failure? ==> r.error == ZeroDivision
    ensures r.Success? ==> Mean(jobs) * threshold <= r.value as real < Mean(jobs) * threshold + 1.0
  {
    if |jobs| == 0 then Failure(ZeroDivision) else Success(Ceil(Mean(jobs) * threshold))
  }

  lemma {:induction false} SumItemsAppend(a: seq<Job>, b: seq<Job>)
    ensures SumItems(a + b) == SumItems(a) + SumItems(b)
    decreases |b|
  {
    if b == [] {
      assert a + b == a;
    } else {
      assert (a + b)[..|a + b| - 1] == a + b[..|b| - 1];
      assert (a + b)[|a + b| - 1] == b[|b| - 1];
      SumItemsAppend(a, b[..|b| - 1]);
    }
  }

  /** The item sum depends only on which jobs there are, each counted with its multiplicity,
      not on their order. */
  lemma {:induction false} SumItemsPermutation(xs: seq<Job>, ys: seq<Job>)
    requires multiset(xs) == multiset(ys)
    ensures SumItems(xs) == SumItems(ys)
    decreases |xs|
  {
    if xs == [] {
      assert |ys| == |multiset(ys)| == 0;
    } else {
      var init, x := xs[..|xs| - 1], xs[|xs| - 1];
      assert xs == init + [x];
      assert multiset(init) == multiset(xs) - multiset{x};
      assert x in multiset(ys);
      var i :| 0 <= i < |ys| && ys[i] == x;
      var rest := RemoveAt(ys, i);
      SumItemsPermutation(init, rest);
    }
  }

  /** `ys` without its element at `i`: the other jobs and the sum of their items. */
  lemma RemoveAt(ys: seq<Job>, i: nat) returns (rest: seq<Job>)
    requires i < |ys|
    ensures multiset(rest) == multiset(ys) - multiset{ys[i]}
    ensures SumItems(ys) == SumItems(rest) + ys[i].items.GetOr(0)
  {
    var before, after := ys[..i], ys[i + 1..];
    rest := before + after;
    assert ys == before + [ys[i]] + after;
    assert multiset(ys) == multiset(before) + multiset{ys[i]} + multiset(after);
    assert [ys[i]][..0] == [];
    SumItemsAppend(before, [ys[i]]);
    SumItemsAppend(before + [ys[i]], after);
    SumItemsAppend(before, after);
  }

  /** The baseline does not depend on the order the API lists the jobs in: any reordering of
      the same jobs gives the same result. */
  lemma ExpectedMinimumOrderFree(xs: seq<Job>, ys: seq<Job>, threshold: real)
    requires multiset(xs) == multiset(ys)
    ensures ExpectedMinimum(xs, threshold) == ExpectedMinimum(ys, threshold)
  {
    SumItemsPermutation(xs, ys);
    assert |xs| == |multiset(xs)| == |multiset(ys)| == |ys|;
    if xs != [] {
      var m := Mean(xs) * threshold;
      assert m == Mean(ys) * threshold;
      assert ExpectedMinimum(xs, threshold) == Success(Ceil(m));
      assert ExpectedMinimum(ys, threshold) == Success(Ceil(m));
    } else {
      assert ys == [];
    }
  }

  /** When every job scraped `k` items the total is `k` per job. */
  lemma {:induction false} SumItemsUniform(jobs: seq<Job>, k: nat)
    requires forall i :: 0 <= i < |jobs| ==> jobs[i].items.GetOr(0) == k
    ensures SumItems(jobs) == |jobs| * k
    decreases |jobs|
  {
    if jobs != [] {
      var init := jobs[..|jobs| - 1];
      assert forall i :: 0 <= i < |init| ==> init[i] == jobs[i];
      SumItemsUniform(init, k);
      assert SumItems(jobs) == (|jobs| - 1) * k + k;
      assert (|jobs| - 1) * k + k == |jobs| * k;
    }
  }

  /** When every job scraped `k` items the mean is `k`, so a threshold of 1 expects `k`. */
  lemma UniformItems(jobs: seq<Job>, k: nat)
    requires jobs != []
    requires forall i :: 0 <= i < |jobs| ==> jobs[i].items.GetOr(0) == k
    ensures ExpectedMinimum(jobs, 1.0) == Success(k)
  {
    SumItemsUniform(jobs, k);
    MeanOfEqualParts(SumItems(jobs), |jobs|, k);
    assert Mean(jobs) * 1.0 == k as real;
    assert (k as real).Floor == k;
  }

  /** `n` parts of `k` each average to `k`. */
  lemma MeanOfEqualParts(sum: nat, n: nat, k: nat)
    requires n > 0 && sum == n * k
    ensures sum as real / n as real == k as real
  {
    assert sum as real == n as real * k as real;
  }

  /** A higher threshold never lowers the expected minimum. */
  lemma ExpectedMinimumMonotone(jobs: seq<Job>, t1: real, t2: real)
    requires jobs != [] && t1 <= t2
    ensures ExpectedMinimum(jobs, t1).value <= ExpectedMinimum(jobs, t2).value
  {
    var m := Mean(jobs);
    assert m >= 0.0;
    assert m * t1 <= m * t2 by {
      assert m * t2 - m * t1 == m * (t2 - t1);
    }
  }

  /** Item counts 100, 200 and 300 with a threshold of 0.9 expect 180 items. */
  lemma ExpectedMinimumExample(a: Job, b: Job, c: Job)
    requires a.items == Some(100) && b.items == Some(200) && c.items == Some(300)
    ensures ExpectedMinimum([a, b, c], 0.9) == Success(180)
  {
    assert [a, b, c][..2] == [a, b] && [a, b][..1] == [a] && [a][..0] == [];
    assert SumItems([a]) == 100;
    assert SumItems([a, b]) == 300;
    assert SumItems([a, b, c]) == 600;
    assert Mean([a, b, c]) == 200.0;
    assert (180.0).Floor == 180;
  }
}
