/**
 `Run.get_results` (paddles/models/runs.py:153-168): the tally of a run's job
 statuses. `list.count` is modelled by `Count` and related to the multiset of
 the statuses, which is the independent statement of "how many jobs have
 this status".
 */
module Results {
  import opened Wrappers
  import opened Jobs

  /** The dictionary `get_results` returns. */
  datatype Summary = Summary(pass: nat, running: nat, fail: nat, dead: nat, unknown: nat, total: nat)

  /** `xs.count(x)`. */
  function Count<T(==)>(xs: seq<T>, x: T): nat
  {
    if xs == [] then 0 else (if xs[0] == x then 1 else 0) + Count(xs[1..], x)
  }

  /** `xs.count(x)` is the number of times `x` occurs in `xs`. */
  lemma {:induction false} CountIsMultiplicity<T>(xs: seq<T>, x: T)
    ensures Count(xs, x) == multiset(xs)[x]
    decreases |xs|
  {
    if xs != [] {
      CountIsMultiplicity(xs[1..], x);
      assert xs == [xs[0]] + xs[1..];
    }
  }

  /** The statuses `get_results` reports, other than "no status". */
  const Pass: Option<string> := Some("pass")
  const Running: Option<string> := Some("running")
  const Fail: Option<string> := Some("fail")
  const Dead: Option<string> := Some("dead")

  /** A status one of the five counters of the summary covers. */
  predicate Tallied(x: Option<string>)
  {
    x == Pass || x == Running || x == Fail || x == Dead || x == None
  }

  /** The tally of the jobs' statuses; each counter is the multiplicity of its status. */
  function GetResults(jobs: seq<Job>): (r: Summary)
    ensures r.pass == multiset(Statuses(jobs))[Pass]
    ensures r.running == multiset(Statuses(jobs))[Running]
    ensures r.fail == multiset(Statuses(jobs))[Fail]
    ensures r.dead == multiset(Statuses(jobs))[Dead]
    ensures r.unknown == multiset(Statuses(jobs))[None]
    ensures r.total == |jobs|
  {
    var statuses := Statuses(jobs);
    CountIsMultiplicity(statuses, Pass);
    CountIsMultiplicity(statuses, Running);
    CountIsMultiplicity(statuses, Fail);
    CountIsMultiplicity(statuses, Dead);
    CountIsMultiplicity(statuses, None);
    Summary(Count(statuses, Pass), Count(statuses, Running), Count(statuses, Fail), Count(statuses, Dead),
            Count(statuses, None), |jobs|)
  }

  /** The sum of the five counters of a list of statuses. */
  function TalliedCount(xs: seq<Option<string>>): nat
  {
    Count(xs, Pass) + Count(xs, Running) + Count(xs, Fail) + Count(xs, Dead) + Count(xs, None)
  }

  /** The five counters never exceed the length, and reach it exactly when every status is tallied. */
  lemma {:induction false} TalliedCountBound(xs: seq<Option<string>>)
    ensures TalliedCount(xs) <= |xs|
    ensures TalliedCount(xs) == |xs| <==> forall i | 0 <= i < |xs| :: Tallied(xs[i])
    decreases |xs|
  {
    if xs != [] {
      TalliedCountBound(xs[1..]);
      if forall i | 0 <= i < |xs[1..]| :: Tallied(xs[1..][i]) {
        if Tallied(xs[0]) {
          forall i | 0 <= i < |xs| ensures Tallied(xs[i]) {
            if i > 0 {
              assert xs[i] == xs[1..][i - 1];
            }
          }
        }
      } else {
        var i :| 0 <= i < |xs[1..]| && !Tallied(xs[1..][i]);
        assert !Tallied(xs[i + 1]);
      }
    }
  }

  /** The five counters sum to at most `total`, with equality exactly when every job's status is one of them. */
  lemma ResultsSum(jobs: seq<Job>)
    ensures var r := GetResults(jobs);
            r.pass + r.running + r.fail + r.dead + r.unknown <= r.total
    ensures var r := GetResults(jobs);
            r.pass + r.running + r.fail + r.dead + r.unknown == r.total
            <==> forall i | 0 <= i < |jobs| :: Tallied(jobs[i].status)
  {
    var statuses := Statuses(jobs);
    CountIsMultiplicity(statuses, Pass);
    CountIsMultiplicity(statuses, Running);
    CountIsMultiplicity(statuses, Fail);
    CountIsMultiplicity(statuses, Dead);
    CountIsMultiplicity(statuses, None);
    TalliedCountBound(statuses);
  }

  /** `results['running']` is non-zero exactly when some job's status is `'running'`. */
  lemma RunningCount(jobs: seq<Job>)
    ensures GetResults(jobs).running > 0 <==> exists i | 0 <= i < |jobs| :: jobs[i].status == Running
  {
    var statuses := Statuses(jobs);
    if GetResults(jobs).running > 0 {
      assert Running in multiset(statuses);
      var i :| 0 <= i < |statuses| && statuses[i] == Running;
      assert jobs[i].status == Running;
    } else {
      forall i | 0 <= i < |jobs| ensures jobs[i].status != Running {
        assert statuses[i] in multiset(statuses);
      }
    }
  }
}
