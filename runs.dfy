/**
 The `Run` record of paddles/models/runs.py without its persistence: name
 parsing (`_parse_name`), the constructor's defaults, the JSON summary, the
 `updated` property and the description index of the jobs.

 The jobs relationship is the sequence `jobs`, in job id order. The clock
 (`datetime.utcnow()`) is the constructor's `posted` argument and
 `datetime.strptime(text, '%Y-%m-%d_%H:%M:%S')` is the partial function
 `strptime` passed in, `None` standing for its `ValueError`.
 */
module Runs {
  import opened Wrappers
  import opened Jobs
  import opened NameRegexes
  import opened Timestamps
  import opened NameMatch
  import opened Results

  // ---------------------------------------------------------------------------
  // str.strip(' -')

  /** Every character of `x[i..j]` is a strip character. */
  predicate AllStripIn(x: string, i: nat, j: nat)
    requires i <= j <= |x|
  {
    forall k | i <= k < j :: IsStripChar(x[k])
  }

  /** Where the text of `x` starts once the leading strip characters from `i` on are skipped. */
  function StripStart(x: string, i: nat): (a: nat)
    requires i <= |x|
    ensures i <= a <= |x| && AllStripIn(x, i, a)
    ensures a == |x| || !IsStripChar(x[a])
    decreases |x| - i
  {
    if i < |x| && IsStripChar(x[i]) then StripStart(x, i + 1) else i
  }

  /** Where the text of `x[a..j]` ends once the trailing strip characters are dropped. */
  function StripEnd(x: string, a: nat, j: nat): (b: nat)
    requires a <= j <= |x|
    ensures a <= b <= j && AllStripIn(x, b, j)
    ensures b == a || !IsStripChar(x[b - 1])
    decreases j
  {
    if a < j && IsStripChar(x[j - 1]) then StripEnd(x, a, j - 1) else j
  }

  /** `x.strip(' -')`. */
  function Strip(x: string): (r: string)
    ensures Stripped(r)
  {
    var a := StripStart(x, 0);
    x[a..StripEnd(x, a, |x|)]
  }

  /**
   Stripping removes only strip characters at the two ends and keeps the rest:
   the result is a slice of `x` with strip characters only around it, and if
   it is empty then `x` was all strip characters.
   */
  lemma StripIsTrim(x: string)
    ensures exists a: nat, b: nat | a <= b <= |x| ::
              Strip(x) == x[a..b] && AllStripIn(x, 0, a) && AllStripIn(x, b, |x|)
    ensures Strip(x) == [] ==> AllStripIn(x, 0, |x|)
  {
    var a := StripStart(x, 0);
    var b := StripEnd(x, a, |x|);
    assert Strip(x) == x[a..b];
  }

  /** A string with nothing to strip at either end is its own strip. */
  lemma StripKeepsStripped(x: string)
    requires Stripped(x)
    ensures Strip(x) == x
  {
  }

  /** Stripping twice is stripping once. */
  lemma StripIdempotent(x: string)
    ensures Strip(Strip(x)) == Strip(x)
  {
    StripKeepsStripped(Strip(x));
  }

  // ---------------------------------------------------------------------------
  // _parse_name

  /**
   The alternatives the suite group of `Run.name_regexes` tries, in order:
   the catalog itself, as `CatalogAltsAreAlternation` shows.
   */
  function CatalogAlts(): seq<string>
  {
    SuiteNames
  }

  /** Splitting the `'|'`-join embedded in both catalog regexes gives back `suite_names`, in order. */
  lemma CatalogAltsAreAlternation()
    ensures Alternatives(SuiteNames) == CatalogAlts()
  {
    SuiteNamesPlain();
    CatalogAlternatives(SuiteNames);
  }

  /** None of the three patterns matches `name`. */
  ghost predicate NoPatternMatches(name: string)
  {
    NoneMatches(CatalogAlts(), name)
  }

  /**
   The outcome of `_parse_name`: the empty mapping, the three parsed values,
   or the `ValueError` that `strptime` raises.
   */
  datatype NameParse = Unmatched | Parsed(scheduled: Instant, suite: string, branch: string) | StrptimeError

  function ParseName(name: string, strptime: string -> Option<Instant>): (r: NameParse)
    ensures r.Unmatched? <==> NoPatternMatches(name)
    ensures !r.Unmatched? ==> MatchName(CatalogAlts(), name).Some?
    ensures var m := MatchName(CatalogAlts(), name);
            r.StrptimeError? <==> m.Some? && strptime(m.value.groups.scheduled).None?
    ensures var m := MatchName(CatalogAlts(), name);
            r.Parsed? ==> Some(r.scheduled) == strptime(m.value.groups.scheduled)
                          && r.suite == Strip(m.value.groups.suite) && r.branch == Strip(m.value.groups.branch)
    ensures r.Parsed? ==> Stripped(r.suite) && Stripped(r.branch)
  {
    MatchNameNone(CatalogAlts(), name);
    match MatchName(CatalogAlts(), name)
    case None => Unmatched
    case Some(m) =>
      match strptime(m.groups.scheduled)
      case None => StrptimeError
      case Some(t) => Parsed(t, Strip(m.groups.suite), Strip(m.groups.branch))
  }

  /** A name matched by one of the two catalog patterns yields a suite of the catalog, unstripped. */
  lemma ParsedCatalogSuite(name: string, strptime: string -> Option<Instant>)
    requires ParseName(name, strptime).Parsed?
    requires MatchName(CatalogAlts(), name).value.pattern != Backup
    ensures ParseName(name, strptime).suite in SuiteNames
    ensures ParseName(name, strptime).suite == MatchName(CatalogAlts(), name).value.groups.suite
  {
    SuiteNamesPlain();
    CatalogSuiteIsAlternative(CatalogAlts(), name);
    var suite := MatchName(CatalogAlts(), name).value.groups.suite;
    var k :| 0 <= k < |SuiteNames| && SuiteNames[k] == suite;
    assert PlainName(SuiteNames[k]);
    StripKeepsStripped(suite);
  }

  // ---------------------------------------------------------------------------
  // The run record

  /** The dictionary `__json__` returns, without `href`. */
  datatype RunJson = RunJson(name: string, status: string, results: Summary, jobsCount: nat, posted: Instant,
                             scheduled: Instant, branch: string, suite: string)

  /** `max(a, b)`. */
  function Max(a: Instant, b: Instant): (m: Instant)
    ensures m >= a && m >= b && (m == a || m == b)
  {
    if a >= b then a else b
  }

  /** The latest `updated` among the jobs. */
  function LatestUpdate(jobs: seq<Job>): (u: Instant)
    requires jobs != []
    ensures forall i | 0 <= i < |jobs| :: jobs[i].updated <= u
    ensures exists i | 0 <= i < |jobs| :: jobs[i].updated == u
  {
    if |jobs| == 1 then jobs[0].updated
    else
      var rest := LatestUpdate(jobs[1..]);
      assert forall i | 1 <= i < |jobs| :: jobs[i] == jobs[1..][i - 1];
      Max(jobs[0].updated, rest)
  }

  /** `jobs[i]` is the last job carrying description `d`. */
  ghost predicate LastWith(jobs: seq<Job>, d: string, job: Job)
  {
    exists i | 0 <= i < |jobs| :: jobs[i] == job && job.description == d
                                  && forall k | i < k < |jobs| :: jobs[k].description != d
  }

  class Run {
    var name: string
    var posted: Instant
    var scheduled: Instant
    var suite: string
    var branch: string
    /** The run's jobs in job id order. */
    var jobs: seq<Job>

    /** `Run(name)` at time `posted`; the defaults apply when no pattern matches. */
    constructor(name: string, posted: Instant, strptime: string -> Option<Instant>)
      requires !ParseName(name, strptime).StrptimeError?
      ensures this.name == name && this.posted == posted && jobs == []
      ensures ParseName(name, strptime).Unmatched? ==> scheduled == posted && suite == "" && branch == ""
      ensures ParseName(name, strptime).Parsed? ==>
                var p := ParseName(name, strptime);
                scheduled == p.scheduled && suite == p.suite && branch == p.branch
    {
      this.name := name;
      this.posted := posted;
      var parsed := ParseName(name, strptime);
      if parsed.Parsed? {
        scheduled := parsed.scheduled;
        suite := parsed.suite;
        branch := parsed.branch;
      } else {
        scheduled := posted;
        suite := "";
        branch := "";
      }
      jobs := [];
    }

    /** `__json__`: the status is `'running'` exactly when some job is running. */
    function Json(): (r: RunJson)
      reads this
      ensures r.status == "running" <==> exists i | 0 <= i < |jobs| :: jobs[i].status == Running
      ensures r.status == "running" || r.status == "finished"
      ensures r.status == "running" <==> r.results.running > 0
      ensures r.results == GetResults(jobs) && r.jobsCount == |jobs|
      ensures r.name == name && r.posted == posted && r.scheduled == scheduled
      ensures r.branch == branch && r.suite == suite
    {
      var results := GetResults(jobs);
      RunningCount(jobs);
      RunJson(name, if results.running > 0 then "running" else "finished", results, results.total, posted,
              scheduled, branch, suite)
    }

    /**
     The `updated` property as written. `self.jobs` is already ordered by job
     id, and `order_by(Job.updated)` adds a second sort key after it rather
     than replacing it, so `[-1]` is the job with the highest id: the last
     job of `jobs`. Without jobs, the later of `scheduled` and `posted`.
     */
    function Updated(): (u: Instant)
      reads this
      ensures jobs == [] ==> u >= scheduled && u >= posted && (u == scheduled || u == posted)
      ensures jobs != [] ==> u == jobs[|jobs| - 1].updated
    {
      if jobs != [] then jobs[|jobs| - 1].updated else Max(scheduled, posted)
    }

    /**
     What `updated` evidently means: the latest update time among the jobs,
     or the later of `scheduled` and `posted` without jobs.
     */
    function LatestUpdated(): (u: Instant)
      reads this
      ensures jobs == [] ==> u >= scheduled && u >= posted && (u == scheduled || u == posted)
      ensures jobs != [] ==> (forall i | 0 <= i < |jobs| :: jobs[i].updated <= u)
                             && exists i | 0 <= i < |jobs| :: jobs[i].updated == u
    {
      if jobs != [] then LatestUpdate(jobs) else Max(scheduled, posted)
    }

    /** `get_jobs_by_description`: every description, mapped to the last job that carries it. */
    method GetJobsByDescription() returns (byDesc: map<string, Job>)
      ensures byDesc.Keys == Descriptions(jobs)
      ensures forall d | d in byDesc :: LastWith(jobs, d, byDesc[d])
    {
      byDesc := map[];
      var i := 0;
      while i < |jobs|
        invariant 0 <= i <= |jobs|
        invariant byDesc.Keys == Descriptions(jobs[..i])
        invariant forall d | d in byDesc :: LastWith(jobs[..i], d, byDesc[d])
      {
        var job := jobs[i];
        assert jobs[..i + 1] == jobs[..i] + [job];
        DescriptionsSnoc(jobs[..i], job);
        forall d | d in byDesc && d != job.description ensures LastWith(jobs[..i + 1], d, byDesc[d]) {
          LastWithSnoc(jobs[..i], job, d, byDesc[d]);
        }
        LastWithNewest(jobs[..i], job);
        byDesc := byDesc[job.description := job];
        i := i + 1;
      }
      assert jobs[..i] == jobs;
    }
  }

  /** A job that was updated after the job with the highest id makes `updated` miss the latest update. */
  lemma UpdatedMissesLatest(run: Run, i: nat)
    requires i < |run.jobs| && run.jobs[i].updated > run.jobs[|run.jobs| - 1].updated
    ensures run.Updated() < run.LatestUpdated()
  {
  }

  /** When update times never decrease along the job ids, `updated` is the latest update. */
  lemma UpdatedAgreesWhenOrdered(run: Run)
    requires forall i, j | 0 <= i <= j < |run.jobs| :: run.jobs[i].updated <= run.jobs[j].updated
    ensures run.Updated() == run.LatestUpdated()
  {
    if run.jobs != [] {
      var u := run.LatestUpdated();
      var i :| 0 <= i < |run.jobs| && run.jobs[i].updated == u;
      assert run.jobs[i].updated <= run.jobs[|run.jobs| - 1].updated;
    }
  }

  lemma DescriptionsSnoc(js: seq<Job>, job: Job)
    ensures Descriptions(js + [job]) == Descriptions(js) + {job.description}
  {
    var both := js + [job];
    forall d | d in Descriptions(js) ensures d in Descriptions(both) {
      var i :| 0 <= i < |js| && js[i].description == d;
      assert both[i] == js[i];
    }
    assert both[|js|] == job;
  }

  /** A job appended after the last job with `d`, with another description, leaves it the last. */
  lemma LastWithSnoc(js: seq<Job>, job: Job, d: string, last: Job)
    requires LastWith(js, d, last) && job.description != d
    ensures LastWith(js + [job], d, last)
  {
    var i :| 0 <= i < |js| && js[i] == last && last.description == d
             && forall k | i < k < |js| :: js[k].description != d;
    var both := js + [job];
    assert both[i] == last;
    forall k | i < k < |both| ensures both[k].description != d {
      if k < |js| {
        assert both[k] == js[k];
      }
    }
  }

  /** The job appended last is the last job with its description. */
  lemma LastWithNewest(js: seq<Job>, job: Job)
    ensures LastWith(js + [job], job.description, job)
  {
    assert (js + [job])[|js|] == job;
  }
}
