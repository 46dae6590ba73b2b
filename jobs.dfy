/**
 The part of a job record that a run reads. The job model itself lives outside
 this component; a run only consults each job's status, description and
 last-update time.
 */
module Jobs {
  import opened Wrappers

  /** A point in time (a naive UTC datetime), as an ordered abstract quantity. */
  type Instant = int

  /** A job as a run sees it; `status` is absent when the job has none yet. */
  datatype Job = Job(status: Option<string>, description: string, updated: Instant)

  /** The statuses of the jobs, in job order (`[job.status for job in jobs]`). */
  function Statuses(jobs: seq<Job>): (r: seq<Option<string>>)
    ensures |r| == |jobs|
    ensures forall i | 0 <= i < |jobs| :: r[i] == jobs[i].status
  {
    if jobs == [] then [] else [jobs[0].status] + Statuses(jobs[1..])
  }

  /** The set of descriptions carried by the jobs. */
  function Descriptions(jobs: seq<Job>): set<string>
  {
    set i | 0 <= i < |jobs| :: jobs[i].description
  }
}
