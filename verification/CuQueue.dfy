/** The shared job list of the DWARF loader: what a worker does to it while holding the mutex. */
module CuQueue {
  import opened Wrappers

  datatype Job = Decode | Steal(cu: nat)

  /** A job that cus_queue__try_dequeue may hand out. */
  predicate Takeable(job: Job, nextId: nat) {
    job == Decode || job == Steal(nextId)
  }

  /** Steals go to the head of the list, decodes to its tail. */
  function Enqueue(jobs: seq<Job>, job: Job): seq<Job> {
    if job.Steal? then [job] + jobs else jobs + [job]
  }

  ghost predicate StealsFirst(jobs: seq<Job>) {
    forall a, b :: 0 <= a < b < |jobs| && jobs[b].Steal? ==> jobs[a].Steal?
  }

  /** Position of the first takeable job, or |jobs|. */
  function FirstTakeable(jobs: seq<Job>, nextId: nat): (k: nat)
    ensures k <= |jobs|
    ensures k < |jobs| ==> Takeable(jobs[k], nextId)
    ensures forall a :: 0 <= a < k ==> !Takeable(jobs[a], nextId)
  {
    if jobs == [] then 0
    else if Takeable(jobs[0], nextId) then 0
    else
      var k := 1 + FirstTakeable(jobs[1..], nextId);
      assert forall a :: 0 < a < k ==> jobs[a] == jobs[1..][a - 1];
      k
  }

  function Remove(jobs: seq<Job>, k: nat): seq<Job>
    requires k < |jobs|
  {
    jobs[..k] + jobs[k + 1..]
  }

  /** The list discipline makes the head-first scan prefer the steal that is due over any decode. */
  lemma DueStealWins(jobs: seq<Job>, nextId: nat)
    requires StealsFirst(jobs)
    requires Steal(nextId) in jobs
    ensures FirstTakeable(jobs, nextId) < |jobs|
    ensures jobs[FirstTakeable(jobs, nextId)] == Steal(nextId)
  {
    var a :| 0 <= a < |jobs| && jobs[a] == Steal(nextId);
    var k := FirstTakeable(jobs, nextId);
    assert k <= a;
  }

  /** The queue object, as the workers see it inside the critical section. */
  class CusQueue {
    var jobs: seq<Job>
    var nextCuId: nat

    constructor (limit: nat)
      ensures nextCuId == 0 && jobs == seq(limit, _ => Decode)
    {
      nextCuId := 0;
      var filled: seq<Job> := [];
      for i := 0 to limit
        invariant filled == seq(i, _ => Decode)
      {
        filled := [Decode] + filled;
      }
      jobs := filled;
    }

    method IncNextCuId()
      modifies this`nextCuId
      ensures nextCuId == old(nextCuId) + 1
    {
      nextCuId := nextCuId + 1;
    }

    method Add(job: Job)
      modifies this`jobs
      ensures jobs == Enqueue(old(jobs), job)
      ensures old(StealsFirst(jobs)) ==> StealsFirst(jobs)
    {
      if job.Steal? {
        jobs := [job] + jobs;
      } else {
        jobs := jobs + [job];
      }
    }

    /** Takes the due steal whenever it is queued, else the oldest decode, else nothing. */
    method TryDequeue() returns (job: Option<Job>)
      modifies this`jobs
      ensures job.None? ==> jobs == old(jobs) && forall j :: j in jobs ==> !Takeable(j, nextCuId)
      ensures job.Some? ==>
                var k := FirstTakeable(old(jobs), nextCuId);
                k < |old(jobs)| && job.value == old(jobs)[k] && jobs == Remove(old(jobs), k)
      ensures old(StealsFirst(jobs)) ==> StealsFirst(jobs)
      ensures old(StealsFirst(jobs)) && Steal(nextCuId) in old(jobs) ==> job == Some(Steal(nextCuId))
    {
      var pos := 0;
      while pos < |jobs|
        invariant 0 <= pos <= |jobs| && jobs == old(jobs)
        invariant forall a :: 0 <= a < pos ==> !Takeable(jobs[a], nextCuId)
      {
        var candidate := jobs[pos];
        if candidate.Steal? && candidate.cu == nextCuId {
          break;
        }
        if candidate.Decode? {
          break;
        }
        pos := pos + 1;
      }
      if pos == |jobs| {
        return None;
      }
      job := Some(jobs[pos]);
      jobs := Remove(jobs, pos);
      if StealsFirst(old(jobs)) && Steal(nextCuId) in old(jobs) {
        DueStealWins(old(jobs), nextCuId);
      }
    }
  }
}
