/**
 Every interleaving of the DWARF loader's workers, as a step relation over the job
 list, the id of the next CU to steal, the CU source and one phase per worker.
 Each step is one critical section, or one access to the CU source.
 */
module CuWorkers {
  import opened Sums
  import opened CuQueue

  datatype Phase =
    | Starting            // thread created, first call passes no job
    | Decoding            // took JOB_DECODE
    | HoldsSteal(cu: nat) // decoded this CU, about to enqueue JOB_STEAL
    | Stealing(cu: nat)   // took JOB_STEAL, inside cus__steal_now
    | Stolen(cu: nat)     // steal returned, next id not yet incremented
    | HoldsDecode         // next id incremented, about to enqueue JOB_DECODE
    | Waiting             // blocked in pthread_cond_wait
    | Signalled           // woken, not yet holding the mutex
    | Exited

  /** `fetched` is the number of CUs handed out by the source, `stolen` the log of finished steals. */
  datatype State = State(jobs: seq<Job>, nextId: nat, fetched: nat, workers: seq<Phase>, stolen: seq<nat>)

  datatype Action =
    | EnqDeq(i: nat, wake: nat)
    | Resume(i: nat)
    | Fetch(i: nat)
    | FinishSteal(i: nat)
    | Increment(i: nat)
    | Spurious(i: nat)

  function NrWorkers(nrJobs: int): nat {
    if nrJobs > 0 then nrJobs else 1
  }

  function DecodedCusLimit(nrJobs: int): nat {
    if nrJobs > 0 then nrJobs * 2 else 2
  }

  function Init(nrJobs: int): State {
    State(seq(DecodedCusLimit(nrJobs), _ => Decode), 0, 0, seq(NrWorkers(nrJobs), _ => Starting), [])
  }

  predicate Enabled(s: State, a: Action) {
    a.i < |s.workers| &&
    var phase := s.workers[a.i];
    match a
    case EnqDeq(_, wake) =>
      || phase == Starting
      || ((phase.HoldsSteal? || phase == HoldsDecode) &&
          // pthread_cond_signal wakes a waiter if there is one
          (Waiting in s.workers ==> wake < |s.workers| && s.workers[wake] == Waiting))
    case Resume(_) => phase == Signalled
    case Fetch(_) => phase == Decoding
    case FinishSteal(_) => phase.Stealing?
    case Increment(_) => phase.Stolen?
    case Spurious(_) => phase == Waiting
  }

  /** First half of cus_queue__enqdeq_job: add the job, signal, and go on to the dequeue loop. */
  function Post(s: State, i: nat, wake: nat): State
    requires Enabled(s, EnqDeq(i, wake))
  {
    var ready := s.workers[i := Signalled];
    match s.workers[i]
    case HoldsSteal(cu) => s.(jobs := Enqueue(s.jobs, Steal(cu)), workers := Signal(ready, wake))
    case HoldsDecode => s.(jobs := Enqueue(s.jobs, Decode), workers := Signal(ready, wake))
    case _ => s.(workers := ready)
  }

  function Signal(workers: seq<Phase>, wake: nat): seq<Phase> {
    if wake < |workers| && workers[wake] == Waiting then workers[wake := Signalled] else workers
  }

  /** The dequeue loop body: take a job, or wait. */
  function Grab(s: State, i: nat): State
    requires i < |s.workers|
  {
    var k := FirstTakeable(s.jobs, s.nextId);
    if k == |s.jobs| then s.(workers := s.workers[i := Waiting])
    else
      s.(jobs := Remove(s.jobs, k),
      workers := s.workers[i := if s.jobs[k].Steal? then Stealing(s.jobs[k].cu) else Decoding])
  }

  /** `total` is the number of CUs in the file. */
  function Next(total: nat, s: State, a: Action): State
    requires Enabled(s, a)
  {
    match a
    case EnqDeq(i, wake) => Grab(Post(s, i, wake), i)
    case Resume(i) => Grab(s, i)
    case Fetch(i) =>
      if s.fetched < total
      then s.(fetched := s.fetched + 1, workers := s.workers[i := HoldsSteal(s.fetched)])
      else s.(workers := s.workers[i := Exited])
    case FinishSteal(i) =>
      var cu := s.workers[i].cu;
      s.(stolen := s.stolen + [cu], workers := s.workers[i := Stolen(cu)])
    case Increment(i) => s.(nextId := s.nextId + 1, workers := s.workers[i := HoldsDecode])
    case Spurious(i) => s.(workers := s.workers[i := Signalled])
  }

  // ----- weights -----

  function Bit(b: bool): nat { if b then 1 else 0 }

  ghost function IsStealOf(c: nat): Job -> nat { (j: Job) => Bit(j == Steal(c)) }
  ghost function IsSteal(): Job -> nat { (j: Job) => Bit(j.Steal?) }
  ghost function IsTakeable(nextId: nat): Job -> nat { (j: Job) => Bit(Takeable(j, nextId)) }
  ghost function OwnsCu(c: nat): Phase -> nat {
    (p: Phase) => Bit((p.HoldsSteal? || p.Stealing? || p.Stolen?) && p.cu == c)
  }
  ghost function OwnsAnyCu(): Phase -> nat { (p: Phase) => Bit(p.HoldsSteal? || p.Stealing? || p.Stolen?) }
  ghost function HoldsTicket(): Phase -> nat {
    (p: Phase) => Bit(p.Decoding? || p.HoldsSteal? || p.Stealing? || p.Stolen? || p.HoldsDecode?)
  }
  ghost function Is(phase: Phase): Phase -> nat { (p: Phase) => Bit(p == phase) }
  ghost function IsStolen(): Phase -> nat { (p: Phase) => Bit(p.Stolen?) }

  /** In how many places CU `c` is: queued for stealing or in the hands of a worker. */
  ghost function Places(s: State, c: nat): nat {
    Sum(s.jobs, IsStealOf(c)) + Sum(s.workers, OwnsCu(c))
  }

  // ----- the invariant -----

  function Iota(n: nat): (r: seq<nat>)
    ensures |r| == n && forall k :: 0 <= k < n ==> r[k] == k
  {
    seq(n, k => k)
  }

  /** Which CUs are where: every decoded and unstolen CU is in exactly one place, steals run in id order. */
  ghost predicate InvOrder(total: nat, s: State) {
    && StealsFirst(s.jobs)
    && s.nextId <= s.fetched <= total
    && (forall c: nat :: Places(s, c) == Bit(s.nextId <= c < s.fetched))
    && (forall i :: 0 <= i < |s.workers| && (s.workers[i].Stealing? || s.workers[i].Stolen?) ==>
        s.workers[i].cu == s.nextId)
    && s.stolen == Iota(|s.stolen|)
    && |s.stolen| == s.nextId + Sum(s.workers, IsStolen())
  }

  /** Jobs are tickets: none is lost except by a worker that found the source exhausted. */
  ghost predicate InvTickets(total: nat, limit: nat, s: State) {
    && |s.jobs| + Sum(s.workers, HoldsTicket()) + Sum(s.workers, Is(Exited)) == limit
    && s.nextId <= s.fetched
    && Sum(s.jobs, IsSteal()) + Sum(s.workers, OwnsAnyCu()) == s.fetched - s.nextId
    && (Exited in s.workers ==> s.fetched == total)
  }

  /** While somebody sleeps, pending wakeups and pending enqueues cover the takeable jobs. */
  ghost predicate InvWake(s: State) {
    Waiting in s.workers ==>
      Sum(s.jobs, IsTakeable(s.nextId)) <= Sum(s.workers, Is(Signalled)) + Sum(s.workers, Is(HoldsDecode))
  }

  /** A due steal sits in the queue only between an increment and that worker's next enqueue. */
  ghost predicate InvDue(s: State) {
    Steal(s.nextId) in s.jobs ==> HoldsDecode in s.workers
  }

  ghost predicate Inv(total: nat, limit: nat, s: State) {
    InvOrder(total, s) && InvTickets(total, limit, s) && InvWake(s) && InvDue(s)
  }
}
