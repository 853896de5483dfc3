/** What holds of whole runs: order, bounds, progress, completeness and termination. */
module CuRuns {
  import opened Sums
  import opened CuQueue
  import opened CuWorkers
  import opened CuInvariant

  // ----- whole runs -----

  ghost predicate IsRun(total: nat, s: State, run: seq<Action>)
    decreases |run|
  {
    run == [] || (Enabled(s, run[0]) && IsRun(total, Next(total, s, run[0]), run[1..]))
  }

  ghost function After(total: nat, s: State, run: seq<Action>): State
    requires IsRun(total, s, run)
    decreases |run|
  {
    if run == [] then s else After(total, Next(total, s, run[0]), run[1..])
  }

  lemma {:induction false} RunKeepsInv(total: nat, limit: nat, s: State, run: seq<Action>)
    requires Inv(total, limit, s) && IsRun(total, s, run)
    ensures Inv(total, limit, After(total, s, run))
    decreases |run|
  {
    if run != [] {
      NextKeepsInv(total, limit, s, run[0]);
      RunKeepsInv(total, limit, Next(total, s, run[0]), run[1..]);
    }
  }

  lemma {:induction false} RunKeepsWorkers(total: nat, s: State, run: seq<Action>)
    requires IsRun(total, s, run)
    ensures |After(total, s, run).workers| == |s.workers|
    decreases |run|
  {
    if run != [] {
      RunKeepsWorkers(total, Next(total, s, run[0]), run[1..]);
    }
  }

  /** Safety: in every interleaving CUs are stolen in file order and no two steals overlap. */
  lemma StealsInFileOrder(total: nat, nrJobs: int, run: seq<Action>)
    requires IsRun(total, Init(nrJobs), run)
    ensures var s := After(total, Init(nrJobs), run);
            && s.stolen == Iota(|s.stolen|) && |s.stolen| <= total
            && forall i, j :: 0 <= i < |s.workers| && 0 <= j < |s.workers| &&
                (s.workers[i].Stealing? || s.workers[i].Stolen?) && (s.workers[j].Stealing? || s.workers[j].Stolen?)
                ==> i == j
  {
    InitInv(total, nrJobs);
    RunKeepsInv(total, DecodedCusLimit(nrJobs), Init(nrJobs), run);
    var s := After(total, Init(nrJobs), run);
    forall i, j | 0 <= i < |s.workers| && 0 <= j < |s.workers| &&
        (s.workers[i].Stealing? || s.workers[i].Stolen?) && (s.workers[j].Stealing? || s.workers[j].Stolen?)
      ensures i == j
    {
      StealersExclude(total, s, i, j);
    }
    if Sum(s.workers, IsStolen()) > 0 {
      var i := SumWitness(s.workers, IsStolen());
      SumMember(s.workers, i, OwnsCu(s.nextId));
      assert Places(s, s.nextId) == Bit(s.nextId <= s.nextId < s.fetched);
      AtMostOneStolen(total, s, i);
    }
  }

  lemma AtMostOneStolen(total: nat, s: State, i: nat)
    requires InvOrder(total, s) && i < |s.workers| && s.workers[i].Stolen?
    ensures Sum(s.workers, IsStolen()) == 1
  {
    SumSplit(s.workers, i, IsStolen());
    forall j | 0 <= j < |s.workers| && j != i ensures !s.workers[j].Stolen? {
      if s.workers[j].Stolen? {
        StealersExclude(total, s, i, j);
      }
    }
    SumConstant(s.workers[..i], IsStolen(), 0);
    SumConstant(s.workers[i + 1..], IsStolen(), 0);
  }

  /** The ticket limit: CUs handed out and not yet stolen never exceed dwarf_loader__decoded_cus_limit. */
  lemma DecodedCusBounded(total: nat, nrJobs: int, run: seq<Action>)
    requires IsRun(total, Init(nrJobs), run)
    ensures var s := After(total, Init(nrJobs), run);
            && s.fetched - s.nextId <= DecodedCusLimit(nrJobs)
            && |s.jobs| + Sum(s.workers, HoldsTicket()) == DecodedCusLimit(nrJobs) - Sum(s.workers, Is(Exited))
  {
    InitInv(total, nrJobs);
    RunKeepsInv(total, DecodedCusLimit(nrJobs), Init(nrJobs), run);
    var s := After(total, Init(nrJobs), run);
    SumMonotone(s.workers, OwnsAnyCu(), HoldsTicket());
    SumBelowLength(s.jobs);
  }

  lemma {:induction false} SumBelowLength(jobs: seq<Job>)
    ensures Sum(jobs, IsSteal()) <= |jobs|
  {
    if jobs != [] {
      SumBelowLength(jobs[1..]);
    }
  }

  // ----- progress -----

  ghost predicate AllExited(s: State) {
    forall i :: 0 <= i < |s.workers| ==> s.workers[i] == Exited
  }

  /** A step some thread takes on its own, without a spurious wakeup. */
  ghost predicate CanStep(s: State) {
    exists a: Action :: !a.Spurious? && Enabled(s, a)
  }

  lemma StepOf(s: State, i: nat)
    requires i < |s.workers| && s.workers[i] != Waiting && s.workers[i] != Exited
    ensures CanStep(s)
  {
    match s.workers[i]
    case Starting => assert Enabled(s, EnqDeq(i, 0));
    case HoldsSteal(_) => PostEnabled(s, i);
    case HoldsDecode => PostEnabled(s, i);
    case Signalled => assert Enabled(s, Resume(i));
    case Decoding => assert Enabled(s, Fetch(i));
    case Stealing(_) => assert Enabled(s, FinishSteal(i));
    case Stolen(_) => assert Enabled(s, Increment(i));
  }

  lemma PostEnabled(s: State, i: nat)
    requires i < |s.workers| && (s.workers[i].HoldsSteal? || s.workers[i] == HoldsDecode)
    ensures CanStep(s)
  {
    var wake: nat := 0;
    if Waiting in s.workers {
      wake :| wake < |s.workers| && s.workers[wake] == Waiting;
    }
    assert Enabled(s, EnqDeq(i, wake));
  }

  /** When nobody owns a CU and no due steal is queued, no steal is queued at all. */
  lemma NoStealLeft(total: nat, s: State)
    requires InvOrder(total, s) && InvDue(s)
    requires forall i :: 0 <= i < |s.workers| ==> s.workers[i] in {Waiting, Exited}
    ensures s.nextId == s.fetched && forall j :: j in s.jobs ==> j == Decode
    ensures |s.stolen| == s.nextId
  {
    SumConstant(s.workers, IsStolen(), 0);
    SumConstant(s.workers, OwnsCu(s.nextId), 0);
    QueuedIsCount(s.jobs, s.nextId);
    assert Places(s, s.nextId) == Bit(s.nextId <= s.nextId < s.fetched);
    forall j | j in s.jobs ensures j == Decode {
      if j.Steal? {
        assert Places(s, j.cu) == Bit(s.nextId <= j.cu < s.fetched);
        QueuedIsCount(s.jobs, j.cu);
      }
    }
  }

  /** Deadlock freedom: unless all workers have exited, some worker can move without a spurious wakeup. */
  lemma NoDeadlock(total: nat, nrJobs: int, run: seq<Action>)
    requires IsRun(total, Init(nrJobs), run)
    requires !AllExited(After(total, Init(nrJobs), run))
    ensures CanStep(After(total, Init(nrJobs), run))
  {
    InitInv(total, nrJobs);
    RunKeepsInv(total, DecodedCusLimit(nrJobs), Init(nrJobs), run);
    RunKeepsWorkers(total, Init(nrJobs), run);
    NotStuck(total, DecodedCusLimit(nrJobs), After(total, Init(nrJobs), run));
  }

  lemma NotStuck(total: nat, limit: nat, s: State)
    requires Inv(total, limit, s) && !AllExited(s) && |s.workers| <= limit
    ensures CanStep(s)
  {
    if !CanStep(s) {
      forall i | 0 <= i < |s.workers| ensures s.workers[i] in {Waiting, Exited} {
        if s.workers[i] !in {Waiting, Exited} {
          StepOf(s, i);
        }
      }
      NoStealLeft(total, s);
      SumConstant(s.workers, Is(Signalled), 0);
      SumConstant(s.workers, Is(HoldsDecode), 0);
      SumConstant(s.workers, HoldsTicket(), 0);
      var i :| 0 <= i < |s.workers| && s.workers[i] == Waiting;
      SomeNotExited(s.workers, i);
    }
  }

  lemma {:induction false} SomeNotExited(ws: seq<Phase>, i: nat)
    requires i < |ws| && ws[i] != Exited
    ensures Sum(ws, Is(Exited)) < |ws|
  {
    SumSplit(ws, i, Is(Exited));
    ExitedBelowLength(ws[..i]);
    ExitedBelowLength(ws[i + 1..]);
  }

  lemma {:induction false} ExitedBelowLength(ws: seq<Phase>)
    ensures Sum(ws, Is(Exited)) <= |ws|
  {
    if ws != [] {
      ExitedBelowLength(ws[1..]);
    }
  }

  /** Completeness: a run that ends with all workers exited has stolen every CU once, in file order. */
  lemma FinishedRunIsComplete(total: nat, nrJobs: int, run: seq<Action>)
    requires IsRun(total, Init(nrJobs), run)
    requires AllExited(After(total, Init(nrJobs), run))
    ensures var s := After(total, Init(nrJobs), run);
            s.stolen == Iota(total) && s.jobs == seq(DecodedCusLimit(nrJobs) - NrWorkers(nrJobs), _ => Decode)
  {
    InitInv(total, nrJobs);
    RunKeepsInv(total, DecodedCusLimit(nrJobs), Init(nrJobs), run);
    RunKeepsWorkers(total, Init(nrJobs), run);
    var s := After(total, Init(nrJobs), run);
    NoStealLeft(total, s);
    assert s.workers[0] == Exited;
    SumConstant(s.workers, HoldsTicket(), 0);
    SumConstant(s.workers, Is(Exited), 1);
  }

  /** Hence any number of workers produces what a single worker produces. */
  lemma ParallelEqualsSequential(total: nat, nrJobs: int, run: seq<Action>, single: seq<Action>)
    requires IsRun(total, Init(nrJobs), run) && AllExited(After(total, Init(nrJobs), run))
    requires IsRun(total, Init(1), single) && AllExited(After(total, Init(1), single))
    ensures After(total, Init(nrJobs), run).stolen == After(total, Init(1), single).stolen
  {
    FinishedRunIsComplete(total, nrJobs, run);
    FinishedRunIsComplete(total, 1, single);
  }

  // ----- termination -----

  ghost function JobWork(): Job -> nat {
    (j: Job) => if j.Decode? then 1 else 5
  }

  ghost function PhaseWork(): Phase -> nat {
    (p: Phase) =>
      match p
      case Starting => 1
      case Signalled => 1
      case Waiting => 0
      case Exited => 0
      case Decoding => 1
      case HoldsSteal(_) => 7
      case Stealing(_) => 5
      case Stolen(_) => 4
      case HoldsDecode => 3
  }

  /** Work left in the system. */
  ghost function Work(total: nat, s: State): nat
    requires s.fetched <= total
  {
    7 * (total - s.fetched) + Sum(s.jobs, JobWork()) + Sum(s.workers, PhaseWork())
  }

  lemma GrabUsesWork(total: nat, s: State, i: nat)
    requires s.fetched <= total && i < |s.workers| && s.workers[i] == Signalled
    ensures Grab(s, i).fetched == s.fetched && Work(total, Grab(s, i)) < Work(total, s)
  {
    var k := FirstTakeable(s.jobs, s.nextId);
    SumUpdate(s.workers, i, Grab(s, i).workers[i], PhaseWork());
    if k < |s.jobs| {
      SumRemove(s.jobs, k, JobWork());
    }
  }

  lemma PostUsesWork(total: nat, s: State, i: nat, wake: nat)
    requires s.fetched <= total && Enabled(s, EnqDeq(i, wake))
    ensures var p := Post(s, i, wake);
            && p.fetched == s.fetched && i < |p.workers| && p.workers[i] == Signalled
            && Work(total, p) <= Work(total, s)
  {
    var ready := s.workers[i := Signalled];
    SumUpdate(s.workers, i, Signalled, PhaseWork());
    if s.workers[i] != Starting {
      AddJob(s.jobs, if s.workers[i].HoldsSteal? then Steal(s.workers[i].cu) else Decode, JobWork());
      if wake < |ready| && ready[wake] == Waiting {
        SumUpdate(ready, wake, Signalled, PhaseWork());
      }
    }
  }

  /** Every step but a spurious wakeup uses up work; a spurious wakeup adds one unit. */
  lemma StepUsesWork(total: nat, s: State, a: Action)
    requires s.fetched <= total && Enabled(s, a)
    ensures Next(total, s, a).fetched <= total
    ensures a.Spurious? ==> Work(total, Next(total, s, a)) == Work(total, s) + 1
    ensures !a.Spurious? ==> Work(total, Next(total, s, a)) < Work(total, s)
  {
    hide Post, Grab;
    match a
    case EnqDeq(i, wake) =>
      PostUsesWork(total, s, i, wake);
      GrabUsesWork(total, Post(s, i, wake), i);
    case Resume(i) => GrabUsesWork(total, s, i);
    case _ => MoveUsesWork(total, s, a);
  }

  lemma MoveUsesWork(total: nat, s: State, a: Action)
    requires s.fetched <= total && Enabled(s, a) && !a.EnqDeq? && !a.Resume?
    ensures Next(total, s, a).fetched <= total
    ensures a.Spurious? ==> Work(total, Next(total, s, a)) == Work(total, s) + 1
    ensures !a.Spurious? ==> Work(total, Next(total, s, a)) < Work(total, s)
  {
    SumUpdate(s.workers, a.i, Next(total, s, a).workers[a.i], PhaseWork());
  }

  ghost function IsSpurious(): Action -> nat { (a: Action) => Bit(a.Spurious?) }

  lemma {:induction false} RunUsesWork(total: nat, s: State, run: seq<Action>)
    requires s.fetched <= total && IsRun(total, s, run)
    ensures |run| <= Work(total, s) + 2 * Sum(run, IsSpurious())
    decreases |run|
  {
    if run != [] {
      StepUsesWork(total, s, run[0]);
      RunUsesWork(total, Next(total, s, run[0]), run[1..]);
    }
  }

  /**
   Termination: without spurious wakeups no run is longer than seven steps per CU plus one
   per ticket and per worker, and every spurious wakeup can add at most two steps.
   With NoDeadlock and FinishedRunIsComplete: the loader always finishes, having stolen everything.
   */
  lemma RunsAreBounded(total: nat, nrJobs: int, run: seq<Action>)
    requires IsRun(total, Init(nrJobs), run)
    ensures |run| <= 7 * total + DecodedCusLimit(nrJobs) + NrWorkers(nrJobs) + 2 * Sum(run, IsSpurious())
  {
    var s := Init(nrJobs);
    SumConstant(s.jobs, JobWork(), 1);
    SumConstant(s.workers, PhaseWork(), 1);
    RunUsesWork(total, s, run);
  }

  /** A run that nobody can extend on their own has finished the job. */
  lemma StuckMeansDone(total: nat, nrJobs: int, run: seq<Action>)
    requires IsRun(total, Init(nrJobs), run) && !CanStep(After(total, Init(nrJobs), run))
    ensures AllExited(After(total, Init(nrJobs), run))
    ensures After(total, Init(nrJobs), run).stolen == Iota(total)
  {
    if !AllExited(After(total, Init(nrJobs), run)) {
      NoDeadlock(total, nrJobs, run);
    }
    FinishedRunIsComplete(total, nrJobs, run);
  }

  /** From wherever the invariant holds the workers can finish, without any spurious wakeup. */
  lemma {:induction false} Finish(total: nat, limit: nat, s: State) returns (run: seq<Action>)
    requires Inv(total, limit, s) && |s.workers| <= limit
    ensures IsRun(total, s, run) && AllExited(After(total, s, run)) && forall a :: a in run ==> !a.Spurious?
    decreases if s.fetched <= total then Work(total, s) else 0
  {
    hide InvOrder, InvTickets, InvWake, InvDue, Next;
    assert s.fetched <= total by { FetchedWithin(total, limit, s); }
    if AllExited(s) {
      return [];
    }
    NotStuck(total, limit, s);
    var a: Action :| !a.Spurious? && Enabled(s, a);
    NextKeepsInv(total, limit, s, a);
    StepUsesWork(total, s, a);
    SameWorkers(total, s, a);
    var rest := Finish(total, limit, Next(total, s, a));
    run := [a] + rest;
    assert run[1..] == rest;
  }

  lemma FetchedWithin(total: nat, limit: nat, s: State)
    requires Inv(total, limit, s)
    ensures s.fetched <= total
  {
  }

  lemma SameWorkers(total: nat, s: State, a: Action)
    requires Enabled(s, a)
    ensures |Next(total, s, a).workers| == |s.workers|
  {
  }

  /** Every run can be extended to a finished one; so finished runs exist for every file and number of workers. */
  lemma EveryRunCanFinish(total: nat, nrJobs: int, run: seq<Action>) returns (more: seq<Action>)
    requires IsRun(total, Init(nrJobs), run)
    ensures IsRun(total, Init(nrJobs), run + more) && AllExited(After(total, Init(nrJobs), run + more))
  {
    InitInv(total, nrJobs);
    RunKeepsInv(total, DecodedCusLimit(nrJobs), Init(nrJobs), run);
    RunKeepsWorkers(total, Init(nrJobs), run);
    more := Finish(total, DecodedCusLimit(nrJobs), After(total, Init(nrJobs), run));
    RunThen(total, Init(nrJobs), run, more);
  }

  lemma {:induction false} RunThen(total: nat, s: State, run: seq<Action>, more: seq<Action>)
    requires IsRun(total, s, run) && IsRun(total, After(total, s, run), more)
    ensures IsRun(total, s, run + more) && After(total, s, run + more) == After(total, After(total, s, run), more)
    decreases |run|
  {
    hide Enabled, Next;
    if run == [] {
      assert run + more == more;
    } else {
      assert (run + more)[0] == run[0] && (run + more)[1..] == run[1..] + more;
      RunThen(total, Next(total, s, run[0]), run[1..], more);
    }
  }
}
