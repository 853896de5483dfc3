/** Every step of every worker keeps the queue's invariant. */
module CuInvariant {
  import opened Sums
  import opened CuQueue
  import opened CuWorkers

  // ----- the initial state -----

  lemma InitInv(total: nat, nrJobs: int)
    ensures Inv(total, DecodedCusLimit(nrJobs), Init(nrJobs))
  {
    var s := Init(nrJobs);
    SumConstant(s.workers, HoldsTicket(), 0);
    SumConstant(s.workers, Is(Exited), 0);
    SumConstant(s.workers, OwnsAnyCu(), 0);
    SumConstant(s.workers, IsStolen(), 0);
    SumConstant(s.jobs, IsSteal(), 0);
    forall c: nat ensures Places(s, c) == 0 {
      SumConstant(s.workers, OwnsCu(c), 0);
      SumConstant(s.jobs, IsStealOf(c), 0);
    }
  }

  // ----- preservation -----

  /** How every worker weight changes when worker `i` moves to phase `p`. */
  lemma MoveWorker(ws: seq<Phase>, i: nat, p: Phase)
    requires i < |ws|
    ensures forall c: nat :: Sum(ws[i := p], OwnsCu(c)) == Sum(ws, OwnsCu(c)) - OwnsCu(c)(ws[i]) + OwnsCu(c)(p)
    ensures forall q :: Sum(ws[i := p], Is(q)) == Sum(ws, Is(q)) - Is(q)(ws[i]) + Is(q)(p)
    ensures Sum(ws[i := p], OwnsAnyCu()) == Sum(ws, OwnsAnyCu()) - OwnsAnyCu()(ws[i]) + OwnsAnyCu()(p)
    ensures Sum(ws[i := p], HoldsTicket()) == Sum(ws, HoldsTicket()) - HoldsTicket()(ws[i]) + HoldsTicket()(p)
    ensures Sum(ws[i := p], IsStolen()) == Sum(ws, IsStolen()) - IsStolen()(ws[i]) + IsStolen()(p)
  {
    forall c: nat { SumUpdate(ws, i, p, OwnsCu(c)); }
    forall q { SumUpdate(ws, i, p, Is(q)); }
    SumUpdate(ws, i, p, OwnsAnyCu());
    SumUpdate(ws, i, p, HoldsTicket());
    SumUpdate(ws, i, p, IsStolen());
  }

  /** How the job weights change when a job is added. */
  lemma AddJob(jobs: seq<Job>, job: Job, f: Job -> nat)
    ensures Sum(Enqueue(jobs, job), f) == Sum(jobs, f) + f(job)
    ensures |Enqueue(jobs, job)| == |jobs| + 1
  {
    SumAppend(jobs, [job], f);
    SumAppend([job], jobs, f);
  }

  lemma PresenceIsCount(ws: seq<Phase>, p: Phase)
    ensures p in ws <==> Sum(ws, Is(p)) > 0
  {
    if p in ws {
      var i :| 0 <= i < |ws| && ws[i] == p;
      SumMember(ws, i, Is(p));
    }
    if Sum(ws, Is(p)) > 0 {
      var i := SumWitness(ws, Is(p));
    }
  }

  lemma QueuedIsCount(jobs: seq<Job>, c: nat)
    ensures Steal(c) in jobs <==> Sum(jobs, IsStealOf(c)) > 0
  {
    if Steal(c) in jobs {
      var i :| 0 <= i < |jobs| && jobs[i] == Steal(c);
      SumMember(jobs, i, IsStealOf(c));
    }
    if Sum(jobs, IsStealOf(c)) > 0 {
      var i := SumWitness(jobs, IsStealOf(c));
    }
  }

  lemma NothingTakeable(jobs: seq<Job>, nextId: nat)
    requires FirstTakeable(jobs, nextId) == |jobs|
    ensures Sum(jobs, IsTakeable(nextId)) == 0 && Steal(nextId) !in jobs
  {
    SumConstant(jobs, IsTakeable(nextId), 0);
  }

  /** Worker `i` looks for a job: this alone re-establishes InvDue. */
  lemma GrabKeepsInv(total: nat, limit: nat, s: State, i: nat)
    requires InvOrder(total, s) && InvTickets(total, limit, s) && InvWake(s)
    requires i < |s.workers| && s.workers[i] == Signalled
    ensures Inv(total, limit, Grab(s, i))
  {
    hide InvOrder, InvTickets, InvWake, InvDue, Grab;
    if FirstTakeable(s.jobs, s.nextId) == |s.jobs| {
      WaitKeepsInv(total, limit, s, i);
    } else {
      GrabbedOrder(total, s, i);
      GrabbedDue(total, s, i);
      GrabbedTickets(total, limit, s, i);
      GrabbedWake(total, s, i);
    }
  }

  lemma WaitKeepsInv(total: nat, limit: nat, s: State, i: nat)
    requires InvOrder(total, s) && InvTickets(total, limit, s) && InvWake(s)
    requires i < |s.workers| && s.workers[i] == Signalled && FirstTakeable(s.jobs, s.nextId) == |s.jobs|
    ensures Inv(total, limit, Grab(s, i))
  {
    hide Sum;
    var s' := Grab(s, i);
    MoveWorker(s.workers, i, Waiting);
    NothingTakeable(s.jobs, s.nextId);
    forall c: nat ensures Places(s', c) == Places(s, c) {}
  }

  /** What a worker that takes job `k` becomes. */
  lemma GrabbedWorker(s: State, i: nat) returns (k: nat, w: Phase)
    requires i < |s.workers| && FirstTakeable(s.jobs, s.nextId) < |s.jobs|
    ensures k == FirstTakeable(s.jobs, s.nextId) && Takeable(s.jobs[k], s.nextId)
    ensures w == if s.jobs[k].Steal? then Stealing(s.nextId) else Decoding
    ensures Grab(s, i) == s.(jobs := s.jobs[..k] + s.jobs[k + 1..], workers := s.workers[i := w])
  {
    k := FirstTakeable(s.jobs, s.nextId);
    w := if s.jobs[k].Steal? then Stealing(s.nextId) else Decoding;
  }

  lemma GrabbedPlaces(s: State, i: nat, c: nat)
    requires i < |s.workers| && s.workers[i] == Signalled && FirstTakeable(s.jobs, s.nextId) < |s.jobs|
    ensures Places(Grab(s, i), c) == Places(s, c)
  {
    hide Sum, Grab;
    var k, w := GrabbedWorker(s, i);
    SumUpdate(s.workers, i, w, OwnsCu(c));
    SumRemove(s.jobs, k, IsStealOf(c));
  }

  lemma GrabbedOrder(total: nat, s: State, i: nat)
    requires InvOrder(total, s)
    requires i < |s.workers| && s.workers[i] == Signalled && FirstTakeable(s.jobs, s.nextId) < |s.jobs|
    ensures InvOrder(total, Grab(s, i))
  {
    hide Sum, Grab, Places;
    var k, w := GrabbedWorker(s, i);
    SumUpdate(s.workers, i, w, IsStolen());
    forall c: nat ensures Places(Grab(s, i), c) == Bit(s.nextId <= c < s.fetched) {
      GrabbedPlaces(s, i, c);
    }
  }

  lemma GrabbedDue(total: nat, s: State, i: nat)
    requires InvOrder(total, s)
    requires i < |s.workers| && s.workers[i] == Signalled && FirstTakeable(s.jobs, s.nextId) < |s.jobs|
    ensures InvDue(Grab(s, i))
  {
    hide Sum, Grab;
    var s' := Grab(s, i);
    var k, w := GrabbedWorker(s, i);
    GrabbedPlaces(s, i, s.nextId);
    assert Places(s, s.nextId) <= 1;
    if Steal(s.nextId) in s'.jobs {
      QueuedIsCount(s'.jobs, s.nextId);
      DueStealWins(s.jobs, s.nextId);
      SumMember(s'.workers, i, OwnsCu(s.nextId));
    }
  }

  lemma GrabbedTickets(total: nat, limit: nat, s: State, i: nat)
    requires InvTickets(total, limit, s)
    requires i < |s.workers| && s.workers[i] == Signalled && FirstTakeable(s.jobs, s.nextId) < |s.jobs|
    ensures InvTickets(total, limit, Grab(s, i))
  {
    hide Sum, Grab;
    var k, w := GrabbedWorker(s, i);
    SumUpdate(s.workers, i, w, HoldsTicket());
    SumUpdate(s.workers, i, w, Is(Exited));
    SumUpdate(s.workers, i, w, OwnsAnyCu());
    SumRemove(s.jobs, k, IsSteal());
    PresenceIsCount(s.workers, Exited);
    PresenceIsCount(s.workers[i := w], Exited);
  }

  lemma GrabbedWake(total: nat, s: State, i: nat)
    requires InvWake(s)
    requires i < |s.workers| && s.workers[i] == Signalled && FirstTakeable(s.jobs, s.nextId) < |s.jobs|
    ensures InvWake(Grab(s, i))
  {
    hide Sum, Grab;
    var k, w := GrabbedWorker(s, i);
    SumUpdate(s.workers, i, w, Is(Waiting));
    SumUpdate(s.workers, i, w, Is(Signalled));
    SumUpdate(s.workers, i, w, Is(HoldsDecode));
    SumRemove(s.jobs, k, IsTakeable(s.nextId));
    PresenceIsCount(s.workers, Waiting);
    PresenceIsCount(s.workers[i := w], Waiting);
  }

  lemma SignalKeepsInv(total: nat, limit: nat, s: State, wake: nat)
    requires InvOrder(total, s) && InvTickets(total, limit, s)
    ensures InvOrder(total, s.(workers := Signal(s.workers, wake)))
    ensures InvTickets(total, limit, s.(workers := Signal(s.workers, wake)))
    ensures wake < |s.workers| && s.workers[wake] == Waiting ==>
              Sum(Signal(s.workers, wake), Is(Signalled)) == Sum(s.workers, Is(Signalled)) + 1
    ensures Sum(Signal(s.workers, wake), Is(HoldsDecode)) == Sum(s.workers, Is(HoldsDecode))
  {
    if wake < |s.workers| && s.workers[wake] == Waiting {
      MoveWorker(s.workers, wake, Signalled);
      var s' := s.(workers := Signal(s.workers, wake));
      forall c: nat ensures Places(s', c) == Places(s, c) {}
      PresenceIsCount(s.workers, Exited);
      PresenceIsCount(s'.workers, Exited);
    }
  }

  /** The state between the enqueue and the signal. */
  ghost function Enqueued(s: State, i: nat): State
    requires i < |s.workers|
  {
    var ready := s.(workers := s.workers[i := Signalled]);
    match s.workers[i]
    case HoldsSteal(cu) => ready.(jobs := Enqueue(s.jobs, Steal(cu)))
    case HoldsDecode => ready.(jobs := Enqueue(s.jobs, Decode))
    case _ => ready
  }

  lemma EnqueuedKeepsOrder(total: nat, s: State, i: nat)
    requires InvOrder(total, s) && i < |s.workers|
    requires s.workers[i].HoldsSteal? || s.workers[i] == HoldsDecode || s.workers[i] == Starting
    ensures InvOrder(total, Enqueued(s, i))
  {
    var s' := Enqueued(s, i);
    MoveWorker(s.workers, i, Signalled);
    forall c: nat ensures Places(s', c) == Places(s, c) {
      if s.workers[i] != Starting {
        AddJob(s.jobs, if s.workers[i].HoldsSteal? then Steal(s.workers[i].cu) else Decode, IsStealOf(c));
      }
    }
  }

  lemma EnqueuedKeepsInv(total: nat, limit: nat, s: State, i: nat)
    requires InvOrder(total, s) && InvTickets(total, limit, s)
    requires i < |s.workers|
    requires s.workers[i].HoldsSteal? || s.workers[i] == HoldsDecode || s.workers[i] == Starting
    ensures InvOrder(total, Enqueued(s, i)) && InvTickets(total, limit, Enqueued(s, i))
  {
    hide InvOrder;
    EnqueuedKeepsOrder(total, s, i);
    var s' := Enqueued(s, i);
    MoveWorker(s.workers, i, Signalled);
    PresenceIsCount(s.workers, Exited);
    PresenceIsCount(s'.workers, Exited);
    if s.workers[i] != Starting {
      AddJob(s.jobs, if s.workers[i].HoldsSteal? then Steal(s.workers[i].cu) else Decode, IsSteal());
    }
  }

  lemma PostKeepsInv(total: nat, limit: nat, s: State, i: nat, wake: nat)
    requires Inv(total, limit, s) && Enabled(s, EnqDeq(i, wake))
    ensures InvOrder(total, Post(s, i, wake)) && InvTickets(total, limit, Post(s, i, wake))
    ensures InvWake(Post(s, i, wake)) && Post(s, i, wake).workers[i] == Signalled
  {
    hide InvOrder, InvTickets;
    var e := Enqueued(s, i);
    var s' := Post(s, i, wake);
    EnqueuedKeepsInv(total, limit, s, i);
    MoveWorker(s.workers, i, Signalled);
    PresenceIsCount(s.workers, Waiting);
    PresenceIsCount(e.workers, Waiting);
    if s.workers[i] != Starting {
      SignalKeepsInv(total, limit, e, wake);
      var job := if s.workers[i].HoldsSteal? then Steal(s.workers[i].cu) else Decode;
      AddJob(s.jobs, job, IsTakeable(s.nextId));
    }
  }

  lemma FetchKeepsInv(total: nat, limit: nat, s: State, i: nat)
    requires Inv(total, limit, s) && Enabled(s, Fetch(i))
    ensures Inv(total, limit, Next(total, s, Fetch(i)))
  {
    var s' := Next(total, s, Fetch(i));
    MoveWorker(s.workers, i, s'.workers[i]);
    PresenceIsCount(s.workers, HoldsDecode);
    PresenceIsCount(s'.workers, HoldsDecode);
    PresenceIsCount(s.workers, Waiting);
    PresenceIsCount(s'.workers, Waiting);
    PresenceIsCount(s.workers, Exited);
    PresenceIsCount(s'.workers, Exited);
    forall c: nat ensures Places(s', c) == Bit(s'.nextId <= c < s'.fetched) {
      assert Places(s, c) == Bit(s.nextId <= c < s.fetched);
    }
  }

  lemma FinishStealKeepsInv(total: nat, limit: nat, s: State, i: nat)
    requires Inv(total, limit, s) && Enabled(s, FinishSteal(i))
    ensures Inv(total, limit, Next(total, s, FinishSteal(i)))
  {
    var s' := Next(total, s, FinishSteal(i));
    var cu := s.workers[i].cu;
    MoveWorker(s.workers, i, Stolen(cu));
    SameCountsSamePresence(s.workers, i, Stolen(cu));
    forall c: nat ensures Places(s', c) == Places(s, c) {}
    assert Sum(s.workers, IsStolen()) == 0 by {
      if Sum(s.workers, IsStolen()) > 0 {
        var j := SumWitness(s.workers, IsStolen());
        StealersExclude(total, s, i, j);
      }
    }
  }

  lemma SameCountsSamePresence(ws: seq<Phase>, i: nat, p: Phase)
    requires i < |ws|
    requires ws[i] !in {HoldsDecode, Waiting, Exited} && p !in {HoldsDecode, Waiting, Exited}
    ensures forall q :: q in {HoldsDecode, Waiting, Exited} ==> (q in ws <==> q in ws[i := p])
  {
    MoveWorker(ws, i, p);
    forall q | q in {HoldsDecode, Waiting, Exited} ensures q in ws <==> q in ws[i := p] {
      PresenceIsCount(ws, q);
      PresenceIsCount(ws[i := p], q);
    }
  }

  /** Steals never overlap: at most one worker is between taking a steal and incrementing the id. */
  lemma StealersExclude(total: nat, s: State, i: nat, j: nat)
    requires InvOrder(total, s)
    requires i < |s.workers| && j < |s.workers|
    requires s.workers[i].Stealing? || s.workers[i].Stolen?
    requires s.workers[j].Stealing? || s.workers[j].Stolen?
    ensures i == j
  {
    if i != j {
      var f := OwnsCu(s.nextId);
      assert Places(s, s.nextId) <= 1;
      var (a, b) := if i < j then (i, j) else (j, i);
      SumSplit(s.workers, b, f);
      SumMember(s.workers[..b], a, f);
    }
  }

  lemma IncrementKeepsOrder(total: nat, limit: nat, s: State, i: nat)
    requires Inv(total, limit, s) && Enabled(s, Increment(i))
    ensures InvOrder(total, Next(total, s, Increment(i)))
  {
    var s' := Next(total, s, Increment(i));
    MoveWorker(s.workers, i, HoldsDecode);
    SumMember(s.workers, i, OwnsCu(s.nextId));
    assert Places(s, s.nextId) == Bit(s.nextId <= s.nextId < s.fetched);
    forall c: nat ensures Places(s', c) == Bit(s'.nextId <= c < s'.fetched) {
      assert Places(s, c) == Bit(s.nextId <= c < s.fetched);
    }
    assert s'.workers[i] == HoldsDecode;
    forall j | 0 <= j < |s'.workers| ensures !s'.workers[j].Stealing? && !s'.workers[j].Stolen? {
      if s'.workers[j].Stealing? || s'.workers[j].Stolen? {
        StealersExclude(total, s, i, j);
      }
    }
  }

  lemma IncrementKeepsTickets(total: nat, limit: nat, s: State, i: nat)
    requires Inv(total, limit, s) && Enabled(s, Increment(i))
    ensures InvTickets(total, limit, Next(total, s, Increment(i)))
  {
    var s' := Next(total, s, Increment(i));
    MoveWorker(s.workers, i, HoldsDecode);
    PresenceIsCount(s.workers, Exited);
    PresenceIsCount(s'.workers, Exited);
    SumMember(s.workers, i, OwnsCu(s.nextId));
    assert Places(s, s.nextId) == Bit(s.nextId <= s.nextId < s.fetched);
  }

  lemma IncrementKeepsInv(total: nat, limit: nat, s: State, i: nat)
    requires Inv(total, limit, s) && Enabled(s, Increment(i))
    ensures Inv(total, limit, Next(total, s, Increment(i)))
  {
    hide InvOrder, InvTickets, InvWake, InvDue, Next;
    IncrementKeepsOrder(total, limit, s, i);
    IncrementKeepsTickets(total, limit, s, i);
    IncrementKeepsWake(total, limit, s, i);
  }

  lemma IncrementKeepsWake(total: nat, limit: nat, s: State, i: nat)
    requires Inv(total, limit, s) && Enabled(s, Increment(i))
    ensures InvWake(Next(total, s, Increment(i))) && InvDue(Next(total, s, Increment(i)))
  {
    var s' := Next(total, s, Increment(i));
    assert Places(s, s.nextId + 1) == Bit(s.nextId <= s.nextId + 1 < s.fetched);
    hide InvOrder, InvTickets, Sum;
    SumUpdate(s.workers, i, HoldsDecode, Is(Waiting));
    SumUpdate(s.workers, i, HoldsDecode, Is(Signalled));
    SumUpdate(s.workers, i, HoldsDecode, Is(HoldsDecode));
    PresenceIsCount(s.workers, Waiting);
    PresenceIsCount(s'.workers, Waiting);
    assert s'.workers[i] == HoldsDecode;
    TakeableGrowth(s.jobs, s.nextId);
  }

  /** Moving on to the next id makes at most one more job takeable. */
  lemma {:induction false} TakeableGrowth(jobs: seq<Job>, nextId: nat)
    ensures Sum(jobs, IsTakeable(nextId + 1)) <= Sum(jobs, IsTakeable(nextId)) + Sum(jobs, IsStealOf(nextId + 1))
  {
    if jobs != [] {
      TakeableGrowth(jobs[1..], nextId);
    }
  }

  lemma SpuriousKeepsInv(total: nat, limit: nat, s: State, i: nat)
    requires Inv(total, limit, s) && Enabled(s, Spurious(i))
    ensures Inv(total, limit, Next(total, s, Spurious(i)))
  {
    SignalKeepsInv(total, limit, s, i);
    var s' := Next(total, s, Spurious(i));
    PresenceIsCount(s.workers, HoldsDecode);
    PresenceIsCount(s'.workers, HoldsDecode);
  }

  /** Every step keeps the whole invariant. */
  lemma NextKeepsInv(total: nat, limit: nat, s: State, a: Action)
    requires Inv(total, limit, s) && Enabled(s, a)
    ensures Inv(total, limit, Next(total, s, a))
  {
    match a
    case EnqDeq(i, wake) =>
      PostKeepsInv(total, limit, s, i, wake);
      GrabKeepsInv(total, limit, Post(s, i, wake), i);
    case Resume(i) => GrabKeepsInv(total, limit, s, i);
    case Fetch(i) => FetchKeepsInv(total, limit, s, i);
    case FinishSteal(i) => FinishStealKeepsInv(total, limit, s, i);
    case Increment(i) => IncrementKeepsInv(total, limit, s, i);
    case Spurious(i) => SpuriousKeepsInv(total, limit, s, i);
  }
}
