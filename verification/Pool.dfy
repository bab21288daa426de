/** The pool object of src/pool.c: a ring of linked cells, closed by the head
    cell, and the critical sections of its threads. Addresses are numbers; an
    address that was freed may be handed out again. */
module Pool {
  import opened PoolSystem
  import opened Wrappers

  type Ptr = nat

  const HEAD: Ptr := 0  // jobs_head
  const TERM: Ptr := 1  // terminate

  datatype Cell = Cell(next: Ptr, prev: Ptr, payload: nat)

  // ---- The ring is a sequence --------------------------------------------

  /** Cell k of the ring, the head being cell 0 and also the one after the last. */
  function Nth(q: seq<Ptr>, k: nat): Ptr {
    if 0 < k <= |q| then q[k - 1] else HEAD
  }

  ghost predicate Linked(cells: map<Ptr, Cell>, q: seq<Ptr>, k: nat) {
    && Nth(q, k) in cells && Nth(q, k + 1) in cells
    && cells[Nth(q, k)].next == Nth(q, k + 1)
    && cells[Nth(q, k + 1)].prev == Nth(q, k)
  }

  ghost predicate Ring(cells: map<Ptr, Cell>, q: seq<Ptr>) {
    && HEAD !in q
    && (forall i, j :: 0 <= i < j < |q| ==> q[i] != q[j])
    && (forall k: nat :: k <= |q| ==> Linked(cells, q, k))
  }

  /** The cells of the ring in an emptied or unlinked state are the same. */
  lemma RingEnds(cells: map<Ptr, Cell>, q: seq<Ptr>)
    requires Ring(cells, q)
    ensures HEAD in cells && cells[HEAD].next == Nth(q, 1)
    ensures cells[HEAD].prev == if q == [] then HEAD else q[|q| - 1]
    ensures forall p :: p in q ==> p in cells
  {
    assert Linked(cells, q, 0) && Linked(cells, q, |q|);
    forall p | p in q ensures p in cells {
      var i :| 0 <= i < |q| && q[i] == p;
      assert Linked(cells, q, i);
    }
  }

  /** The pointer writes that put a cell before the head. */
  function Pushed(cells: map<Ptr, Cell>, task: Ptr, payload: nat): map<Ptr, Cell>
    requires HEAD in cells && cells[HEAD].prev in cells && task != HEAD
  {
    var last := cells[HEAD].prev;
    var a := cells[task := Cell(HEAD, last, payload)];
    var b := a[last := a[last].(next := task)];
    b[HEAD := b[HEAD].(prev := task)]
  }

  lemma PushedRing(cells: map<Ptr, Cell>, q: seq<Ptr>, task: Ptr, payload: nat)
    requires Ring(cells, q) && task !in q && task != HEAD
    ensures HEAD in cells && cells[HEAD].prev in cells
    ensures Ring(Pushed(cells, task, payload), q + [task])
  {
    RingEnds(cells, q);
    var c, r := Pushed(cells, task, payload), q + [task];
    forall k: nat | k <= |r| ensures Linked(c, r, k) {
      assert k <= |q| ==> Linked(cells, q, k);
      if k < |q| {
        assert Nth(r, k) == Nth(q, k) && Nth(r, k + 1) == Nth(q, k + 1);
        assert Nth(q, k) != Nth(q, |q|) || k == |q|;
      }
    }
  }

  /** The pointer writes that take the first cell out. */
  function Popped(cells: map<Ptr, Cell>, job: Ptr): map<Ptr, Cell>
    requires job in cells && cells[job].prev in cells && cells[job].next in cells
  {
    var a := cells[cells[job].prev := cells[cells[job].prev].(next := cells[job].next)];
    a[a[job].next := a[a[job].next].(prev := a[job].prev)]
  }

  lemma PoppedRing(cells: map<Ptr, Cell>, q: seq<Ptr>)
    requires Ring(cells, q) && q != []
    ensures q[0] in cells && cells[q[0]].prev in cells && cells[q[0]].next in cells
    ensures Ring(Popped(cells, q[0]), q[1..])
    ensures Popped(cells, q[0]).Keys == cells.Keys
    ensures forall p :: p in cells ==> Popped(cells, q[0])[p].payload == cells[p].payload
  {
    assert Linked(cells, q, 0) && Linked(cells, q, 1);
    var c, r := Popped(cells, q[0]), q[1..];
    forall k: nat | k <= |r| ensures Linked(c, r, k) {
      assert Linked(cells, q, k + 1);
      assert k > 0 ==> Nth(r, k) == Nth(q, k + 1);
      assert Nth(r, k + 1) == Nth(q, k + 2);
    }
  }

  /** What is outside of the ring makes no difference to it. */
  lemma FreedRing(cells: map<Ptr, Cell>, q: seq<Ptr>, job: Ptr)
    requires Ring(cells, q) && job !in q && job != HEAD
    ensures Ring(cells - {job}, q)
  {
    forall k: nat | k <= |q| ensures Linked(cells - {job}, q, k) {
      assert Linked(cells, q, k);
    }
  }

  // ---- Pool states -------------------------------------------------------

  /** The fields of the pool, and what they stand for. */
  datatype Snapshot = Snapshot(
    cells: map<Ptr, Cell>,
    workers: seq<Worker>,  // Running(job) by the address of its cell
    jobs: seq<Ptr>,        // the cells in the ring
    term: bool,
    dispatched: nat,
    started: nat,
    handled: seq<nat>)
  {
    ghost function RingCells(): seq<Ptr> {
      if term then jobs + [TERM] else jobs
    }

    ghost function JobOf(p: Ptr): nat {
      if p in cells then cells[p].payload else 0
    }

    ghost function WorkerAt(i: nat): Worker
      requires i < |workers|
    {
      if workers[i].Running? then Running(JobOf(workers[i].job)) else workers[i]
    }

    ghost function Meaning(): Sys {
      Sys(seq(|jobs|, k requires 0 <= k < |jobs| => JobOf(jobs[k])), term,
          seq(|workers|, i requires 0 <= i < |workers| => WorkerAt(i)), dispatched, started, handled)
    }

    ghost predicate HeldBy(p: Ptr, i: nat) {
      i < |workers| && workers[i] == Running(p)
    }

    /** The ring is right, and nothing is leaked or freed too early. */
    ghost predicate MemoryOk() {
      && Ring(cells, RingCells())
      && HEAD in cells && TERM in cells
      && (forall p :: p in jobs ==> p > TERM)
      && (forall i: nat, p: Ptr :: HeldBy(p, i) ==> p in cells && p > TERM && p !in jobs)
      && (forall p: Ptr :: p in cells ==> p <= TERM || p in jobs || exists i: nat :: HeldBy(p, i))
    }

    ghost predicate Valid() {
      MemoryOk() && Inv(Meaning())
    }
  }

  lemma RingInCells(s: Snapshot)
    requires s.MemoryOk()
    ensures HEAD in s.cells && s.cells[HEAD].prev in s.cells
    ensures s.cells[HEAD].next == if s.jobs != [] then s.jobs[0] else if s.term then TERM else HEAD
    ensures s.jobs != [] ==> s.jobs[0] > TERM
    ensures forall p :: p in s.jobs ==> p in s.cells
  {
    RingEnds(s.cells, s.RingCells());
    assert s.jobs != [] ==> s.jobs[0] in s.jobs;
    assert forall p :: p in s.jobs ==> p in s.RingCells();
  }

  /** The jobs other workers hold are still what they were. */
  ghost predicate SameJobs(s: Snapshot, s': Snapshot, but: int) {
    forall j: nat, p: Ptr :: s.HeldBy(p, j) && j != but ==> s'.JobOf(p) == s.JobOf(p)
  }

  lemma OneWorker(s: Snapshot, s': Snapshot, i: nat, w: Worker)
    requires i < |s.workers| && s'.workers == s.workers[i := w] && SameJobs(s, s', i)
    ensures s'.Meaning().workers == s.Meaning().workers[i := s'.WorkerAt(i)]
  {
    forall j: nat | j < |s.workers| && j != i ensures s'.WorkerAt(j) == s.WorkerAt(j) {
      if s.workers[j].Running? {
        assert s.HeldBy(s.workers[j].job, j);
      }
    }
  }

  lemma NoWorker(s: Snapshot, s': Snapshot)
    requires s'.workers == s.workers && SameJobs(s, s', -1)
    ensures s'.Meaning().workers == s.Meaning().workers
  {
    forall j: nat | j < |s.workers| ensures s'.WorkerAt(j) == s.WorkerAt(j) {
      if s.workers[j].Running? {
        assert s.HeldBy(s.workers[j].job, j);
      }
    }
  }

  lemma DispatchMeans(s: Snapshot, s': Snapshot, task: Ptr, signalled: Option<nat>)
    requires s.MemoryOk() && Enabled(s.Meaning(), Dispatch(signalled))
    requires task !in s.cells && task > TERM
    requires HEAD in s.cells && s.cells[HEAD].prev in s.cells
    requires s' == Snapshot(Pushed(s.cells, task, s.dispatched),
                            if signalled.Some? then s.workers[signalled.value := Woken] else s.workers,
                            s.jobs + [task], false, s.dispatched + 1, s.started, s.handled)
    ensures s'.Meaning() == Apply(s.Meaning(), Dispatch(signalled))
  {
    RingInCells(s);
    assert SameJobs(s, s', -1);
    match signalled
    case Some(i) => OneWorker(s, s', i, Woken);
    case None => NoWorker(s, s');
    assert s'.Meaning().queue == s.Meaning().queue + [s.dispatched];
  }

  lemma DispatchMemory(s: Snapshot, s': Snapshot, task: Ptr, signalled: Option<nat>)
    requires s.MemoryOk() && !s.term
    requires signalled.Some? ==> signalled.value < |s.workers| && s.workers[signalled.value].Waiting?
    requires task !in s.cells && task > TERM
    requires HEAD in s.cells && s.cells[HEAD].prev in s.cells
    requires s' == Snapshot(Pushed(s.cells, task, s.dispatched),
                            if signalled.Some? then s.workers[signalled.value := Woken] else s.workers,
                            s.jobs + [task], false, s.dispatched + 1, s.started, s.handled)
    ensures s'.MemoryOk()
  {
    RingInCells(s);
    PushedRing(s.cells, s.jobs, task, s.dispatched);
    assert forall i: nat, p: Ptr :: s'.HeldBy(p, i) <==> s.HeldBy(p, i);
    forall p: Ptr | p in s'.cells ensures p <= TERM || p in s'.jobs || exists i: nat :: s'.HeldBy(p, i) {
      assert s'.jobs[|s.jobs|] == task;
    }
  }

  /** pool_dispatch: `task` is the address malloc returned. */
  lemma DispatchKeeps(s: Snapshot, s': Snapshot, task: Ptr, signalled: Option<nat>)
    requires s.Valid() && Enabled(s.Meaning(), Dispatch(signalled))
    requires task !in s.cells && task > TERM
    requires HEAD in s.cells && s.cells[HEAD].prev in s.cells
    requires s' == Snapshot(Pushed(s.cells, task, s.dispatched),
                            if signalled.Some? then s.workers[signalled.value := Woken] else s.workers,
                            s.jobs + [task], false, s.dispatched + 1, s.started, s.handled)
    ensures s'.Valid() && s'.Meaning() == Apply(s.Meaning(), Dispatch(signalled))
  {
    DispatchMeans(s, s', task, signalled);
    DispatchMemory(s, s', task, signalled);
    StepKeepsInv(s.Meaning(), Dispatch(signalled));
  }

  lemma JoinRing(s: Snapshot, payload: nat)
    requires s.MemoryOk() && !s.term && HEAD in s.cells && s.cells[HEAD].prev in s.cells
    ensures var c := Pushed(s.cells, TERM, payload);
            && Ring(c, s.jobs + [TERM]) && c.Keys == s.cells.Keys
            && forall p :: p in s.cells && p > TERM ==> c[p].payload == s.cells[p].payload
  {
    PushedRing(s.cells, s.jobs, TERM, payload);
  }

  /** Waking does not change who holds what. */
  lemma SameHands(s: Snapshot, s': Snapshot)
    requires s'.workers == WakeAll(s.workers)
    ensures forall i: nat, p: Ptr :: s'.HeldBy(p, i) <==> s.HeldBy(p, i)
  {
  }

  lemma JoinMeans(s: Snapshot, s': Snapshot, payload: nat)
    requires s.MemoryOk() && !s.term && HEAD in s.cells && s.cells[HEAD].prev in s.cells
    requires s' == s.(cells := Pushed(s.cells, TERM, payload), workers := WakeAll(s.workers), term := true)
    ensures s'.Meaning() == Apply(s.Meaning(), Join)
  {
    hide Ring, Pushed;
    RingInCells(s);
    JoinRing(s, payload);
    forall j: nat | j < |s.workers| ensures s'.Meaning().workers[j] == WakeAll(s.Meaning().workers)[j] {
      if s.workers[j].Running? {
        assert s.HeldBy(s.workers[j].job, j);
      }
    }
    assert s'.Meaning().workers == WakeAll(s.Meaning().workers);
    forall k: nat | k < |s.jobs| ensures s'.JobOf(s.jobs[k]) == s.JobOf(s.jobs[k]) {
      assert s.jobs[k] in s.jobs;
    }
    assert s'.Meaning().queue == s.Meaning().queue;
  }

  lemma JoinKeeps(s: Snapshot, s': Snapshot, payload: nat)
    requires s.Valid() && !s.term
    requires HEAD in s.cells && s.cells[HEAD].prev in s.cells
    requires s' == s.(cells := Pushed(s.cells, TERM, payload), workers := WakeAll(s.workers), term := true)
    ensures s'.Valid() && s'.Meaning() == Apply(s.Meaning(), Join)
  {
    hide Ring, Inv, Pushed;
    RingInCells(s);
    JoinRing(s, payload);
    SameHands(s, s');
    JoinMeans(s, s', payload);
    StepKeepsInv(s.Meaning(), Join);
  }

  /** A worker that finds the ring empty waits; one that finds the terminate cell
      first exits; both leave the ring alone. */
  lemma LookKeeps(s: Snapshot, s': Snapshot, i: nat)
    requires s.Valid() && i < |s.workers| && Looking(s.workers[i]) && s.jobs == []
    requires s' == s.(workers := s.workers[i := if s.term then Exited else Waiting])
    ensures s'.Valid() && s'.Meaning() == Apply(s.Meaning(), Check(i))
  {
    OneWorker(s, s', i, s'.workers[i]);
    assert s'.Meaning().queue == s.Meaning().queue;
    SameHolders(s, s', i);
    StepKeepsInv(s.Meaning(), Check(i));
  }

  lemma SameHolders(s: Snapshot, s': Snapshot, i: nat)
    requires s.MemoryOk() && i < |s.workers| && !s.workers[i].Running?
    requires s' == s.(workers := s'.workers) && |s'.workers| == |s.workers| && !s'.workers[i].Running?
    requires s'.workers == s.workers[i := s'.workers[i]]
    ensures s'.MemoryOk()
  {
    assert forall j: nat, p: Ptr :: s'.HeldBy(p, j) <==> s.HeldBy(p, j);
  }

  lemma TakeMeans(s: Snapshot, s': Snapshot, i: nat, job: Ptr)
    requires s.MemoryOk() && InOrder(s.Meaning()) && i < |s.workers| && Looking(s.workers[i])
    requires s.jobs != [] && job == s.jobs[0]
    requires job in s.cells && s.cells[job].prev in s.cells && s.cells[job].next in s.cells
    requires s' == s.(cells := Popped(s.cells, job), jobs := s.jobs[1..], workers := s.workers[i := Running(job)],
                      started := s.started + 1)
    ensures s'.Meaning() == Apply(s.Meaning(), Check(i))
  {
    RingInCells(s);
    PoppedRing(s.cells, s.RingCells());
    OneWorker(s, s', i, Running(job));
    assert s'.Meaning().queue == s.Meaning().queue[1..];
  }

  lemma TakeHolds(s: Snapshot, s': Snapshot, i: nat, job: Ptr)
    requires i < |s.workers| && Looking(s.workers[i]) && s'.workers == s.workers[i := Running(job)]
    ensures forall p: Ptr :: !s.HeldBy(p, i) && (s'.HeldBy(p, i) <==> p == job)
    ensures forall j: nat, p: Ptr :: j != i ==> (s'.HeldBy(p, j) <==> s.HeldBy(p, j))
  {
  }

  /** The cells workers hold are live and out of the ring. */
  lemma TakeKeepsHeld(s: Snapshot, s': Snapshot, i: nat, job: Ptr)
    requires s.MemoryOk() && i < |s.workers| && Looking(s.workers[i])
    requires s'.workers == s.workers[i := Running(job)] && s'.cells.Keys == s.cells.Keys && job in s.cells
    requires job > TERM && job !in s'.jobs && forall p :: p in s'.jobs ==> p in s.jobs
    ensures forall j: nat, p: Ptr :: s'.HeldBy(p, j) ==> p in s'.cells && p > TERM && p !in s'.jobs
  {
    hide Ring;
    TakeHolds(s, s', i, job);
  }

  /** No live cell is lost. */
  lemma TakeKeepsCells(s: Snapshot, s': Snapshot, i: nat, job: Ptr)
    requires s.MemoryOk() && i < |s.workers| && Looking(s.workers[i])
    requires s'.workers == s.workers[i := Running(job)] && s'.cells.Keys == s.cells.Keys
    requires forall p :: p in s.jobs ==> p == job || p in s'.jobs
    ensures forall p: Ptr :: p in s'.cells ==> p <= TERM || p in s'.jobs || exists j: nat :: s'.HeldBy(p, j)
  {
    hide Ring;
    TakeHolds(s, s', i, job);
    forall p: Ptr | p in s'.cells && p > TERM && p !in s'.jobs ensures exists j: nat :: s'.HeldBy(p, j) {
      if p == job {
        assert s'.HeldBy(p, i);
      } else {
        var j: nat :| s.HeldBy(p, j);
        assert s'.HeldBy(p, j);
      }
    }
  }

  lemma TakeMemory(s: Snapshot, s': Snapshot, i: nat, job: Ptr)
    requires s.MemoryOk() && i < |s.workers| && Looking(s.workers[i])
    requires s.jobs != [] && job == s.jobs[0]
    requires job in s.cells && s.cells[job].prev in s.cells && s.cells[job].next in s.cells
    requires s' == s.(cells := Popped(s.cells, job), jobs := s.jobs[1..], workers := s.workers[i := Running(job)],
                      started := s.started + 1)
    ensures s'.MemoryOk()
  {
    hide Ring, Popped;
    TakeRing(s, s', job);
    assert forall p :: p in s'.jobs ==> p in s.jobs;
    TakeKeepsHeld(s, s', i, job);
    TakeKeepsCells(s, s', i, job);
  }

  lemma TakeRing(s: Snapshot, s': Snapshot, job: Ptr)
    requires s.MemoryOk() && s.jobs != [] && job == s.jobs[0]
    requires job in s.cells && s.cells[job].prev in s.cells && s.cells[job].next in s.cells
    requires s'.cells == Popped(s.cells, job) && s'.jobs == s.jobs[1..] && s'.term == s.term
    ensures Ring(s'.cells, s'.RingCells()) && s'.cells.Keys == s.cells.Keys
    ensures job > TERM && job !in s'.jobs && forall p :: p in s.jobs ==> p == job || p in s'.jobs
  {
    PoppedRing(s.cells, s.RingCells());
    assert s.RingCells()[1..] == s'.RingCells();
    assert s.jobs[0] in s.jobs;
    FirstOnce(s.jobs, s.RingCells());
  }

  lemma FirstOnce(jobs: seq<Ptr>, ring: seq<Ptr>)
    requires jobs != [] && jobs <= ring
    requires forall i, j :: 0 <= i < j < |ring| ==> ring[i] != ring[j]
    ensures jobs[0] !in jobs[1..] && forall p :: p in jobs ==> p == jobs[0] || p in jobs[1..]
  {
    forall k | 0 <= k < |jobs| - 1 ensures jobs[1..][k] != jobs[0] {
      assert jobs[1..][k] == ring[k + 1] && jobs[0] == ring[0];
    }
    assert jobs == [jobs[0]] + jobs[1..];
  }

  lemma TakeKeeps(s: Snapshot, s': Snapshot, i: nat, job: Ptr)
    requires s.Valid() && i < |s.workers| && Looking(s.workers[i])
    requires s.jobs != [] && job == s.jobs[0]
    requires job in s.cells && s.cells[job].prev in s.cells && s.cells[job].next in s.cells
    requires s' == s.(cells := Popped(s.cells, job), jobs := s.jobs[1..], workers := s.workers[i := Running(job)],
                      started := s.started + 1)
    ensures s'.Valid() && s'.Meaning() == Apply(s.Meaning(), Check(i))
  {
    TakeMeans(s, s', i, job);
    TakeMemory(s, s', i, job);
    StepKeepsInv(s.Meaning(), Check(i));
  }

  lemma WakeKeeps(s: Snapshot, s': Snapshot, i: nat)
    requires s.Valid() && i < |s.workers| && s.workers[i].Waiting?
    requires s' == s.(workers := s.workers[i := Woken])
    ensures s'.Valid() && s'.Meaning() == Apply(s.Meaning(), Wake(i))
  {
    OneWorker(s, s', i, Woken);
    assert s'.Meaning().queue == s.Meaning().queue;
    SameHolders(s, s', i);
    StepKeepsInv(s.Meaning(), Wake(i));
  }

  /** Two workers never hold the same cell, so freeing one's job hurts nobody. */
  lemma OneHolder(s: Snapshot, i: nat, j: nat, p: Ptr)
    requires s.Valid() && s.HeldBy(p, i) && s.HeldBy(p, j)
    ensures i == j
  {
    assert RunBy(s.Meaning(), i, s.JobOf(p)) && RunBy(s.Meaning(), j, s.JobOf(p));
  }

  lemma FinishKeeps(s: Snapshot, s': Snapshot, i: nat, job: Ptr)
    requires s.Valid() && s.HeldBy(job, i)
    requires s' == s.(cells := s.cells - {job}, workers := s.workers[i := AtTop], handled := s.handled + [s.JobOf(job)])
    ensures s'.Valid() && s'.Meaning() == Apply(s.Meaning(), Finish(i))
  {
    FreedRing(s.cells, s.RingCells(), job);
    forall j: nat, p: Ptr | s.HeldBy(p, j) && j != i ensures p != job {
      if p == job {
        OneHolder(s, i, j, p);
      }
    }
    OneWorker(s, s', i, AtTop);
    assert s'.Meaning().queue == s.Meaning().queue;
    assert forall j: nat, p: Ptr :: s'.HeldBy(p, j) <==> j != i && s.HeldBy(p, j);
    forall p: Ptr | p in s'.cells ensures p <= TERM || p in s'.jobs || exists j: nat :: s'.HeldBy(p, j) {
      if p > TERM && p !in s.jobs {
        var j: nat :| s.HeldBy(p, j);
        assert s'.HeldBy(p, j);
      }
    }
    StepKeepsInv(s.Meaning(), Finish(i));
  }

  // ---- The pool object ---------------------------------------------------

  class Pool {
    var cells: map<Ptr, Cell>
    var workers: seq<Worker>  // where each permanent worker is in worker_routine
    ghost var jobs: seq<Ptr>
    ghost var term: bool
    ghost var dispatched: nat
    ghost var started: nat
    ghost var handled: seq<nat>

    ghost function Now(): Snapshot
      reads this
    {
      Snapshot(cells, workers, jobs, term, dispatched, started, handled)
    }

    ghost predicate Valid()
      reads this
    {
      Now().Valid()
    }

    /** The abstract state, in job numbers. */
    ghost function State(): Sys
      reads this
    {
      Now().Meaning()
    }

    /** pool_create, when every thread is created. */
    constructor (nthreads: int)
      ensures Valid() && State() == Created(if nthreads < 0 then 0 else nthreads)
    {
      cells := map[HEAD := Cell(HEAD, HEAD, 0), TERM := Cell(HEAD, HEAD, 0)];
      workers := Repeat(AtTop, if nthreads < 0 then 0 else nthreads);
      jobs, term, dispatched, started, handled := [], false, 0, 0, [];
    }

    /** pool_dispatch, given the address malloc returned and whom the signal wakes. */
    method Dispatch(task: Ptr, payload: nat, signalled: Option<nat>)
      requires Valid() && task !in cells && task > TERM && payload == dispatched
      requires Enabled(State(), Event.Dispatch(signalled))
      modifies this
      ensures Valid() && State() == Apply(old(State()), Event.Dispatch(signalled))
    {
      ghost var was := Now();
      RingInCells(was);
      cells := cells[task := Cell(HEAD, cells[HEAD].prev, payload)];
      var last := cells[HEAD].prev;
      cells := cells[last := cells[last].(next := task)];
      cells := cells[HEAD := cells[HEAD].(prev := task)];
      jobs, dispatched := jobs + [task], dispatched + 1;
      if signalled.Some? {
        workers := workers[signalled.value := Woken];
      }
      DispatchKeeps(was, Now(), task, signalled);
    }

    /** The critical section of pool_join: the terminate cell closes the ring,
        and everybody wakes. */
    method Join()
      requires Valid() && Enabled(State(), Event.Join)
      modifies this
      ensures Valid() && State() == Apply(old(State()), Event.Join)
    {
      ghost var was := Now();
      RingInCells(was);
      cells := cells[TERM := Cell(HEAD, cells[HEAD].prev, cells[TERM].payload)];
      var last := cells[HEAD].prev;
      cells := cells[last := cells[last].(next := TERM)];
      cells := cells[HEAD := cells[HEAD].(prev := TERM)];
      workers := WakeAll(workers);
      term := true;
      JoinKeeps(was, Now(), was.cells[TERM].payload);
    }

    /** Lines 106-110: the first cell leaves the ring for worker i. */
    method Take(i: nat)
      requires Valid() && i < |workers| && Looking(workers[i]) && jobs != []
      modifies this
      ensures Valid() && State() == Apply(old(State()), Event.Check(i))
    {
      hide Inv, Ring;
      ghost var was := Now();
      RingInCells(was);
      var job := cells[HEAD].next;
      PoppedRing(cells, was.RingCells());
      cells := cells[cells[job].prev := cells[cells[job].prev].(next := cells[job].next)];
      cells := cells[cells[job].next := cells[cells[job].next].(prev := cells[job].prev)];
      workers := workers[i := Running(job)];
      jobs, started := jobs[1..], started + 1;
      TakeKeeps(was, Now(), i, job);
    }

    /** One pass of worker i over the top of worker_routine, mutex held. */
    method Check(i: nat)
      requires Valid() && Enabled(State(), Event.Check(i))
      modifies this
      ensures Valid() && State() == Apply(old(State()), Event.Check(i))
    {
      hide Inv, Ring;
      ghost var was := Now();
      RingInCells(was);
      if cells[HEAD].next == HEAD {
        workers := workers[i := Waiting];
        LookKeeps(was, Now(), i);
      } else if cells[HEAD].next == TERM {
        workers := workers[i := Exited];
        LookKeeps(was, Now(), i);
      } else {
        Take(i);
      }
    }

    /** A wait ends without a signal. */
    method Wake(i: nat)
      requires Valid() && Enabled(State(), Event.Wake(i))
      modifies this
      ensures Valid() && State() == Apply(old(State()), Event.Wake(i))
    {
      ghost var was := Now();
      workers := workers[i := Woken];
      WakeKeeps(was, Now(), i);
    }

    /** handle_job returns in worker i, and the job is freed. */
    method Finish(i: nat)
      requires Valid() && Enabled(State(), Event.Finish(i))
      modifies this
      ensures Valid() && State() == Apply(old(State()), Event.Finish(i))
    {
      ghost var was := Now();
      var job := workers[i].job;
      assert was.HeldBy(job, i);
      handled := handled + [cells[job].payload];
      cells := cells - {job};
      workers := workers[i := AtTop];
      FinishKeeps(was, Now(), i, job);
    }
  }

  lemma {:induction false} SubsetSize(s: set<Ptr>, t: set<Ptr>)
    requires s <= t
    ensures |s| <= |t|
    decreases s
  {
    if s != {} {
      var x :| x in s;
      SubsetSize(s - {x}, t - {x});
    }
  }

  /** malloc: an address that is not in use, perhaps one used before. */
  method Malloc(cells: map<Ptr, Cell>) returns (p: Ptr)
    ensures p !in cells && p > TERM
  {
    p := TERM + 1;
    ghost var tried: set<Ptr> := {};
    while p in cells
      invariant p > TERM && tried <= cells.Keys && |tried| == p - TERM - 1
      invariant forall q :: q in tried ==> q < p
      decreases |cells.Keys - tried|
    {
      SubsetSize(cells.Keys - tried - {p}, cells.Keys - tried);
      assert cells.Keys - tried == (cells.Keys - (tried + {p})) + {p};
      tried := tried + {p};
      p := p + 1;
    }
  }

  method Perform(pool: Pool, e: Event, jobs: nat)
    requires pool.Valid() && Enabled(pool.State(), e) && jobs == pool.dispatched
    modifies pool
    ensures pool.Valid() && pool.State() == Apply(old(pool.State()), e)
  {
    match e
    case Dispatch(signalled) =>
      var task := Malloc(pool.cells);
      pool.Dispatch(task, jobs, signalled);
    case Join => pool.Join();
    case Check(i) => pool.Check(i);
    case Wake(i) => pool.Wake(i);
    case Finish(i) => pool.Finish(i);
  }

  /** Any interleaving, carried out on the ring of cells: it ends where the
      abstract system does. */
  method Run(nthreads: nat, run: seq<Event>) returns (pool: Pool)
    requires Possible(Created(nthreads), run)
    ensures pool.Valid() && pool.State() == After(Created(nthreads), run)
  {
    pool := new Pool(nthreads);
    var k, jobs := 0, 0;
    while k < |run|
      invariant k <= |run| && fresh(pool) && pool.Valid() && jobs == pool.State().dispatched
      invariant Possible(pool.State(), run[k..])
      invariant After(pool.State(), run[k..]) == After(Created(nthreads), run)
    {
      assert run[k..][0] == run[k] && run[k..][1..] == run[k + 1..];
      Perform(pool, run[k], jobs);
      jobs := jobs + if run[k].Dispatch? then 1 else 0;
      k := k + 1;
    }
  }
}
