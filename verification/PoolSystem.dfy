/** The job pool as a system of atomic steps (src/pool.c): N permanent workers
    and the thread that dispatches and joins. A step is what one thread does
    while it holds the mutex, or between two such sections. Jobs are numbered
    in the order of their dispatch. */
module PoolSystem {
  import opened Wrappers

  datatype Worker =
    | AtTop                // about to lock the mutex
    | Waiting              // in pthread_cond_wait
    | Woken                // out of the wait, about to look at the ring again
    | Running(job: nat)    // in handle_job
    | Exited

  datatype Sys = Sys(
    queue: seq<nat>,       // the jobs in the ring
    term: bool,            // the terminate cell closes the ring
    workers: seq<Worker>,
    dispatched: nat,
    started: nat,
    handled: seq<nat>)

  // ---- Steps -------------------------------------------------------------

  datatype Event =
    | Dispatch(signalled: Option<nat>)
    | Join
    | Check(i: nat)
    | Wake(i: nat)
    | Finish(i: nat)

  predicate Looking(w: Worker) {
    w.AtTop? || w.Woken?
  }

  /** What may happen next. A signal wakes one waiting worker if there is one;
      a wait may also end on its own. */
  ghost predicate Enabled(s: Sys, e: Event) {
    match e
    case Dispatch(Some(i)) => !s.term && i < |s.workers| && s.workers[i].Waiting?
    case Dispatch(None) => !s.term && forall i :: 0 <= i < |s.workers| ==> !s.workers[i].Waiting?
    case Join => !s.term
    case Check(i) => i < |s.workers| && Looking(s.workers[i])
    case Wake(i) => i < |s.workers| && s.workers[i].Waiting?
    case Finish(i) => i < |s.workers| && s.workers[i].Running?
  }

  function WakeAll(ws: seq<Worker>): (r: seq<Worker>)
    ensures |r| == |ws|
    ensures forall i :: 0 <= i < |ws| ==> r[i] == if ws[i].Waiting? then Woken else ws[i]
  {
    if ws == [] then [] else [if ws[0].Waiting? then Woken else ws[0]] + WakeAll(ws[1..])
  }

  ghost function Apply(s: Sys, e: Event): Sys
    requires Enabled(s, e)
  {
    match e
    case Dispatch(signalled) =>
      s.(queue := s.queue + [s.dispatched], dispatched := s.dispatched + 1,
         workers := if signalled.Some? then s.workers[signalled.value := Woken] else s.workers)
    case Join => s.(term := true, workers := WakeAll(s.workers))
    case Check(i) =>
      if s.queue == [] && !s.term then s.(workers := s.workers[i := Waiting])
      else if s.queue == [] then s.(workers := s.workers[i := Exited])
      else s.(queue := s.queue[1..], workers := s.workers[i := Running(s.queue[0])], started := s.started + 1)
    case Wake(i) => s.(workers := s.workers[i := Woken])
    case Finish(i) =>
      s.(workers := s.workers[i := AtTop], handled := s.handled + [s.workers[i].job])
  }

  // ---- What every step keeps ---------------------------------------------

  function Awake(ws: seq<Worker>): nat {
    if ws == [] then 0 else (if Looking(ws[0]) then 1 else 0) + Awake(ws[1..])
  }

  lemma {:induction false} AwakeUpdate(ws: seq<Worker>, i: nat, w: Worker)
    requires i < |ws|
    ensures Awake(ws[i := w]) == Awake(ws) - (if Looking(ws[i]) then 1 else 0) + (if Looking(w) then 1 else 0)
    decreases |ws|
  {
    if i == 0 {
      assert ws[0 := w][1..] == ws[1..];
    } else {
      assert ws[i := w][1..] == ws[1..][i - 1 := w];
      AwakeUpdate(ws[1..], i - 1, w);
    }
  }

  ghost predicate RunBy(s: Sys, i: nat, job: nat) {
    i < |s.workers| && s.workers[i] == Running(job)
  }

  /** Jobs leave the ring in the order they entered it. */
  ghost predicate InOrder(s: Sys) {
    && s.started + |s.queue| == s.dispatched
    && forall k :: 0 <= k < |s.queue| ==> s.queue[k] == s.started + k
  }

  /** A started job is in the hands of one worker, or was handled once. */
  ghost predicate OnePlace(s: Sys) {
    && (forall i, j :: 0 <= i < j < |s.handled| ==> s.handled[i] != s.handled[j])
    && (forall job :: job in s.handled ==> job < s.started)
    && (forall i: nat, job: nat :: RunBy(s, i, job) ==> job < s.started && job !in s.handled)
    && (forall i: nat, j: nat, job: nat :: RunBy(s, i, job) && RunBy(s, j, job) ==> i == j)
    && (forall job: nat :: job < s.started ==> job in s.handled || exists i: nat :: RunBy(s, i, job))
  }

  /** While anybody sleeps, every job in the ring has a worker of its own on the
      way to it; nobody sleeps once the terminate cell is in. */
  ghost predicate NoLostWakeup(s: Sys) {
    forall i :: 0 <= i < |s.workers| && s.workers[i].Waiting? ==> !s.term && Awake(s.workers) >= |s.queue|
  }

  /** A worker leaves only an empty ring, and only once told to. */
  ghost predicate NoEarlyExit(s: Sys) {
    forall i :: 0 <= i < |s.workers| && s.workers[i].Exited? ==> s.term && s.queue == []
  }

  ghost predicate Inv(s: Sys) {
    InOrder(s) && OnePlace(s) && NoLostWakeup(s) && NoEarlyExit(s)
  }

  lemma StepKeepsOrder(s: Sys, e: Event)
    requires InOrder(s) && Enabled(s, e)
    ensures InOrder(Apply(s, e))
  {
  }

  lemma StepKeepsWakeups(s: Sys, e: Event)
    requires NoLostWakeup(s) && Enabled(s, e)
    ensures NoLostWakeup(Apply(s, e))
  {
    var s' := Apply(s, e);
    match e
    case Dispatch(Some(i)) => AwakeUpdate(s.workers, i, Woken);
    case Check(i) =>
      AwakeUpdate(s.workers, i, s'.workers[i]);
      LookingIsAwake(s.workers, i);
    case Wake(i) => AwakeUpdate(s.workers, i, Woken);
    case Finish(i) => AwakeUpdate(s.workers, i, AtTop);
    case _ =>
  }

  lemma {:induction false} LookingIsAwake(ws: seq<Worker>, i: nat)
    requires i < |ws| && Looking(ws[i])
    ensures Awake(ws) >= 1
    decreases i
  {
    if i > 0 {
      LookingIsAwake(ws[1..], i - 1);
    }
  }

  lemma StepKeepsExits(s: Sys, e: Event)
    requires NoEarlyExit(s) && Enabled(s, e)
    ensures NoEarlyExit(Apply(s, e))
  {
  }

  lemma SamePlaces(s: Sys, s': Sys)
    requires OnePlace(s) && s'.started == s.started && s'.handled == s.handled
    requires forall i: nat, job: nat :: RunBy(s', i, job) <==> RunBy(s, i, job)
    ensures OnePlace(s')
  {
    forall job: nat | job < s'.started && job !in s'.handled ensures exists i: nat :: RunBy(s', i, job) {
      var i: nat :| RunBy(s, i, job);
      assert RunBy(s', i, job);
    }
  }

  lemma StartedOnce(s: Sys, i: nat)
    requires InOrder(s) && OnePlace(s) && Enabled(s, Check(i)) && s.queue != []
    ensures OnePlace(Apply(s, Check(i)))
  {
    var s' := Apply(s, Check(i));
    assert s.queue[0] == s.started;
    assert RunBy(s', i, s.started);
    forall j: nat, job: nat ensures RunBy(s', j, job) <==> (if j == i then job == s.started else RunBy(s, j, job)) {
    }
    forall job: nat | job < s'.started && job !in s'.handled ensures exists j: nat :: RunBy(s', j, job) {
      if job < s.started {
        var j: nat :| RunBy(s, j, job);
        assert RunBy(s', j, job);
      }
    }
  }

  lemma HandledOnce(s: Sys, i: nat)
    requires OnePlace(s) && Enabled(s, Finish(i))
    ensures OnePlace(Apply(s, Finish(i)))
  {
    var s', done := Apply(s, Finish(i)), s.workers[i].job;
    assert RunBy(s, i, done);
    forall j: nat, job: nat ensures RunBy(s', j, job) <==> (j != i && RunBy(s, j, job)) {
    }
    forall job: nat | job < s'.started && job !in s'.handled ensures exists j: nat :: RunBy(s', j, job) {
      var j: nat :| RunBy(s, j, job);
      assert s'.handled[|s.handled|] == done;
      assert RunBy(s', j, job);
    }
  }

  lemma StepKeepsPlaces(s: Sys, e: Event)
    requires InOrder(s) && OnePlace(s) && Enabled(s, e)
    ensures OnePlace(Apply(s, e))
  {
    match e
    case Check(i) => if s.queue != [] { StartedOnce(s, i); } else { SamePlaces(s, Apply(s, e)); }
    case Finish(i) => HandledOnce(s, i);
    case _ => SamePlaces(s, Apply(s, e));
  }

  lemma StepKeepsInv(s: Sys, e: Event)
    requires Inv(s) && Enabled(s, e)
    ensures Inv(Apply(s, e))
  {
    StepKeepsOrder(s, e);
    StepKeepsPlaces(s, e);
    StepKeepsWakeups(s, e);
    StepKeepsExits(s, e);
  }

  // ---- Runs --------------------------------------------------------------

  function Repeat(w: Worker, n: nat): (ws: seq<Worker>)
    ensures |ws| == n && forall i :: 0 <= i < n ==> ws[i] == w
  {
    if n == 0 then [] else Repeat(w, n - 1) + [w]
  }

  /** pool_create with n workers. */
  function Created(n: nat): Sys {
    Sys([], false, Repeat(AtTop, n), 0, 0, [])
  }

  ghost predicate Possible(s: Sys, run: seq<Event>)
    decreases |run|
  {
    run == [] || (Enabled(s, run[0]) && Possible(Apply(s, run[0]), run[1..]))
  }

  ghost function After(s: Sys, run: seq<Event>): Sys
    requires Possible(s, run)
    decreases |run|
  {
    if run == [] then s else After(Apply(s, run[0]), run[1..])
  }

  lemma {:induction false} RunKeepsInv(s: Sys, run: seq<Event>)
    requires Inv(s) && Possible(s, run)
    ensures Inv(After(s, run)) && |After(s, run).workers| == |s.workers|
    decreases |run|
  {
    if run != [] {
      StepKeepsInv(s, run[0]);
      RunKeepsInv(Apply(s, run[0]), run[1..]);
    }
  }

  /** Every dispatched job is in exactly one of three places. */
  ghost predicate ExactlyOnePlace(s: Sys, job: nat) {
    && (job in s.queue || job in s.handled || exists i: nat :: RunBy(s, i, job))
    && !(job in s.queue && job in s.handled)
    && !(job in s.queue && exists i: nat :: RunBy(s, i, job))
    && !(job in s.handled && exists i: nat :: RunBy(s, i, job))
  }

  /** The safety of the pool, in every interleaving. */
  lemma PoolIsSafe(n: nat, run: seq<Event>)
    requires Possible(Created(n), run)
    ensures var s := After(Created(n), run);
            && (forall job: nat :: job < s.dispatched ==> ExactlyOnePlace(s, job))
            && (s.queue != [] ==> s.queue[0] == s.started)
            && NoEarlyExit(s) && NoLostWakeup(s)
  {
    assert Inv(Created(n));
    RunKeepsInv(Created(n), run);
    var s := After(Created(n), run);
    forall job: nat | job < s.dispatched ensures ExactlyOnePlace(s, job) {
      if job >= s.started {
        assert s.queue[job - s.started] == job;
      }
    }
  }

  /** pool_join is done: every worker has been joined. */
  ghost predicate AllExited(s: Sys) {
    s.term && forall i :: 0 <= i < |s.workers| ==> s.workers[i].Exited?
  }

  ghost predicate AllHandled(s: Sys) {
    forall job: nat :: job < s.dispatched ==> job in s.handled
  }

  /** When the join is over every job was handled, once, exactly when there was
      a worker at all or nothing to do. */
  lemma JoinedMeansHandled(n: nat, run: seq<Event>)
    requires Possible(Created(n), run) && AllExited(After(Created(n), run))
    ensures var s := After(Created(n), run);
            && (AllHandled(s) <==> n > 0 || s.dispatched == 0)
            && (AllHandled(s) ==> |s.handled| == s.dispatched)
  {
    assert Inv(Created(n));
    RunKeepsInv(Created(n), run);
    var s := After(Created(n), run);
    if n > 0 {
      assert s.workers[0].Exited?;
    } else {
      NobodyStarts(Created(n), run);
    }
    if AllHandled(s) {
      CountHandled(s.handled, s.dispatched);
    }
  }

  lemma {:induction false} NobodyStarts(s: Sys, run: seq<Event>)
    requires Possible(s, run) && s.workers == [] && s.handled == []
    ensures After(s, run).handled == []
    decreases |run|
  {
    if run != [] {
      NobodyStarts(Apply(s, run[0]), run[1..]);
    }
  }

  lemma {:induction false} CountHandled(handled: seq<nat>, n: nat)
    requires forall i, j :: 0 <= i < j < |handled| ==> handled[i] != handled[j]
    requires forall job: nat :: job in handled <==> job < n
    ensures |handled| == n
    decreases n
  {
    if n == 0 {
      assert forall i :: 0 <= i < |handled| ==> handled[i] in handled;
    } else {
      assert n - 1 in handled;
      var i :| 0 <= i < |handled| && handled[i] == n - 1;
      var rest := handled[..i] + handled[i + 1..];
      forall job: nat ensures job in rest <==> job < n - 1 {
        if job in handled && job != n - 1 {
          var k :| 0 <= k < |handled| && handled[k] == job;
          assert rest[if k < i then k else k - 1] == job;
        }
      }
      CountHandled(rest, n - 1);
    }
  }

  /** A pool that was asked for no workers: a job is dispatched, joining is over
      at once, and the job was never handled. */
  lemma NoWorkersNothingHandled()
    ensures var run := [Dispatch(None), Join];
            && Possible(Created(0), run) && AllExited(After(Created(0), run))
            && After(Created(0), run).dispatched == 1 && After(Created(0), run).handled == []
  {
    var run := [Dispatch(None), Join];
    assert run[1..] == [Join] && run[1..][1..] == [];
    var s := Apply(Created(0), Dispatch(None));
    assert Possible(s, [Join]) && After(s, [Join]) == Apply(s, Join);
  }

  // ---- Shutdown ----------------------------------------------------------

  function WorkerLoad(w: Worker): nat {
    if w.Exited? then 0 else if w.Running? then 2 else 1
  }

  function Load(ws: seq<Worker>): nat {
    if ws == [] then 0 else WorkerLoad(ws[0]) + Load(ws[1..])
  }

  lemma {:induction false} LoadUpdate(ws: seq<Worker>, i: nat, w: Worker)
    requires i < |ws|
    ensures Load(ws[i := w]) == Load(ws) - WorkerLoad(ws[i]) + WorkerLoad(w)
    decreases |ws|
  {
    if i == 0 {
      assert ws[0 := w][1..] == ws[1..];
    } else {
      assert ws[i := w][1..] == ws[1..][i - 1 := w];
      LoadUpdate(ws[1..], i - 1, w);
    }
  }

  function Measure(s: Sys): nat {
    2 * |s.queue| + Load(s.workers)
  }

  /** After the broadcast nobody waits again, every worker that has not exited
      can move, and every move brings the end nearer. */
  lemma ShutdownProceeds(s: Sys, e: Event)
    requires Inv(s) && s.term && Enabled(s, e)
    ensures Apply(s, e).term && Measure(Apply(s, e)) < Measure(s)
    ensures forall i :: 0 <= i < |s.workers| ==> !s.workers[i].Waiting?
    ensures forall i :: 0 <= i < |s.workers| && !s.workers[i].Exited? ==>
              Enabled(s, Check(i)) || Enabled(s, Finish(i))
  {
    var s' := Apply(s, e);
    match e
    case Check(i) => LoadUpdate(s.workers, i, s'.workers[i]);
    case Finish(i) => LoadUpdate(s.workers, i, AtTop);
    case _ =>
  }

  lemma NotDoneMeansEnabled(s: Sys)
    requires Inv(s) && s.term && !AllExited(s)
    ensures exists e :: Enabled(s, e)
  {
    var i: nat :| i < |s.workers| && !s.workers[i].Exited?;
    assert Enabled(s, Check(i)) || Enabled(s, Finish(i));
  }

  /** No run goes on for longer than the measure: joining ends as soon as
      handlers return. */
  lemma {:induction false} ShutdownEnds(s: Sys, run: seq<Event>)
    requires Inv(s) && s.term && Possible(s, run)
    ensures |run| + Measure(After(s, run)) <= Measure(s)
    ensures |run| == Measure(s) ==> AllExited(After(s, run))
    decreases |run|
  {
    if run != [] {
      ShutdownProceeds(s, run[0]);
      StepKeepsInv(s, run[0]);
      ShutdownEnds(Apply(s, run[0]), run[1..]);
    } else if Measure(s) == 0 && !AllExited(s) {
      var i: nat :| i < |s.workers| && !s.workers[i].Exited?;
      LoadUpdate(s.workers, i, Exited);
      assert false;
    }
  }
}
