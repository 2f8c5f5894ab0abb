/**
 The set of connection tasks. Tasks outlive the request that started them, so
 shutdown has to wait for every one; each takes finished entries out of the set
 as its own last act.
 */
module ConnectionTasks {
  import opened Options

  type Task = nat

  /** `Leaving` is a task past its final reap that has not returned yet. */
  datatype Status = Running | Leaving | Finished | Panicked | Aborted {
    predicate Alive() {
      Running? || Leaving?
    }
  }

  /** `Joined` is what `close_and_join` reached when it returned. */
  datatype Phase = Open | Draining(expired: bool) | Joined

  /** `tracked` is the shared set; shutdown moves it to `draining`. */
  datatype State = State(phase: Phase, tracked: set<Task>, draining: set<Task>, status: map<Task, Status>) {
    predicate IsAlive(t: Task) {
      t in status && status[t].Alive()
    }

    predicate Is(t: Task, s: Status) {
      t in status && status[t] == s
    }
  }

  const INIT := State(Open, {}, {}, map[])

  datatype Step =
    | Spawn(t: Task)
    | LastReap(t: Task)
    | Finish(t: Task)
    | Panic(t: Task)
    | Close
    | Join(t: Task)
    | Expire
    | Abort(t: Task)
    | Return

  /** Takes every ended task out of the shared set; once shutdown has the set there is nothing to reap. */
  function Reap(s: State): State {
    s.(tracked := set t | t in s.tracked && s.IsAlive(t))
  }

  function Next(s: State, step: Step): Option<State> {
    match step
    case Spawn(t) =>
      if t in s.status then None
      else if s.phase != Open then Some(s)
      else
        var r := Reap(s);
        Some(r.(tracked := r.tracked + {t}, status := r.status[t := Running]))
    case LastReap(t) =>
      if !s.Is(t, Running) then None
      else
        var r := Reap(s);
        Some(r.(status := r.status[t := Leaving]))
    case Finish(t) => if !s.Is(t, Leaving) then None else Some(s.(status := s.status[t := Finished]))
    case Panic(t) => if !s.Is(t, Running) then None else Some(s.(status := s.status[t := Panicked]))
    case Close =>
      // A second call finds the set taken and returns at once.
      if s.phase != Open then Some(s) else Some(s.(phase := Draining(false), draining := s.tracked, tracked := {}))
    case Join(t) =>
      if !s.phase.Draining? || t !in s.draining || s.IsAlive(t) then None
      else Some(s.(draining := s.draining - {t}))
    case Expire => if s.phase != Draining(false) then None else Some(s.(phase := Draining(true)))
    case Abort(t) =>
      if s.phase != Draining(true) || t !in s.draining || !s.IsAlive(t) then None
      else Some(s.(status := s.status[t := Aborted]))
    case Return => if !s.phase.Draining? || s.draining != {} then None else Some(s.(phase := Joined))
  }

  function Exec(run: seq<Step>): Option<State> {
    if run == [] then Some(INIT)
    else
      var s := Exec(run[..|run| - 1]);
      if s.None? then None else Next(s.value, run[|run| - 1])
  }

  // No task is ever lost

  ghost predicate Inv(s: State) {
    && (forall t <- s.status :: s.IsAlive(t) ==> t in s.tracked + s.draining)
    && (s.phase.Open? ==> s.draining == {})
    && (!s.phase.Open? ==> s.tracked == {})
    && (s.phase.Joined? ==> s.draining == {})
  }

  lemma NextInv(s: State, step: Step)
    requires Inv(s) && Next(s, step).Some?
    ensures Inv(Next(s, step).value)
  {
  }

  lemma {:induction false} ExecInv(run: seq<Step>)
    requires Exec(run).Some?
    ensures Inv(Exec(run).value)
  {
    if run != [] {
      ExecInv(run[..|run| - 1]);
      NextInv(Exec(run[..|run| - 1]).value, run[|run| - 1]);
    }
  }

  /**
   A running task is in the shared set until shutdown takes it, then in the
   set shutdown waits on; once shutdown has returned none runs any more.
   */
  lemma {:induction false} RunningIsTracked(run: seq<Step>, t: Task)
    requires Exec(run).Some? && Exec(run).value.IsAlive(t)
    ensures var s := Exec(run).value;
            !s.phase.Joined? && t in (if s.phase.Open? then s.tracked else s.draining)
  {
    ExecInv(run);
  }

  /** From the moment shutdown begins no run starts another task. */
  lemma {:induction false} NothingStartsAfterClose(run: seq<Step>, more: seq<Step>)
    requires Exec(run + more).Some? && Exec(run).Some? && !Exec(run).value.phase.Open?
    ensures !Exec(run + more).value.phase.Open?
    ensures Exec(run + more).value.status.Keys == Exec(run).value.status.Keys
    decreases |more|
  {
    if more == [] {
      assert run + more == run;
    } else {
      var all, init := run + more, more[..|more| - 1];
      assert all[..|all| - 1] == run + init;
      NothingStartsAfterClose(run, init);
    }
  }

  // How many ended tasks can still have an entry

  ghost function Window(s: State): set<Task> {
    set t | t in s.tracked && s.Is(t, Leaving)
  }

  ghost function Stale(s: State): set<Task> {
    set t | t in s.tracked && s.Is(t, Finished)
  }

  /** At most `m` tasks are between their final reap and their return whenever one reaps. */
  ghost predicate Overlap(run: seq<Step>, m: nat) {
    run != [] ==>
      && Overlap(run[..|run| - 1], m)
      && (run[|run| - 1].LastReap? && Exec(run).Some? ==> |Window(Exec(run).value)| <= m)
  }

  lemma {:induction false} SubsetSize(a: set<Task>, b: set<Task>)
    requires a <= b
    ensures |a| <= |b|
  {
    if a != {} {
      var x :| x in a;
      SubsetSize(a - {x}, b - {x});
    }
  }

  /** Entries that are stale already, or will be unless somebody reaps in time. */
  ghost function Unreaped(s: State): set<Task> {
    set t | t in s.tracked && (s.Is(t, Leaving) || s.Is(t, Finished))
  }

  lemma UnreapedShrinks(s: State, step: Step, t: Task)
    requires Next(s, step).Some? && !step.LastReap? && t in Unreaped(Next(s, step).value)
    ensures t in Unreaped(s)
  {
  }

  lemma LastReapClears(s: State, step: Step)
    requires Next(s, step).Some? && step.LastReap?
    ensures Unreaped(Next(s, step).value) == Window(Next(s, step).value)
  {
  }

  lemma UnsettledStep(s: State, step: Step, m: nat)
    requires Next(s, step).Some? && |Unreaped(s)| <= m
    requires step.LastReap? ==> |Window(Next(s, step).value)| <= m
    ensures |Unreaped(Next(s, step).value)| <= m
  {
    if step.LastReap? {
      LastReapClears(s, step);
    } else {
      forall t | t in Unreaped(Next(s, step).value) ensures t in Unreaped(s) {
        UnreapedShrinks(s, step, t);
      }
      SubsetSize(Unreaped(Next(s, step).value), Unreaped(s));
    }
  }

  lemma {:induction false} Unsettled(run: seq<Step>, m: nat)
    requires Exec(run).Some? && Overlap(run, m)
    ensures |Unreaped(Exec(run).value)| <= m
  {
    if run == [] {
      assert Unreaped(INIT) == {};
    } else {
      Unsettled(run[..|run| - 1], m);
      UnsettledStep(Exec(run[..|run| - 1]).value, run[|run| - 1], m);
    }
  }

  /**
   When no more than `m` tasks leave at a time, at most `m` normally finished
   entries are unreaped. Tasks leaving one at a time is the case `m == 1`.
   */
  lemma StaleBounded(run: seq<Step>, m: nat)
    requires Exec(run).Some? && Overlap(run, m)
    ensures |Stale(Exec(run).value)| <= m
  {
    Unsettled(run, m);
    var s := Exec(run).value;
    SubsetSize(Stale(s), Unreaped(s));
  }

  // The bound holds no further

  /** Nothing but tasks returning. */
  ghost predicate Returns(more: seq<Step>) {
    forall step <- more :: step.Finish?
  }

  /** However many of the leaving tasks return after any moment of the run, at most `m` entries are stale. */
  ghost predicate StaleWithin(run: seq<Step>, m: nat) {
    forall n, more :: 0 <= n <= |run| && Returns(more) && Exec(run[..n] + more).Some? ==>
      |Stale(Exec(run[..n] + more).value)| <= m
  }

  lemma {:induction false} OverlapPrefix(run: seq<Step>, n: nat, m: nat)
    requires Overlap(run, m) && n <= |run|
    ensures Overlap(run[..n], m)
  {
    if n < |run| {
      OverlapPrefix(run[..|run| - 1], n, m);
      assert run[..|run| - 1][..n] == run[..n];
    } else {
      assert run[..n] == run;
    }
  }

  lemma {:induction false} OverlapReturns(run: seq<Step>, more: seq<Step>, m: nat)
    requires Overlap(run, m) && Returns(more)
    ensures Overlap(run + more, m)
    decreases |more|
  {
    if more == [] {
      assert run + more == run;
    } else {
      var init, all := more[..|more| - 1], run + more;
      assert more[|more| - 1] in more;
      OverlapReturns(run, init, m);
      assert all[..|all| - 1] == run + init;
    }
  }

  lemma ReturnOne(s: State, t: Task)
    requires t in Window(s)
    ensures Next(s, Finish(t)).Some?
    ensures Unreaped(Next(s, Finish(t)).value) == Unreaped(s)
    ensures Window(Next(s, Finish(t)).value) == Window(s) - {t}
  {
  }

  /** Once everyone leaving has returned, all that was unreaped is stale. */
  lemma {:induction false} AllReturn(run: seq<Step>, s: State, leaving: set<Task>) returns (more: seq<Step>, s': State)
    requires Exec(run) == Some(s) && leaving == Window(s)
    ensures Returns(more) && Exec(run + more) == Some(s') && Stale(s') == Unreaped(s)
    decreases leaving
  {
    if leaving == {} {
      more, s' := [], s;
      assert run + more == run;
      assert forall t <- Unreaped(s) :: t !in Window(s);
    } else {
      var t :| t in leaving;
      ReturnOne(s, t);
      var run' := run + [Finish(t)];
      assert run'[..|run'| - 1] == run;
      more, s' := AllReturn(run', Next(s, Finish(t)).value, leaving - {t});
      more := [Finish(t)] + more;
      assert run + more == run' + more[1..];
    }
  }

  lemma {:induction false} WithinOverlaps(run: seq<Step>, m: nat)
    requires Exec(run).Some? && StaleWithin(run, m)
    ensures Overlap(run, m)
  {
    if run != [] {
      var init := run[..|run| - 1];
      forall n, more | 0 <= n <= |init| && Returns(more) && Exec(init[..n] + more).Some?
        ensures |Stale(Exec(init[..n] + more).value)| <= m
      {
        assert init[..n] == run[..n];
      }
      WithinOverlaps(init, m);
      var s := Exec(run).value;
      var more, s' := AllReturn(run, s, Window(s));
      assert run[..|run|] == run;
      SubsetSize(Window(s), Stale(s'));
    }
  }

  /**
   No more than `m` tasks ever leave at a time if and only if, whatever moment
   of the run is taken and whoever returns after it, at most `m` entries are stale.
   */
  lemma StaleBoundedIff(run: seq<Step>, m: nat)
    requires Exec(run).Some?
    ensures Overlap(run, m) <==> StaleWithin(run, m)
  {
    if Overlap(run, m) {
      forall n, more | 0 <= n <= |run| && Returns(more) && Exec(run[..n] + more).Some?
        ensures |Stale(Exec(run[..n] + more).value)| <= m
      {
        OverlapPrefix(run, n, m);
        OverlapReturns(run[..n], more, m);
        StaleBounded(run[..n] + more, m);
      }
    } else if StaleWithin(run, m) {
      WithinOverlaps(run, m);
    }
  }

  /** A spawn, or a task leaving, clears every ended entry, panicked ones included. */
  lemma ReapClears(s: State, step: Step)
    requires Inv(s) && s.phase.Open? && Next(s, step).Some? && (step.Spawn? || step.LastReap?)
    ensures var s' := Next(s, step).value;
            forall t <- s'.tracked :: s'.IsAlive(t)
  {
  }

  // The bound is reached

  /** `n` tasks started, of which the first `leaving` have reaped and the first `done` have returned. */
  ghost predicate Stage(s: State, n: nat, leaving: nat, done: nat) {
    && s.phase == Open && done <= leaving <= n
    && (forall t :: t in s.tracked <==> 0 <= t < n)
    && (forall t :: t in s.status <==> 0 <= t < n)
    && (forall t <- s.status ::
          s.status[t] == if t < done then Finished else if t < leaving then Leaving else Running)
  }

  /** Adds a step to a run whose overlap stays within `m`. */
  lemma Extend(run: seq<Step>, step: Step, m: nat) returns (run': seq<Step>)
    requires Exec(run).Some? && Overlap(run, m) && Next(Exec(run).value, step).Some?
    requires step.LastReap? ==> |Window(Next(Exec(run).value, step).value)| <= m
    ensures Exec(run') == Next(Exec(run).value, step) && Overlap(run', m)
  {
    run' := run + [step];
    assert run'[..|run'| - 1] == run;
  }

  ghost function UpTo(n: nat): (s: set<Task>)
    ensures |s| == n
    ensures forall t :: t in s <==> 0 <= t < n
  {
    if n == 0 then {} else UpTo(n - 1) + {n - 1}
  }

  lemma {:induction false} AllStarted(m: nat, n: nat) returns (run: seq<Step>)
    ensures Exec(run).Some? && Stage(Exec(run).value, n, 0, 0) && Overlap(run, m)
  {
    if n == 0 {
      run := [];
    } else {
      run := AllStarted(m, n - 1);
      run := Extend(run, Spawn(n - 1), m);
    }
  }

  lemma StageLeave(s: State, n: nat, k: nat)
    requires Stage(s, n, k, 0) && k < n
    ensures Next(s, LastReap(k)).Some? && Stage(Next(s, LastReap(k)).value, n, k + 1, 0)
    ensures |Window(Next(s, LastReap(k)).value)| <= n
  {
    var s' := Next(s, LastReap(k)).value;
    assert s'.tracked == s.tracked;
    SubsetSize(Window(s'), UpTo(n));
  }

  lemma {:induction false} SomeLeaving(m: nat, k: nat) returns (run: seq<Step>)
    requires k <= m
    ensures Exec(run).Some? && Stage(Exec(run).value, m, k, 0) && Overlap(run, m)
  {
    if k == 0 {
      run := AllStarted(m, m);
    } else {
      run := SomeLeaving(m, k - 1);
      StageLeave(Exec(run).value, m, k - 1);
      run := Extend(run, LastReap(k - 1), m);
    }
  }

  lemma {:induction false} SomeReturned(m: nat, k: nat) returns (run: seq<Step>)
    requires k <= m
    ensures Exec(run).Some? && Stage(Exec(run).value, m, m, k) && Overlap(run, m)
  {
    if k == 0 {
      run := SomeLeaving(m, m);
    } else {
      run := SomeReturned(m, k - 1);
      run := Extend(run, Finish(k - 1), m);
    }
  }

  /** For every `m`, `m` tasks leaving together leave `m` stale entries. */
  lemma BoundIsReached(m: nat) returns (run: seq<Step>)
    ensures Exec(run).Some? && Overlap(run, m) && |Stale(Exec(run).value)| == m
  {
    run := SomeReturned(m, m);
    assert Stale(Exec(run).value) == UpTo(m);
  }

  // What starts a task, and what ends one

  lemma NextOpen(s: State, step: Step)
    requires Next(s, step).Some?
    ensures Next(s, step).value.phase.Open? <==> s.phase.Open? && !step.Close?
  {
  }

  lemma {:induction false} OpenUntilClose(run: seq<Step>, s: State)
    requires Exec(run) == Some(s)
    ensures s.phase.Open? <==> forall step <- run :: !step.Close?
    decreases |run|
  {
    if run != [] {
      var init, step := run[..|run| - 1], run[|run| - 1];
      OpenUntilClose(init, Exec(init).value);
      NextOpen(Exec(init).value, step);
      assert run == init + [step];
    }
  }

  /** A spawned task runs, and is tracked, exactly when shutdown has not begun. */
  lemma SpawnStarts(run: seq<Step>, s: State, t: Task)
    requires Exec(run) == Some(s) && t !in s.status
    ensures Exec(run + [Spawn(t)]).Some?
    ensures var s' := Exec(run + [Spawn(t)]).value;
            && (s'.IsAlive(t) <==> forall step <- run :: !step.Close?)
            && (s'.IsAlive(t) <==> t in s'.tracked)
            && (forall u :: u != t ==> (s'.IsAlive(u) <==> s.IsAlive(u)))
  {
    assert (run + [Spawn(t)])[..|run|] == run;
    OpenUntilClose(run, s);
    ExecInv(run);
    if !s.phase.Open? {
      assert t !in s.tracked;
    }
  }

  ghost predicate AbortInv(s: State, t: Task) {
    s.Is(t, Aborted) ==> s.phase == Draining(true) || s.phase == Joined
  }

  lemma NextAbort(s: State, step: Step, t: Task)
    requires Next(s, step).Some? && AbortInv(s, t)
    ensures AbortInv(Next(s, step).value, t)
    ensures Next(s, step).value.Is(t, Aborted) ==> s.Is(t, Aborted) || s.phase == Draining(true)
    ensures Next(s, step).value.phase == Draining(true) ==> s.phase == Draining(true) || step.Expire?
  {
  }

  /** No task is aborted before the wait for the running ones has expired. */
  lemma {:induction false} AbortedOnlyAfterExpiry(run: seq<Step>, s: State, t: Task)
    requires Exec(run) == Some(s)
    ensures AbortInv(s, t)
    ensures s.Is(t, Aborted) || s.phase == Draining(true) ==> exists step <- run :: step.Expire?
    decreases |run|
  {
    if run != [] {
      var init, step := run[..|run| - 1], run[|run| - 1];
      AbortedOnlyAfterExpiry(init, Exec(init).value, t);
      NextAbort(Exec(init).value, step, t);
      assert run == init + [step];
    }
  }

  // Shutdown comes to an end

  lemma Continue(run: seq<Step>, s: State, step: Step) returns (run': seq<Step>, s': State)
    requires Exec(run) == Some(s) && Next(s, step).Some?
    ensures Exec(run') == Some(s') && Next(s, step) == Some(s') && run <= run'
  {
    run', s' := run + [step], Next(s, step).value;
    assert run'[..|run'| - 1] == run;
  }

  /** Once the wait has expired every task can be aborted and joined. */
  lemma {:induction false} DrainExpired(run: seq<Step>, s: State) returns (run': seq<Step>, s': State)
    requires Exec(run) == Some(s) && s.phase == Draining(true)
    ensures Exec(run') == Some(s') && s'.phase == Draining(true) && s'.draining == {} && run <= run'
    decreases s.draining
  {
    run', s' := run, s;
    if s.draining != {} {
      var t :| t in s.draining;
      if s.IsAlive(t) {
        run', s' := Continue(run', s', Abort(t));
      }
      run', s' := Continue(run', s', Join(t));
      run', s' := DrainExpired(run', s');
    }
  }

  /** From any moment of a shutdown a run leads to its return, whatever the tasks do. */
  lemma ShutdownEnds(run: seq<Step>, s: State) returns (run': seq<Step>, s': State)
    requires Exec(run) == Some(s) && s.phase.Draining?
    ensures Exec(run') == Some(s') && s'.phase == Joined && run <= run'
  {
    run', s' := run, s;
    if !s.phase.expired {
      run', s' := Continue(run', s', Expire);
    }
    run', s' := DrainExpired(run', s');
    run', s' := Continue(run', s', Return);
  }
}
