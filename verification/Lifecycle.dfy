/**
 Stopping the server. Shutdown, restart and reload requests race for atomic
 flags, and any number of tasks wait for the stop on a broadcast channel. Each
 atomic operation is one step.
 */
module Lifecycle {
  import opened Options

  type CallId = nat

  type WaiterId = nat

  datatype Kind = Shutdown | Restart | Reload

  /** `Claimed` holds its own flag, `Lost` must still give it back, `Won` has yet to signal. */
  datatype Pc = Begin | Claimed | Lost | Won | Done(ok: bool)

  /** A receiver and how many messages it has taken or skipped. */
  datatype Waiter = Idle | Checking(seen: nat) | Waiting(seen: nat) | Exited

  datatype Config = Config(calls: map<CallId, Kind>, waiters: set<WaiterId>, reloadEnabled: bool)

  /** The ghost-like `winner`, `claimant` and `stopSignal` only remember what happened. */
  datatype State = State(
    stopping: bool,
    reloading: bool,
    restarting: bool,
    sent: nat,
    pcs: map<CallId, Pc>,
    waiters: map<WaiterId, Waiter>,
    winner: Option<CallId>,
    claimant: Option<CallId>,
    stopSignal: Option<nat>)

  datatype Step =
    | ClaimOwnFlag(c: CallId)
    | SwapStopping(c: CallId)
    | GiveBack(c: CallId)
    | Signal(c: CallId)
    | OtherSignal
    | Subscribe(w: WaiterId)
    | Check(w: WaiterId)
    | Receive(w: WaiterId)

  function Init(cfg: Config): State {
    State(false, false, false, 0, map c | c in cfg.calls :: Begin, map w | w in cfg.waiters :: Idle, None, None, None)
  }

  function Move(s: State, c: CallId, pc: Pc): State {
    s.(pcs := s.pcs[c := pc])
  }

  function Next(cfg: Config, s: State, step: Step): Option<State> {
    match step
    case ClaimOwnFlag(c) =>
      if c !in cfg.calls || c !in s.pcs || s.pcs[c] != Begin || cfg.calls[c].Shutdown? then None
      else if cfg.calls[c].Reload? then
        if !cfg.reloadEnabled || s.reloading then Some(Move(s, c, Done(false)))
        else Some(Move(s, c, Claimed).(reloading := true))
      else if s.restarting then Some(Move(s, c, Done(false)))
      else Some(Move(s, c, Claimed).(restarting := true, claimant := Some(c)))
    case SwapStopping(c) =>
      if c !in cfg.calls || c !in s.pcs || s.pcs[c] != (if cfg.calls[c].Shutdown? then Begin else Claimed) then None
      else if !s.stopping then Some(Move(s, c, Won).(stopping := true, winner := Some(c)))
      else Some(Move(s, c, if cfg.calls[c].Restart? then Lost else Done(false)))
    case GiveBack(c) =>
      if c !in s.pcs || s.pcs[c] != Lost then None
      else Some(Move(s, c, Done(false)).(restarting := false, claimant := None))
    case Signal(c) =>
      if c !in s.pcs || s.pcs[c] != Won then None
      else Some(Move(s, c, Done(true)).(sent := s.sent + 1, stopSignal := Some(s.sent)))
    case OtherSignal => Some(s.(sent := s.sent + 1))
    case Subscribe(w) =>
      if w !in s.waiters || s.waiters[w] != Idle then None
      else Some(s.(waiters := s.waiters[w := Checking(s.sent)]))
    case Check(w) =>
      if w !in s.waiters || !s.waiters[w].Checking? then None
      else Some(s.(waiters := s.waiters[w := if s.stopping then Exited else Waiting(s.waiters[w].seen)]))
    case Receive(w) =>
      // The channel keeps one message; a receiver further behind is told so and skips to it.
      if w !in s.waiters || !s.waiters[w].Waiting? || s.waiters[w].seen >= s.sent then None
      else
        var seen := s.waiters[w].seen;
        Some(s.(waiters := s.waiters[w := Checking(if s.sent - seen > 1 then s.sent - 1 else seen + 1)]))
  }

  function Exec(cfg: Config, run: seq<Step>): Option<State> {
    if run == [] then Some(Init(cfg))
    else
      var s := Exec(cfg, run[..|run| - 1]);
      if s.None? then None else Next(cfg, s.value, run[|run| - 1])
  }

  // At most one request stops the server

  predicate Winning(pc: Pc) {
    pc == Won || pc == Done(true)
  }

  /** The restart flag is held by one restart call, from its claim until it gives up. */
  predicate Holding(pc: Pc) {
    pc == Claimed || pc == Lost || Winning(pc)
  }

  ghost predicate WinnerInv(cfg: Config, s: State) {
    && s.pcs.Keys == cfg.calls.Keys
    && (s.stopping <==> s.winner.Some?)
    && (s.winner.Some? ==> s.winner.value in cfg.calls)
    && (forall c <- cfg.calls :: WinFor(s, c))
  }

  ghost predicate WinFor(s: State, c: CallId)
    requires c in s.pcs
  {
    Winning(s.pcs[c]) <==> s.winner == Some(c)
  }

  ghost predicate ClaimFor(cfg: Config, s: State, c: CallId)
    requires c in cfg.calls && c in s.pcs
  {
    && (cfg.calls[c].Restart? ==> (Holding(s.pcs[c]) <==> s.claimant == Some(c)))
    && (s.pcs[c] == Lost ==> cfg.calls[c].Restart?)
  }

  ghost predicate RestartInv(cfg: Config, s: State) {
    && s.pcs.Keys == cfg.calls.Keys
    && (s.restarting <==> s.claimant.Some?)
    && (s.claimant.Some? ==> s.claimant.value in cfg.calls && cfg.calls[s.claimant.value].Restart?)
    && (forall c <- cfg.calls :: ClaimFor(cfg, s, c))
  }

  /** Past the stop signal nobody waits who has already taken it. */
  ghost predicate WaiterInv(cfg: Config, s: State) {
    && (forall w <- s.waiters :: s.waiters[w].Checking? || s.waiters[w].Waiting? ==> s.waiters[w].seen <= s.sent)
    && (s.stopSignal.Some? <==> s.winner.Some? && s.winner.value in s.pcs && s.pcs[s.winner.value] == Done(true))
    && (s.stopSignal.Some? ==> s.stopSignal.value < s.sent)
    && (s.stopSignal.Some? ==> forall w <- s.waiters :: s.waiters[w].Waiting? ==> s.waiters[w].seen <= s.stopSignal.value)
  }

  /** No step adds or removes a call. */
  lemma NextKeys(cfg: Config, s: State, step: Step)
    requires s.pcs.Keys == cfg.calls.Keys && Next(cfg, s, step).Some?
    ensures Next(cfg, s, step).value.pcs.Keys == cfg.calls.Keys
  {
  }

  lemma NextWinFor(cfg: Config, s: State, step: Step, c: CallId)
    requires Next(cfg, s, step).Some? && c in s.pcs && c in Next(cfg, s, step).value.pcs
    requires WinFor(s, c) && (s.stopping <==> s.winner.Some?)
    ensures WinFor(Next(cfg, s, step).value, c)
  {
  }

  lemma NextWinner(cfg: Config, s: State, step: Step)
    requires WinnerInv(cfg, s) && Next(cfg, s, step).Some?
    ensures WinnerInv(cfg, Next(cfg, s, step).value)
  {
    NextKeys(cfg, s, step);
    forall c | c in cfg.calls ensures WinFor(Next(cfg, s, step).value, c) {
      NextWinFor(cfg, s, step, c);
    }
  }

  lemma NextClaimFor(cfg: Config, s: State, step: Step, c: CallId)
    requires RestartInv(cfg, s) && Next(cfg, s, step).Some? && c in cfg.calls
    ensures var s' := Next(cfg, s, step).value; s'.pcs.Keys == cfg.calls.Keys && ClaimFor(cfg, s', c)
  {
    NextKeys(cfg, s, step);
    assert ClaimFor(cfg, s, c);
    if step.GiveBack? {
      assert ClaimFor(cfg, s, step.c);
    }
  }

  lemma NextRestart(cfg: Config, s: State, step: Step)
    requires RestartInv(cfg, s) && Next(cfg, s, step).Some?
    ensures RestartInv(cfg, Next(cfg, s, step).value)
  {
    var s' := Next(cfg, s, step).value;
    forall c | c in cfg.calls ensures c in s'.pcs && ClaimFor(cfg, s', c) {
      NextClaimFor(cfg, s, step, c);
    }
    NextKeys(cfg, s, step);
  }

  lemma NextWaiter(cfg: Config, s: State, step: Step)
    requires WinnerInv(cfg, s) && WaiterInv(cfg, s) && Next(cfg, s, step).Some?
    ensures WaiterInv(cfg, Next(cfg, s, step).value)
  {
    match step
    case ClaimOwnFlag(_) =>
    case SwapStopping(_) =>
    case GiveBack(_) =>
    case Signal(_) =>
    case OtherSignal =>
    case Subscribe(_) =>
    case Check(_) =>
    case Receive(_) =>
  }

  lemma {:induction false} ExecInv(cfg: Config, run: seq<Step>)
    requires Exec(cfg, run).Some?
    ensures var s := Exec(cfg, run).value;
            WinnerInv(cfg, s) && RestartInv(cfg, s) && WaiterInv(cfg, s)
  {
    if run != [] {
      var s, step := Exec(cfg, run[..|run| - 1]).value, run[|run| - 1];
      ExecInv(cfg, run[..|run| - 1]);
      NextWinner(cfg, s, step);
      NextRestart(cfg, s, step);
      NextWaiter(cfg, s, step);
    }
  }

  /** However the requests interleave, at most one of them succeeds. */
  lemma OneStopSucceeds(cfg: Config, run: seq<Step>, a: CallId, b: CallId)
    requires Exec(cfg, run).Some? && a in cfg.calls && b in cfg.calls
    requires a in Exec(cfg, run).value.pcs && Exec(cfg, run).value.pcs[a] == Done(true)
    requires b in Exec(cfg, run).value.pcs && Exec(cfg, run).value.pcs[b] == Done(true)
    ensures a == b
  {
    ExecInv(cfg, run);
  }

  /** With no restart call under way, the restart flag is set exactly when a restart won the stop. */
  lemma RestartingMeansRestartWon(cfg: Config, run: seq<Step>)
    requires Exec(cfg, run).Some?
    requires forall c <- cfg.calls :: cfg.calls[c].Restart? && c in Exec(cfg, run).value.pcs ==>
               Exec(cfg, run).value.pcs[c] == Begin || Exec(cfg, run).value.pcs[c].Done?
    ensures var s := Exec(cfg, run).value;
            s.restarting <==> exists c <- cfg.calls :: cfg.calls[c].Restart? && c in s.pcs && s.pcs[c] == Done(true)
  {
    ExecInv(cfg, run);
    var s := Exec(cfg, run).value;
    if s.restarting {
      assert Holding(s.pcs[s.claimant.value]);
    }
  }

  // No lost wake-up

  /**
   Once the request that stopped the server has signalled, a waiter that still
   waits has a message to receive, and leaves at its next check.
   */
  lemma NoLostWakeup(cfg: Config, run: seq<Step>, c: CallId, w: WaiterId)
    requires Exec(cfg, run).Some? && c in cfg.calls
    requires c in Exec(cfg, run).value.pcs && Exec(cfg, run).value.pcs[c] == Done(true)
    requires w in Exec(cfg, run).value.waiters && Exec(cfg, run).value.waiters[w].Waiting?
    ensures var received := Next(cfg, Exec(cfg, run).value, Receive(w));
            && received.Some?
            && var checked := Next(cfg, received.value, Check(w));
               checked.Some? && checked.value.waiters[w] == Exited
  {
    ExecInv(cfg, run);
  }

  // Nobody leaves early, and a stop once taken stays taken

  /** The stop flag is set exactly when some request has won it. */
  ghost predicate SomeoneWon(cfg: Config, s: State) {
    exists c <- cfg.calls :: c in s.pcs && Winning(s.pcs[c])
  }

  lemma StoppingMeansWon(cfg: Config, run: seq<Step>, s: State)
    requires Exec(cfg, run) == Some(s)
    ensures s.stopping <==> SomeoneWon(cfg, s)
  {
    ExecInv(cfg, run);
    if s.stopping {
      assert WinFor(s, s.winner.value);
    }
    forall c | c in cfg.calls && Winning(s.pcs[c]) ensures s.stopping {
      assert WinFor(s, c);
    }
  }

  lemma NextStopping(cfg: Config, s: State, step: Step)
    requires Next(cfg, s, step).Some?
    ensures s.stopping || step.SwapStopping? <==> Next(cfg, s, step).value.stopping
  {
  }

  lemma NextExited(cfg: Config, s: State, step: Step, w: WaiterId)
    requires Next(cfg, s, step).Some?
    requires w in s.waiters && s.waiters[w] == Exited ==> s.stopping
    ensures var s' := Next(cfg, s, step).value; w in s'.waiters && s'.waiters[w] == Exited ==> s'.stopping
  {
  }

  lemma {:induction false} ExecStopping(cfg: Config, run: seq<Step>, s: State, w: WaiterId)
    requires Exec(cfg, run) == Some(s)
    ensures w in s.waiters && s.waiters[w] == Exited ==> s.stopping
    ensures s.stopping <==> exists step <- run :: step.SwapStopping?
    decreases |run|
  {
    if run != [] {
      var init, step := run[..|run| - 1], run[|run| - 1];
      var before := Exec(cfg, init).value;
      ExecStopping(cfg, init, before, w);
      NextStopping(cfg, before, step);
      NextExited(cfg, before, step, w);
      assert run == init + [step];
    }
  }

  /** A waiter has left only if some request has won the stop. */
  lemma ExitedMeansStopped(cfg: Config, run: seq<Step>, s: State, w: WaiterId)
    requires Exec(cfg, run) == Some(s) && w in s.waiters && s.waiters[w] == Exited
    ensures SomeoneWon(cfg, s)
  {
    ExecStopping(cfg, run, s, w);
    StoppingMeansWon(cfg, run, s);
  }

  /** Some request has won exactly when one has come as far as the stop flag. */
  lemma SomeStopSucceeds(cfg: Config, run: seq<Step>, s: State)
    requires Exec(cfg, run) == Some(s)
    ensures SomeoneWon(cfg, s) <==> exists step <- run :: step.SwapStopping?
  {
    ExecStopping(cfg, run, s, 0);
    StoppingMeansWon(cfg, run, s);
  }

  /** At most `k` messages wait for the waiter. */
  ghost predicate Behind(s: State, w: WaiterId, k: nat) {
    w in s.waiters &&
    match s.waiters[w]
    case Idle => false
    case Checking(seen) => s.sent <= seen + k
    case Waiting(seen) => s.sent <= seen + k
    case Exited => true
  }

  predicate Quiet(steps: seq<Step>) {
    forall step <- steps :: !step.Signal? && !step.OtherSignal?
  }

  lemma NextBehind(cfg: Config, s: State, step: Step, w: WaiterId, k: nat)
    requires Behind(s, w, k) && Next(cfg, s, step).Some? && !step.Signal? && !step.OtherSignal?
    ensures Behind(Next(cfg, s, step).value, w, k)
  {
  }

  /** Receiving takes a message, and skips all but the last of several. */
  lemma ReceiveBehind(cfg: Config, s: State, w: WaiterId, k: nat)
    requires Behind(s, w, k) && Next(cfg, s, Receive(w)).Some?
    ensures Behind(Next(cfg, s, Receive(w)).value, w, if k <= 1 then 0 else 1)
  {
  }

  lemma {:induction false} QuietBehind(cfg: Config, run: seq<Step>, more: seq<Step>, s: State, s': State, w: WaiterId, k: nat)
    requires Exec(cfg, run) == Some(s) && Exec(cfg, run + more) == Some(s') && Quiet(more) && Behind(s, w, k)
    ensures Behind(s', w, k)
    decreases |more|
  {
    if more == [] {
      assert run + more == run;
    } else {
      var init, all := more[..|more| - 1], run + more;
      assert all[..|all| - 1] == run + init && more[|more| - 1] in more;
      var before := Exec(cfg, run + init).value;
      QuietBehind(cfg, run, init, s, before, w, k);
      NextBehind(cfg, before, more[|more| - 1], w, k);
    }
  }

  lemma {:induction false} Executed(cfg: Config, run: seq<Step>, more: seq<Step>)
    requires Exec(cfg, run + more).Some?
    ensures Exec(cfg, run).Some?
    decreases |more|
  {
    if more == [] {
      assert run + more == run;
    } else {
      var all := run + more;
      assert all[..|all| - 1] == run + more[..|more| - 1];
      Executed(cfg, run, more[..|more| - 1]);
    }
  }

  lemma LastStep(cfg: Config, run: seq<Step>, step: Step)
    requires Exec(cfg, run + [step]).Some?
    ensures Exec(cfg, run).Some? && Exec(cfg, run + [step]) == Next(cfg, Exec(cfg, run).value, step)
  {
    assert (run + [step])[..|run|] == run;
  }

  /** A waiter that has subscribed is not woken before anything is signalled. */
  lemma NoSpuriousWakeup(cfg: Config, run: seq<Step>, w: WaiterId, more: seq<Step>, s: State)
    requires Exec(cfg, run + [Subscribe(w)] + more) == Some(s) && Quiet(more)
    ensures Next(cfg, s, Receive(w)).None?
  {
    var from := run + [Subscribe(w)];
    Executed(cfg, from, more);
    LastStep(cfg, run, Subscribe(w));
    QuietBehind(cfg, from, more, Exec(cfg, from).value, s, w, 0);
  }

  /** Without another signal a waiter is woken at most twice more: once for what it missed, once for the last message. */
  lemma NoBusyWait(cfg: Config, run: seq<Step>, w: WaiterId, a: seq<Step>, b: seq<Step>, s: State)
    requires Exec(cfg, run + [Receive(w)] + a + [Receive(w)] + b) == Some(s) && Quiet(a) && Quiet(b)
    ensures Next(cfg, s, Receive(w)).None?
  {
    var first := run + [Receive(w)];
    var second := first + a + [Receive(w)];
    Executed(cfg, second, b);
    LastStep(cfg, first + a, Receive(w));
    Executed(cfg, first, a);
    LastStep(cfg, run, Receive(w));
    var s0, s1, s2 := Exec(cfg, run).value, Exec(cfg, first).value, Exec(cfg, first + a).value;
    ReceiveBehind(cfg, s0, w, s0.sent);
    QuietBehind(cfg, first, a, s1, s2, w, 1);
    ReceiveBehind(cfg, s2, w, 1);
    QuietBehind(cfg, second, b, Exec(cfg, second).value, s, w, 0);
  }

  // A request that nobody disturbs

  function Win(s: State, c: CallId): State {
    s.(stopping := true, winner := Some(c), sent := s.sent + 1, stopSignal := Some(s.sent), pcs := s.pcs[c := Done(true)])
  }

  /**
   The request as one step. A restart that comes too late leaves no trace; a
   reload that does leaves its own flag set.
   */
  function Sequential(cfg: Config, s: State, c: CallId): State
    requires c in cfg.calls
  {
    var refused := s.(pcs := s.pcs[c := Done(false)]);
    match cfg.calls[c]
    case Shutdown => if s.stopping then refused else Win(s, c)
    case Restart =>
      if s.restarting || s.stopping then refused else Win(s.(restarting := true, claimant := Some(c)), c)
    case Reload =>
      if !cfg.reloadEnabled || s.reloading then refused
      else if s.stopping then refused.(reloading := true)
      else Win(s.(reloading := true), c)
  }

  lemma Extend(cfg: Config, run: seq<Step>, s: State, step: Step) returns (run': seq<Step>, s': State)
    requires Exec(cfg, run) == Some(s) && Next(cfg, s, step).Some?
    ensures Exec(cfg, run') == Some(s') && Next(cfg, s, step) == Some(s')
  {
    run', s' := run + [step], Next(cfg, s, step).value;
    assert run'[..|run'| - 1] == run;
  }

  /** From the swap of the stop flag on. */
  lemma SoloSwap(cfg: Config, run: seq<Step>, s: State, c: CallId) returns (run': seq<Step>, s': State)
    requires Exec(cfg, run) == Some(s) && c in cfg.calls && c in s.pcs
    requires s.pcs[c] == if cfg.calls[c].Shutdown? then Begin else Claimed
    ensures Exec(cfg, run') == Some(s')
    ensures s' == if !s.stopping then Win(s, c)
                  else if cfg.calls[c].Restart?
                  then s.(pcs := s.pcs[c := Done(false)], restarting := false, claimant := None)
                  else s.(pcs := s.pcs[c := Done(false)])
  {
    run', s' := Extend(cfg, run, s, SwapStopping(c));
    if !s.stopping {
      run', s' := Extend(cfg, run', s', Signal(c));
    } else if cfg.calls[c].Restart? {
      run', s' := Extend(cfg, run', s', GiveBack(c));
    }
    assert s'.pcs == s.pcs[c := s'.pcs[c]];
  }

  lemma SoloRestart(cfg: Config, run: seq<Step>, s: State, c: CallId) returns (run': seq<Step>, s': State)
    requires Exec(cfg, run) == Some(s) && c in cfg.calls && c in s.pcs && s.pcs[c] == Begin && cfg.calls[c].Restart?
    requires s.restarting <==> s.claimant.Some?
    ensures Exec(cfg, run') == Some(s') && s' == Sequential(cfg, s, c)
  {
    run', s' := Extend(cfg, run, s, ClaimOwnFlag(c));
    if !s.restarting {
      run', s' := SoloSwap(cfg, run', s', c);
      assert s'.pcs == s.pcs[c := s'.pcs[c]];
    }
  }

  lemma SoloReload(cfg: Config, run: seq<Step>, s: State, c: CallId) returns (run': seq<Step>, s': State)
    requires Exec(cfg, run) == Some(s) && c in cfg.calls && c in s.pcs && s.pcs[c] == Begin && cfg.calls[c].Reload?
    ensures Exec(cfg, run') == Some(s') && s' == Sequential(cfg, s, c)
  {
    run', s' := Extend(cfg, run, s, ClaimOwnFlag(c));
    if cfg.reloadEnabled && !s.reloading {
      run', s' := SoloSwap(cfg, run', s', c);
      assert s'.pcs == s.pcs[c := s'.pcs[c]];
    }
  }

  /** From any state of any run, a request can run alone to the outcome of the one-step request. */
  lemma SoloStop(cfg: Config, run: seq<Step>, s: State, c: CallId) returns (run': seq<Step>, s': State)
    requires Exec(cfg, run) == Some(s) && c in cfg.calls && c in s.pcs && s.pcs[c] == Begin
    ensures Exec(cfg, run') == Some(s') && s' == Sequential(cfg, s, c)
  {
    match cfg.calls[c]
    case Shutdown => run', s' := SoloSwap(cfg, run, s, c);
    case Restart =>
      ExecInv(cfg, run);
      run', s' := SoloRestart(cfg, run, s, c);
    case Reload => run', s' := SoloReload(cfg, run, s, c);
  }
}
