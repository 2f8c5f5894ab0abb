/**
 What a send is answered: the step every answer came from, what it says about
 the timeline, and the outcome of a send that nobody disturbs.
 */
module SendAnswers {
  import opened Options
  import opened SendProtocol

  // Where an answer came from

  predicate Looks(step: Step, c: CallId) {
    step == CheckTxn(c) || step == CheckTxnLocked(c)
  }

  /** The step that may give an answer, and what must have been so when it did. */
  ghost predicate Caused(call: Call, s: State, step: Step, c: CallId, answer: Answer) {
    match answer
    case Sent(id) =>
      || (Looks(step, c) && call.key in s.txns && s.txns[call.key] == EventResponse(id))
      || (step == Unlock(c) && OwnEvent(s, c, id, call.key))
    case RoomDevicesChanged(version) =>
      step == CheckVersion(c) && version == s.Version(call.room) && call.expected.Some? && call.expected.value != version
    case Refused => step == Refuse(c) || (Looks(step, c) && call.key in s.txns && s.txns[call.key] == EmptyResponse)
    case Failed(id) => step == Fail(c) && !call.settles && OwnEvent(s, c, id, call.key)
    case Dropped(None) => step == Drop(c)
    case Dropped(Some(id)) => (step == Drop(c) || step == DropCommitted(c)) && OwnEvent(s, c, id, call.key)
  }

  predicate Answered(s: State, c: CallId) {
    c in s.pcs && s.pcs[c].Done?
  }

  /** An answer is given once. */
  lemma NextAnswered(calls: Calls, s: State, step: Step, c: CallId)
    requires Answered(s, c) && Next(calls, s, step).Some?
    ensures At(Next(calls, s, step).value, c, s.pcs[c])
  {
    if step.Caller() != Some(c) {
      NextOthers(calls, s, step, c);
    }
  }

  lemma StepCaused(calls: Calls, s: State, step: Step, c: CallId)
    requires c in calls && c in s.pcs && Truthful(calls, s, c) && !Answered(s, c)
    requires Next(calls, s, step).Some? && Answered(Next(calls, s, step).value, c)
    ensures Caused(calls[c], s, step, c, Next(calls, s, step).value.pcs[c].answer)
  {
    if step.Caller() != Some(c) {
      NextOthers(calls, s, step, c);
    }
  }

  /** Over every run, an answer came from a step that may give it, at a moment it was true. */
  lemma {:induction false} AnswersHaveCause(calls: Calls, run: seq<Step>, s: State, c: CallId) returns (i: nat)
    requires Exec(calls, run) == Some(s) && c in calls && Answered(s, c)
    ensures i < |run| && Exec(calls, run[..i]).Some? && !Answered(Exec(calls, run[..i]).value, c)
    ensures Caused(calls[c], Exec(calls, run[..i]).value, run[i], c, s.pcs[c].answer)
    decreases |run|
  {
    var init := run[..|run| - 1];
    var before := Exec(calls, init).value;
    ExecInv(calls, init, before);
    if Answered(before, c) {
      NextAnswered(calls, before, run[|run| - 1], c);
      i := AnswersHaveCause(calls, init, before, c);
      assert init[..i] == run[..i];
    } else {
      i := |run| - 1;
      assert Truthful(calls, before, c);
      StepCaused(calls, before, run[i], c);
    }
  }

  /** A send that went through to its end is answered `Sent` with its own event. */
  lemma {:induction false} FinishedIsSent(calls: Calls, run: seq<Step>, s: State, i: nat, c: CallId) returns (id: EventId)
    requires Exec(calls, run) == Some(s) && i < |run| && run[i] == Unlock(c) && c in calls
    ensures At(s, c, Done(Sent(id))) && OwnEvent(s, c, id, calls[c].key)
    decreases |run|
  {
    var init, step := run[..|run| - 1], run[|run| - 1];
    var before := Exec(calls, init).value;
    NextGrows(calls, before, step);
    if i < |run| - 1 {
      id := FinishedIsSent(calls, init, before, i, c);
      NextAnswered(calls, before, step, c);
    } else {
      ExecInv(calls, init, before);
      assert Truthful(calls, before, c);
      id := before.pcs[c].id;
    }
    OwnGrows(before, s, c, id, calls[c].key);
  }

  ghost predicate WroteEvent(s: State, c: CallId) {
    exists e <- s.timeline :: e.sender == c
  }

  /**
   What each answer says about the timeline, over every run: changed devices and
   refusals stored nothing, an error behind the commit left the call's event
   there, and a `Sent` id is an event of the key or a notice stored under it.
   */
  lemma AnswersAreTrue(calls: Calls, run: seq<Step>, s: State, c: CallId)
    requires Exec(calls, run) == Some(s) && c in calls && Answered(s, c)
    ensures match s.pcs[c].answer
            case Sent(id) => Known(s, id, calls[c].key)
            case RoomDevicesChanged(_) => !WroteEvent(s, c)
            case Refused => !WroteEvent(s, c)
            case Failed(id) => OwnEvent(s, c, id, calls[c].key) && !calls[c].settles
            case Dropped(stored) =>
              if stored.Some? then OwnEvent(s, c, stored.value, calls[c].key) else !WroteEvent(s, c)
  {
    ExecInv(calls, run, s);
    assert Truthful(calls, s, c);
    var i := AnswersHaveCause(calls, run, s, c);
  }

  // A send that nobody disturbs

  /** The send as one step: a known transaction id, the version, the effects, in this order. */
  function Sequential(call: Call, s: State, c: CallId, id: EventId): State {
    var version := s.Version(call.room);
    if call.key in s.txns then
      match s.txns[call.key]
      case EventResponse(known) => s.(pcs := s.pcs[c := Done(Sent(known))])
      case EmptyResponse => s.(pcs := s.pcs[c := Done(Refused)])
    else if call.expected.Some? && call.expected.value != version then
      s.(pcs := s.pcs[c := Done(RoomDevicesChanged(version))])
    else
      var stored := s.(timeline := s.timeline + [Event(id, call.key, c)]);
      if call.settles
      then stored.(pcs := s.pcs[c := Done(Sent(id))], txns := s.txns[call.key := EventResponse(id)])
      else stored.(pcs := s.pcs[c := Done(Failed(id))])
  }

  lemma LockTaken(calls: Calls, run: seq<Step>, s: State, c: CallId) returns (run': seq<Step>, s': State)
    requires Exec(calls, run) == Some(s)
    requires c in calls && At(s, c, Start) && calls[c].key !in s.txns && calls[c].room !in s.locks
    ensures Exec(calls, run') == Some(s')
    ensures s' == s.(pcs := s.pcs[c := Locked], locks := s.locks[calls[c].room := c])
  {
    run', s' := Extend(calls, run, s, CheckTxn(c));
    run', s' := Extend(calls, run', s', TakeLock(c));
  }

  lemma Checked(calls: Calls, run: seq<Step>, s: State, c: CallId) returns (run': seq<Step>, s': State)
    requires Exec(calls, run) == Some(s)
    requires c in calls && At(s, c, Start) && calls[c].key !in s.txns && calls[c].room !in s.locks
    ensures Exec(calls, run') == Some(s')
    ensures s' == s.(pcs := s.pcs[c := Cleared], locks := s.locks[calls[c].room := c])
  {
    run', s' := LockTaken(calls, run, s, c);
    run', s' := Extend(calls, run', s', CheckTxnLocked(c));
  }

  lemma Stored(calls: Calls, run: seq<Step>, s: State, c: CallId, id: EventId) returns (run': seq<Step>, s': State)
    requires Exec(calls, run) == Some(s) && c in calls && At(s, c, Cleared) && !IdTaken(s, id)
    requires calls[c].expected.Some? ==> calls[c].expected.value == s.Version(calls[c].room)
    ensures Exec(calls, run') == Some(s')
    ensures s' == s.(pcs := s.pcs[c := Committed(id)], timeline := s.timeline + [Event(id, calls[c].key, c)])
  {
    run', s' := Extend(calls, run, s, CheckVersion(c));
    run', s' := Extend(calls, run', s', Commit(c, id));
  }

  lemma Settled(calls: Calls, run: seq<Step>, s: State, c: CallId) returns (run': seq<Step>, s': State)
    requires Exec(calls, run) == Some(s) && c in calls && c in s.pcs && s.pcs[c].Committed?
    ensures Exec(calls, run') == Some(s')
    ensures var id, unlocked := s.pcs[c].id, s.(locks := s.locks - {calls[c].room});
            s' == if calls[c].settles
                  then unlocked.(pcs := s.pcs[c := Done(Sent(id))], txns := s.txns[calls[c].key := EventResponse(id)])
                  else unlocked.(pcs := s.pcs[c := Done(Failed(id))])
  {
    if calls[c].settles {
      run', s' := Extend(calls, run, s, Record(c));
      run', s' := Extend(calls, run', s', Unlock(c));
    } else {
      run', s' := Extend(calls, run, s, Fail(c));
    }
  }

  lemma SoloChanged(calls: Calls, run: seq<Step>, s: State, c: CallId) returns (run': seq<Step>, s': State)
    requires Exec(calls, run) == Some(s) && c in calls && At(s, c, Cleared)
    requires calls[c].expected.Some? && calls[c].expected.value != s.Version(calls[c].room)
    ensures Exec(calls, run') == Some(s')
    ensures s' == s.(pcs := s.pcs[c := Done(RoomDevicesChanged(s.Version(calls[c].room)))],
                     locks := s.locks - {calls[c].room})
  {
    run', s' := Extend(calls, run, s, CheckVersion(c));
  }

  lemma SoloStored(calls: Calls, run: seq<Step>, s: State, c: CallId, id: EventId) returns (run': seq<Step>, s': State)
    requires Exec(calls, run) == Some(s) && c in calls && At(s, c, Cleared) && !IdTaken(s, id)
    requires calls[c].expected.Some? ==> calls[c].expected.value == s.Version(calls[c].room)
    ensures Exec(calls, run') == Some(s')
    ensures s'.pcs == s.pcs[c := Done(if calls[c].settles then Sent(id) else Failed(id))]
    ensures s'.locks == s.locks - {calls[c].room} && s'.timeline == s.timeline + [Event(id, calls[c].key, c)]
    ensures s'.txns == if calls[c].settles then s.txns[calls[c].key := EventResponse(id)] else s.txns
    ensures s'.notices == s.notices && s'.versions == s.versions
  {
    run', s' := Stored(calls, run, s, c, id);
    run', s' := Settled(calls, run', s', c);
  }

  /** From any state of any run, a send whose room is free can run alone to the outcome of the one-step send. */
  lemma SoloSend(calls: Calls, run: seq<Step>, s: State, c: CallId, id: EventId) returns (run': seq<Step>)
    requires Exec(calls, run) == Some(s) && !IdTaken(s, id)
    requires c in calls && At(s, c, Start) && calls[c].room !in s.locks
    ensures Exec(calls, run') == Some(Sequential(calls[c], s, c, id))
  {
    if calls[c].key in s.txns {
      RetryAnsweredUnlocked(calls, run, s, c);
      return run + [CheckTxn(c)];
    }
    var s';
    run', s' := Checked(calls, run, s, c);
    assert s'.locks - {calls[c].room} == s.locks;
    if calls[c].expected.Some? && calls[c].expected.value != s.Version(calls[c].room) {
      run', s' := SoloChanged(calls, run', s', c);
    } else {
      run', s' := SoloStored(calls, run', s', c, id);
    }
    assert s'.pcs == Sequential(calls[c], s, c, id).pcs;
  }

  /** A retry is answered from the table at once, also while the room is locked. */
  lemma RetryAnsweredUnlocked(calls: Calls, run: seq<Step>, s: State, c: CallId)
    requires Exec(calls, run) == Some(s) && c in calls && At(s, c, Start) && calls[c].key in s.txns
    ensures forall id :: Exec(calls, run + [CheckTxn(c)]) == Some(Sequential(calls[c], s, c, id))
  {
    var run', s' := Extend(calls, run, s, CheckTxn(c));
  }
}
