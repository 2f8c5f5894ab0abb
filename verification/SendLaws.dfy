/**
 When sends are idempotent: how many events a key can get, which version an
 event was committed at, and runs that show every condition to be needed.
 */
module SendLaws {
  import opened Options
  import opened SendProtocol

  // At most one event per key

  /** Two calls of one key go to one room, and their effects succeed. */
  predicate Retriable(calls: Calls) {
    forall a, b :: a in calls && b in calls && a != b && calls[a].key == calls[b].key ==>
      calls[a].room == calls[b].room && calls[a].settles
  }

  predicate NoLateDrop(run: seq<Step>) {
    forall step <- run :: !step.DropCommitted?
  }

  ghost predicate NoEvent(s: State, key: Key) {
    forall i :: 0 <= i < |s.timeline| ==> s.timeline[i].key != key
  }

  /** An event's key is in the table, or is about to be, or never will be and nobody else uses it. */
  ghost predicate Accounted(calls: Calls, s: State, e: Event) {
    e.key in s.txns || (e.sender in calls && (At(s, e.sender, Committed(e.id)) || !calls[e.sender].settles))
  }

  /** Past the check under the lock no event carries the key. */
  ghost predicate Clear(calls: Calls, s: State, c: CallId)
    requires c in calls
  {
    At(s, c, Cleared) || At(s, c, Ready) ==> NoEvent(s, calls[c].key)
  }

  ghost predicate AtMostOne(s: State) {
    forall i, j :: 0 <= i < j < |s.timeline| ==> s.timeline[i].key != s.timeline[j].key
  }

  ghost predicate OneInv(calls: Calls, s: State) {
    && (forall i :: 0 <= i < |s.timeline| ==> Accounted(calls, s, s.timeline[i]))
    && (forall c <- calls :: Clear(calls, s, c))
    && AtMostOne(s)
  }

  /** Two calls of one key are never inside the locked section together. */
  lemma OneInside(calls: Calls, s: State, a: CallId, b: CallId)
    requires Retriable(calls) && LockInv(calls, s) && a in calls && b in calls
    requires calls[a].key == calls[b].key && s.pcs[a].HoldsLock() && s.pcs[b].HoldsLock()
    ensures a == b
  {
  }

  /** Under the lock, an unknown transaction id means no event of the key exists. */
  lemma ClearedNoEvent(calls: Calls, s: State, c: CallId)
    requires Retriable(calls) && Inv(calls, s) && OneInv(calls, s)
    requires c in calls && At(s, c, Locked) && calls[c].key !in s.txns
    ensures NoEvent(s, calls[c].key)
  {
    forall i | 0 <= i < |s.timeline| ensures s.timeline[i].key != calls[c].key {
      var e := s.timeline[i];
      assert EventInv(calls, s, e) && Accounted(calls, s, e);
      if e.key == calls[c].key && At(s, e.sender, Committed(e.id)) {
        OneInside(calls, s, c, e.sender);
      }
    }
  }

  lemma NextAccounted(calls: Calls, s: State, step: Step, e: Event)
    requires Next(calls, s, step).Some? && !step.DropCommitted?
    requires EventInv(calls, s, e) && Accounted(calls, s, e)
    ensures Accounted(calls, Next(calls, s, step).value, e)
  {
    NextTable(calls, s, step, e.key);
    if step.Caller() != Some(e.sender) {
      NextOthers(calls, s, step, e.sender);
    }
  }

  /** A call reaches its commit only through the check under the lock, and leaves by it. */
  lemma StepClear(calls: Calls, s: State, step: Step, c: CallId)
    requires Next(calls, s, step).Some? && c in calls && step.Caller() == Some(c) && Clear(calls, s, c)
    requires At(s, c, Locked) && calls[c].key !in s.txns ==> NoEvent(s, calls[c].key)
    ensures Clear(calls, Next(calls, s, step).value, c)
  {
  }

  /** A commit concerns no other call of its key that is inside the locked section. */
  lemma NextClear(calls: Calls, s: State, step: Step, c: CallId)
    requires Retriable(calls) && Inv(calls, s) && OneInv(calls, s) && Next(calls, s, step).Some? && c in calls
    ensures Clear(calls, Next(calls, s, step).value, c)
  {
    assert Clear(calls, s, c);
    if step.Caller() == Some(c) {
      if At(s, c, Locked) && calls[c].key !in s.txns {
        ClearedNoEvent(calls, s, c);
      }
      StepClear(calls, s, step, c);
    } else {
      NextTimeline(calls, s, step);
      NextOthers(calls, s, step, c);
      if step.Commit? && s.pcs[c].HoldsLock() && calls[c].key == calls[step.c].key {
        OneInside(calls, s, c, step.c);
      }
    }
  }

  lemma NextOne(calls: Calls, s: State, step: Step)
    requires Retriable(calls) && Inv(calls, s) && OneInv(calls, s)
    requires Next(calls, s, step).Some? && !step.DropCommitted?
    ensures OneInv(calls, Next(calls, s, step).value)
  {
    var s' := Next(calls, s, step).value;
    NextTimeline(calls, s, step);
    forall i | 0 <= i < |s.timeline| ensures Accounted(calls, s', s.timeline[i]) {
      assert EventInv(calls, s, s.timeline[i]);
      NextAccounted(calls, s, step, s.timeline[i]);
    }
    forall c | c in calls ensures Clear(calls, s', c) {
      NextClear(calls, s, step, c);
    }
    if step.Commit? {
      assert Clear(calls, s, step.c);
    }
  }

  lemma {:induction false} ExecOne(calls: Calls, run: seq<Step>, s: State)
    requires Retriable(calls) && Exec(calls, run) == Some(s) && NoLateDrop(run)
    ensures OneInv(calls, s)
    decreases |run|
  {
    if run != [] {
      var init := run[..|run| - 1];
      var before := Exec(calls, init).value;
      assert run[|run| - 1] in run;
      ExecOne(calls, init, before);
      ExecInv(calls, init, before);
      NextOne(calls, before, run[|run| - 1]);
    }
  }

  ghost predicate Noticed(s: State, key: Key) {
    exists n <- s.notices :: n.0 == key
  }

  /** Under every interleaving without a drop behind a commit, a key gets at most one event. */
  lemma SendsAreIdempotent(calls: Calls, run: seq<Step>, s: State)
    requires Retriable(calls) && Exec(calls, run) == Some(s) && NoLateDrop(run)
    ensures AtMostOne(s)
  {
    ExecOne(calls, run, s);
  }

  /** Every `Sent` answer to a key, first or retried, carries its one event's id, unless a notice took the key. */
  lemma SentAnswersAgree(calls: Calls, run: seq<Step>, s: State, a: CallId, b: CallId, id: EventId, id': EventId)
    requires Retriable(calls) && Exec(calls, run) == Some(s) && NoLateDrop(run)
    requires a in calls && b in calls && calls[a].key == calls[b].key && !Noticed(s, calls[a].key)
    requires At(s, a, Done(Sent(id))) && At(s, b, Done(Sent(id')))
    ensures id == id' && HasEvent(s, id, calls[a].key)
  {
    ExecInv(calls, run, s);
    ExecOne(calls, run, s);
    assert Truthful(calls, s, a) && Truthful(calls, s, b);
    SameEvent(s, id, id', calls[a].key);
  }

  lemma SameEvent(s: State, id: EventId, id': EventId, key: Key)
    requires AtMostOne(s) && HasEvent(s, id, key) && HasEvent(s, id', key)
    ensures id == id'
  {
    var i :| 0 <= i < |s.timeline| && s.timeline[i].id == id && s.timeline[i].key == key;
    var j :| 0 <= j < |s.timeline| && s.timeline[j].id == id' && s.timeline[j].key == key;
  }

  // Commits match their version

  /** What happened since the version was checked at step `i`. */
  ghost predicate DevicesChangedSince(run: seq<Step>, i: nat, room: Room) {
    exists j :: i < j < |run| && run[j].DeviceChange? && run[j].room == room
  }

  lemma NextReady(calls: Calls, s: State, step: Step, c: CallId)
    requires LockInv(calls, s) && c in calls && Next(calls, s, step).Some? && At(Next(calls, s, step).value, c, Ready)
    ensures step == CheckVersion(c) || At(s, c, Ready)
    ensures step == CheckVersion(c) && calls[c].expected.Some? ==>
              Next(calls, s, step).value.Version(calls[c].room) == calls[c].expected.value
    ensures step != CheckVersion(c) ==> || (step.DeviceChange? && step.room == calls[c].room)
                                        || Next(calls, s, step).value.Version(calls[c].room) == s.Version(calls[c].room)
  {
    if step.Caller() != Some(c) {
      NextOthers(calls, s, step, c);
    }
  }

  /** A call ready to commit has checked the version, and it still holds unless devices changed since. */
  lemma {:induction false} ReadyHistory(calls: Calls, run: seq<Step>, s: State, c: CallId) returns (i: nat)
    requires Exec(calls, run) == Some(s) && c in calls && At(s, c, Ready)
    ensures i < |run| && run[i] == CheckVersion(c)
    ensures calls[c].expected.Some? ==>
              s.Version(calls[c].room) == calls[c].expected.value || DevicesChangedSince(run, i, calls[c].room)
    decreases |run|
  {
    var init, step := run[..|run| - 1], run[|run| - 1];
    var before := Exec(calls, init).value;
    ExecInv(calls, init, before);
    NextReady(calls, before, step, c);
    if step == CheckVersion(c) {
      i := |run| - 1;
    } else {
      i := ReadyHistory(calls, init, before, c);
      if DevicesChangedSince(init, i, calls[c].room) {
        var j :| i < j < |init| && init[j].DeviceChange? && init[j].room == calls[c].room;
        assert run[j] == init[j];
      } else if step.DeviceChange? && step.room == calls[c].room {
        assert run[|run| - 1].DeviceChange?;
      }
    }
  }

  /**
   Every commit that carried an expected version happens while the room's
   version is that one, unless a device change, which does not take the room
   lock, fell between the check and the commit.
   */
  lemma CommitsMatchVersion(calls: Calls, run: seq<Step>, s: State, c: CallId, id: EventId) returns (i: nat)
    requires Exec(calls, run) == Some(s) && c in calls && calls[c].expected.Some? && Next(calls, s, Commit(c, id)).Some?
    ensures i < |run| && run[i] == CheckVersion(c)
    ensures s.Version(calls[c].room) == calls[c].expected.value || DevicesChangedSince(run, i, calls[c].room)
  {
    i := ReadyHistory(calls, run, s, c);
  }

  // Every condition is needed

  lemma Continue(calls: Calls, run: seq<Step>, s: State, step: Step) returns (run': seq<Step>, s': State)
    requires Exec(calls, run) == Some(s) && Next(calls, s, step).Some?
    ensures Exec(calls, run') == Some(s') && Next(calls, s, step) == Some(s')
    ensures NoLateDrop(run') <==> NoLateDrop(run) && !step.DropCommitted?
  {
    run', s' := Extend(calls, run, s, step);
    assert step in run' && forall x <- run :: x in run';
  }

  lemma AdvanceToLock(calls: Calls, run: seq<Step>, s: State, c: CallId) returns (run': seq<Step>, s': State)
    requires Exec(calls, run) == Some(s)
    requires c in calls && At(s, c, Start) && calls[c].key !in s.txns && calls[c].room !in s.locks
    ensures Exec(calls, run') == Some(s') && (NoLateDrop(run') <==> NoLateDrop(run))
    ensures s' == Move(s, c, Locked).(locks := s.locks[calls[c].room := c])
  {
    run', s' := Continue(calls, run, s, CheckTxn(c));
    run', s' := Continue(calls, run', s', TakeLock(c));
  }

  lemma AdvanceToReady(calls: Calls, run: seq<Step>, s: State, c: CallId) returns (run': seq<Step>, s': State)
    requires Exec(calls, run) == Some(s)
    requires c in calls && At(s, c, Locked) && calls[c].key !in s.txns
    requires calls[c].expected.Some? ==> s.Version(calls[c].room) == calls[c].expected.value
    ensures Exec(calls, run') == Some(s') && (NoLateDrop(run') <==> NoLateDrop(run))
    ensures s' == s.(pcs := s.pcs[c := Ready])
  {
    run', s' := Continue(calls, run, s, CheckTxnLocked(c));
    run', s' := Continue(calls, run', s', CheckVersion(c));
  }

  /** Takes one call up to its commit, from a state that does not stand in its way. */
  lemma Advance(calls: Calls, run: seq<Step>, s: State, c: CallId) returns (run': seq<Step>, s': State)
    requires Exec(calls, run) == Some(s)
    requires c in calls && At(s, c, Start) && calls[c].key !in s.txns && calls[c].room !in s.locks
    ensures Exec(calls, run') == Some(s') && (NoLateDrop(run') <==> NoLateDrop(run))
    ensures At(s', c, Ready) && s'.pcs == s.pcs[c := Ready] && s'.notices == s.notices
    ensures s'.txns == s.txns && s'.timeline == s.timeline && s'.locks == s.locks[calls[c].room := c]
  {
    var version := if calls[c].expected.Some? then calls[c].expected.value else 0;
    run', s' := Continue(calls, run, s, MemberChange(calls[c].room, version));
    run', s' := AdvanceToLock(calls, run', s', c);
    run', s' := AdvanceToReady(calls, run', s', c);
  }

  /** Takes one call through its commit. */
  lemma CommitOne(calls: Calls, run: seq<Step>, s: State, c: CallId, id: EventId) returns (run': seq<Step>, s': State)
    requires Exec(calls, run) == Some(s) && !IdTaken(s, id)
    requires c in calls && At(s, c, Start) && calls[c].key !in s.txns && calls[c].room !in s.locks
    ensures Exec(calls, run') == Some(s') && (NoLateDrop(run') <==> NoLateDrop(run))
    ensures s'.pcs == s.pcs[c := Committed(id)] && s'.notices == s.notices && s'.txns == s.txns
    ensures s'.locks == s.locks[calls[c].room := c]
    ensures |s'.timeline| == |s.timeline| + 1 && s'.timeline[..|s.timeline|] == s.timeline
    ensures s'.timeline[|s.timeline|].key == calls[c].key && s'.timeline[|s.timeline|].id == id
  {
    run', s' := Advance(calls, run, s, c);
    run', s' := Continue(calls, run', s', Commit(c, id));
  }

  /** A key used in two rooms can get two events: each room's lock guards only its own section. */
  lemma TwoRoomsTwoEvents(calls: Calls, a: CallId, b: CallId) returns (run: seq<Step>, s: State)
    requires a in calls && b in calls && calls[a].key == calls[b].key && calls[a].room != calls[b].room
    ensures Exec(calls, run) == Some(s) && NoLateDrop(run) && !AtMostOne(s)
  {
    run, s := CommitOne(calls, [], Init(calls), a, 0);
    run, s := CommitOne(calls, run, s, b, 1);
    assert s.timeline[0].key == s.timeline[1].key;
  }

  lemma EndCommitted(calls: Calls, run: seq<Step>, s: State, c: CallId, ending: Step) returns (run': seq<Step>, s': State)
    requires Exec(calls, run) == Some(s) && c in calls && c in s.pcs && s.pcs[c].Committed?
    requires ending == DropCommitted(c) || (ending == Fail(c) && !calls[c].settles)
    ensures Exec(calls, run') == Some(s') && (NoLateDrop(run') <==> NoLateDrop(run) && ending.Fail?)
    ensures s'.pcs.Keys == s.pcs.Keys && (forall d <- s.pcs :: d != c ==> s'.pcs[d] == s.pcs[d])
    ensures s'.locks == s.locks - {calls[c].room}
    ensures s'.txns == s.txns && s'.timeline == s.timeline && s'.notices == s.notices
  {
    run', s' := Continue(calls, run, s, ending);
  }

  /** A call that ended behind its commit without a record leaves the next one of its key free to commit. */
  lemma RetryTwoEvents(calls: Calls, a: CallId, b: CallId, ending: Step) returns (run: seq<Step>, s: State)
    requires a in calls && b in calls && a != b && calls[a].key == calls[b].key
    requires ending == DropCommitted(a) || (ending == Fail(a) && !calls[a].settles)
    ensures Exec(calls, run) == Some(s) && !AtMostOne(s)
    ensures NoLateDrop(run) <==> ending.Fail?
  {
    run, s := CommitOne(calls, [], Init(calls), a, 0);
    run, s := EndCommitted(calls, run, s, a, ending);
    run, s := CommitOne(calls, run, s, b, 1);
    assert s.timeline[0].key == s.timeline[1].key;
  }

  /** The effects fail, the caller is told so, and the retry stores the message again. */
  lemma FailedSendTwoEvents(calls: Calls, a: CallId, b: CallId) returns (run: seq<Step>, s: State)
    requires a in calls && b in calls && a != b && calls[a].key == calls[b].key && !calls[a].settles
    ensures Exec(calls, run) == Some(s) && NoLateDrop(run) && !AtMostOne(s)
  {
    run, s := RetryTwoEvents(calls, a, b, Fail(a));
  }

  /** The caller goes away while the effects run, and the retry stores the message again. */
  lemma LateDropTwoEvents(calls: Calls, a: CallId, b: CallId) returns (run: seq<Step>, s: State)
    requires a in calls && b in calls && a != b && calls[a].key == calls[b].key
    ensures Exec(calls, run) == Some(s) && !AtMostOne(s)
  {
    run, s := RetryTwoEvents(calls, a, b, DropCommitted(a));
  }

  /**
   Without drops behind a commit, idempotence over every run holds exactly when
   any two calls of one key share a room and both settle.
   */
  lemma IdempotentIffRetriable(calls: Calls)
    ensures Retriable(calls) <==>
              forall run :: Exec(calls, run).Some? && NoLateDrop(run) ==> AtMostOne(Exec(calls, run).value)
  {
    if Retriable(calls) {
      forall run | Exec(calls, run).Some? && NoLateDrop(run) ensures AtMostOne(Exec(calls, run).value) {
        ExecOne(calls, run, Exec(calls, run).value);
      }
    } else {
      var a, b :| a in calls && b in calls && a != b && calls[a].key == calls[b].key &&
                  !(calls[a].room == calls[b].room && calls[a].settles);
      if calls[a].room != calls[b].room {
        var run, s := TwoRoomsTwoEvents(calls, a, b);
      } else {
        var run, s := FailedSendTwoEvents(calls, a, b);
      }
    }
  }

  predicate DistinctKeys(calls: Calls) {
    forall a, b :: a in calls && b in calls && a != b ==> calls[a].key != calls[b].key
  }

  /** With drops of any kind it holds exactly when nothing is ever retried. */
  lemma IdempotentUnderDropsIff(calls: Calls)
    ensures DistinctKeys(calls) <==> forall run :: Exec(calls, run).Some? ==> AtMostOne(Exec(calls, run).value)
  {
    if DistinctKeys(calls) {
      forall run | Exec(calls, run).Some? ensures AtMostOne(Exec(calls, run).value) {
        var s := Exec(calls, run).value;
        ExecInv(calls, run, s);
        forall i, j | 0 <= i < j < |s.timeline| ensures s.timeline[i].key != s.timeline[j].key {
          assert EventInv(calls, s, s.timeline[i]) && EventInv(calls, s, s.timeline[j]);
        }
      }
    } else {
      var a, b :| a in calls && b in calls && a != b && calls[a].key == calls[b].key;
      var run, s := LateDropTwoEvents(calls, a, b);
    }
  }

  /** A device change between the check and the commit lets a send through at a version it was not keyed for. */
  lemma DeviceChangeRaces(calls: Calls, c: CallId) returns (run: seq<Step>, s: State)
    requires c in calls && calls[c].expected.Some?
    ensures Exec(calls, run) == Some(s) && s.Version(calls[c].room) != calls[c].expected.value
    ensures Next(calls, s, Commit(c, 0)).Some?
  {
    run, s := Advance(calls, [], Init(calls), c);
    run, s := Continue(calls, run, s, DeviceChange(calls[c].room, calls[c].expected.value + 1));
  }

  /** A notice takes a key from a send: the retry is answered with the notice's id. */
  lemma NoticeTakesKey(calls: Calls, c: CallId, id: EventId) returns (run: seq<Step>, s: State)
    requires c in calls
    ensures Exec(calls, run) == Some(s) && At(s, c, Done(Sent(id))) && s.timeline == []
  {
    run, s := Continue(calls, [], Init(calls), Notice(calls[c].key, id));
    run, s := Continue(calls, run, s, CheckTxn(c));
  }

  /** So does any other endpoint that stores no event: the send is refused. */
  lemma OtherEndpointTakesKey(calls: Calls, c: CallId) returns (run: seq<Step>, s: State)
    requires c in calls
    ensures Exec(calls, run) == Some(s) && At(s, c, Done(Refused)) && s.timeline == [] && !(exists step <- run :: step.Refuse?)
  {
    run, s := Extend(calls, [], Init(calls), OtherEndpoint(calls[c].key));
    run, s := Extend(calls, run, s, CheckTxn(c));
  }
}
