/**
 Idempotent sends: check the transaction table, take the room lock, check
 again, compare the room device version, commit the event, run its effects,
 record the transaction. Any number of calls interleave step by step with other
 writers of the same tables.
 */
module SendProtocol {
  import opened Options
  import opened Bytes

  type CallId = nat

  type Room = nat

  type EventId = nat

  /** The bytes of a user, a device and a transaction id; see `TransactionKeys.dfy`. */
  type Key = Data

  /**
   One send: `expected` is the room device version the sender keyed its message
   for, and `settles` whether the effects behind the commit succeed. Those read
   the content again and can fail on it with the event already stored.
   */
  datatype Call = Call(key: Key, room: Room, expected: Option<nat>, settles: bool)

  type Calls = map<CallId, Call>

  /** What a transaction id was answered with; most other endpoints store no event. */
  datatype Response = EventResponse(id: EventId) | EmptyResponse

  /** `Failed` and a `Dropped` that names an event end a call whose event is stored. */
  datatype Answer =
    | Sent(id: EventId)
    | RoomDevicesChanged(version: nat)
    | Refused
    | Failed(id: EventId)
    | Dropped(stored: Option<EventId>)

  datatype Pc =
    | Start
    | Unlocked
    | Locked
    | Cleared
    | Ready
    | Committed(id: EventId)
    | Recorded(id: EventId)
    | Done(answer: Answer)
  {
    predicate HoldsLock() {
      Locked? || Cleared? || Ready? || Committed? || Recorded?
    }

    /** No event of this call can be in the timeline yet, or ever. */
    predicate WroteNothing() {
      match this
      case Committed(_) | Recorded(_) => false
      case Done(answer) => answer.RoomDevicesChanged? || answer.Refused? || answer == Dropped(None)
      case _ => true
    }
  }

  datatype Event = Event(id: EventId, key: Key, sender: CallId)

  /** `notices` are the server notices stored in the table, which are no sends. */
  datatype State = State(
    pcs: map<CallId, Pc>,
    locks: map<Room, CallId>,
    txns: map<Key, Response>,
    timeline: seq<Event>,
    notices: set<(Key, EventId)>,
    versions: map<Room, nat>)
  {
    function Version(r: Room): nat {
      if r in versions then versions[r] else 0
    }
  }

  datatype Step =
    | CheckTxn(c: CallId)
    | TakeLock(c: CallId)
    | CheckTxnLocked(c: CallId)
    | CheckVersion(c: CallId)
    | Commit(c: CallId, id: EventId)
    /** The effects behind the commit succeed, and the transaction is recorded. */
    | Record(c: CallId)
    /** They fail, and the caller gets an error. */
    | Fail(c: CallId)
    | Unlock(c: CallId)
    /** A refusal by any of the checks and fallible calls before the commit. */
    | Refuse(c: CallId)
    /** The request is dropped where no commit waits to be recorded. */
    | Drop(c: CallId)
    /** The request is dropped while the effects of its event run. */
    | DropCommitted(c: CallId)
    /** Another endpoint stores an empty response under a key, at any time. */
    | OtherEndpoint(key: Key)
    /** The server notice endpoint stores its own event under a key, without the room lock. */
    | Notice(key: Key, id: EventId)
    /** A member event changes a room's version under the room lock. */
    | MemberChange(room: Room, version: nat)
    /** An account's devices change; the room lock is not involved. */
    | DeviceChange(room: Room, version: nat)
  {
    function Caller(): Option<CallId> {
      match this
      case OtherEndpoint(_) | Notice(_, _) | MemberChange(_, _) | DeviceChange(_, _) => None
      case _ => Some(c)
    }
  }

  function Init(calls: Calls): State {
    State(map c | c in calls :: Start, map[], map[], [], {}, map[])
  }

  function Move(s: State, c: CallId, pc: Pc): State {
    s.(pcs := s.pcs[c := pc])
  }

  /** Finishes a call; returning drops the lock guard. */
  function Finish(s: State, c: CallId, room: Room, answer: Answer): State
    requires c in s.pcs
  {
    var s' := Move(s, c, Done(answer));
    if s.pcs[c].HoldsLock() then s'.(locks := s.locks - {room}) else s'
  }

  function AnswerFor(r: Response): Answer {
    match r
    case EventResponse(id) => Sent(id)
    case EmptyResponse => Refused
  }

  predicate At(s: State, c: CallId, pc: Pc) {
    c in s.pcs && s.pcs[c] == pc
  }

  predicate IdTaken(s: State, id: EventId) {
    (exists e <- s.timeline :: e.id == id) || (exists n <- s.notices :: n.1 == id)
  }

  /** One step of a call, from where it stands. */
  function CallStep(call: Call, s: State, step: Step, c: CallId): Option<State>
    requires c in s.pcs && step.Caller() == Some(c)
  {
    var pc := s.pcs[c];
    match step
    case CheckTxn(_) =>
      if pc != Start then None
      else if call.key in s.txns then Some(Finish(s, c, call.room, AnswerFor(s.txns[call.key])))
      else Some(Move(s, c, Unlocked))
    case TakeLock(_) =>
      if pc != Unlocked || call.room in s.locks then None
      else Some(Move(s, c, Locked).(locks := s.locks[call.room := c]))
    case CheckTxnLocked(_) =>
      if pc != Locked then None
      else if call.key in s.txns then Some(Finish(s, c, call.room, AnswerFor(s.txns[call.key])))
      else Some(Move(s, c, Cleared))
    case CheckVersion(_) =>
      if pc != Cleared then None
      else
        var version := s.Version(call.room);
        if call.expected.Some? && call.expected.value != version
        then Some(Finish(s, c, call.room, RoomDevicesChanged(version)))
        else Some(Move(s, c, Ready))
    case Commit(_, id) =>
      if pc != Ready || IdTaken(s, id) then None
      else Some(Move(s, c, Committed(id)).(timeline := s.timeline + [Event(id, call.key, c)]))
    case Record(_) =>
      if !pc.Committed? || !call.settles then None
      else Some(Move(s, c, Recorded(pc.id)).(txns := s.txns[call.key := EventResponse(pc.id)]))
    case Fail(_) => if !pc.Committed? || call.settles then None else Some(Finish(s, c, call.room, Failed(pc.id)))
    case Unlock(_) => if !pc.Recorded? then None else Some(Finish(s, c, call.room, Sent(pc.id)))
    case Refuse(_) =>
      if pc.Committed? || pc.Recorded? || pc.Done? then None else Some(Finish(s, c, call.room, Refused))
    case Drop(_) =>
      if pc.Committed? || pc.Done? then None
      else Some(Finish(s, c, call.room, Dropped(if pc.Recorded? then Some(pc.id) else None)))
    case DropCommitted(_) =>
      if !pc.Committed? then None else Some(Finish(s, c, call.room, Dropped(Some(pc.id))))
  }

  /** One atomic step, or nothing when it cannot be taken. */
  function Next(calls: Calls, s: State, step: Step): Option<State> {
    match step
    case OtherEndpoint(key) => Some(s.(txns := s.txns[key := EmptyResponse]))
    case Notice(key, id) =>
      if IdTaken(s, id) then None
      else Some(s.(txns := s.txns[key := EventResponse(id)], notices := s.notices + {(key, id)}))
    case MemberChange(room, version) =>
      if room in s.locks then None else Some(s.(versions := s.versions[room := version]))
    case DeviceChange(room, version) => Some(s.(versions := s.versions[room := version]))
    case _ =>
      var c := step.Caller().value;
      if c !in calls || c !in s.pcs then None else CallStep(calls[c], s, step, c)
  }

  /** The state after a run, if every step of it could be taken. */
  function Exec(calls: Calls, run: seq<Step>): Option<State> {
    if run == [] then Some(Init(calls))
    else
      var before := Exec(calls, run[..|run| - 1]);
      if before.None? then None else Next(calls, before.value, run[|run| - 1])
  }

  lemma Extend(calls: Calls, run: seq<Step>, s: State, step: Step) returns (run': seq<Step>, s': State)
    requires Exec(calls, run) == Some(s) && Next(calls, s, step).Some?
    ensures Exec(calls, run') == Some(s') && Next(calls, s, step) == Some(s') && run' == run + [step]
  {
    run', s' := run + [step], Next(calls, s, step).value;
    assert run'[..|run'| - 1] == run;
  }

  // What every step keeps

  /** Only a commit touches the timeline, and only at its end. */
  lemma NextTimeline(calls: Calls, s: State, step: Step)
    requires Next(calls, s, step).Some?
    ensures var s' := Next(calls, s, step).value;
            && s.notices <= s'.notices
            && (step.Commit? ==> step.c in calls && At(s, step.c, Ready) && At(s', step.c, Committed(step.id)))
            && s'.timeline == s.timeline + (if step.Commit? then [Event(step.id, calls[step.c].key, step.c)] else [])
  {
  }

  lemma NextOthers(calls: Calls, s: State, step: Step, c: CallId)
    requires Next(calls, s, step).Some? && step.Caller() != Some(c)
    ensures var s' := Next(calls, s, step).value;
            (c in s'.pcs <==> c in s.pcs) && (c in s.pcs ==> s'.pcs[c] == s.pcs[c])
  {
  }

  lemma NextPcs(calls: Calls, s: State, step: Step)
    requires Next(calls, s, step).Some?
    ensures Next(calls, s, step).value.pcs.Keys == s.pcs.Keys
  {
  }

  /** Every event carries the key of the call that sent it, and that call has not gone back. */
  ghost predicate EventInv(calls: Calls, s: State, e: Event) {
    e.sender in calls && e.key == calls[e.sender].key && e.sender in s.pcs && !s.pcs[e.sender].WroteNothing()
  }

  ghost predicate WriterInv(calls: Calls, s: State) {
    && (forall i :: 0 <= i < |s.timeline| ==> EventInv(calls, s, s.timeline[i]))
    && (forall i, j :: 0 <= i < j < |s.timeline| ==> s.timeline[i].sender != s.timeline[j].sender)
  }

  lemma StaysWritten(calls: Calls, s: State, step: Step, c: CallId)
    requires Next(calls, s, step).Some? && c in s.pcs && !s.pcs[c].WroteNothing()
    ensures var s' := Next(calls, s, step).value; c in s'.pcs && !s'.pcs[c].WroteNothing()
  {
    if step.Caller() != Some(c) {
      NextOthers(calls, s, step, c);
    }
  }

  lemma NextWriter(calls: Calls, s: State, step: Step)
    requires WriterInv(calls, s) && Next(calls, s, step).Some?
    ensures WriterInv(calls, Next(calls, s, step).value)
  {
    var s' := Next(calls, s, step).value;
    NextTimeline(calls, s, step);
    forall i | 0 <= i < |s.timeline| ensures EventInv(calls, s', s.timeline[i]) {
      assert EventInv(calls, s, s.timeline[i]);
      StaysWritten(calls, s, step, s.timeline[i].sender);
    }
    if step.Commit? {
      forall i | 0 <= i < |s.timeline| ensures s.timeline[i].sender != step.c {
        assert EventInv(calls, s, s.timeline[i]);
      }
    }
  }

  // What answers mean

  ghost predicate HasEvent(s: State, id: EventId, key: Key) {
    exists e <- s.timeline :: e.id == id && e.key == key
  }

  /** The call's own event. */
  ghost predicate OwnEvent(s: State, c: CallId, id: EventId, key: Key) {
    exists e <- s.timeline :: e.id == id && e.sender == c && e.key == key
  }

  /** An id the table may answer with: an event of the key, or a server notice stored under it. */
  ghost predicate Known(s: State, id: EventId, key: Key) {
    HasEvent(s, id, key) || (key, id) in s.notices
  }

  ghost predicate Truthful(calls: Calls, s: State, c: CallId)
    requires c in calls && c in s.pcs
  {
    match s.pcs[c]
    case Committed(id) => OwnEvent(s, c, id, calls[c].key)
    case Recorded(id) => OwnEvent(s, c, id, calls[c].key)
    case Done(Failed(id)) => OwnEvent(s, c, id, calls[c].key)
    case Done(Dropped(Some(id))) => OwnEvent(s, c, id, calls[c].key)
    case Done(Sent(id)) => Known(s, id, calls[c].key)
    case _ => true
  }

  ghost predicate TableInv(s: State) {
    forall k <- s.txns :: s.txns[k].EventResponse? ==> Known(s, s.txns[k].id, k)
  }

  ghost predicate Grows(s: State, s': State) {
    s.notices <= s'.notices && forall e <- s.timeline :: e in s'.timeline
  }

  lemma NextGrows(calls: Calls, s: State, step: Step)
    requires Next(calls, s, step).Some?
    ensures Grows(s, Next(calls, s, step).value)
  {
    NextTimeline(calls, s, step);
  }

  lemma KnownGrows(s: State, s': State, id: EventId, key: Key)
    requires Grows(s, s')
    ensures Known(s, id, key) ==> Known(s', id, key)
  {
    if HasEvent(s, id, key) {
      var e :| e in s.timeline && e.id == id && e.key == key;
      assert e in s'.timeline;
    }
  }

  lemma OwnGrows(s: State, s': State, c: CallId, id: EventId, key: Key)
    requires Grows(s, s')
    ensures OwnEvent(s, c, id, key) ==> OwnEvent(s', c, id, key) && Known(s', id, key)
  {
    if OwnEvent(s, c, id, key) {
      var e :| e in s.timeline && e.id == id && e.sender == c && e.key == key;
      assert e in s'.timeline;
    }
  }

  lemma TruthfulGrows(calls: Calls, s: State, s': State, c: CallId)
    requires Grows(s, s') && c in calls && c in s.pcs && Truthful(calls, s, c)
    requires c in s'.pcs && s'.pcs[c] == s.pcs[c]
    ensures Truthful(calls, s', c)
  {
    match s.pcs[c]
    case Committed(id) => OwnGrows(s, s', c, id, calls[c].key);
    case Recorded(id) => OwnGrows(s, s', c, id, calls[c].key);
    case Done(Failed(id)) => OwnGrows(s, s', c, id, calls[c].key);
    case Done(Dropped(Some(id))) => OwnGrows(s, s', c, id, calls[c].key);
    case Done(Sent(id)) => KnownGrows(s, s', id, calls[c].key);
    case _ =>
  }

  lemma StepTruthful(calls: Calls, s: State, step: Step, c: CallId)
    requires step.Caller() == Some(c) && c in calls && c in s.pcs && CallStep(calls[c], s, step, c).Some?
    requires TableInv(s) && Truthful(calls, s, c)
    ensures Truthful(calls, CallStep(calls[c], s, step, c).value, c)
  {
    var s' := CallStep(calls[c], s, step, c).value;
    if step.Commit? {
      assert s'.timeline[|s.timeline|] in s'.timeline;
    } else {
      assert Grows(s, s');
      if s.pcs[c].Committed? || s.pcs[c].Recorded? {
        OwnGrows(s, s', c, s.pcs[c].id, calls[c].key);
      } else if calls[c].key in s.txns && s.txns[calls[c].key].EventResponse? {
        KnownGrows(s, s', s.txns[calls[c].key].id, calls[c].key);
      }
    }
  }

  lemma NextTruthful(calls: Calls, s: State, step: Step, c: CallId)
    requires TableInv(s) && c in calls && c in s.pcs && Truthful(calls, s, c) && Next(calls, s, step).Some?
    ensures var s' := Next(calls, s, step).value; c in s'.pcs && Truthful(calls, s', c)
  {
    if step.Caller() == Some(c) {
      StepTruthful(calls, s, step, c);
      NextPcs(calls, s, step);
    } else {
      NextOthers(calls, s, step, c);
      NextGrows(calls, s, step);
      TruthfulGrows(calls, s, Next(calls, s, step).value, c);
    }
  }

  /** What a step changes in the table: one entry, or nothing. */
  lemma NextTable(calls: Calls, s: State, step: Step, k: Key)
    requires Next(calls, s, step).Some?
    ensures var s' := Next(calls, s, step).value;
            && (k in s.txns ==> k in s'.txns)
            && (k in s'.txns && s'.txns[k].EventResponse? ==>
                  || (k in s.txns && s.txns[k] == s'.txns[k])
                  || (step.Notice? && (k, s'.txns[k].id) in s'.notices)
                  || (step.Record? && step.c in calls && calls[step.c].key == k && At(s, step.c, Committed(s'.txns[k].id))))
  {
  }

  lemma NextTableInv(calls: Calls, s: State, step: Step)
    requires TableInv(s) && Next(calls, s, step).Some?
    requires forall c <- calls :: c in s.pcs && Truthful(calls, s, c)
    ensures TableInv(Next(calls, s, step).value)
  {
    var s' := Next(calls, s, step).value;
    NextGrows(calls, s, step);
    forall k | k in s'.txns && s'.txns[k].EventResponse? ensures Known(s', s'.txns[k].id, k) {
      NextTable(calls, s, step, k);
      KnownGrows(s, s', s'.txns[k].id, k);
      if step.Record? && step.c in calls {
        assert Truthful(calls, s, step.c);
        OwnGrows(s, s', step.c, s'.txns[k].id, k);
      }
    }
  }

  /** Whoever is inside the locked section holds its room's lock. */
  ghost predicate LockInv(calls: Calls, s: State) {
    && s.pcs.Keys == calls.Keys
    && forall c <- calls :: s.pcs[c].HoldsLock() ==> calls[c].room in s.locks && s.locks[calls[c].room] == c
  }

  lemma FinishLock(calls: Calls, s: State, c: CallId, answer: Answer)
    requires LockInv(calls, s) && c in calls
    ensures LockInv(calls, Finish(s, c, calls[c].room, answer))
  {
  }

  lemma StepLock(calls: Calls, s: State, step: Step, c: CallId)
    requires LockInv(calls, s) && c in calls && step.Caller() == Some(c) && CallStep(calls[c], s, step, c).Some?
    ensures LockInv(calls, CallStep(calls[c], s, step, c).value)
  {
    var s' := CallStep(calls[c], s, step, c).value;
    if s'.pcs[c].Done? {
      FinishLock(calls, s, c, s'.pcs[c].answer);
    }
  }

  lemma NextLock(calls: Calls, s: State, step: Step)
    requires LockInv(calls, s) && Next(calls, s, step).Some?
    ensures LockInv(calls, Next(calls, s, step).value)
  {
    if step.Caller().Some? {
      StepLock(calls, s, step, step.Caller().value);
    }
  }

  /** What holds over every run, with retries, failures and drops of any kind. */
  ghost predicate Inv(calls: Calls, s: State) {
    && LockInv(calls, s)
    && WriterInv(calls, s)
    && TableInv(s)
    && forall c <- calls :: c in s.pcs && Truthful(calls, s, c)
  }

  lemma NextInv(calls: Calls, s: State, step: Step)
    requires Inv(calls, s) && Next(calls, s, step).Some?
    ensures Inv(calls, Next(calls, s, step).value)
  {
    NextLock(calls, s, step);
    NextWriter(calls, s, step);
    NextTableInv(calls, s, step);
    forall c | c in calls ensures c in Next(calls, s, step).value.pcs && Truthful(calls, Next(calls, s, step).value, c) {
      NextTruthful(calls, s, step, c);
    }
  }

  lemma {:induction false} ExecInv(calls: Calls, run: seq<Step>, s: State)
    requires Exec(calls, run) == Some(s)
    ensures Inv(calls, s)
    decreases |run|
  {
    if run != [] {
      var before := Exec(calls, run[..|run| - 1]).value;
      ExecInv(calls, run[..|run| - 1], before);
      NextInv(calls, before, run[|run| - 1]);
    }
  }
}
