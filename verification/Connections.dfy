/**
 Connection accounting: how many places each device and each source address
 holds, and which serving connections the end of a device's session reaches.
 Every place and every registration is given back by dropping its guard.
 */
module Connections {
  import opened Options

  /** (user, device). */
  datatype Key = Key(user: nat, device: nat)

  type ConnectionId = nat

  /** The handle that asks one connection to end. */
  type Cancel = nat

  datatype Device = Device(reserved: nat, live: map<ConnectionId, Cancel>) {
    predicate IsEmpty() {
      reserved == 0 && live == map[]
    }
  }

  type Table = map<Key, Device>

  const IDLE := Device(0, map[])

  function Get(table: Table, key: Key): Device {
    if key in table then table[key] else IDLE
  }

  /** Stores a device's entry, or forgets it once nothing is left. */
  function Keep(table: Table, key: Key, d: Device): Table {
    if d.IsEmpty() then table - {key} else table[key := d]
  }

  /** What one guard stands for: a connection registered under a key with the handle that ends it. */
  datatype Registration = Registration(key: Key, connection: ConnectionId, cancel: Cancel) {
    /** A guard remembers where its entry is, not the handle stored there. */
    predicate SamePlace(other: Registration) {
      key == other.key && connection == other.connection
    }
  }

  /** The tables together with the guards that are outstanding. */
  datatype Book = Book(table: Table, slots: multiset<Key>, registrations: multiset<Registration>, told: set<Cancel>)

  datatype Step =
    | TakeSlot(key: Key, max: nat)
    | DropSlot(key: Key)
    | Register(key: Key, connection: ConnectionId, cancel: Cancel)
    | DropRegistration(r: Registration)
    | EndSessions(key: Key)

  /** One call; a guard can only be dropped while it is held. */
  function Apply(b: Book, step: Step): Option<Book> {
    match step
    case TakeSlot(key, max) =>
      if max == 0 then Some(b)
      else
        var d := Get(b.table, key);
        if d.reserved >= max then Some(b.(table := b.table[key := d]))
        else Some(b.(table := b.table[key := d.(reserved := d.reserved + 1)], slots := b.slots + multiset{key}))
    case DropSlot(key) =>
      if key !in b.slots then None
      else
        var d := Get(b.table, key);
        var left := if d.reserved > 0 then d.reserved - 1 else 0;
        var table := if key in b.table then Keep(b.table, key, d.(reserved := left)) else b.table;
        Some(b.(table := table, slots := b.slots - multiset{key}))
    case Register(key, connection, cancel) =>
      var d := Get(b.table, key);
      Some(b.(table := b.table[key := d.(live := d.live[connection := cancel])],
              registrations := b.registrations + multiset{Registration(key, connection, cancel)}))
    case DropRegistration(r) =>
      if r !in b.registrations then None
      else
        var d := Get(b.table, r.key);
        var table := if r.key in b.table then Keep(b.table, r.key, d.(live := d.live - {r.connection})) else b.table;
        Some(b.(table := table, registrations := b.registrations - multiset{r}))
    case EndSessions(key) => Some(b.(told := b.told + Get(b.table, key).live.Values))
  }

  /** One device's entry says what its outstanding guards say. */
  ghost predicate Accurate(b: Book, key: Key) {
    var d := Get(b.table, key);
    && d.reserved == b.slots[key]
    && (forall c, n :: Registration(key, c, n) in b.registrations <==> c in d.live && d.live[c] == n)
    && (key in b.table <==> !d.IsEmpty())
  }

  ghost predicate Inv(b: Book) {
    forall key :: Accurate(b, key)
  }

  /** No connection is registered twice under one identity at a time. */
  ghost predicate DistinctRegistrations(b: Book) {
    && (forall r :: b.registrations[r] <= 1)
    && (forall r, r' :: r in b.registrations && r' in b.registrations && r.SamePlace(r') ==> r == r')
  }

  /** Another handle is registered for the same connection under the same identity. */
  ghost predicate Conflicts(b: Book, r: Registration) {
    exists r' :: r' in b.registrations && r.SamePlace(r') && r' != r
  }

  lemma Unaffected(b: Book, b': Book, key: Key)
    requires Accurate(b, key)
    requires (key in b'.table <==> key in b.table) && (key in b.table ==> b'.table[key] == b.table[key])
    requires b'.slots[key] == b.slots[key]
    requires forall c, n :: Registration(key, c, n) in b'.registrations <==> Registration(key, c, n) in b.registrations
    ensures Accurate(b', key)
  {
  }

  lemma TakeSlotKeeps(b: Book, key: Key, max: nat)
    requires Inv(b)
    ensures Inv(Apply(b, TakeSlot(key, max)).value)
  {
    var b' := Apply(b, TakeSlot(key, max)).value;
    assert Accurate(b, key);
    forall k ensures Accurate(b', k) {
      assert Accurate(b, k);
      if k != key { Unaffected(b, b', k); }
    }
  }

  lemma DropSlotKeeps(b: Book, key: Key)
    requires Inv(b) && key in b.slots
    ensures Inv(Apply(b, DropSlot(key)).value)
  {
    var b' := Apply(b, DropSlot(key)).value;
    assert Accurate(b, key);
    forall k ensures Accurate(b', k) {
      assert Accurate(b, k);
      if k != key { Unaffected(b, b', k); }
    }
  }

  /** Registering keeps the tables accurate exactly when it replaces no handle another guard stands for. */
  lemma RegisterKeeps(b: Book, key: Key, connection: ConnectionId, cancel: Cancel)
    requires Inv(b)
    ensures Inv(Apply(b, Register(key, connection, cancel)).value) <==> !Conflicts(b, Registration(key, connection, cancel))
  {
    var b', r := Apply(b, Register(key, connection, cancel)).value, Registration(key, connection, cancel);
    assert Accurate(b, key);
    if Conflicts(b, r) {
      var r' :| r' in b.registrations && r.SamePlace(r') && r' != r;
      assert r' == Registration(key, connection, r'.cancel) && r' in b'.registrations;
      assert !Accurate(b', key);
    } else {
      forall k ensures Accurate(b', k) {
        assert Accurate(b, k);
        if k == key {
          RegisteredAccurate(b, b', r);
        } else {
          Unaffected(b, b', k);
        }
      }
    }
  }

  lemma RegisteredAccurate(b: Book, b': Book, r: Registration)
    requires Accurate(b, r.key) && !Conflicts(b, r)
    requires Some(b') == Apply(b, Register(r.key, r.connection, r.cancel))
    ensures Accurate(b', r.key)
  {
    var d := Get(b'.table, r.key);
    forall c, n ensures Registration(r.key, c, n) in b'.registrations <==> c in d.live && d.live[c] == n {
      var r' := Registration(r.key, c, n);
      assert r' in b'.registrations <==> r' == r || r' in b.registrations;
      assert r' in b.registrations && c == r.connection ==> r.SamePlace(r');
    }
  }

  /** Dropping a registration keeps the tables accurate exactly when no second guard stands for it. */
  lemma DropRegistrationKeeps(b: Book, r: Registration)
    requires Inv(b) && r in b.registrations
    ensures Inv(Apply(b, DropRegistration(r)).value) <==> b.registrations[r] == 1
  {
    var b' := Apply(b, DropRegistration(r)).value;
    assert Accurate(b, r.key);
    assert Registration(r.key, r.connection, r.cancel) == r;
    assert r.connection in Get(b.table, r.key).live;
    assert r.connection !in Get(b'.table, r.key).live;
    if b.registrations[r] == 1 {
      forall k ensures Accurate(b', k) {
        assert Accurate(b, k);
        if k == r.key {
          DroppedAccurate(b, b', r);
        } else {
          Unaffected(b, b', k);
        }
      }
    } else {
      assert r in b'.registrations;
      assert !Accurate(b', r.key);
    }
  }

  lemma DroppedAccurate(b: Book, b': Book, r: Registration)
    requires Accurate(b, r.key) && r in b.registrations && b.registrations[r] == 1
    requires Some(b') == Apply(b, DropRegistration(r))
    ensures Accurate(b', r.key)
  {
    var d, d' := Get(b.table, r.key), Get(b'.table, r.key);
    assert Registration(r.key, r.connection, r.cancel) == r;
    assert d'.live == d.live - {r.connection} && d'.reserved == d.reserved;
    forall c, n ensures Registration(r.key, c, n) in b'.registrations <==> c in d'.live && d'.live[c] == n {
      var r' := Registration(r.key, c, n);
      assert r' in b'.registrations <==> r' != r && r' in b.registrations;
    }
  }

  lemma EndSessionsKeeps(b: Book, key: Key)
    requires Inv(b)
    ensures Inv(Apply(b, EndSessions(key)).value)
  {
    forall k ensures Accurate(Apply(b, EndSessions(key)).value, k) {
      assert Accurate(b, k);
    }
  }

  // Every run

  const EMPTY := Book(map[], multiset{}, multiset{}, {})

  function Exec(run: seq<Step>): Option<Book> {
    if run == [] then Some(EMPTY)
    else
      var b := Exec(run[..|run| - 1]);
      if b.None? then None else Apply(b.value, run[|run| - 1])
  }

  /** Registrations stay distinct along the whole run. */
  ghost predicate Disciplined(run: seq<Step>) {
    forall n :: 0 <= n <= |run| && Exec(run[..n]).Some? ==> DistinctRegistrations(Exec(run[..n]).value)
  }

  lemma DisciplinedInit(run: seq<Step>)
    requires Disciplined(run) && run != []
    ensures Disciplined(run[..|run| - 1])
  {
    var init := run[..|run| - 1];
    forall n | 0 <= n <= |init| ensures init[..n] == run[..n] {
    }
  }

  /**
   Over every run each device's count equals its outstanding slots, its index
   lists exactly its outstanding registrations, and it has an entry exactly
   while it has either.
   */
  lemma {:induction false} BookStaysAccurate(run: seq<Step>)
    requires Exec(run).Some? && Disciplined(run)
    ensures Inv(Exec(run).value)
  {
    if run != [] {
      var init := run[..|run| - 1];
      DisciplinedInit(run);
      BookStaysAccurate(init);
      var b := Exec(init).value;
      match run[|run| - 1]
      case TakeSlot(key, max) => TakeSlotKeeps(b, key, max);
      case DropSlot(key) => DropSlotKeeps(b, key);
      case Register(key, connection, cancel) =>
        RegisterKeeps(b, key, connection, cancel);
        assert run[..|run|] == run;
        assert DistinctRegistrations(Exec(run[..|run|]).value);
        NoConflict(b, Exec(run).value, Registration(key, connection, cancel));
      case DropRegistration(r) =>
        assert DistinctRegistrations(Exec(run[..|run| - 1]).value);
        DropRegistrationKeeps(b, r);
      case EndSessions(key) => EndSessionsKeeps(b, key);
    }
  }

  lemma NoConflict(b: Book, b': Book, r: Registration)
    requires DistinctRegistrations(b') && b'.registrations == b.registrations + multiset{r}
    ensures !Conflicts(b, r)
  {
    assert r in b'.registrations;
    forall r' | r' in b.registrations ensures r' in b'.registrations {
    }
  }

  /** The handles of a device's outstanding registrations. */
  ghost function Handles(b: Book, key: Key): set<Cancel> {
    set r | r in b.registrations && r.key == key :: r.cancel
  }

  /** The connections of a device's outstanding registrations. */
  ghost function Listed(b: Book, key: Key): set<ConnectionId> {
    set r | r in b.registrations && r.key == key :: r.connection
  }

  lemma LiveListed(b: Book, key: Key, c: ConnectionId)
    requires Accurate(b, key) && c in Get(b.table, key).live
    ensures Registration(key, c, Get(b.table, key).live[c]) in b.registrations
  {
  }

  lemma RegisteredLive(b: Book, r: Registration)
    requires Accurate(b, r.key) && r in b.registrations
    ensures r.connection in Get(b.table, r.key).live && Get(b.table, r.key).live[r.connection] == r.cancel
  {
    assert Registration(r.key, r.connection, r.cancel) == r;
  }

  /** `live` holds what is registered under `key`. */
  ghost predicate Mirrors(live: map<ConnectionId, Cancel>, b: Book, key: Key) {
    && (forall c <- live :: Registration(key, c, live[c]) in b.registrations)
    && (forall r <- b.registrations :: r.key == key ==> r.connection in live && live[r.connection] == r.cancel)
  }

  lemma AccurateMirrors(b: Book, key: Key)
    requires Accurate(b, key)
    ensures Mirrors(Get(b.table, key).live, b, key)
  {
    var live := Get(b.table, key).live;
    forall c | c in live ensures Registration(key, c, live[c]) in b.registrations {
      LiveListed(b, key, c);
    }
    forall r | r in b.registrations && r.key == key ensures r.connection in live && live[r.connection] == r.cancel {
      RegisteredLive(b, r);
    }
  }

  lemma MirroredSets(live: map<ConnectionId, Cancel>, b: Book, key: Key)
    requires Mirrors(live, b, key)
    ensures live.Values == Handles(b, key) && live.Keys == Listed(b, key)
  {
    forall c | c in live ensures live[c] in Handles(b, key) && c in Listed(b, key) {
      var r := Registration(key, c, live[c]);
      assert r in b.registrations && r.key == key && r.cancel == live[c] && r.connection == c;
    }
    forall r | r in b.registrations && r.key == key ensures r.cancel in live.Values && r.connection in live.Keys {
      assert live[r.connection] == r.cancel;
    }
  }

  lemma LiveIsRegistered(b: Book, key: Key)
    requires Accurate(b, key)
    ensures Get(b.table, key).live.Values == Handles(b, key)
    ensures Get(b.table, key).live.Keys == Listed(b, key)
  {
    AccurateMirrors(b, key);
    MirroredSets(Get(b.table, key).live, b, key);
  }

  /**
   Over every run without double registrations, ending a device's sessions tells
   exactly the handles of its outstanding registrations.
   */
  lemma SessionsEnded(run: seq<Step>, key: Key)
    requires Exec(run).Some? && Disciplined(run)
    ensures Exec(run + [EndSessions(key)]).Some?
    ensures Exec(run + [EndSessions(key)]).value.told == Exec(run).value.told + Handles(Exec(run).value, key)
  {
    BookStaysAccurate(run);
    ExecSnoc(run, EndSessions(key));
    LiveIsRegistered(Exec(run).value, key);
  }

  /** The count equals the outstanding slots whatever becomes of the registrations. */
  lemma ReservedKept(b: Book, step: Step, key: Key)
    requires Get(b.table, key).reserved == b.slots[key] && Apply(b, step).Some?
    ensures var b' := Apply(b, step).value;
            && Get(b'.table, key).reserved == b'.slots[key]
            && (b'.slots[key] <= b.slots[key] || (step.TakeSlot? && b'.slots[key] <= step.max))
  {
    match step
    case TakeSlot(k, _) => assert k != key ==> Get(Apply(b, step).value.table, key) == Get(b.table, key);
    case DropSlot(k) => assert k != key ==> Get(Apply(b, step).value.table, key) == Get(b.table, key);
    case Register(_, _, _) =>
    case DropRegistration(_) =>
    case EndSessions(_) =>
  }

  /** A device never holds more places than the limit it is asked with. */
  lemma {:induction false} LimitHolds(run: seq<Step>, max: nat, key: Key)
    requires Exec(run).Some? && max > 0
    requires forall step <- run :: step.TakeSlot? ==> step.max == max
    ensures Get(Exec(run).value.table, key).reserved == Exec(run).value.slots[key] <= max
  {
    if run != [] {
      var init, step := run[..|run| - 1], run[|run| - 1];
      LimitHolds(init, max, key);
      assert step in run;
      ReservedKept(Exec(init).value, step, key);
    }
  }

  lemma ExecSnoc(run: seq<Step>, step: Step)
    requires Exec(run).Some?
    ensures Exec(run + [step]) == Apply(Exec(run).value, step)
  {
    assert (run + [step])[..|run|] == run;
  }

  // The guards alone

  /** What is held, without any table. */
  datatype Guards = Guards(slots: multiset<Key>, registrations: multiset<Registration>)

  /** A place is given while fewer than `max` are out, and a guard can be dropped while it is held. */
  function Hold(g: Guards, step: Step): Option<Guards> {
    match step
    case TakeSlot(key, max) => Some(if g.slots[key] < max then g.(slots := g.slots + multiset{key}) else g)
    case DropSlot(key) => if key in g.slots then Some(g.(slots := g.slots - multiset{key})) else None
    case Register(key, connection, cancel) =>
      Some(g.(registrations := g.registrations + multiset{Registration(key, connection, cancel)}))
    case DropRegistration(r) =>
      if r in g.registrations then Some(g.(registrations := g.registrations - multiset{r})) else None
    case EndSessions(_) => Some(g)
  }

  function HoldAll(run: seq<Step>): Option<Guards> {
    if run == [] then Some(Guards(multiset{}, multiset{}))
    else
      var g := HoldAll(run[..|run| - 1]);
      if g.None? then None else Hold(g.value, run[|run| - 1])
  }

  lemma {:induction false} ReservedIsSlots(run: seq<Step>, key: Key)
    requires Exec(run).Some?
    ensures Get(Exec(run).value.table, key).reserved == Exec(run).value.slots[key]
  {
    if run != [] {
      ReservedIsSlots(run[..|run| - 1], key);
      ReservedKept(Exec(run[..|run| - 1]).value, run[|run| - 1], key);
    }
  }

  lemma ApplyHolds(b: Book, step: Step)
    requires step.TakeSlot? ==> Get(b.table, step.key).reserved == b.slots[step.key]
    ensures var g := Hold(Guards(b.slots, b.registrations), step);
            && (g.Some? <==> Apply(b, step).Some?)
            && (g.Some? ==> g.value == Guards(Apply(b, step).value.slots, Apply(b, step).value.registrations))
  {
  }

  /** Whatever becomes of the tables, over every run they give out and take back guards as if they only counted them. */
  lemma {:induction false} TablesCountGuards(run: seq<Step>)
    ensures HoldAll(run).Some? <==> Exec(run).Some?
    ensures HoldAll(run).Some? ==> HoldAll(run).value == Guards(Exec(run).value.slots, Exec(run).value.registrations)
  {
    if run != [] {
      var init, step := run[..|run| - 1], run[|run| - 1];
      TablesCountGuards(init);
      if Exec(init).Some? {
        if step.TakeSlot? {
          ReservedIsSlots(init, step.key);
        }
        ApplyHolds(Exec(init).value, step);
      }
    }
  }

  /** Registering twice and dropping one guard loses the connection the other still stands for. */
  lemma DoubleRegistrationLost(r: Registration)
    ensures var again := Register(r.key, r.connection, r.cancel);
            var run := [again] + [again] + [DropRegistration(r)];
            Exec(run).Some? && r in Exec(run).value.registrations && r.connection !in Get(Exec(run).value.table, r.key).live
  {
    var again := Register(r.key, r.connection, r.cancel);
    ExecSnoc([], again);
    assert [] + [again] == [again];
    ExecSnoc([again], again);
    ExecSnoc([again] + [again], DropRegistration(r));
  }

  /** The connection table as the server holds it; guards are ghost. */
  class DeviceTable {
    var table: Table
    var told: set<Cancel>
    ghost var slots: multiset<Key>
    ghost var registrations: multiset<Registration>

    ghost function View(): Book
      reads this
    {
      Book(table, slots, registrations, told)
    }

    constructor ()
      ensures View() == EMPTY && Inv(View())
    {
      table, told, slots, registrations := map[], {}, multiset{}, multiset{};
    }

    /** Takes a place; `granted` is false when the caller must refuse the connection. */
    method TakeSlot(key: Key, max: nat) returns (granted: bool, counted: bool)
      requires Inv(View())
      modifies this
      ensures Inv(View()) && Some(View()) == Apply(old(View()), Step.TakeSlot(key, max))
      ensures granted <==> max == 0 || old(View()).slots[key] < max
      ensures counted <==> max > 0 && granted
      ensures slots == old(slots) + (if counted then multiset{key} else multiset{})
      ensures registrations == old(registrations) && told == old(told)
    {
      assert Accurate(View(), key);
      TakeSlotKeeps(View(), key, max);
      if max == 0 {
        return true, false;
      }
      var d := Get(table, key);
      table := table[key := d];
      if d.reserved >= max {
        return false, false;
      }
      table := table[key := d.(reserved := d.reserved + 1)];
      slots := slots + multiset{key};
      assert table == old(table)[key := d.(reserved := d.reserved + 1)];
      return true, true;
    }

    method DropSlot(key: Key)
      requires Inv(View()) && key in slots
      modifies this
      ensures Inv(View()) && Some(View()) == Apply(old(View()), Step.DropSlot(key))
      ensures slots == old(slots) - multiset{key} && registrations == old(registrations) && told == old(told)
    {
      DropSlotKeeps(View(), key);
      if key in table {
        var d := table[key];
        d := d.(reserved := if d.reserved > 0 then d.reserved - 1 else 0);
        table := if d.IsEmpty() then table - {key} else table[key := d];
      }
      slots := slots - multiset{key};
    }

    method Register(key: Key, connection: ConnectionId, cancel: Cancel)
      requires Inv(View())
      modifies this
      ensures Some(View()) == Apply(old(View()), Step.Register(key, connection, cancel))
      ensures Inv(View()) <==> !Conflicts(old(View()), Registration(key, connection, cancel))
      ensures registrations == old(registrations) + multiset{Registration(key, connection, cancel)}
      ensures slots == old(slots) && told == old(told)
    {
      RegisterKeeps(View(), key, connection, cancel);
      var d := Get(table, key);
      table := table[key := d.(live := d.live[connection := cancel])];
      registrations := registrations + multiset{Registration(key, connection, cancel)};
    }

    method DropRegistration(r: Registration)
      requires Inv(View()) && r in registrations
      modifies this
      ensures Some(View()) == Apply(old(View()), Step.DropRegistration(r))
      ensures Inv(View()) <==> old(registrations)[r] == 1
      ensures registrations == old(registrations) - multiset{r} && slots == old(slots) && told == old(told)
    {
      DropRegistrationKeeps(View(), r);
      if r.key in table {
        var d := table[r.key];
        d := d.(live := d.live - {r.connection});
        table := if d.IsEmpty() then table - {r.key} else table[r.key := d];
      }
      registrations := registrations - multiset{r};
    }

    /**
     Asks the device's connections to end: the handles of exactly the registered
     ones are told, and their ids returned, each once.
     */
    method EndDeviceSessions(key: Key) returns (ending: seq<ConnectionId>)
      requires Inv(View())
      modifies this
      ensures Inv(View()) && Some(View()) == Apply(old(View()), Step.EndSessions(key))
      ensures told == old(told) + Handles(old(View()), key)
      ensures slots == old(slots) && registrations == old(registrations)
      ensures forall c :: c in ending <==> c in Listed(old(View()), key)
      ensures forall i, j :: 0 <= i < j < |ending| ==> ending[i] != ending[j]
    {
      LiveIsRegistered(View(), key);
      EndSessionsKeeps(View(), key);
      ending := [];
      if key !in table {
        assert IDLE.live.Values == {} && told + {} == told;
        return;
      }
      var live := table[key].live;
      var left := live.Keys;
      while left != {}
        invariant left <= live.Keys && table == old(table) && slots == old(slots) && registrations == old(registrations)
        invariant told == old(told) + set c | c in live && c !in left :: live[c]
        invariant forall c :: c in ending <==> c in live && c !in left
        invariant forall i, j :: 0 <= i < j < |ending| ==> ending[i] != ending[j]
        decreases left
      {
        var c :| c in left;
        told := told + {live[c]};
        ending := ending + [c];
        left := left - {c};
      }
      assert live.Values == set c | c in live && c !in left :: live[c];
      assert told == old(told) + live.Values;
    }

    method CountFor(key: Key) returns (places: nat)
      requires Inv(View())
      ensures places == slots[key]
    {
      assert Accurate(View(), key);
      places := if key in table then table[key].reserved else 0;
    }
  }
}
