/**
 The key of the transaction table. It is written byte by byte and looked up as
 an encoded tuple, so the two must agree and must tell transactions apart.
 */
module TransactionKeys {
  import opened Options
  import opened Bytes
  import opened Codec
  import opened CodecLaws
  import opened SendProtocol
  import opened SendLaws

  datatype Origin = Origin(user: Data, device: Option<Data>, txn: Data) {
    /** Identifiers are UTF-8 text. */
    ghost predicate Valid() {
      SEP !in user && SEP !in txn && (device.Some? ==> SEP !in device.value)
    }

    function DeviceBytes(): Data {
      if device.Some? then device.value else []
    }

    /** An access token without a device counts as the device with an empty name. */
    ghost predicate Same(other: Origin) {
      user == other.user && txn == other.txn && DeviceBytes() == other.DeviceBytes()
    }

    function Tuple(): seq<Elem> {
      [Text(user), if device.Some? then Present(Text(device.value)) else Absent, Text(txn)]
    }

    /** The key a lookup serializes. */
    function Key(): Data {
      EncodeTuple(Tuple())
    }
  }

  /** The key an insertion builds. */
  method BuildKey(o: Origin) returns (key: Data)
    ensures key == o.Key()
  {
    key := o.user;
    key := key + [SEP];
    key := key + o.DeviceBytes();
    key := key + [SEP];
    key := key + o.txn;
    KeyBytes(o);
  }

  lemma ChunksTwo(a: Elem, b: Elem)
    ensures Chunks([a, b]) == [SEP] + EncodeElem(a) + [SEP] + EncodeElem(b)
  {
    assert [a, b][1..] == [b];
    assert Chunks([b]) == [SEP] + EncodeElem(b);
  }

  lemma KeyBytes(o: Origin)
    ensures o.Key() == o.user + [SEP] + o.DeviceBytes() + [SEP] + o.txn
  {
    var t := o.Tuple();
    assert t[1..] == [t[1], t[2]];
    ChunksTwo(t[1], t[2]);
    assert EncodeElem(t[1]) == o.DeviceBytes();
  }

  /** Two requests share a key exactly when user, device and transaction id agree. */
  lemma KeysIdentify(a: Origin, b: Origin)
    requires a.Valid() && b.Valid()
    ensures a.Key() == b.Key() <==> a.Same(b)
  {
    KeyBytes(a);
    KeyBytes(b);
    if a.Key() == b.Key() {
      var ta, tb := Plain(a), Plain(b);
      PlainKey(a);
      PlainKey(b);
      var ss := [TextShape, TextShape, TextShape];
      IsScannable(ta, ss);
      IsScannable(tb, ss);
      TuplesDiffer(ta, tb, ss, [], []);
      assert ta[0] == tb[0] && ta[1] == tb[1] && ta[2] == tb[2];
    }
  }

  function Plain(o: Origin): seq<Elem> {
    [Text(o.user), Text(o.DeviceBytes()), Text(o.txn)]
  }

  lemma PlainKey(o: Origin)
    ensures EncodeTuple(Plain(o)) == o.Key()
  {
    var t, u := Plain(o), o.Tuple();
    assert t[1..] == [t[1], t[2]] && u[1..] == [u[1], u[2]];
    ChunksTwo(t[1], t[2]);
    ChunksTwo(u[1], u[2]);
    assert EncodeElem(u[1]) == o.DeviceBytes();
  }

  // Sends, by transaction

  type Origins = map<CallId, Origin>

  /** Calls keyed by where they come from; a transaction that is retried stays in one room and settles. */
  ghost predicate Keyed(calls: Calls, origins: Origins) {
    && calls.Keys <= origins.Keys
    && (forall c <- calls :: origins[c].Valid() && calls[c].key == origins[c].Key())
    && (forall a, b :: a in calls && b in calls && a != b && origins[a].Same(origins[b]) ==>
          calls[a].room == calls[b].room && calls[a].settles)
  }

  lemma KeyedRetriable(calls: Calls, origins: Origins)
    requires Keyed(calls, origins)
    ensures Retriable(calls)
  {
    forall a, b | a in calls && b in calls && a != b && calls[a].key == calls[b].key
      ensures calls[a].room == calls[b].room && calls[a].settles
    {
      KeysIdentify(origins[a], origins[b]);
    }
  }

  /**
   Under every interleaving without a drop behind a commit, one transaction of
   one device of one user puts at most one event into the timeline.
   */
  lemma {:induction false} OneEventPerTransaction(
    calls: Calls, origins: Origins, run: seq<SendProtocol.Step>, s: State, i: nat, j: nat)
    requires Keyed(calls, origins) && Exec(calls, run) == Some(s) && NoLateDrop(run) && i < j < |s.timeline|
    ensures s.timeline[i].sender in calls && s.timeline[j].sender in calls
    ensures !origins[s.timeline[i].sender].Same(origins[s.timeline[j].sender])
  {
    KeyedRetriable(calls, origins);
    SendsAreIdempotent(calls, run, s);
    ExecInv(calls, run, s);
    assert EventInv(calls, s, s.timeline[i]) && EventInv(calls, s, s.timeline[j]);
    KeysIdentify(origins[s.timeline[i].sender], origins[s.timeline[j].sender]);
  }
}
