/**
 Write batches: the serialized form RocksDB gives a list of queued operations,
 and the byte walk that recovers which keys to notify after a commit.
 */
module WriteBatch {
  import opened Options
  import opened Bytes

  /** What a parser took from the front of its input, and what it left. */
  datatype Parsed<+T> = Parsed(value: Option<T>, rest: Data)

  const U32_LIMIT: nat := 0x1_0000_0000

  const USIZE_MAX: nat := 0xFFFF_FFFF_FFFF_FFFF

  /** A fixed64 sequence then a fixed32 count. */
  const HEADER: nat := 12

  /** Worst-case record overhead: a tag and three varint32s. */
  const PER_OP: nat := 16

  datatype Op =
    | Put(family: nat, key: Data, val: Data)
    | Delete(family: nat, key: Data)
    | Merge(family: nat, key: Data, operand: Data)
  {
    function Payload(): Option<Data> {
      match this
      case Put(_, _, val) => Some(val)
      case Delete(_, _) => None
      case Merge(_, _, operand) => Some(operand)
    }

    /** What the 32-bit fields of the format can carry. */
    predicate Valid() {
      family < U32_LIMIT && |key| < U32_LIMIT && (Payload().Some? ==> |Payload().value| < U32_LIMIT)
    }
  }

  predicate AllValid(ops: seq<Op>) {
    forall op <- ops :: op.Valid()
  }

  // The format

  function EncodeVarint(n: nat): (s: Data)
    ensures s != []
  {
    if n < 128 then [n] else [n % 128 + 128] + EncodeVarint(n / 128)
  }

  function EncodeVarstring(s: Data): (r: Data)
    ensures r != []
  {
    EncodeVarint(|s|) + s
  }

  /** The default family uses the untagged record types. */
  function TagOf(op: Op): Byte {
    (if op.family == 0 then 0 else 4) + match op case Delete(_, _) => 0 case Put(_, _, _) => 1 case Merge(_, _, _) => 2
  }

  function EncodeOp(op: Op): (s: Data)
    ensures s != []
  {
    [TagOf(op)]
    + (if op.family == 0 then [] else EncodeVarint(op.family))
    + EncodeVarstring(op.key)
    + (if op.Payload().Some? then EncodeVarstring(op.Payload().value) else [])
  }

  function EncodeOps(ops: seq<Op>): Data {
    if ops == [] then [] else EncodeOp(ops[0]) + EncodeOps(ops[1..])
  }

  // The parser

  /** The bits byte `k` of a varint32 keeps: the fifth is shifted by 28 into 32 bits. */
  function Low(k: nat, b: Byte): nat {
    if k == 4 then b % 16 else b % 128
  }

  /** Reads a varint32 from its byte `k` on: the number its remaining groups of seven bits make. */
  function ParseVarint(data: Data, k: nat): (p: Parsed<nat>)
    requires k <= 5
    ensures |p.rest| <= |data|
    ensures p.value.Some? ==> |p.rest| < |data| && k <= 4
    decreases 5 - k
  {
    if k == 5 || data == [] then Parsed(None, data)
    else if data[0] < 128 then Parsed(Some(Low(k, data[0])), data[1..])
    else
      var p := ParseVarint(data[1..], k + 1);
      Parsed(if p.value.Some? then Some(data[0] % 128 + 128 * p.value.value) else None, p.rest)
  }

  function ParseVarstring(data: Data): (p: Parsed<Data>)
    ensures |p.rest| <= |data|
    ensures p.value.Some? ==> |p.rest| < |data|
  {
    TakeBytes(ParseVarint(data, 0))
  }

  /** As many bytes as the length just read says. */
  function TakeBytes(len: Parsed<nat>): (p: Parsed<Data>)
    ensures |p.rest| <= |len.rest|
    ensures p.value.Some? ==> len.value.Some?
  {
    if len.value.None? || |len.rest| < len.value.value then Parsed(None, len.rest)
    else Parsed(Some(len.rest[..len.value.value]), len.rest[len.value.value..])
  }

  predicate KnownTag(tag: Byte) {
    tag <= 6 && tag != 3
  }

  predicate HasFamily(tag: Byte) {
    tag >= 4
  }

  predicate HasPayload(tag: Byte) {
    tag != 0 && tag != 4
  }

  function ParseFamily(tag: Byte, data: Data): (p: Parsed<nat>)
    ensures |p.rest| <= |data|
  {
    if HasFamily(tag) then ParseVarint(data, 0) else Parsed(Some(0), data)
  }

  function ParsePayload(tag: Byte, data: Data): (p: Parsed<()>)
    ensures |p.rest| <= |data|
  {
    if !HasPayload(tag) then Parsed(Some(()), data)
    else
      var p := ParseVarstring(data);
      if p.value.Some? then Parsed(Some(()), p.rest) else Parsed(None, p.rest)
  }

  /** One record: its column family and key; every success consumes input. */
  function ParseRecord(data: Data): (p: Parsed<(nat, Data)>)
    ensures |p.rest| <= |data|
    ensures p.value.Some? ==> |p.rest| < |data|
  {
    if data == [] then Parsed(None, data)
    else if !KnownTag(data[0]) then Parsed(None, data[1..])
    else
      var family := ParseFamily(data[0], data[1..]);
      if family.value.None? then Parsed(None, family.rest)
      else
        var key := ParseVarstring(family.rest);
        if key.value.None? then Parsed(None, key.rest)
        else
          var payload := ParsePayload(data[0], key.rest);
          if payload.value.None? then Parsed(None, payload.rest)
          else Parsed(Some((family.value.value, key.value.value)), payload.rest)
  }

  // Parsing undoes the format

  /** What is left of a 32-bit number once `k` varint bytes are taken. */
  function Limit(k: nat): nat
    requires k <= 4
  {
    match k
    case 0 => 0x1_0000_0000
    case 1 => 0x200_0000
    case 2 => 0x4_0000
    case 3 => 0x800
    case 4 => 0x10
  }

  /** A number that needs another byte leaves room for it. */
  lemma LimitStep(k: nat, n: nat)
    requires k <= 4 && 128 <= n < Limit(k)
    ensures k <= 3 && n / 128 < Limit(k + 1)
  {
  }

  lemma {:induction false} VarintRoundTrip(n: nat, k: nat, rest: Data)
    requires k <= 4 && n < Limit(k)
    ensures ParseVarint(EncodeVarint(n) + rest, k) == Parsed(Some(n), rest)
    decreases n
  {
    var data := EncodeVarint(n) + rest;
    if n < 128 {
      assert data[1..] == rest;
    } else {
      assert data[1..] == EncodeVarint(n / 128) + rest;
      LimitStep(k, n);
      VarintRoundTrip(n / 128, k + 1, rest);
    }
  }

  lemma {:induction false} VarintLength(n: nat, k: nat)
    requires k <= 4 && n < Limit(k)
    ensures |EncodeVarint(n)| <= 5 - k
    decreases n
  {
    if n >= 128 {
      LimitStep(k, n);
      VarintLength(n / 128, k + 1);
    }
  }

  lemma VarstringRoundTrip(s: Data, rest: Data)
    requires |s| < U32_LIMIT
    ensures ParseVarstring(EncodeVarstring(s) + rest) == Parsed(Some(s), rest)
  {
    VarintRoundTrip(|s|, 0, s + rest);
    assert EncodeVarstring(s) + rest == EncodeVarint(|s|) + (s + rest);
    assert (s + rest)[..|s|] == s && (s + rest)[|s|..] == rest;
  }

  lemma PayloadRoundTrip(op: Op, rest: Data)
    requires op.Valid()
    ensures var payload := if op.Payload().Some? then EncodeVarstring(op.Payload().value) else [];
            ParsePayload(TagOf(op), payload + rest) == Parsed(Some(()), rest)
  {
    if op.Payload().Some? {
      VarstringRoundTrip(op.Payload().value, rest);
    } else {
      assert [] + rest == rest;
    }
  }

  lemma FamilyRoundTrip(op: Op, rest: Data)
    requires op.Valid()
    ensures var family := if op.family == 0 then [] else EncodeVarint(op.family);
            ParseFamily(TagOf(op), family + rest) == Parsed(Some(op.family), rest)
  {
    if op.family == 0 {
      assert [] + rest == rest;
    } else {
      VarintRoundTrip(op.family, 0, rest);
    }
  }

  lemma Regroup(a: Data, b: Data, c: Data, d: Data, e: Data)
    ensures a + b + c + d + e == a + (b + (c + (d + e)))
  {
  }

  lemma {:induction false} RecordRoundTrip(op: Op, rest: Data)
    requires op.Valid()
    ensures ParseRecord(EncodeOp(op) + rest) == Parsed(Some((op.family, op.key)), rest)
  {
    var family: Data := if op.family == 0 then [] else EncodeVarint(op.family);
    var payload: Data := if op.Payload().Some? then EncodeVarstring(op.Payload().value) else [];
    var tail := EncodeVarstring(op.key) + (payload + rest);
    var data := EncodeOp(op) + rest;
    Regroup([TagOf(op)], family, EncodeVarstring(op.key), payload, rest);
    assert data[1..] == family + tail;
    FamilyRoundTrip(op, tail);
    VarstringRoundTrip(op.key, payload + rest);
    PayloadRoundTrip(op, rest);
  }

  // A parse does not look past what it takes

  lemma {:induction false} VarintExtends(data: Data, k: nat, more: Data)
    requires k <= 5 && ParseVarint(data, k).value.Some?
    ensures ParseVarint(data + more, k) == Parsed(ParseVarint(data, k).value, ParseVarint(data, k).rest + more)
    decreases 5 - k
  {
    assert (data + more)[1..] == data[1..] + more;
    if data[0] >= 128 {
      VarintExtends(data[1..], k + 1, more);
    }
  }

  lemma VarstringExtends(data: Data, more: Data)
    requires ParseVarstring(data).value.Some?
    ensures ParseVarstring(data + more) == Parsed(ParseVarstring(data).value, ParseVarstring(data).rest + more)
  {
    VarintExtends(data, 0, more);
    TakeExtends(ParseVarint(data, 0), more);
  }

  lemma TakeExtends(len: Parsed<nat>, more: Data)
    requires TakeBytes(len).value.Some?
    ensures TakeBytes(Parsed(len.value, len.rest + more)) == Parsed(TakeBytes(len).value, TakeBytes(len).rest + more)
  {
    var n := len.value.value;
    assert (len.rest + more)[..n] == len.rest[..n];
    assert (len.rest + more)[n..] == len.rest[n..] + more;
  }

  lemma {:induction false} RecordExtends(data: Data, more: Data)
    requires ParseRecord(data).value.Some?
    ensures ParseRecord(data + more) == Parsed(ParseRecord(data).value, ParseRecord(data).rest + more)
  {
    var tag := data[0];
    assert (data + more)[1..] == data[1..] + more;
    if HasFamily(tag) {
      VarintExtends(data[1..], 0, more);
    }
    var family := ParseFamily(tag, data[1..]);
    VarstringExtends(family.rest, more);
    var key := ParseVarstring(family.rest);
    if HasPayload(tag) {
      VarstringExtends(key.rest, more);
    }
  }

  /** Bytes that are one record whole are not a record without their end. */
  lemma WholeOrNothing(front: Data, more: Data, whole: Parsed<(nat, Data)>)
    requires more != [] && whole == ParseRecord(front + more) && whole.rest == []
    ensures ParseRecord(front).value.None?
  {
    if ParseRecord(front).value.Some? {
      RecordExtends(front, more);
    }
  }

  /** A record cut short anywhere does not parse. */
  lemma {:induction false} TruncatedRecordFails(op: Op, n: nat)
    requires op.Valid() && n < |EncodeOp(op)|
    ensures ParseRecord(EncodeOp(op)[..n]).value.None?
  {
    var all := EncodeOp(op);
    RecordRoundTrip(op, []);
    assert all + [] == all == all[..n] + all[n..];
    WholeOrNothing(all[..n], all[n..], ParseRecord(all));
  }

  // What the parser accepts

  /** A parsed varint32 fits 32 bits. */
  lemma {:induction false} VarintBounded(data: Data, k: nat)
    requires k <= 4 && ParseVarint(data, k).value.Some?
    ensures ParseVarint(data, k).value.value < Limit(k)
    decreases 5 - k
  {
    if data[0] >= 128 {
      VarintBounded(data[1..], k + 1);
    }
  }

  /** Five bytes that all ask for another one are no varint32. */
  lemma {:induction false} OverlongVarintFails(data: Data, k: nat)
    requires k <= 5 && |data| >= 5 - k && forall i :: 0 <= i < 5 - k ==> data[i] >= 128
    ensures ParseVarint(data, k) == Parsed(None, data[5 - k..])
    decreases 5 - k
  {
    if k < 5 {
      OverlongVarintFails(data[1..], k + 1);
    }
  }

  /** Only deletions, puts and merges parse, in the default column family or with one named. */
  lemma OnlyQueuedTagsParse(data: Data)
    requires ParseRecord(data).value.Some?
    ensures data[0] == 0 || data[0] == 1 || data[0] == 2 || data[0] == 4 || data[0] == 5 || data[0] == 6
  {
  }

  /** Records as RocksDB lays them out, for lengths and families that fit one byte. */
  lemma RecordLayout(op: Op, tag: Byte, family: Data, payload: Data, rest: Data)
    requires op.family < 128 && |op.key| < 128
    requires match op
             case Delete(f, _) => tag == (if f == 0 then 0 else 4) && payload == []
             case Put(f, _, val) => tag == (if f == 0 then 1 else 5) && |val| < 128 && payload == [|val|] + val
             case Merge(f, _, operand) => tag == (if f == 0 then 2 else 6) && |operand| < 128 && payload == [|operand|] + operand
    requires family == if op.family == 0 then [] else [op.family]
    ensures ParseRecord([tag] + family + ([|op.key|] + op.key) + payload + rest) == Parsed(Some((op.family, op.key)), rest)
  {
    assert EncodeOp(op) == [tag] + family + ([|op.key|] + op.key) + payload;
    RecordRoundTrip(op, rest);
  }

  // Walking a batch

  /** Every record of the input, or nothing as soon as one is malformed. */
  function Records(data: Data): Option<seq<(nat, Data)>>
    decreases |data|
  {
    if data == [] then Some([])
    else
      var p := ParseRecord(data);
      if p.value.None? then None
      else
        var rest := Records(p.rest);
        if rest.None? then None else Some([p.value.value] + rest.value)
  }

  function Pairs(ops: seq<Op>): seq<(nat, Data)> {
    if ops == [] then [] else [(ops[0].family, ops[0].key)] + Pairs(ops[1..])
  }

  lemma RecordsStep(op: Op, rest: Data)
    requires op.Valid()
    ensures Records(EncodeOp(op) + rest)
         == if Records(rest).None? then None else Some([(op.family, op.key)] + Records(rest).value)
  {
    RecordRoundTrip(op, rest);
  }

  /** The walk recovers family and key of every queued operation, in order, and uses up the batch. */
  lemma {:induction false} RecordsExact(ops: seq<Op>)
    requires AllValid(ops)
    ensures Records(EncodeOps(ops)) == Some(Pairs(ops))
  {
    if ops != [] {
      assert ops[0].Valid();
      RecordsStep(ops[0], EncodeOps(ops[1..]));
      RecordsExact(ops[1..]);
    }
  }

  /** `n` is where some record of the batch starts, or where the last one ends. */
  predicate Boundary(ops: seq<Op>, n: nat) {
    n == 0 || (ops != [] && n >= |EncodeOp(ops[0])| && Boundary(ops[1..], n - |EncodeOp(ops[0])|))
  }

  lemma CutBehind(op: Op, rest: Data, n: nat)
    requires |EncodeOp(op)| <= n <= |EncodeOp(op) + rest|
    ensures (EncodeOp(op) + rest)[..n] == EncodeOp(op) + rest[..n - |EncodeOp(op)|]
  {
  }

  lemma CutWithin(op: Op, rest: Data, n: nat)
    requires op.Valid() && 0 < n < |EncodeOp(op)|
    ensures Records((EncodeOp(op) + rest)[..n]).None?
  {
    assert (EncodeOp(op) + rest)[..n] == EncodeOp(op)[..n];
    TruncatedRecordFails(op, n);
  }

  /** A batch cut short walks to its end exactly when it was cut between two records. */
  lemma {:induction false} TruncatedBatchFails(ops: seq<Op>, n: nat)
    requires AllValid(ops) && n <= |EncodeOps(ops)|
    ensures Records(EncodeOps(ops)[..n]).Some? <==> Boundary(ops, n)
    decreases |ops|
  {
    if n > 0 {
      var op, rest := ops[0], EncodeOps(ops[1..]);
      assert op in ops;
      if n < |EncodeOp(op)| {
        CutWithin(op, rest, n);
      } else {
        var m := n - |EncodeOp(op)|;
        CutBehind(op, rest, n);
        RecordsStep(op, rest[..m]);
        TruncatedBatchFails(ops[1..], m);
      }
    }
  }

  /** The maps a batch may notify, by column family id. */
  type Catalog = map<nat, nat>

  /** The queued keys of catalog maps, in queue order. */
  function Notices(catalog: Catalog, ops: seq<Op>): seq<(nat, Data)> {
    if ops == [] then []
    else (if ops[0].family in catalog then [(catalog[ops[0].family], ops[0].key)] else []) + Notices(catalog, ops[1..])
  }

  datatype Step = Item(mapId: nat, key: Data) | Done | Panicked

  datatype NextRead = NextRead(step: Step, rest: Data)

  /** What `Keys::next` answers on any bytes, and what it leaves. */
  function NextKey(catalog: Catalog, data: Data): NextRead
    decreases |data|
  {
    if data == [] then NextRead(Done, data)
    else
      var p := ParseRecord(data);
      if p.value.None? then NextRead(Panicked, p.rest)
      else if p.value.value.0 in catalog then NextRead(Item(catalog[p.value.value.0], p.value.value.1), p.rest)
      else NextKey(catalog, p.rest)
  }

  /** The operations behind the first one of a catalog map. */
  function Drop(catalog: Catalog, ops: seq<Op>): (rest: seq<Op>)
    ensures |rest| <= |ops|
    ensures ops != [] ==> |rest| < |ops|
    ensures AllValid(ops) ==> AllValid(rest)
  {
    if ops == [] then [] else if ops[0].family in catalog then ops[1..] else Drop(catalog, ops[1..])
  }

  lemma {:induction false} NoticesDrop(catalog: Catalog, ops: seq<Op>)
    ensures var notices := Notices(catalog, ops);
            Notices(catalog, Drop(catalog, ops)) == if notices == [] then [] else notices[1..]
  {
    if ops != [] {
      var rest := Notices(catalog, ops[1..]);
      if ops[0].family in catalog {
        assert Notices(catalog, ops)[1..] == rest;
      } else {
        NoticesDrop(catalog, ops[1..]);
        assert Notices(catalog, ops) == rest;
      }
    }
  }

  /** A queued key is announced to a map exactly if it was queued for the map's column family. */
  lemma {:induction false} NoticesExact(catalog: Catalog, ops: seq<Op>, notice: (nat, Data))
    ensures notice in Notices(catalog, ops) <==>
              exists op <- ops :: op.family in catalog && notice == (catalog[op.family], op.key)
  {
    if ops != [] {
      NoticesExact(catalog, ops[1..], notice);
      assert ops == [ops[0]] + ops[1..];
    }
  }

  /** Keys are announced in the order they were queued. */
  lemma {:induction false} NoticesConcat(catalog: Catalog, a: seq<Op>, b: seq<Op>)
    ensures Notices(catalog, a + b) == Notices(catalog, a) + Notices(catalog, b)
  {
    if a == [] {
      assert a + b == b;
    } else {
      assert (a + b)[0] == a[0] && (a + b)[1..] == a[1..] + b;
      NoticesConcat(catalog, a[1..], b);
    }
  }

  function FirstOf(notices: seq<(nat, Data)>): Step {
    if notices == [] then Done else Item(notices[0].0, notices[0].1)
  }

  lemma NextKeyStep(catalog: Catalog, op: Op, rest: Data)
    requires op.Valid()
    ensures NextKey(catalog, EncodeOp(op) + rest)
         == if op.family in catalog then NextRead(Item(catalog[op.family], op.key), rest) else NextKey(catalog, rest)
  {
    RecordRoundTrip(op, rest);
  }

  /** On an encoded queue the walk answers the next catalog key and stops in front of a later operation. */
  lemma {:induction false} NextKeyExact(catalog: Catalog, ops: seq<Op>)
    requires AllValid(ops)
    ensures NextKey(catalog, EncodeOps(ops)) == NextRead(FirstOf(Notices(catalog, ops)), EncodeOps(Drop(catalog, ops)))
  {
    if ops != [] {
      assert ops[0].Valid();
      NextKeyStep(catalog, ops[0], EncodeOps(ops[1..]));
      if ops[0].family !in catalog {
        NextKeyExact(catalog, ops[1..]);
      }
    }
  }

  /** The bits of byte `k`, shifted to their place. */
  function Shifted(k: nat, bits: nat): nat
    requires k <= 4
  {
    match k
    case 0 => bits
    case 1 => 0x80 * bits
    case 2 => 0x4000 * bits
    case 3 => 0x20_0000 * bits
    case 4 => 0x1000_0000 * bits
  }

  /** What is read in all once `p` is read behind the `acc` of the first `k` bytes. */
  function Placed(k: nat, acc: nat, p: Parsed<nat>): Parsed<nat>
    requires p.value.Some? ==> k <= 4
  {
    Parsed(if p.value.Some? then Some(acc + Shifted(k, p.value.value)) else None, p.rest)
  }

  lemma PlacedMore(k: nat, acc: nat, data: Data)
    requires k <= 4 && data != [] && data[0] >= 128
    ensures Placed(k, acc, ParseVarint(data, k))
         == Placed(k + 1, acc + Shifted(k, Low(k, data[0])), ParseVarint(data[1..], k + 1))
  {
    var p := ParseVarint(data[1..], k + 1);
    if p.value.Some? {
      ShiftedSplit(k, data[0] % 128, p.value.value);
    }
  }

  lemma ShiftedSplit(k: nat, low: nat, high: nat)
    requires k <= 3
    ensures Shifted(k, low + 128 * high) == Shifted(k, low) + Shifted(k + 1, high)
  {
  }

  method TakeVarint32(data: Data) returns (value: Option<nat>, rest: Data)
    ensures Parsed(value, rest) == ParseVarint(data, 0)
  {
    var result, k: nat := 0, 0;
    rest := data;
    while k < 5
      invariant k <= 5 && result >= 0
      invariant Placed(k, result, ParseVarint(rest, k)) == ParseVarint(data, 0)
    {
      if rest == [] {
        return None, rest;
      }
      var byte := rest[0];
      if byte >= 128 {
        PlacedMore(k, result, rest);
      }
      rest := rest[1..];
      // The seven bits land above every bit set so far, so the source's `|=`
      // adds; what the last shift pushes past 32 bits is lost.
      result := result + Shifted(k, Low(k, byte));
      if byte < 128 {
        return Some(result), rest;
      }
      k := k + 1;
    }
    return None, rest;
  }

  method TakeVarstring(data: Data) returns (value: Option<Data>, rest: Data)
    ensures Parsed(value, rest) == ParseVarstring(data)
  {
    var len;
    len, rest := TakeVarint32(data);
    if len.None? || |rest| < len.value {
      return None, rest;
    }
    value, rest := Some(rest[..len.value]), rest[len.value..];
  }

  method NextRecord(data: Data) returns (value: Option<(nat, Data)>, rest: Data)
    ensures Parsed(value, rest) == ParseRecord(data)
  {
    if data == [] {
      return None, data;
    }
    var tag := data[0];
    rest := data[1..];
    if !KnownTag(tag) {
      return None, rest;
    }
    var family: Option<nat> := Some(0);
    if HasFamily(tag) {
      family, rest := TakeVarint32(rest);
      if family.None? {
        return None, rest;
      }
    }
    var key;
    key, rest := TakeVarstring(rest);
    if key.None? {
      return None, rest;
    }
    if HasPayload(tag) {
      var payload;
      payload, rest := TakeVarstring(rest);
      if payload.None? {
        return None, rest;
      }
    }
    value := Some((family.value, key.value));
  }

  /** The iterator over the keys of a batch. */
  class Keys {
    const catalog: Catalog
    var data: Data

    constructor (catalog: Catalog, batch: Data)
      ensures this.catalog == catalog
      ensures data == if |batch| >= 12 then batch[12..] else []
    {
      this.catalog := catalog;
      data := if |batch| >= HEADER then batch[HEADER..] else [];
    }

    method Next() returns (step: Step)
      modifies this
      ensures NextRead(step, data) == NextKey(catalog, old(data))
    {
      while data != []
        invariant NextKey(catalog, data) == NextKey(catalog, old(data))
        decreases |data|
      {
        var record, rest := NextRecord(data);
        data := rest;
        if record.None? {
          return Panicked;
        }
        if record.value.0 in catalog {
          return Item(catalog[record.value.0], record.value.1);
        }
      }
      return Done;
    }
  }

  // Transactions

  datatype Effect = Wrote(batch: Data) | Flushed | Notified(mapId: nat, key: Data) | Ran(followUp: nat) | Crashed

  function Notifications(notices: seq<(nat, Data)>): seq<Effect> {
    seq(|notices|, i requires 0 <= i < |notices| => Notified(notices[i].0, notices[i].1))
  }

  lemma NotificationsCons(notices: seq<(nat, Data)>)
    ensures Notifications(notices) ==
      if notices == [] then [] else [Notified(notices[0].0, notices[0].1)] + Notifications(notices[1..])
  {
  }

  function FollowUps(ids: seq<nat>): seq<Effect> {
    seq(|ids|, i requires 0 <= i < |ids| => Ran(ids[i]))
  }

  lemma {:induction false} EncodeOpsSnoc(ops: seq<Op>, op: Op)
    ensures EncodeOps(ops + [op]) == EncodeOps(ops) + EncodeOp(op)
  {
    if ops == [] {
      assert ops + [op] == [op] && [op][1..] == [];
    } else {
      assert (ops + [op])[1..] == ops[1..] + [op];
      EncodeOpsSnoc(ops[1..], op);
    }
  }

  class Txn {
    const catalog: Catalog
    const header: Data
    var records: Data
    var count: nat
    var afterExecute: seq<nat>
    ghost var queued: seq<Op>

    ghost predicate Valid()
      reads this
    {
      |header| == HEADER && count == |queued| && AllValid(queued) && records == EncodeOps(queued)
    }

    constructor (catalog: Catalog)
      ensures Valid() && this.catalog == catalog && queued == [] && afterExecute == []
    {
      this.catalog, header := catalog, seq(HEADER, _ => 0);
      records, count, afterExecute, queued := [], 0, [], [];
    }

    /** Queues a put, delete or merge. */
    method Queue(op: Op)
      requires Valid() && op.Valid()
      modifies this
      ensures Valid() && queued == old(queued) + [op] && afterExecute == old(afterExecute)
    {
      EncodeOpsSnoc(queued, op);
      records := records + EncodeOp(op);
      count := count + 1;
      queued := queued + [op];
    }

    method OnExecute(followUp: nat)
      requires Valid()
      modifies this
      ensures Valid() && queued == old(queued) && afterExecute == old(afterExecute) + [followUp]
    {
      afterExecute := afterExecute + [followUp];
    }

    /** Empties the batch; the registered follow-ups stay. */
    method Clear()
      requires Valid()
      modifies this
      ensures Valid() && queued == [] && afterExecute == old(afterExecute)
    {
      records, count, queued := [], 0, [];
    }

    /**
     Commits: the write, a flush unless corked, one notification per queued key
     of a catalog map, then the follow-ups. A write or flush that fails stops the
     process there, so nothing is announced that is not stored. An empty batch
     does nothing at all.
     */
    method Execute(corked: bool, writes: bool, flushes: bool) returns (effects: seq<Effect>)
      requires Valid()
      ensures effects ==
        if queued == [] then []
        else if !writes then [Crashed]
        else if !corked && !flushes then [Wrote(header + records), Crashed]
        else [Wrote(header + records)] + (if corked then [] else [Flushed])
             + Notifications(Notices(catalog, queued)) + FollowUps(afterExecute)
    {
      if count == 0 {
        return [];
      }
      if !writes {
        return [Crashed];
      }
      effects := [Wrote(header + records)];
      if !corked {
        if !flushes {
          return effects + [Crashed];
        }
        effects := effects + [Flushed];
      }
      ghost var stored := effects;
      var notified := Notify();
      effects := effects + notified;
      for i := 0 to |afterExecute|
        invariant effects == stored + notified + FollowUps(afterExecute[..i])
      {
        assert FollowUps(afterExecute[..i + 1]) == FollowUps(afterExecute[..i]) + [Ran(afterExecute[i])];
        effects := effects + [Ran(afterExecute[i])];
      }
      assert afterExecute[..|afterExecute|] == afterExecute;
    }

    /** Walks the batch bytes; on a batch this transaction built it never meets a malformed record. */
    method Notify() returns (effects: seq<Effect>)
      requires Valid()
      ensures effects == Notifications(Notices(catalog, queued))
    {
      assert (header + records)[HEADER..] == records;
      var keys := new Keys(catalog, header + records);
      effects := [];
      ghost var left := queued;
      while true
        invariant AllValid(left) && keys.data == EncodeOps(left) && keys.catalog == catalog
        invariant effects + Notifications(Notices(catalog, left)) == Notifications(Notices(catalog, queued))
        decreases |left|
      {
        NextKeyExact(catalog, left);
        NoticesDrop(catalog, left);
        NotificationsCons(Notices(catalog, left));
        var step := keys.Next();
        match step {
          case Item(mapId, key) =>
            effects := effects + [Notified(mapId, key)];
            left := Drop(catalog, left);
          case Done =>
            return;
          case Panicked =>
            effects := effects + [Crashed];
            return;
        }
      }
    }
  }

  // Capacity

  /** One pair to insert, into a map of its own. */
  datatype Entry = Entry(family: nat, key: Data, val: Data) {
    function Put(): Op {
      Op.Put(family, key, val)
    }
  }

  function Puts(items: seq<Entry>): seq<Op> {
    if items == [] then [] else [items[0].Put()] + Puts(items[1..])
  }

  function Needed(items: seq<Entry>): nat {
    if items == [] then 0 else PER_OP + |items[0].key| + |items[0].val| + Needed(items[1..])
  }

  function SaturatingAdd(a: nat, b: nat): nat {
    if a + b > USIZE_MAX then USIZE_MAX else a + b
  }

  /** The capacity reserved for a slice of pairs. */
  method SizeHint(items: seq<Entry>) returns (capacity: nat)
    ensures capacity == SaturatingAdd(HEADER, Needed(items))
  {
    capacity := HEADER;
    assert items[0..] == items;
    for i := 0 to |items|
      invariant SaturatingAdd(capacity, Needed(items[i..])) == SaturatingAdd(HEADER, Needed(items))
      invariant capacity <= USIZE_MAX
    {
      assert items[i..][1..] == items[i + 1..];
      capacity := SaturatingAdd(SaturatingAdd(SaturatingAdd(capacity, PER_OP), |items[i].key|), |items[i].val|);
    }
  }

  lemma PutOverhead(op: Op)
    requires op.Valid() && op.Put?
    ensures |EncodeOp(op)| <= PER_OP + |op.key| + |op.val|
  {
    VarintLength(op.family, 0);
    VarintLength(|op.key|, 0);
    VarintLength(|op.val|, 0);
  }

  /** The reservation wastes less than its per-record allowance. */
  lemma {:induction false} NeededWithin(items: seq<Entry>, ops: seq<Op>)
    requires ops == Puts(items)
    ensures Needed(items) <= |EncodeOps(ops)| + 16 * |items|
    decreases |items|
  {
    if items != [] {
      assert ops[0] == items[0].Put() && ops[1..] == Puts(items[1..]);
      NeededWithin(items[1..], ops[1..]);
    }
  }

  lemma {:induction false} EncodedWithin(items: seq<Entry>, ops: seq<Op>)
    requires ops == Puts(items) && AllValid(ops)
    ensures |EncodeOps(ops)| <= Needed(items)
    decreases |items|
  {
    if items != [] {
      assert ops[0] == items[0].Put() && ops[1..] == Puts(items[1..]);
      assert ops[0] in ops && forall op <- ops[1..] :: op in ops;
      PutOverhead(ops[0]);
      EncodedWithin(items[1..], ops[1..]);
    }
  }

  /** A batch over any maps fits its reservation, unless that saturated at the type's maximum. */
  lemma CapacitySuffices(items: seq<Entry>)
    requires AllValid(Puts(items))
    ensures var size := HEADER + |EncodeOps(Puts(items))|;
            var capacity := SaturatingAdd(HEADER, Needed(items));
            (size <= capacity || capacity == USIZE_MAX) && capacity <= size + 16 * |items|
  {
    EncodedWithin(items, Puts(items));
    NeededWithin(items, Puts(items));
  }
}
