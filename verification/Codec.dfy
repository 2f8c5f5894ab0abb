/**
 The compact record format: what each value encodes to, and what the cursor
 reads back. The writer and the reader of `Serializer.dfy` and
 `Deserializer.dfy` are proved against these functions.
 */
module Codec {
  import opened Bytes

  const SEP: Byte := 0xFF

  datatype IntKind = U8 | U32 | U64 | I32 | I64 {
    function Width(): nat {
      match this
      case U8 => 1
      case U32 | I32 => 4
      case U64 | I64 => 8
    }

    predicate Signed() {
      I32? || I64?
    }

    predicate InRange(v: int) {
      if Signed() then 0 <= 2 * v + Pow256(Width()) < 2 * Pow256(Width()) else 0 <= v < Pow256(Width())
    }
  }

  datatype Elem =
    | Text(bytes: Data)
    | Int(kind: IntKind, value: int)
    | Raw(bytes: Data)
    | Absent
    | Present(inner: Elem)
    | Interfix

  /** The static type a reader asks for. */
  datatype Shape = TextShape | IntShape(kind: IntKind) | RawShape | OptShape(inner: Shape)

  /** `e` is a value of type `s`; text is valid UTF-8 and so never holds a separator. */
  predicate HasShape(e: Elem, s: Shape) {
    match (e, s)
    case (Text(bytes), TextShape) => SEP !in bytes
    case (Int(kind, v), IntShape(kind')) => kind == kind' && kind.InRange(v)
    case (Raw(_), RawShape) => true
    case (Absent, OptShape(_)) => true
    case (Present(x), OptShape(s')) => HasShape(x, s')
    case _ => false
  }

  predicate HasShapes(t: seq<Elem>, ss: seq<Shape>) {
    |t| == |ss| && forall i :: 0 <= i < |t| ==> HasShape(t[i], ss[i])
  }

  predicate HasRaw(s: Shape) {
    match s
    case RawShape => true
    case OptShape(s') => HasRaw(s')
    case _ => false
  }

  /** Raw bytes swallow every later separator, so only the last element may hold them. */
  predicate RawOnlyLast(ss: seq<Shape>) {
    forall i :: 0 <= i < |ss| - 1 ==> !HasRaw(ss[i])
  }

  /** The reader supports the two 64-bit integers only. */
  predicate Decodable(s: Shape) {
    match s
    case IntShape(kind) => kind == U64 || kind == I64
    case OptShape(s') => Decodable(s')
    case _ => true
  }

  predicate AllDecodable(ss: seq<Shape>) {
    forall i :: 0 <= i < |ss| ==> Decodable(ss[i])
  }

  // Writing

  /** Negative integers wrap to two's complement. */
  function EncodeInt(kind: IntKind, v: int): (s: Data)
    ensures |s| == kind.Width()
  {
    BigEndian(kind.Width(), v % Pow256(kind.Width()))
  }

  function DecodeInt(kind: IntKind, s: Data): int {
    var n := FromBigEndian(s);
    if kind.Signed() && 2 * n >= Pow256(kind.Width()) then n - Pow256(kind.Width()) else n
  }

  function EncodeElem(e: Elem): Data {
    match e
    case Text(bytes) => bytes
    case Int(kind, v) => EncodeInt(kind, v)
    case Raw(bytes) => bytes
    case Absent => []
    case Present(x) => EncodeElem(x)
    case Interfix => []
  }

  /** Every element of `t` behind its own separator. */
  function Chunks(t: seq<Elem>): Data {
    if t == [] then [] else [SEP] + (EncodeElem(t[0]) + Chunks(t[1..]))
  }

  /** Tuples put one separator between adjacent elements. */
  function EncodeTuple(t: seq<Elem>): Data {
    if t == [] then [] else EncodeElem(t[0]) + Chunks(t[1..])
  }

  /** Integers end with no separator pending; everything else leaves one. */
  predicate Unseparated(e: Elem) {
    match e
    case Int(_, _) => true
    case Present(x) => Unseparated(x)
    case _ => false
  }

  /** Sequences follow each element's own separator state. */
  function EncodeSeq(t: seq<Elem>): Data {
    if t == [] then []
    else EncodeElem(t[0]) + (if |t| == 1 || Unseparated(t[0]) then [] else [SEP]) + EncodeSeq(t[1..])
  }

  // Reading

  datatype DecodeError = Underflow | Unsupported

  datatype Outcome<T> = Ok(value: T) | Err(error: DecodeError)

  datatype ElemRead = ElemRead(outcome: Outcome<Elem>, pos: nat)

  /**
   A read in progress. `intact` says no debug assertion on the record layout
   would have failed so far.
   */
  datatype Cursor = Cursor(pos: nat, rec: nat, intact: bool, read: Outcome<seq<Elem>>)

  const FRESH := Cursor(0, 0, true, Ok([]))

  /** Where the record starting at `pos` ends: the next separator or the end of input. */
  function RecordEnd(buf: Data, pos: nat): (end: nat)
    requires pos <= |buf|
    ensures pos <= end <= |buf|
    ensures SEP !in buf[pos..end]
    ensures end < |buf| ==> buf[end] == SEP
    decreases |buf| - pos
  {
    if pos == |buf| || buf[pos] == SEP then pos
    else
      var end := RecordEnd(buf, pos + 1);
      assert buf[pos..end] == [buf[pos]] + buf[pos + 1..end];
      end
  }

  function ReadElem(s: Shape, buf: Data, pos: nat): (r: ElemRead)
    requires pos <= |buf|
    ensures pos <= r.pos <= |buf|
  {
    match s
    case TextShape =>
      var end := RecordEnd(buf, pos);
      ElemRead(Ok(Text(buf[pos..end])), end)
    case RawShape => ElemRead(Ok(Raw(buf[pos..])), |buf|)
    case IntShape(kind) =>
      if kind != U64 && kind != I64 then ElemRead(Err(Unsupported), pos)
      else if |buf| - pos < 8 then ElemRead(Err(Underflow), pos)
      else ElemRead(Ok(Int(kind, DecodeInt(kind, buf[pos..pos + 8]))), pos + 8)
    case OptShape(s') =>
      if pos == |buf| || buf[pos] == SEP then ElemRead(Ok(Absent), pos)
      else
        var r := ReadElem(s', buf, pos);
        if r.outcome.Ok? then ElemRead(Ok(Present(r.outcome.value)), r.pos) else r
  }

  predicate Started(pos: nat, rec: nat) {
    pos != 0 || rec > 0
  }

  /** Input exhausted while the sequence still expects records. */
  predicate Incomplete(buf: Data, pos: nat, rec: nat, expected: nat) {
    pos >= |buf| && rec < expected
  }

  /** Where the next record starts: past its separator, unless the input ran out. */
  function RecordStart(buf: Data, pos: nat, rec: nat, expected: nat): nat {
    if Started(pos, rec) && !Incomplete(buf, pos, rec, expected) then pos + 1 else pos
  }

  predicate SeparatorFound(buf: Data, pos: nat, rec: nat, expected: nat) {
    !Started(pos, rec) || Incomplete(buf, pos, rec, expected) || (pos < |buf| && buf[pos] == SEP)
  }

  /** Reads one element of a tuple of `expected` elements; an error ends the read. */
  function ReadStep(s: Shape, buf: Data, expected: nat, c: Cursor): (c': Cursor)
    requires c.pos <= |buf| && (c.pos < |buf| || c.rec < expected)
    ensures c.pos <= c'.pos <= |buf| && c.rec <= c'.rec <= c.rec + 1
    ensures c.read.Ok? ==> c'.rec == c.rec + 1 && (c.rec > 0 && c.pos < |buf| ==> c.pos < c'.pos)
  {
    if c.read.Err? then c
    else
      var r := ReadElem(s, buf, RecordStart(buf, c.pos, c.rec, expected));
      Cursor(r.pos, c.rec + 1, c.intact && SeparatorFound(buf, c.pos, c.rec, expected),
             if r.outcome.Ok? then Ok(c.read.value + [r.outcome.value]) else Err(r.outcome.error))
  }

  function ReadElems(ss: seq<Shape>, buf: Data, expected: nat, c: Cursor): (c': Cursor)
    requires c.pos <= |buf| && c.rec + |ss| <= expected
    ensures c.pos <= c'.pos <= |buf| && c'.rec <= c.rec + |ss|
  {
    if ss == [] then c else ReadElems(ss[1..], buf, expected, ReadStep(ss[0], buf, expected, c))
  }

  lemma {:induction false} ReadFailed(ss: seq<Shape>, buf: Data, expected: nat, c: Cursor)
    requires c.pos <= |buf| && c.rec + |ss| <= expected && c.read.Err?
    ensures ReadElems(ss, buf, expected, c) == c
  {
    if ss != [] {
      ReadFailed(ss[1..], buf, expected, c);
    }
  }

  function ReadTuple(ss: seq<Shape>, buf: Data): Cursor {
    ReadElems(ss, buf, |ss|, FRESH)
  }

  /** Reads a list; iteration stops once the input is used up and one element was read. */
  function ReadList(s: Shape, buf: Data, c: Cursor): Cursor
    requires c.pos <= |buf|
    decreases |buf| - c.pos, if c.rec == 0 then 1 else 0, if c.read.Ok? then 1 else 0
  {
    if c.read.Err? || (c.pos >= |buf| && c.rec >= 1) then c
    else ReadList(s, buf, ReadStep(s, buf, 1, c))
  }

  /** Whether the unread rest is nothing, or one trailing separator. */
  predicate Finished(buf: Data, pos: nat) {
    pos == |buf| || (pos == |buf| - 1 && buf[pos] == SEP)
  }
}
