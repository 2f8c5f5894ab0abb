/** The cursor that reads the record format. */
module RecordReader {
  import opened Bytes
  import opened Codec

  class Deserializer {
    const buf: Data
    var pos: nat
    var rec: nat
    var expected: nat
    /** Whether every layout assertion of a debug build has held so far. */
    var intact: bool

    ghost predicate Valid()
      reads this
    {
      pos <= |buf|
    }

    constructor (buf: Data)
      ensures Valid() && this.buf == buf && pos == rec == expected == 0 && intact
    {
      this.buf := buf;
      pos, rec, expected, intact := 0, 0, 0, true;
    }

    method RecordNext() returns (record: Data)
      requires Valid()
      modifies this`pos
      ensures Valid() && pos == RecordEnd(buf, old(pos))
      ensures record == buf[old(pos)..pos]
    {
      var end := pos;
      while end < |buf| && buf[end] != SEP
        invariant pos <= end <= |buf|
        invariant RecordEnd(buf, end) == RecordEnd(buf, pos)
      {
        end := end + 1;
      }
      record := buf[pos..end];
      pos := end;
    }

    method RecordTrail() returns (record: Data)
      requires Valid()
      modifies this`pos
      ensures Valid() && pos == |buf| && record == buf[old(pos)..]
    {
      record := buf[pos..];
      pos := |buf|;
    }

    /** Steps over the separator in front of the next record. */
    method RecordStart()
      requires Valid()
      requires pos < |buf| || rec < expected
      modifies this`pos, this`rec, this`intact
      ensures Valid() && rec == old(rec) + 1
      ensures pos == Codec.RecordStart(buf, old(pos), old(rec), expected)
      ensures intact == (old(intact) && SeparatorFound(buf, old(pos), old(rec), expected))
    {
      var started := pos != 0 || rec > 0;
      var inputDone := pos >= |buf|;
      var outputDone := rec >= expected;
      var incomplete := inputDone && !outputDone;
      intact := intact && (!started || incomplete || (pos < |buf| && buf[pos] == SEP));
      if started && !incomplete {
        pos := pos + 1;
      }
      rec := rec + 1;
    }

    method DeserializeElem(s: Shape) returns (r: Outcome<Elem>)
      requires Valid()
      modifies this`pos
      ensures Valid() && ElemRead(r, pos) == ReadElem(s, buf, old(pos))
      decreases s
    {
      match s
      case TextShape =>
        var record := RecordNext();
        r := Ok(Text(record));
      case RawShape =>
        var record := RecordTrail();
        r := Ok(Raw(record));
      case IntShape(kind) =>
        if kind != U64 && kind != I64 {
          return Err(Unsupported);
        }
        var end := if pos + 8 <= |buf| then pos + 8 else |buf|;
        var bytes := buf[pos..end];
        if |bytes| < 8 {
          return Err(Underflow);
        }
        pos := pos + 8;
        r := Ok(Int(kind, DecodeInt(kind, bytes)));
      case OptShape(s') =>
        if pos == |buf| || buf[pos] == SEP {
          r := Ok(Absent);
        } else {
          r := DeserializeElem(s');
          if r.Ok? {
            r := Ok(Present(r.value));
          }
        }
    }

    /** Reads a tuple from a fresh cursor, one element per shape. */
    method DeserializeTuple(ss: seq<Shape>) returns (r: Outcome<seq<Elem>>)
      requires Valid() && pos == rec == 0 && intact
      modifies this
      ensures Valid() && Cursor(pos, rec, intact, r) == ReadTuple(ss, buf)
    {
      expected := |ss|;
      r := Ok([]);
      assert ss[0..] == ss;
      while rec < expected
        invariant Valid() && expected == |ss| && rec <= |ss| && r.Ok?
        invariant ReadTuple(ss, buf) == ReadElems(ss[rec..], buf, expected, Cursor(pos, rec, intact, r))
        decreases |ss| - rec
      {
        ghost var tail := ss[rec..];
        RecordStart();
        var value := DeserializeElem(ss[rec - 1]);
        assert tail[0] == ss[rec - 1] && tail[1..] == ss[rec..];
        if value.Err? {
          r := Err(value.error);
          ReadFailed(ss[rec..], buf, expected, Cursor(pos, rec, intact, r));
          return;
        }
        r := Ok(r.value + [value.value]);
      }
    }

    /** Reads a list from a fresh cursor until the input is used up. */
    method DeserializeList(s: Shape) returns (r: Outcome<seq<Elem>>)
      requires Valid() && pos == rec == 0 && intact
      modifies this
      ensures Valid() && Cursor(pos, rec, intact, r) == ReadList(s, buf, FRESH)
    {
      expected := 1;
      r := Ok([]);
      while !(pos >= |buf| && rec >= expected)
        invariant Valid() && expected == 1 && r.Ok?
        invariant ReadList(s, buf, FRESH) == ReadList(s, buf, Cursor(pos, rec, intact, r))
        decreases |buf| - pos, if rec == 0 then 1 else 0
      {
        RecordStart();
        var value := DeserializeElem(s);
        if value.Err? {
          return Err(value.error);
        }
        r := Ok(r.value + [value.value]);
      }
    }

    method IsFinished() returns (done: bool)
      requires Valid()
      ensures done == Finished(buf, pos)
    {
      var remain := |buf| - pos;
      done := remain == 0 || (remain == 1 && buf[pos] == SEP);
    }
  }
}
