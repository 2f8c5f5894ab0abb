/** The stateful writer of the record format. */
module RecordWriter {
  import opened Bytes
  import opened Codec

  class Serializer {
    var out: Data
    var depth: nat
    var sep: bool
    var fin: bool

    constructor ()
      ensures out == [] && depth == 0 && !sep && !fin
    {
      out, depth, sep, fin := [], 0, false, false;
    }

    // The `requires` clauses below are the debug assertions of the source.

    method SequenceStart()
      requires !fin
      modifies this
      ensures out == old(out) && depth == old(depth) + 1 && !sep && !fin
    {
      depth := depth + 1;
      sep := false;
    }

    method SequenceEnd()
      modifies this
      ensures out == old(out) && !sep && fin == old(fin)
      ensures depth == if old(depth) == 0 then 0 else old(depth) - 1
    {
      depth := if depth == 0 then 0 else depth - 1;
      sep := false;
    }

    method Separator()
      requires !fin
      modifies this
      ensures out == old(out) + [SEP] && depth == old(depth) && sep == old(sep) && !fin
    {
      out := out + [SEP];
    }

    method RecordStart()
      requires !fin
      modifies this
      ensures out == old(out) + (if old(sep) then [SEP] else [])
      ensures sep && !fin && depth == old(depth)
    {
      var pending := sep;
      sep := true;
      if pending {
        Separator();
      }
    }

    /** Writes one value and leaves its own separator state behind. */
    method SerializeElem(e: Elem)
      requires !fin
      modifies this
      ensures out == old(out) + EncodeElem(e)
      ensures depth == old(depth) && fin == HoldsInterfix(e)
      ensures old(sep) ==> sep == !Unseparated(e)
      decreases e
    {
      match e
      case Text(bytes) =>
        out := out + bytes;
        sep := true;
      case Raw(bytes) =>
        out := out + bytes;
        sep := true;
      case Int(kind, v) =>
        out := out + EncodeInt(kind, v);
        sep := false;
      case Absent =>
      case Present(x) =>
        SerializeElem(x);
      case Interfix =>
        fin := true;
    }

    /** Elements of a tuple are always separated. */
    method TupleElement(e: Elem)
      requires !fin
      modifies this
      ensures out == old(out) + (if old(sep) then [SEP] else []) + EncodeElem(e)
      ensures sep && depth == old(depth)
      ensures fin == HoldsInterfix(e)
    {
      RecordStart();
      SerializeElem(e);
      sep := true;
    }

    method SeqElement(e: Elem)
      requires !fin
      modifies this
      ensures out == old(out) + (if old(sep) then [SEP] else []) + EncodeElem(e)
      ensures sep == !Unseparated(e) && depth == old(depth)
      ensures fin == HoldsInterfix(e)
    {
      RecordStart();
      SerializeElem(e);
    }

    /**
     Writes a whole tuple. An `Interfix` finalizes the record, so it may only
     come last.
     */
    method SerializeTuple(t: seq<Elem>)
      requires !sep && !fin && InterfixOnlyLast(t)
      modifies this
      ensures out == old(out) + EncodeTuple(t)
      ensures depth == old(depth) && !sep
    {
      SequenceStart();
      for i := 0 to |t|
        invariant out + Unwritten(t, i) == old(out) + EncodeTuple(t)
        invariant depth == old(depth) + 1 && sep == (i > 0)
        invariant fin ==> i == |t|
      {
        UnwrittenStep(out, t, i);
        TupleElement(t[i]);
      }
      SequenceEnd();
    }

    method SerializeSeq(t: seq<Elem>)
      requires !fin
      requires forall i :: 0 <= i < |t| ==> !HoldsInterfix(t[i])
      modifies this
      ensures out == old(out) + EncodeSeq(t)
      ensures depth == old(depth) && !sep
    {
      SequenceStart();
      for i := 0 to |t|
        invariant out + (if sep && i < |t| then [SEP] else []) + EncodeSeq(t[i..]) == old(out) + EncodeSeq(t)
        invariant depth == old(depth) + 1 && !fin
        invariant i == 0 ==> !sep
      {
        SeqElement(t[i]);
        assert t[i..][1..] == t[i + 1..] && t[i..][0] == t[i];
      }
      SequenceEnd();
    }
  }

  predicate HoldsInterfix(e: Elem) {
    match e
    case Interfix => true
    case Present(x) => HoldsInterfix(x)
    case _ => false
  }

  predicate InterfixOnlyLast(t: seq<Elem>) {
    forall i :: 0 <= i < |t| - 1 ==> !HoldsInterfix(t[i])
  }

  /** What a tuple still has to write once `i` of its elements are out. */
  function Unwritten(t: seq<Elem>, i: nat): Data
    requires i <= |t|
  {
    if i == 0 then EncodeTuple(t) else Chunks(t[i..])
  }

  lemma UnwrittenStep(out: Data, t: seq<Elem>, i: nat)
    requires i < |t|
    ensures out + Unwritten(t, i) == out + (if i > 0 then [SEP] else []) + EncodeElem(t[i]) + Unwritten(t, i + 1)
  {
    assert t[i..][1..] == t[i + 1..] && t[i..][0] == t[i];
    assert t[0..] == t;
  }
}
