/**
 What the record format promises: reading undoes writing, tuples may grow at
 the tail, and prefix scans are exact and ordered.
 */
module CodecLaws {
  import opened Bytes
  import opened Codec

  /** A present optional is told from an absent one by its first byte alone. */
  predicate Readable(e: Elem) {
    e.Present? ==>
      var bytes := EncodeElem(e.inner);
      Readable(e.inner) && bytes != [] && bytes[0] != SEP
  }

  predicate AllReadable(t: seq<Elem>) {
    forall i :: 0 <= i < |t| ==> Readable(t[i])
  }

  // One element

  lemma IntRoundTrip(kind: IntKind, v: int)
    requires kind.InRange(v)
    ensures DecodeInt(kind, EncodeInt(kind, v)) == v
  {
    var p := Pow256(kind.Width());
    Wrap(v, p);
    BigEndianRoundTrip(kind.Width(), v % p);
  }

  lemma {:induction false} RecordEndAt(buf: Data, pos: nat, end: nat)
    requires pos <= end <= |buf|
    requires SEP !in buf[pos..end]
    requires end == |buf| || buf[end] == SEP
    ensures RecordEnd(buf, pos) == end
    decreases end - pos
  {
    if pos < end {
      assert buf[pos] == buf[pos..end][0];
      assert buf[pos + 1..end] == buf[pos..end][1..];
      RecordEndAt(buf, pos + 1, end);
    }
  }

  /** A record lies between two positions and ends at a separator or with the input. */
  predicate Placed(bytes: Data, buf: Data, pos: nat, end: nat) {
    pos <= end <= |buf| && buf[pos..end] == bytes && (end == |buf| || buf[end] == SEP)
  }

  lemma PlacedIn(bytes: Data, rest: seq<Elem>, buf: Data, pos: nat)
    requires pos <= |buf| && buf[pos..] == bytes + Chunks(rest)
    ensures Placed(bytes, buf, pos, pos + |bytes|) && (rest == [] ==> pos + |bytes| == |buf|)
  {
    Split(buf, pos, bytes, Chunks(rest));
    var end := pos + |bytes|;
    assert end < |buf| ==> buf[end] == buf[end..][0] == SEP;
  }

  lemma TextRead(bytes: Data, buf: Data, pos: nat, end: nat)
    requires SEP !in bytes && Placed(bytes, buf, pos, end)
    ensures ReadElem(TextShape, buf, pos) == ElemRead(Ok(Text(bytes)), end)
  {
    RecordEndAt(buf, pos, end);
  }

  lemma IntRead(kind: IntKind, v: int, buf: Data, pos: nat, end: nat)
    requires kind.InRange(v) && (kind == U64 || kind == I64) && Placed(EncodeInt(kind, v), buf, pos, end)
    ensures ReadElem(IntShape(kind), buf, pos) == ElemRead(Ok(Int(kind, v)), end)
  {
    IntRoundTrip(kind, v);
    assert end == pos + 8;
  }

  lemma {:induction false} PlacedRoundTrip(e: Elem, s: Shape, buf: Data, pos: nat, end: nat)
    requires HasShape(e, s) && Decodable(s) && Placed(EncodeElem(e), buf, pos, end) && (HasRaw(s) ==> end == |buf|)
    ensures ReadElem(s, buf, pos).outcome == Ok(e) <==> Readable(e)
    ensures Readable(e) ==> ReadElem(s, buf, pos).pos == end
    decreases e
  {
    match e
    case Text(bytes) => TextRead(bytes, buf, pos, end);
    case Int(kind, v) => IntRead(kind, v, buf, pos, end);
    case Raw(_) => assert buf[pos..end] == buf[pos..];
    case Absent =>
    case Present(x) =>
      assert pos < end ==> buf[pos] == buf[pos..end][0];
      PlacedRoundTrip(x, s.inner, buf, pos, end);
  }

  /**
   In front of the rest of its tuple, an element reads back as itself exactly
   when it is readable, and then the cursor lands on the next separator.
   */
  lemma ElemRoundTrip(e: Elem, s: Shape, rest: seq<Elem>, buf: Data, pos: nat)
    requires HasShape(e, s) && Decodable(s) && (HasRaw(s) ==> rest == [])
    requires pos <= |buf| && buf[pos..] == EncodeElem(e) + Chunks(rest)
    ensures ReadElem(s, buf, pos).outcome == Ok(e) <==> Readable(e)
    ensures Readable(e) ==> ReadElem(s, buf, pos).pos == pos + |EncodeElem(e)|
  {
    PlacedIn(EncodeElem(e), rest, buf, pos);
    PlacedRoundTrip(e, s, buf, pos, pos + |EncodeElem(e)|);
  }

  // Tuples

  /** `t` is a tuple of type `ss` that the reader supports; raw bytes only last. */
  predicate Writable(t: seq<Elem>, ss: seq<Shape>) {
    |t| == |ss| &&
    (t != [] ==>
      && HasShape(t[0], ss[0]) && Decodable(ss[0]) && (HasRaw(ss[0]) ==> |t| == 1)
      && Writable(t[1..], ss[1..]))
  }

  lemma {:induction false} IsWritable(t: seq<Elem>, ss: seq<Shape>)
    requires HasShapes(t, ss) && AllDecodable(ss) && RawOnlyLast(ss)
    ensures Writable(t, ss)
  {
    if t != [] {
      IsWritable(t[1..], ss[1..]);
    }
  }

  /** The cursor stands in front of the records of `t`, which are all that is left. */
  predicate At(t: seq<Elem>, buf: Data, pos: nat, rec: nat) {
    pos <= |buf| && if rec == 0 then pos == 0 && buf == EncodeTuple(t) else buf[pos..] == Chunks(t)
  }

  /** The separator in front of the next record is found, and the record lies behind it. */
  lemma AtRecord(t: seq<Elem>, buf: Data, pos: nat, rec: nat, expected: nat)
    requires t != [] && At(t, buf, pos, rec)
    ensures SeparatorFound(buf, pos, rec, expected)
    ensures var start := RecordStart(buf, pos, rec, expected);
            start <= |buf| && buf[start..] == EncodeElem(t[0]) + Chunks(t[1..])
  {
    if rec > 0 {
      assert buf[pos] == buf[pos..][0] == SEP;
      Split(buf, pos, [SEP], EncodeElem(t[0]) + Chunks(t[1..]));
    } else {
      assert buf[0..] == buf;
    }
  }

  /** One element: past it the cursor is in front of the rest of the tuple. */
  lemma ReadNext(t: seq<Elem>, s: Shape, buf: Data, expected: nat, c: Cursor)
    requires t != [] && HasShape(t[0], s) && Decodable(s) && (HasRaw(s) ==> |t| == 1)
    requires At(t, buf, c.pos, c.rec) && (c.pos < |buf| || c.rec < expected) && c.read.Ok?
    ensures var c' := ReadStep(s, buf, expected, c);
            && (c'.read == Ok(c.read.value + [t[0]]) <==> Readable(t[0]))
            && (Readable(t[0]) ==> At(t[1..], buf, c'.pos, c'.rec) && c'.rec == c.rec + 1 && c'.intact == c.intact)
  {
    AtRecord(t, buf, c.pos, c.rec, expected);
    var start := RecordStart(buf, c.pos, c.rec, expected);
    ElemRoundTrip(t[0], s, t[1..], buf, start);
    Split(buf, start, EncodeElem(t[0]), Chunks(t[1..]));
    var r := ReadElem(s, buf, start).outcome;
    if r.Ok? {
      assert (c.read.value + [r.value])[|c.read.value|] == r.value;
      assert (c.read.value + [t[0]])[|c.read.value|] == t[0];
    }
  }

  lemma Appended(read: seq<Elem>, t: seq<Elem>)
    requires t != []
    ensures read + [t[0]] + t[1..] == read + t
  {
  }

  lemma {:induction false} ReadReadable(t: seq<Elem>, ss: seq<Shape>, buf: Data, expected: nat, c: Cursor, end: Cursor)
    requires Writable(t, ss) && AllReadable(t)
    requires At(t, buf, c.pos, c.rec) && c.rec + |ss| <= expected && c.read.Ok?
    requires end == ReadElems(ss, buf, expected, c)
    ensures end == Cursor(|buf|, c.rec + |t|, c.intact, Ok(c.read.value + t))
    decreases |t|
  {
    if t == [] {
      assert c.read.value + t == c.read.value;
    } else {
      ReadNext(t, ss[0], buf, expected, c);
      ReadReadable(t[1..], ss[1..], buf, expected, ReadStep(ss[0], buf, expected, c), end);
      Appended(c.read.value, t);
    }
  }

  /** A read only ever appends to what it has read. */
  lemma {:induction false} ReadAppends(ss: seq<Shape>, buf: Data, expected: nat, c: Cursor)
    requires c.pos <= |buf| && c.rec + |ss| <= expected
    ensures var c' := ReadElems(ss, buf, expected, c);
            c'.read.Ok? ==> c.read.Ok? && c.read.value <= c'.read.value
  {
    if ss != [] {
      ReadAppends(ss[1..], buf, expected, ReadStep(ss[0], buf, expected, c));
    }
  }

  /** An unreadable element is lost: what comes back differs at its place, or nothing comes back. */
  lemma {:induction false} ReadUnreadable(t: seq<Elem>, ss: seq<Shape>, buf: Data, expected: nat, c: Cursor)
    requires Writable(t, ss) && !AllReadable(t)
    requires At(t, buf, c.pos, c.rec) && c.rec + |ss| <= expected && c.read.Ok?
    ensures ReadElems(ss, buf, expected, c).read != Ok(c.read.value + t)
    decreases |t|
  {
    ReadNext(t, ss[0], buf, expected, c);
    var c' := ReadStep(ss[0], buf, expected, c);
    if Readable(t[0]) {
      ReadUnreadable(t[1..], ss[1..], buf, expected, c');
      Appended(c.read.value, t);
    } else {
      ReadAppends(ss[1..], buf, expected, c');
      var front := |c.read.value| + 1;
      assert (c.read.value + t)[..front] == c.read.value + [t[0]];
      var end := ReadElems(ss[1..], buf, expected, c');
      assert end.read.Ok? ==> c'.read.value == end.read.value[..front];
    }
  }

  /**
   Reading undoes writing, uses up the whole input and trips no layout
   assertion, exactly when every present optional can be told from an absent
   one.
   */
  lemma TupleRoundTrip(t: seq<Elem>, ss: seq<Shape>)
    requires HasShapes(t, ss) && AllDecodable(ss) && RawOnlyLast(ss)
    ensures ReadTuple(ss, EncodeTuple(t)).read == Ok(t) <==> AllReadable(t)
    ensures AllReadable(t) ==> ReadTuple(ss, EncodeTuple(t)) == Cursor(|EncodeTuple(t)|, |t|, true, Ok(t))
  {
    assert [] + t == t;
    IsWritable(t, ss);
    if AllReadable(t) {
      ReadReadable(t, ss, EncodeTuple(t), |ss|, FRESH, ReadTuple(ss, EncodeTuple(t)));
    } else {
      ReadUnreadable(t, ss, EncodeTuple(t), |ss|, FRESH);
    }
  }

  // Reading a tuple at fewer elements than it has

  lemma {:induction false} ReadFront(p: seq<Elem>, q: seq<Elem>, ss: seq<Shape>, buf: Data, expected: nat, c: Cursor, end: Cursor)
    requires Scannable(p, ss) && AllDecodable(ss) && c.rec + |ss| <= expected && c.read.Ok?
    requires At(p + q, buf, c.pos, c.rec) && c.rec + |p| > 0
    requires end == ReadElems(ss, buf, expected, c)
    ensures end.read == Ok(c.read.value + p) && end.rec == c.rec + |p| && At(q, buf, end.pos, end.rec)
    decreases |p|
  {
    var t := p + q;
    if p == [] {
      assert t == q && c.read.value + p == c.read.value;
    } else {
      assert t[0] == p[0] && t[1..] == p[1..] + q;
      ReadNext(t, ss[0], buf, expected, c);
      ReadFront(p[1..], q, ss[1..], buf, expected, ReadStep(ss[0], buf, expected, c), end);
      Appended(c.read.value, p);
    }
  }

  /** What is left counts as finished exactly when it is nothing, or one element that encodes to nothing. */
  lemma LeftFinished(q: seq<Elem>, buf: Data, pos: nat)
    requires pos <= |buf| && buf[pos..] == Chunks(q)
    ensures Finished(buf, pos) <==> q == [] || (|q| == 1 && EncodeElem(q[0]) == [])
  {
    if q != [] {
      assert buf[pos] == buf[pos..][0] == SEP;
      assert |q| > 1 ==> |Chunks(q[1..])| >= 1;
    }
  }

  /**
   Reading the front of a longer tuple yields that front. The reader accepts the
   input as finished exactly when no more was there, or one element that encodes
   to nothing, as the marker that ends a prefix does.
   */
  lemma FrontFinished(p: seq<Elem>, q: seq<Elem>, ss: seq<Shape>)
    requires p != [] && HasShapes(p, ss) && AllDecodable(ss) && AllReadable(p)
    requires forall i :: 0 <= i < |ss| ==> !HasRaw(ss[i])
    ensures var buf := EncodeTuple(p + q);
            var end := ReadTuple(ss, buf);
            && end.read == Ok(p)
            && (Finished(buf, end.pos) <==> q == [] || (|q| == 1 && EncodeElem(q[0]) == []))
  {
    var buf := EncodeTuple(p + q);
    IsScannable(p, ss);
    ReadFront(p, q, ss, buf, |ss|, FRESH, ReadTuple(ss, buf));
    assert [] + p == p;
    LeftFinished(q, buf, ReadTuple(ss, buf).pos);
  }

  // Integers

  lemma ReadIntStep(kind: IntKind, z: Data, buf: Data, expected: nat, c: Cursor)
    requires At([Raw(z)], buf, c.pos, c.rec) && (c.pos < |buf| || c.rec < expected) && c.read.Ok?
    ensures var r := ReadStep(IntShape(kind), buf, expected, c).read;
            r == if kind != U64 && kind != I64 then Err(Unsupported)
                 else if |z| < 8 then Err(Underflow)
                 else Ok(c.read.value + [Int(kind, DecodeInt(kind, z[..8]))])
  {
    AtRecord([Raw(z)], buf, c.pos, c.rec, expected);
    var start := RecordStart(buf, c.pos, c.rec, expected);
    assert buf[start..] == z;
    if |z| >= 8 {
      assert buf[start..start + 8] == z[..8];
    }
  }

  lemma ReadFrontAt(p: seq<Elem>, z: Data, ss: seq<Shape>, buf: Data, expected: nat, end: Cursor)
    requires HasShapes(p, ss) && AllDecodable(ss) && AllReadable(p) && |ss| <= expected
    requires forall i :: 0 <= i < |ss| ==> !HasRaw(ss[i])
    requires buf == EncodeTuple(p + [Raw(z)]) && end == ReadElems(ss, buf, expected, FRESH)
    ensures end.read == Ok(p) && end.rec == |p| && At([Raw(z)], buf, end.pos, end.rec)
  {
    if p == [] {
      assert p + [Raw(z)] == [Raw(z)];
    } else {
      IsScannable(p, ss);
      ReadFront(p, [Raw(z)], ss, buf, expected, FRESH, end);
      assert [] + p == p;
    }
  }

  /**
   Behind any readable elements an integer takes eight bytes: with fewer left the
   read fails, as it does for every width but the two of 64 bits.
   */
  lemma IntNeedsEightBytes(p: seq<Elem>, ss: seq<Shape>, kind: IntKind, z: Data)
    requires HasShapes(p, ss) && AllDecodable(ss) && AllReadable(p)
    requires forall i :: 0 <= i < |ss| ==> !HasRaw(ss[i])
    ensures var r := ReadTuple(ss + [IntShape(kind)], Lead(p) + z).read;
            r == if kind != U64 && kind != I64 then Err(Unsupported)
                 else if |z| < 8 then Err(Underflow)
                 else Ok(p + [Int(kind, DecodeInt(kind, z[..8]))])
  {
    var buf, expected := Lead(p) + z, |ss| + 1;
    EncodeBehind(p, Raw(z), []);
    assert [Raw(z)] + [] == [Raw(z)] && z + [] == z;
    ReadConcat(ss, [IntShape(kind)], buf, expected, FRESH);
    var front := ReadElems(ss, buf, expected, FRESH);
    ReadFrontAt(p, z, ss, buf, expected, front);
    ReadIntStep(kind, z, buf, expected, front);
    var last := ReadStep(IntShape(kind), buf, expected, front);
    assert ReadElems([IntShape(kind)], buf, expected, front) == last;
  }

  /** Behind an integer the layout is intact exactly when a separator follows, or nothing. */
  lemma IntactIffSeparated(kind: IntKind, s: Shape, bytes: Data, z: Data)
    requires (kind == U64 || kind == I64) && |bytes| == 8
    ensures ReadTuple([IntShape(kind), s], bytes + z).intact <==> z == [] || z[0] == SEP
  {
    var buf := bytes + z;
    var first := ReadStep(IntShape(kind), buf, 2, FRESH);
    assert first.pos == 8 && first.rec == 1 && first.read.Ok? && first.intact;
    assert [IntShape(kind), s][1..] == [s];
    assert ReadElems([s], buf, 2, first) == ReadStep(s, buf, 2, first);
    assert z != [] ==> buf[8] == z[0];
  }

  // Layout

  /** Elements bring no bytes of their own: text and raw bytes stand for themselves, absence for nothing. */
  lemma ElemLayout(bytes: Data, x: Elem)
    ensures EncodeElem(Text(bytes)) == bytes == EncodeElem(Raw(bytes))
    ensures EncodeElem(Absent) == [] == EncodeElem(Interfix)
    ensures EncodeElem(Present(x)) == EncodeElem(x)
    ensures x.Int? ==> EncodeElem(x) == BigEndian(x.kind.Width(), x.value % Pow256(x.kind.Width()))
  {
  }

  /** The bytes of pairs, written out: one 0xFF between two elements, none behind an integer in a list. */
  lemma Layout(x: Elem, y: Elem)
    ensures EncodeTuple([x, y]) == EncodeElem(x) + [0xFF] + EncodeElem(y)
    ensures x.Text? ==> EncodeSeq([x, y]) == x.bytes + [0xFF] + EncodeElem(y)
    ensures x.Int? ==> EncodeSeq([x, y]) == EncodeInt(x.kind, x.value) + EncodeElem(y)
  {
    assert [x, y][1..] == [y] && [y][1..] == [];
    assert Chunks([y]) == [SEP] + EncodeElem(y);
    assert EncodeSeq([y]) == EncodeElem(y);
  }

  // Growing a tuple at the tail

  function Default(s: Shape): Elem
    requires !s.IntShape?
  {
    match s
    case TextShape => Text([])
    case RawShape => Raw([])
    case OptShape(_) => Absent
  }

  predicate Tolerant(ss: seq<Shape>) {
    forall i :: 0 <= i < |ss| ==> !ss[i].IntShape?
  }

  function Defaults(ss: seq<Shape>): (t: seq<Elem>)
    requires Tolerant(ss)
    ensures |t| == |ss|
  {
    seq(|ss|, i requires 0 <= i < |ss| => Default(ss[i]))
  }

  lemma ReadPastEnd(s: Shape, buf: Data)
    requires Decodable(s)
    ensures ReadElem(s, buf, |buf|)
         == ElemRead(if s.IntShape? then Err(Underflow) else Ok(Default(s)), |buf|)
  {
    assert buf[|buf|..] == [] == buf[|buf|..|buf|];
  }

  /** Past the end of the input every tolerant type reads as its default and any integer fails. */
  lemma {:induction false} ReadNothing(ss: seq<Shape>, buf: Data, expected: nat, c: Cursor)
    requires AllDecodable(ss) && c.pos == |buf| && c.rec + |ss| <= expected && c.read.Ok?
    ensures var c' := ReadElems(ss, buf, expected, c);
            c'.pos == |buf| && c'.intact == c.intact &&
            c'.read == if Tolerant(ss) then Ok(c.read.value + Defaults(ss)) else Err(Underflow)
    decreases |ss|
  {
    if ss == [] {
      assert c.read.value + Defaults(ss) == c.read.value;
    } else {
      ReadPastEnd(ss[0], buf);
      var c' := ReadStep(ss[0], buf, expected, c);
      if ss[0].IntShape? {
        ReadFailed(ss[1..], buf, expected, c');
      } else {
        ReadNothing(ss[1..], buf, expected, c');
        assert ss == [ss[0]] + ss[1..];
        if Tolerant(ss) {
          assert c.read.value + [Default(ss[0])] + Defaults(ss[1..]) == c.read.value + Defaults(ss);
        }
      }
    }
  }

  lemma {:induction false} ReadConcat(ss: seq<Shape>, more: seq<Shape>, buf: Data, expected: nat, c: Cursor)
    requires c.pos <= |buf| && c.rec + |ss| + |more| <= expected
    ensures ReadElems(ss + more, buf, expected, c)
         == ReadElems(more, buf, expected, ReadElems(ss, buf, expected, c))
  {
    if ss == [] {
      assert ss + more == more;
    } else {
      assert (ss + more)[0] == ss[0] && (ss + more)[1..] == ss[1..] + more;
      ReadConcat(ss[1..], more, buf, expected, ReadStep(ss[0], buf, expected, c));
    }
  }

  lemma {:induction false} ChunksDefaults(ss: seq<Shape>)
    requires Tolerant(ss)
    ensures Chunks(Defaults(ss)) == seq(|ss|, _ => SEP)
  {
    if ss != [] {
      ChunksDefaults(ss[1..]);
      assert Defaults(ss)[1..] == Defaults(ss[1..]);
      assert seq(|ss|, _ => SEP) == [SEP] + seq(|ss| - 1, _ => SEP);
    }
  }

  lemma {:induction false} ChunksConcat(t: seq<Elem>, u: seq<Elem>)
    ensures Chunks(t + u) == Chunks(t) + Chunks(u)
  {
    if t == [] {
      assert t + u == u;
    } else {
      assert (t + u)[1..] == t[1..] + u;
      ChunksConcat(t[1..], u);
    }
  }

  /** Extending a non-empty tuple appends the new elements' chunks. */
  lemma EncodeTupleConcat(t: seq<Elem>, u: seq<Elem>)
    ensures EncodeTuple(t + u) == if t == [] then EncodeTuple(u) else EncodeTuple(t) + Chunks(u)
  {
    if t == [] {
      assert t + u == u;
    } else {
      assert (t + u)[1..] == t[1..] + u;
      ChunksConcat(t[1..], u);
    }
  }

  lemma DecodableParts(ss: seq<Shape>, tail: seq<Shape>)
    requires AllDecodable(ss + tail)
    ensures AllDecodable(ss) && AllDecodable(tail)
  {
    forall i | 0 <= i < |tail| ensures Decodable(tail[i]) {
      assert (ss + tail)[|ss| + i] == tail[i];
    }
    forall i | 0 <= i < |ss| ensures Decodable(ss[i]) {
      assert (ss + tail)[i] == ss[i];
    }
  }

  /**
   A record written at an older, shorter shape reads at an extended one as
   itself plus empty defaults; an integer missing from it is an error, never a
   value.
   */
  lemma AdditiveEvolution(t: seq<Elem>, ss: seq<Shape>, tail: seq<Shape>)
    requires HasShapes(t, ss) && AllDecodable(ss + tail) && AllReadable(t)
    requires forall s <- ss :: !HasRaw(s)
    ensures var r := ReadTuple(ss + tail, EncodeTuple(t));
            r.pos == |EncodeTuple(t)| && r.intact &&
            r.read == if Tolerant(tail) then Ok(t + Defaults(tail)) else Err(Underflow)
  {
    DecodableParts(ss, tail);
    var buf, expected := EncodeTuple(t), |ss| + |tail|;
    IsWritable(t, ss);
    ReadConcat(ss, tail, buf, expected, FRESH);
    ReadReadable(t, ss, buf, expected, FRESH, ReadElems(ss, buf, expected, FRESH));
    assert [] + t == t;
    ReadNothing(tail, buf, expected, ReadElems(ss, buf, expected, FRESH));
  }

  lemma ExtendedShapes(t: seq<Elem>, ss: seq<Shape>, tail: seq<Shape>)
    requires HasShapes(t, ss) && AllReadable(t) && Tolerant(tail)
    ensures HasShapes(t + Defaults(tail), ss + tail) && AllReadable(t + Defaults(tail))
  {
    var extended := t + Defaults(tail);
    forall i | 0 <= i < |extended| ensures HasShape(extended[i], (ss + tail)[i]) && Readable(extended[i]) {
      if i >= |ss| {
        assert extended[i] == Default(tail[i - |ss|]);
      }
    }
  }

  /** Rewriting the record at the extended shape only appends separators, and reads the same. */
  lemma EvolvedRewrite(t: seq<Elem>, ss: seq<Shape>, tail: seq<Shape>)
    requires t != [] && HasShapes(t, ss) && AllDecodable(ss + tail) && AllReadable(t)
    requires forall s <- ss :: !HasRaw(s)
    requires RawOnlyLast(tail) && Tolerant(tail)
    ensures EncodeTuple(t + Defaults(tail)) == EncodeTuple(t) + seq(|tail|, _ => SEP)
    ensures ReadTuple(ss + tail, EncodeTuple(t + Defaults(tail))).read == ReadTuple(ss + tail, EncodeTuple(t)).read
  {
    EncodeTupleConcat(t, Defaults(tail));
    ChunksDefaults(tail);
    AdditiveEvolution(t, ss, tail);
    ExtendedShapes(t, ss, tail);
    TupleRoundTrip(t + Defaults(tail), ss + tail);
  }

  // Lists

  /** Values that leave a separator pending, so that a list of them reads record by record. */
  predicate Separated(s: Shape) {
    match s
    case IntShape(_) => false
    case OptShape(s') => Separated(s')
    case _ => true
  }

  ghost predicate ListOf(t: seq<Elem>, s: Shape) {
    forall i :: 0 <= i < |t| ==> HasShape(t[i], s)
  }

  lemma {:induction false} NotUnseparated(e: Elem, s: Shape)
    requires HasShape(e, s) && Separated(s)
    ensures !Unseparated(e)
    decreases e
  {
    if e.Present? {
      NotUnseparated(e.inner, s.inner);
    }
  }

  lemma {:induction false} EncodeSeparated(t: seq<Elem>, s: Shape)
    requires ListOf(t, s) && Separated(s)
    ensures EncodeSeq(t) == EncodeTuple(t)
  {
    if t != [] {
      NotUnseparated(t[0], s);
      EncodeSeparated(t[1..], s);
    }
  }

  lemma {:induction false} ReadListed(t: seq<Elem>, s: Shape, buf: Data, c: Cursor, end: Cursor)
    requires ListOf(t, s) && Decodable(s) && !HasRaw(s) && AllReadable(t)
    requires At(t, buf, c.pos, c.rec) && c.read.Ok? && (t == [] ==> c.rec > 0)
    requires end == ReadList(s, buf, c)
    ensures end == Cursor(|buf|, c.rec + |t|, c.intact, Ok(c.read.value + t))
    decreases |t|
  {
    if t == [] {
      assert c.read.value + t == c.read.value;
    } else {
      ReadNext(t, s, buf, 1, c);
      ReadListed(t[1..], s, buf, ReadStep(s, buf, 1, c), end);
      Appended(c.read.value, t);
    }
  }

  lemma {:induction false} ReadListAppends(s: Shape, buf: Data, c: Cursor, end: Cursor)
    requires c.pos <= |buf| && end == ReadList(s, buf, c)
    ensures end.read.Ok? ==> c.read.Ok? && c.read.value <= end.read.value
    decreases |buf| - c.pos, if c.rec == 0 then 1 else 0, if c.read.Ok? then 1 else 0
  {
    if c.read.Ok? && !(c.pos >= |buf| && c.rec >= 1) {
      ReadListAppends(s, buf, ReadStep(s, buf, 1, c), end);
    }
  }

  lemma {:induction false} ReadListUnreadable(t: seq<Elem>, s: Shape, buf: Data, c: Cursor, end: Cursor)
    requires ListOf(t, s) && Decodable(s) && !HasRaw(s) && !AllReadable(t)
    requires At(t, buf, c.pos, c.rec) && c.read.Ok?
    requires end == ReadList(s, buf, c)
    ensures end.read != Ok(c.read.value + t)
    decreases |t|
  {
    ReadNext(t, s, buf, 1, c);
    var c' := ReadStep(s, buf, 1, c);
    if Readable(t[0]) {
      ReadListUnreadable(t[1..], s, buf, c', end);
      Appended(c.read.value, t);
    } else {
      ReadListAppends(s, buf, c', end);
      var front := |c.read.value| + 1;
      assert (c.read.value + t)[..front] == c.read.value + [t[0]];
      assert end.read.Ok? ==> c'.read.value == end.read.value[..front];
    }
  }

  /**
   A list of separated values reads back as itself exactly when it is not empty
   and each value is readable; the empty list reads as one empty value.
   */
  lemma ListRoundTrip(t: seq<Elem>, s: Shape)
    requires ListOf(t, s) && Decodable(s) && Separated(s) && !HasRaw(s)
    ensures var end := ReadList(s, EncodeSeq(t), FRESH);
            && (end.read == Ok(t) <==> t != [] && AllReadable(t))
            && (AllReadable(t) ==> end.pos == |EncodeSeq(t)| && end.intact)
            && (t == [] ==> end.read == Ok([Default(s)]))
  {
    EncodeSeparated(t, s);
    var buf := EncodeTuple(t);
    assert [] + t == t;
    if t == [] {
      ReadPastEnd(s, buf);
      assert [] + [Default(s)] == [Default(s)];
    } else if AllReadable(t) {
      ReadListed(t, s, buf, FRESH, ReadList(s, buf, FRESH));
    } else {
      ReadListUnreadable(t, s, buf, FRESH, ReadList(s, buf, FRESH));
    }
  }

  /** Where the item at index `i` starts when all are `w` bytes wide. */
  function Offset(i: nat, w: nat): nat {
    if i == 0 then 0 else w + Offset(i - 1, w)
  }

  lemma {:induction false} OffsetIsProduct(i: nat, w: nat)
    ensures Offset(i, w) == i * w
  {
    if i > 0 {
      OffsetIsProduct(i - 1, w);
      assert i * w == w + (i - 1) * w;
    }
  }

  function Flatten(chunks: seq<Data>): Data {
    if chunks == [] then [] else chunks[0] + Flatten(chunks[1..])
  }

  lemma {:induction false} FlattenOffset(chunks: seq<Data>, w: nat, i: nat, buf: Data)
    requires i < |chunks| && (forall j :: 0 <= j < |chunks| ==> |chunks[j]| == w) && buf == Flatten(chunks)
    ensures |buf| == Offset(|chunks|, w) && Offset(i, w) + w <= |buf|
    ensures buf[Offset(i, w)..Offset(i, w) + w] == chunks[i]
    decreases |chunks|
  {
    var rest := Flatten(chunks[1..]);
    if |chunks| > 1 {
      FlattenOffset(chunks[1..], w, if i == 0 then 0 else i - 1, rest);
      if i > 0 {
        var at := Offset(i - 1, w);
        assert (chunks[0] + rest)[w + at..w + at + w] == rest[at..at + w];
      }
    }
  }

  function IntChunks(kind: IntKind, l: seq<int>): (chunks: seq<Data>)
    ensures |chunks| == |l| && forall i :: 0 <= i < |l| ==> chunks[i] == EncodeInt(kind, l[i])
  {
    seq(|l|, i requires 0 <= i < |l| => EncodeInt(kind, l[i]))
  }

  lemma {:induction false} EncodeInts(kind: IntKind, l: seq<int>)
    ensures EncodeSeq(Ints(kind, l)) == Flatten(IntChunks(kind, l))
  {
    if l != [] {
      EncodeInts(kind, l[1..]);
      var t := Ints(kind, l);
      assert t[0] == Int(kind, l[0]) && t[1..] == Ints(kind, l[1..]);
      assert IntChunks(kind, l)[1..] == IntChunks(kind, l[1..]);
      assert EncodeSeq(t) == EncodeInt(kind, l[0]) + [] + EncodeSeq(t[1..]);
    }
  }

  /** Integers in a list take no separators: each sits at its own multiple of the width. */
  lemma IntListLayout(kind: IntKind, l: seq<int>, i: nat)
    requires i < |l|
    ensures var buf := EncodeSeq(Ints(kind, l));
            var at := i * kind.Width();
            |buf| == |l| * kind.Width() && at + kind.Width() <= |buf| && buf[at..at + kind.Width()] == EncodeInt(kind, l[i])
  {
    EncodeInts(kind, l);
    FlattenOffset(IntChunks(kind, l), kind.Width(), i, EncodeSeq(Ints(kind, l)));
    OffsetIsProduct(i, kind.Width());
    OffsetIsProduct(|l|, kind.Width());
  }

  function Ints(kind: IntKind, l: seq<int>): seq<Elem> {
    seq(|l|, i requires 0 <= i < |l| => Int(kind, l[i]))
  }

  // Prefix scans

  /** Two records of one type, each ended by a separator, are told apart by their bytes. */
  lemma {:induction false} RecordsDiffer(a: Elem, b: Elem, s: Shape, x: Data, y: Data)
    requires HasShape(a, s) && HasShape(b, s) && !HasRaw(s) && Readable(a) && Readable(b)
    requires EncodeElem(a) + [SEP] + x == EncodeElem(b) + [SEP] + y
    ensures a == b && x == y
    decreases s
  {
    var u, v := EncodeElem(a), EncodeElem(b);
    var w := u + [SEP] + x;
    match s
    case TextShape =>
      assert w[|u|] == SEP && w[|v|] == SEP;
      assert forall i :: 0 <= i < |u| ==> u[i] == w[i];
      assert forall i :: 0 <= i < |v| ==> v[i] == w[i];
      assert u == w[..|u|] == v;
      assert x == w[|u| + 1..] == y;
    case IntShape(kind) =>
      assert u == w[..|u|] == v;
      IntRoundTrip(kind, a.value);
      IntRoundTrip(kind, b.value);
      assert x == w[|u| + 1..] == y;
    case OptShape(s') =>
      assert u != [] ==> w[0] == u[0];
      assert v != [] ==> w[0] == v[0];
      if a.Present? && b.Present? {
        RecordsDiffer(a.inner, b.inner, s', x, y);
      } else {
        assert a == b == Absent;
        assert x == w[1..] == y;
      }
  }

  /** The separator an `Interfix` leaves behind is the one thing it writes. */
  lemma InterfixPrefix(p: seq<Elem>)
    ensures EncodeTuple(p + [Interfix]) == if p == [] then [] else EncodeTuple(p) + [SEP]
  {
    EncodeTupleConcat(p, [Interfix]);
    assert Chunks([Interfix]) == [SEP] + [] + [];
  }

  /** A tuple of type `ss`, without raw bytes, whose optionals can be told apart. */
  predicate Scannable(t: seq<Elem>, ss: seq<Shape>) {
    |t| == |ss| &&
    (t != [] ==> HasShape(t[0], ss[0]) && !HasRaw(ss[0]) && Readable(t[0]) && Scannable(t[1..], ss[1..]))
  }

  lemma {:induction false} IsScannable(t: seq<Elem>, ss: seq<Shape>)
    requires HasShapes(t, ss) && AllReadable(t)
    requires forall i :: 0 <= i < |ss| ==> !HasRaw(ss[i])
    ensures Scannable(t, ss)
  {
    if t != [] {
      IsScannable(t[1..], ss[1..]);
    }
  }

  /** What follows the first record and its separator in an encoded tuple and further bytes. */
  function Tail(t: seq<Elem>, z: Data): Data
    requires t != []
  {
    if |t| == 1 then z else EncodeTuple(t[1..]) + [SEP] + z
  }

  lemma EncodeTupleSplit(t: seq<Elem>, z: Data)
    requires t != []
    ensures EncodeTuple(t) + [SEP] + z == EncodeElem(t[0]) + [SEP] + Tail(t, z)
  {
    if |t| > 1 {
      assert Chunks(t[1..]) == [SEP] + EncodeTuple(t[1..]);
    }
  }

  /** Two tuples of one type, each ended by a separator, are told apart by their bytes. */
  lemma {:induction false} TuplesDiffer(p: seq<Elem>, k: seq<Elem>, ss: seq<Shape>, x: Data, y: Data)
    requires p != [] && Scannable(p, ss) && Scannable(k, ss)
    requires EncodeTuple(p) + [SEP] + x == EncodeTuple(k) + [SEP] + y
    ensures p == k && x == y
    decreases |p|
  {
    EncodeTupleSplit(p, x);
    EncodeTupleSplit(k, y);
    RecordsDiffer(p[0], k[0], ss[0], Tail(p, x), Tail(k, y));
    if |p| > 1 {
      TuplesDiffer(p[1..], k[1..], ss[1..], x, y);
    }
    SameParts(p, k);
  }

  lemma SameParts(p: seq<Elem>, k: seq<Elem>)
    requires |p| == |k| > 0 && p[0] == k[0] && p[1..] == k[1..]
    ensures p == k
  {
    assert p == [p[0]] + p[1..] && k == [k[0]] + k[1..];
  }

  /**
   Scanning by the prefix of `p` finds exactly the longer keys whose leading
   elements are `p`.
   */
  lemma PrefixScanExact(p: seq<Elem>, k: seq<Elem>, ss: seq<Shape>)
    requires 0 < |p| <= |k| && HasShapes(p, ss) && HasShapes(k[..|p|], ss)
    requires forall i :: 0 <= i < |ss| ==> !HasRaw(ss[i])
    requires AllReadable(p) && AllReadable(k[..|p|])
    ensures EncodeTuple(p + [Interfix]) <= EncodeTuple(k) <==> |p| < |k| && k[..|p|] == p
  {
    var front, more := k[..|p|], k[|p|..];
    IsScannable(p, ss);
    IsScannable(front, ss);
    InterfixPrefix(p);
    assert k == front + more;
    EncodeTupleConcat(front, more);
    PrefixMatches(p, front, more, ss, EncodeTuple(p) + [SEP], EncodeTuple(k));
  }

  lemma PrefixMatches(p: seq<Elem>, front: seq<Elem>, more: seq<Elem>, ss: seq<Shape>, prefix: Data, key: Data)
    requires p != [] && Scannable(p, ss) && Scannable(front, ss)
    requires prefix == EncodeTuple(p) + [SEP] && key == EncodeTuple(front) + Chunks(more)
    ensures prefix <= key <==> more != [] && front == p
  {
    if prefix <= key {
      assert key == prefix + key[|prefix|..];
      KeyFound(p, front, more, ss, key[|prefix|..]);
    } else if more != [] && front == p {
      PrefixHeld(p, more);
    }
  }

  lemma PrefixHeld(p: seq<Elem>, more: seq<Elem>)
    requires more != []
    ensures EncodeTuple(p) + [SEP] <= EncodeTuple(p) + Chunks(more)
  {
    var rest := EncodeElem(more[0]) + Chunks(more[1..]);
    assert EncodeTuple(p) + Chunks(more) == EncodeTuple(p) + [SEP] + rest;
  }

  lemma KeyFound(p: seq<Elem>, front: seq<Elem>, more: seq<Elem>, ss: seq<Shape>, z: Data)
    requires p != [] && Scannable(p, ss) && Scannable(front, ss)
    requires EncodeTuple(p) + [SEP] + z == EncodeTuple(front) + Chunks(more)
    ensures more != [] && front == p
  {
    var whole := EncodeTuple(p) + [SEP] + z;
    if more == [] {
      // A key of exactly these elements holds no separator behind its last one.
      assert whole == EncodeTuple(front);
      assert EncodeTuple(p) + [SEP] + (z + [SEP]) == whole + [SEP];
      TuplesDiffer(p, front, ss, z + [SEP], []);
    } else {
      assert whole == EncodeTuple(front) + [SEP] + EncodeTuple(more);
      TuplesDiffer(p, front, ss, z, EncodeTuple(more));
    }
  }

  /** What comes in front of the element after `p`. */
  function Lead(p: seq<Elem>): Data {
    if p == [] then [] else EncodeTuple(p) + [SEP]
  }

  lemma EncodeBehind(p: seq<Elem>, e: Elem, x: seq<Elem>)
    ensures EncodeTuple(p + ([e] + x)) == Lead(p) + (EncodeElem(e) + Chunks(x))
  {
    var u, record := [e] + x, EncodeElem(e) + Chunks(x);
    assert u[0] == e && u[1..] == x;
    EncodeTupleConcat(p, u);
    assert EncodeTuple(p) + ([SEP] + record) == EncodeTuple(p) + [SEP] + record;
  }

  lemma EncodedIntOrder(kind: IntKind, a: int, b: int, x: Data, y: Data)
    requires kind.InRange(a) && kind.InRange(b) && a < b
    ensures LexLess(EncodeInt(kind, a) + x, EncodeInt(kind, b) + y) <==> (a < 0 <==> b < 0)
  {
    var m := Pow256(kind.Width());
    Wrap(a, m);
    Wrap(b, m);
    if a < 0 <= b {
      BigEndianOrder(kind.Width(), b % m, a % m, y, x);
      LexTotal(EncodeInt(kind, a) + x, EncodeInt(kind, b) + y);
    } else {
      BigEndianOrder(kind.Width(), a % m, b % m, x, y);
    }
  }

  /**
   Behind equal leading elements, keys sort by the integer that follows them;
   for signed integers only among values of one sign.
   */
  lemma ScanOrder(p: seq<Elem>, kind: IntKind, a: int, b: int, x: seq<Elem>, y: seq<Elem>)
    requires kind.InRange(a) && kind.InRange(b) && a < b
    ensures LexLess(EncodeTuple(p + ([Int(kind, a)] + x)), EncodeTuple(p + ([Int(kind, b)] + y)))
       <==> (a < 0 <==> b < 0)
  {
    EncodeBehind(p, Int(kind, a), x);
    EncodeBehind(p, Int(kind, b), y);
    LexCommonPrefix(Lead(p), EncodeInt(kind, a) + Chunks(x), EncodeInt(kind, b) + Chunks(y));
    EncodedIntOrder(kind, a, b, Chunks(x), Chunks(y));
  }
}
