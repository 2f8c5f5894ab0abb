/**
 Paging a room's timeline. Events are stored under byte keys that carry a
 signed count; a page token is the count of the event the last page ended on.
 */
module Timeline {
  import opened Options
  import opened Bytes
  import opened Sequences

  datatype Dir = Forward | Backward

  const I64_MIN: int := -0x8000_0000_0000_0000

  const I64_MAX: int := 0x7FFF_FFFF_FFFF_FFFF

  const U64_MAX: nat := 0xFFFF_FFFF_FFFF_FFFF

  /** Events appended here count up from 1; backfilled history counts down from -1. */
  datatype Count = Normal(n: nat) | Backfilled(i: int)

  predicate IsI64(c: int) {
    I64_MIN <= c <= I64_MAX
  }

  /** A count some event can have. */
  predicate Stored(c: int) {
    IsI64(c) && c != 0
  }

  function FromSigned(c: int): Count {
    if c <= 0 then Backfilled(c) else Normal(c)
  }

  /** The neighbouring count, saturating and never leaving its variant. */
  function SaturatingInc(c: Count, dir: Dir): Count {
    match (c, dir)
    case (Normal(n), Forward) => Normal(if n < U64_MAX then n + 1 else n)
    case (Normal(n), Backward) => Normal(if n > 0 then n - 1 else n)
    case (Backfilled(i), Forward) => Backfilled(if i < I64_MAX then i + 1 else i)
    case (Backfilled(i), Backward) => Backfilled(if i > I64_MIN then i - 1 else i)
  }

  /** Behind the room's own prefix: 8 bytes for a normal count, 8 zero bytes and 8 more for a backfilled one. */
  function RawKey(c: Count): Data {
    match c
    case Normal(n) => BigEndian(8, n)
    case Backfilled(i) => BigEndian(8, 0) + BigEndian(8, i % Pow256(8))
  }

  function KeyOf(c: int): Data {
    RawKey(FromSigned(c))
  }

  /** Where a scan from token `t` starts: next to it, so as not to return it again. */
  function StartKey(dir: Dir, t: int): Data {
    RawKey(SaturatingInc(FromSigned(t), dir))
  }

  /** Whether the key of event `c` is part of the scan from token `t`. */
  predicate InScan(dir: Dir, t: int, c: int) {
    match dir
    case Forward => !LexLess(KeyOf(c), StartKey(dir, t))
    case Backward => !LexLess(StartKey(dir, t), KeyOf(c))
  }

  /** `c` lies ahead of `t` in the direction of travel. */
  predicate Ahead(dir: Dir, t: int, c: int) {
    match dir
    case Forward => c > t
    case Backward => c < t
  }

  // Keys and counts

  lemma Pow256Of8()
    ensures Pow256(8) == 0x1_0000_0000_0000_0000
  {
    assert Pow256(4) == 0x1_0000_0000;
  }

  lemma NormalOrder(a: nat, b: nat)
    requires a < b <= U64_MAX
    ensures LexLess(RawKey(Normal(a)), RawKey(Normal(b)))
  {
    Pow256Of8();
    BigEndianOrder(8, a, b, [], []);
    assert RawKey(Normal(a)) + [] == RawKey(Normal(a)) && RawKey(Normal(b)) + [] == RawKey(Normal(b));
  }

  lemma BackfilledBeforeNormal(i: int, n: nat)
    requires IsI64(i) && 0 < n <= U64_MAX
    ensures LexLess(RawKey(Backfilled(i)), RawKey(Normal(n)))
  {
    Pow256Of8();
    BigEndianOrder(8, 0, n, BigEndian(8, i % Pow256(8)), []);
    assert RawKey(Normal(n)) + [] == RawKey(Normal(n));
  }

  /** Negative counts keep their order; zero and positive ones would sort in front of them. */
  lemma BackfilledOrder(a: int, b: int)
    requires IsI64(a) && IsI64(b) && a < b
    ensures LexLess(RawKey(Backfilled(a)), RawKey(Backfilled(b))) <==> (a < 0 <==> b < 0)
  {
    Pow256Of8();
    var m := Pow256(8);
    Wrap(a, m);
    Wrap(b, m);
    var x, y := BigEndian(8, a % m), BigEndian(8, b % m);
    LexCommonPrefix(BigEndian(8, 0), x, y);
    assert x + [] == x && y + [] == y;
    if a < 0 <= b {
      BigEndianOrder(8, b % m, a % m, [], []);
      LexTotal(x, y);
    } else {
      BigEndianOrder(8, a % m, b % m, [], []);
    }
  }

  /** The key of normal count 0 is a prefix of every backfilled key and so sorts before them all. */
  lemma ZeroFirst(i: int)
    ensures LexLess(RawKey(Normal(0)), RawKey(Backfilled(i)))
  {
    var tail := BigEndian(8, i % Pow256(8));
    LexCommonPrefix(BigEndian(8, 0), [], tail);
    assert BigEndian(8, 0) + [] == RawKey(Normal(0));
  }

  /** Behind the room's prefix: one big-endian number, or eight zero bytes and one in two's complement. */
  lemma KeyLayout(c: int)
    requires Stored(c)
    ensures c > 0 ==> KeyOf(c) == BigEndian(8, c)
    ensures c < 0 ==> |KeyOf(c)| == 16 && KeyOf(c)[..8] == BigEndian(8, 0) && KeyOf(c)[8..] == BigEndian(8, c + Pow256(8))
  {
    Pow256Of8();
    if c < 0 {
      Wrap(c, Pow256(8));
      var tail := BigEndian(8, c % Pow256(8));
      assert (BigEndian(8, 0) + tail)[..8] == BigEndian(8, 0) && (BigEndian(8, 0) + tail)[8..] == tail;
    }
  }

  /** Events are iterated in the order of their counts. */
  lemma KeyOrder(a: int, b: int)
    requires Stored(a) && Stored(b) && a < b
    ensures LexLess(KeyOf(a), KeyOf(b))
  {
    if a > 0 {
      NormalOrder(a, b);
    } else if b > 0 {
      BackfilledBeforeNormal(a, b);
    } else {
      BackfilledOrder(a, b);
    }
  }

  lemma KeyLess(a: int, b: int)
    requires Stored(a) && Stored(b)
    ensures LexLess(KeyOf(a), KeyOf(b)) <==> a < b
  {
    LexTotal(KeyOf(a), KeyOf(b));
    if a < b {
      KeyOrder(a, b);
    } else if b < a {
      KeyOrder(b, a);
    }
  }

  /** The tokens whose scan goes wrong for event `c`. */
  predicate Misplaced(dir: Dir, t: int, c: int) {
    match dir
    case Forward => (t == -1 || t == 0) && c < 0
    case Backward => (t == 1 && c < 0) || (t == I64_MIN && c == I64_MIN)
  }

  lemma BackwardScan(t: int, c: int)
    requires IsI64(t) && Stored(c)
    ensures (InScan(Backward, t, c) <==> c < t) <==> !Misplaced(Backward, t, c)
  {
    if t == 1 {
      if c < 0 { ZeroFirst(c); } else { NormalOrder(0, c); }
    } else if t == I64_MIN {
      KeyLess(t, c);
    } else {
      KeyLess(t - 1, c);
    }
  }

  lemma ForwardScan(t: int, c: int)
    requires IsI64(t) && Stored(c)
    ensures (InScan(Forward, t, c) <==> c > t) <==> !Misplaced(Forward, t, c)
  {
    if t == -1 || t == 0 {
      BackfilledStart(t + 1, c);
    } else if t == I64_MAX {
      NormalStart(c);
    } else {
      KeyLess(c, t + 1);
    }
  }

  /** Backfilled counts from zero up sort before every event. */
  lemma BackfilledStart(i: int, c: int)
    requires 0 <= i <= 1 && Stored(c)
    ensures !LexLess(KeyOf(c), RawKey(Backfilled(i)))
  {
    LexTotal(KeyOf(c), RawKey(Backfilled(i)));
    if c < 0 {
      BackfilledOrder(c, i);
    } else {
      BackfilledBeforeNormal(i, c);
    }
  }

  lemma NormalStart(c: int)
    requires Stored(c)
    ensures LexLess(KeyOf(c), RawKey(Normal(I64_MAX + 1)))
  {
    if c > 0 { NormalOrder(c, I64_MAX + 1); } else { BackfilledBeforeNormal(c, I64_MAX + 1); }
  }

  /** A token is exclusive and complete for an event exactly when it does not misplace it. */
  lemma ScanExact(dir: Dir, t: int, c: int)
    requires IsI64(t) && Stored(c)
    ensures (InScan(dir, t, c) <==> Ahead(dir, t, c)) <==> !Misplaced(dir, t, c)
  {
    match dir
    case Forward => ForwardScan(t, c);
    case Backward => BackwardScan(t, c);
  }

  // Pages

  /** The room's events in the order a scan meets them. */
  ghost predicate IsLine(dir: Dir, line: seq<int>) {
    && (forall i :: 0 <= i < |line| ==> Stored(line[i]))
    && (forall i, j :: 0 <= i < j < |line| ==> Ahead(dir, line[i], line[j]))
  }

  function Scan(dir: Dir, line: seq<int>, t: int): seq<int> {
    Filter(line, c => InScan(dir, t, c))
  }

  /** The scan up to, and without, the event `to`. */
  function Until(s: seq<int>, to: Option<int>): seq<int> {
    if s == [] || to == Some(s[0]) then [] else [s[0]] + Until(s[1..], to)
  }

  function Last(s: seq<int>): Option<int> {
    if s == [] then None else Some(s[|s| - 1])
  }

  /** The last event looked at when the whole scan is used up. */
  function Scanned(s: seq<int>, to: Option<int>): Option<int> {
    if |Until(s, to)| < |s| then to else Last(s)
  }

  datatype Page = Page(events: seq<int>, end: Option<int>)

  function PageOf(dir: Dir, scan: seq<int>, passes: int -> bool, to: Option<int>, limit: nat): Page {
    var events := Take(Filter(Until(scan, to), passes), limit);
    var exhausted := dir == Backward && |events| < limit && Scanned(scan, to) != to;
    Page(events, if exhausted then Scanned(scan, to) else Last(events))
  }

  method GetMessages(dir: Dir, scan: seq<int>, passes: int -> bool, to: Option<int>, limit: nat) returns (page: Page)
    ensures page == PageOf(dir, scan, passes, to, limit)
  {
    var scanned := None;
    var events := [];
    ghost var rest := Filter(Until(scan, to), passes);
    ghost var all := rest;
    assert scan[0..] == scan;
    var i := 0;
    while i < |scan| && |events| < limit && to != Some(scan[i])
      invariant i <= |scan| && |events| <= limit
      invariant rest == Filter(Until(scan[i..], to), passes) && all == events + rest
      invariant |Until(scan, to)| == i + |Until(scan[i..], to)|
      invariant scanned == if i == 0 then None else Some(scan[i - 1])
    {
      assert scan[i..][1..] == scan[i + 1..] && scan[i..][0] == scan[i];
      FilterUntilCons(scan[i..], passes, to);
      rest := Filter(Until(scan[i + 1..], to), passes);
      scanned := Some(scan[i]);
      if passes(scan[i]) {
        Reassociate(events, [scan[i]], rest);
        events := events + [scan[i]];
      }
      i := i + 1;
    }
    TakeFront(events, rest, limit);
    if i < |scan| && |events| < limit {
      // The event `to` itself is looked at before it ends the page.
      scanned := to;
    }
    var exhausted := dir == Backward && |events| < limit && scanned != to;
    page := Page(events, if exhausted then scanned else Last(events));
  }

  lemma FilterUntilCons(s: seq<int>, passes: int -> bool, to: Option<int>)
    requires s != [] && to != Some(s[0])
    ensures Filter(Until(s, to), passes) == (if passes(s[0]) then [s[0]] else []) + Filter(Until(s[1..], to), passes)
  {
    assert Until(s, to)[1..] == Until(s[1..], to);
  }
}
