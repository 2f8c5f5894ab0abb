/** What a client gets by following page tokens through a timeline that does not change. */
module TimelinePages {
  import opened Options
  import opened Sequences
  import opened Timeline

  /** The events ahead of token `t`. */
  function Beyond(dir: Dir, line: seq<int>, t: int): seq<int> {
    Filter(line, c => Ahead(dir, t, c))
  }

  /** What is to be returned from token `t` on: everything that passes, up to `to`. */
  function Wanted(dir: Dir, line: seq<int>, passes: int -> bool, to: Option<int>, t: int): seq<int> {
    Filter(Until(Beyond(dir, line, t), to), passes)
  }

  /** Token `t` scans exactly the events ahead of it. */
  predicate Safe(dir: Dir, line: seq<int>, t: int) {
    forall c <- line :: !Misplaced(dir, t, c)
  }

  /** Every event's own count is a safe token. */
  predicate SafeLine(dir: Dir, line: seq<int>) {
    forall t <- line :: Safe(dir, line, t)
  }

  lemma ScanIsBeyond(dir: Dir, line: seq<int>, t: int)
    requires IsLine(dir, line) && IsI64(t) && Safe(dir, line, t)
    ensures Scan(dir, line, t) == Beyond(dir, line, t)
  {
    forall i | 0 <= i < |line| ensures InScan(dir, t, line[i]) == Ahead(dir, t, line[i]) {
      assert line[i] in line;
      ScanExact(dir, t, line[i]);
    }
    FilterSame(line, c => InScan(dir, t, c), c => Ahead(dir, t, c));
  }

  /** The events ahead of a token are the end of the line. */
  lemma {:induction false} BeyondIsSuffix(dir: Dir, line: seq<int>, t: int)
    requires IsLine(dir, line)
    ensures var s := Beyond(dir, line, t);
            |s| <= |line| && s == line[|line| - |s|..] && IsLine(dir, s)
  {
    if line != [] {
      if Ahead(dir, t, line[0]) {
        FilterAll(line, c => Ahead(dir, t, c));
      } else {
        BeyondIsSuffix(dir, line[1..], t);
      }
    }
  }

  /** From an event ahead of `t`, what lies further ahead is the same either way. */
  lemma {:induction false} BeyondTwice(dir: Dir, line: seq<int>, t: int, u: int)
    requires Ahead(dir, t, u)
    ensures Beyond(dir, Beyond(dir, line, t), u) == Beyond(dir, line, u)
  {
    if line != [] {
      BeyondTwice(dir, line[1..], t, u);
      var rest := Beyond(dir, line[1..], t);
      if Ahead(dir, t, line[0]) {
        assert ([line[0]] + rest)[1..] == rest;
      } else {
        assert Beyond(dir, line, t) == rest;
        assert Beyond(dir, line, u) == Beyond(dir, line[1..], u);
      }
    }
  }

  lemma BeyondHead(dir: Dir, s: seq<int>)
    requires IsLine(dir, s) && s != []
    ensures Beyond(dir, s, s[0]) == s[1..]
  {
    FilterAll(s[1..], c => Ahead(dir, s[0], c));
  }

  lemma BeyondSkips(dir: Dir, s: seq<int>, u: int)
    requires IsLine(dir, s) && s != [] && u in s[1..]
    ensures Beyond(dir, s, u) == Beyond(dir, s[1..], u)
  {
  }

  lemma {:induction false} FilterMember(s: seq<int>, to: Option<int>, passes: int -> bool, c: int)
    requires c in Filter(Until(s, to), passes)
    ensures c in s
  {
    if s != [] && to != Some(s[0]) {
      FilterUntilCons(s, passes, to);
      if c != s[0] {
        FilterMember(s[1..], to, passes, c);
      }
    }
  }

  /** Resuming from the `i`-th returned event yields exactly the ones behind it. */
  lemma {:induction false} ResumeExact(dir: Dir, s: seq<int>, passes: int -> bool, to: Option<int>, i: nat)
    requires IsLine(dir, s) && i < |Filter(Until(s, to), passes)|
    ensures var w := Filter(Until(s, to), passes);
            w[i + 1..] == Filter(Until(Beyond(dir, s, w[i]), to), passes)
    decreases |s|
  {
    var w := Filter(Until(s, to), passes);
    FilterUntilCons(s, passes, to);
    var rest := Filter(Until(s[1..], to), passes);
    if passes(s[0]) && i == 0 {
      BeyondHead(dir, s);
      assert w[1..] == rest;
    } else {
      var k := if passes(s[0]) then i - 1 else i;
      assert w[i] == rest[k] && w[i + 1..] == rest[k + 1..];
      assert rest[k] in rest;
      FilterMember(s[1..], to, passes, rest[k]);
      BeyondSkips(dir, s, rest[k]);
      ResumeExact(dir, s[1..], passes, to, k);
    }
  }

  lemma {:induction false} UntilAll(s: seq<int>, to: Option<int>)
    requires |Until(s, to)| >= |s|
    ensures Until(s, to) == s
  {
    if s != [] {
      UntilAll(s[1..], to);
    }
  }

  lemma BeyondLast(dir: Dir, s: seq<int>)
    requires IsLine(dir, s) && s != []
    ensures Beyond(dir, s, s[|s| - 1]) == []
  {
    FilterNone(s, c => Ahead(dir, s[|s| - 1], c));
  }

  /**
   A page returns the first of what is wanted. Without a token that is all of
   it; with one, the rest is wanted from the token on, which lies ahead.
   */
  lemma PageExact(dir: Dir, s: seq<int>, passes: int -> bool, to: Option<int>, limit: nat)
    requires IsLine(dir, s) && limit > 0
    ensures var page := PageOf(dir, s, passes, to, limit);
            var w := Filter(Until(s, to), passes);
            match page.end
            case None => page.events == w
            case Some(u) => u in s && page.events + Filter(Until(Beyond(dir, s, u), to), passes) == w
  {
    var page := PageOf(dir, s, passes, to, limit);
    var w := Filter(Until(s, to), passes);
    if dir == Backward && |page.events| < limit && Scanned(s, to) != to {
      UntilAll(s, to);
      if s != [] {
        BeyondLast(dir, s);
        assert page.events + [] == w;
      }
    } else if page.events != [] {
      var n := |page.events|;
      var u := w[n - 1];
      assert u in w;
      FilterMember(s, to, passes, u);
      ResumeExact(dir, s, passes, to, n - 1);
      assert w[..n] + w[n..] == w;
    }
  }

  // What is wanted, and where a page ends

  /** A stop: the event `to`, if a scan of `s` meets it. */
  predicate Stops(s: seq<int>, to: Option<int>) {
    to.Some? && to.value in s
  }

  lemma {:induction false} UntilExact(dir: Dir, s: seq<int>, to: Option<int>, c: int)
    requires IsLine(dir, s)
    ensures c in Until(s, to) <==> c in s && (Stops(s, to) ==> Ahead(dir, c, to.value))
    ensures |Until(s, to)| < |s| <==> Stops(s, to)
  {
    if s != [] {
      assert s == [s[0]] + s[1..];
      UntilExact(dir, s[1..], to, c);
      if to.Some? && to.value != s[0] && to.value in s[1..] {
        assert Ahead(dir, s[0], to.value);
      }
    }
  }

  lemma {:induction false} UntilLine(dir: Dir, s: seq<int>, to: Option<int>)
    requires IsLine(dir, s)
    ensures Until(s, to) <= s && IsLine(dir, Until(s, to))
  {
    if s != [] && to != Some(s[0]) {
      UntilLine(dir, s[1..], to);
    }
  }

  lemma LineCons(dir: Dir, x: int, s: seq<int>)
    requires Stored(x) && IsLine(dir, s) && forall i :: 0 <= i < |s| ==> Ahead(dir, x, s[i])
    ensures IsLine(dir, [x] + s)
  {
  }

  lemma LineTail(dir: Dir, s: seq<int>)
    requires IsLine(dir, s) && s != []
    ensures Stored(s[0]) && IsLine(dir, s[1..]) && forall c <- s[1..] :: Ahead(dir, s[0], c)
  {
  }

  lemma {:induction false} FilterLine(dir: Dir, s: seq<int>, f: int -> bool)
    requires IsLine(dir, s)
    ensures IsLine(dir, Filter(s, f))
  {
    if s != [] {
      LineTail(dir, s);
      FilterLine(dir, s[1..], f);
      FilteredLine(dir, s[0], s[1..], f);
    }
  }

  lemma FilteredLine(dir: Dir, x: int, s: seq<int>, f: int -> bool)
    requires Stored(x) && IsLine(dir, Filter(s, f)) && forall c <- s :: Ahead(dir, x, c)
    ensures IsLine(dir, (if f(x) then [x] else []) + Filter(s, f))
  {
    var rest := Filter(s, f);
    if f(x) {
      forall i | 0 <= i < |rest| ensures Ahead(dir, x, rest[i]) {
        FilterMembers(s, f, rest[i]);
      }
      LineCons(dir, x, rest);
    } else {
      assert [] + rest == rest;
    }
  }

  /**
   What is wanted from token `t` on, in order of travel: the events ahead of it
   that pass the filters and come before `to`, if `to` lies ahead.
   */
  lemma WantedExact(dir: Dir, line: seq<int>, passes: int -> bool, to: Option<int>, t: int, c: int)
    requires IsLine(dir, line)
    ensures IsLine(dir, Wanted(dir, line, passes, to, t))
    ensures c in Wanted(dir, line, passes, to, t) <==>
              && c in line && Ahead(dir, t, c) && passes(c)
              && (to.Some? && to.value in line && Ahead(dir, t, to.value) ==> Ahead(dir, c, to.value))
  {
    var ahead := Beyond(dir, line, t);
    FilterLine(dir, line, u => Ahead(dir, t, u));
    UntilLine(dir, ahead, to);
    FilterLine(dir, Until(ahead, to), passes);
    FilterMembers(Until(ahead, to), passes, c);
    UntilExact(dir, ahead, to, c);
    FilterMembers(line, u => Ahead(dir, t, u), c);
    if to.Some? {
      FilterMembers(line, u => Ahead(dir, t, u), to.value);
    }
  }

  /**
   A page holds as much of what is wanted as its limit allows. It ends on its
   last event, except that a backward page which is not full and met no stop
   ends on the oldest event there is.
   */
  lemma EndExact(dir: Dir, s: seq<int>, passes: int -> bool, to: Option<int>, limit: nat)
    requires IsLine(dir, s)
    ensures var page := PageOf(dir, s, passes, to, limit);
            var w := Filter(Until(s, to), passes);
            var ends := if dir == Backward && |w| < limit && !Stops(s, to) then s else page.events;
            && page.events == w[..if |w| < limit then |w| else limit]
            && page.end == if ends == [] then None else Some(ends[|ends| - 1])
  {
    UntilExact(dir, s, to, 0);
    var w := Filter(Until(s, to), passes);
    assert w[..|w|] == w;
  }

  // Following tokens

  datatype Visit = Visit(limit: nat, from: int, page: Page)

  datatype Query = Query(dir: Dir, line: seq<int>, passes: int -> bool, to: Option<int>)

  ghost predicate Served(q: Query, v: Visit) {
    && v.limit > 0 && IsI64(v.from)
    && v.page == PageOf(q.dir, Scan(q.dir, q.line, v.from), q.passes, q.to, v.limit)
  }

  /** Requests that start at a safe token and follow `end` with any positive limits. */
  ghost predicate Follows(q: Query, run: seq<Visit>) {
    run == [] ||
    var init, last := run[..|run| - 1], run[|run| - 1];
    && Follows(q, init)
    && Served(q, last)
    && if init == [] then Safe(q.dir, q.line, last.from) else init[|init| - 1].page.end == Some(last.from)
  }

  function Shown(run: seq<Visit>): seq<int> {
    if run == [] then [] else Shown(run[..|run| - 1]) + run[|run| - 1].page.events
  }

  function Left(q: Query, t: int): seq<int> {
    Wanted(q.dir, q.line, q.passes, q.to, t)
  }

  lemma VisitExact(q: Query, v: Visit)
    requires IsLine(q.dir, q.line) && Served(q, v) && Safe(q.dir, q.line, v.from)
    ensures match v.page.end
            case None => v.page.events == Left(q, v.from)
            case Some(u) => u in q.line && Ahead(q.dir, v.from, u) && v.page.events + Left(q, u) == Left(q, v.from)
  {
    var s := Beyond(q.dir, q.line, v.from);
    ScanIsBeyond(q.dir, q.line, v.from);
    BeyondIsSuffix(q.dir, q.line, v.from);
    PageExact(q.dir, s, q.passes, q.to, v.limit);
    if v.page.end.Some? {
      var u := v.page.end.value;
      BeyondMember(q.dir, q.line, v.from, u);
      BeyondTwice(q.dir, q.line, v.from, u);
    }
  }

  lemma {:induction false} BeyondMember(dir: Dir, line: seq<int>, t: int, u: int)
    requires u in Beyond(dir, line, t)
    ensures u in line && Ahead(dir, t, u)
  {
    if line != [] {
      if u != line[0] || !Ahead(dir, t, line[0]) {
        BeyondMember(dir, line[1..], t, u);
      }
    }
  }

  lemma {:induction false} FewerAhead(dir: Dir, line: seq<int>, t: int, u: int)
    requires Ahead(dir, t, u) && u in line
    ensures |Beyond(dir, line, u)| < |Beyond(dir, line, t)|
  {
    FewerOrSame(dir, line[1..], t, u);
    if u in line[1..] {
      FewerAhead(dir, line[1..], t, u);
    }
  }

  lemma {:induction false} FewerOrSame(dir: Dir, line: seq<int>, t: int, u: int)
    requires Ahead(dir, t, u)
    ensures |Beyond(dir, line, u)| <= |Beyond(dir, line, t)|
  {
    if line != [] {
      FewerOrSame(dir, line[1..], t, u);
    }
  }

  lemma FollowStep(q: Query, prev: Visit, t: int)
    requires IsLine(q.dir, q.line) && SafeLine(q.dir, q.line)
    requires Served(q, prev) && Safe(q.dir, q.line, prev.from) && prev.page.end == Some(t)
    ensures Safe(q.dir, q.line, t)
    ensures prev.page.events + Left(q, t) == Left(q, prev.from)
    ensures |Beyond(q.dir, q.line, t)| < |Beyond(q.dir, q.line, prev.from)|
  {
    VisitExact(q, prev);
    FewerAhead(q.dir, q.line, prev.from, t);
  }

  lemma {:induction false} FollowedSoFar(q: Query, run: seq<Visit>)
    requires IsLine(q.dir, q.line) && SafeLine(q.dir, q.line) && Follows(q, run) && run != []
    ensures Served(q, run[|run| - 1]) && Safe(q.dir, q.line, run[|run| - 1].from)
    ensures Shown(run[..|run| - 1]) + Left(q, run[|run| - 1].from) == Left(q, run[0].from)
    ensures |Beyond(q.dir, q.line, run[|run| - 1].from)| + |run| - 1 <= |Beyond(q.dir, q.line, run[0].from)|
    decreases |run|
  {
    var init, t := run[..|run| - 1], run[|run| - 1].from;
    if init != [] {
      var prev := init[|init| - 1];
      FollowedSoFar(q, init);
      FollowStep(q, prev, t);
      Reassociate(Shown(init[..|init| - 1]), prev.page.events, Left(q, t));
    } else {
      assert Shown(init) + Left(q, t) == Left(q, t);
    }
  }

  /**
   Followed until a page has no `end`, the pages return every wanted event
   exactly once and in order, however much of each page the filters removed.
   */
  lemma {:induction false} PagesComplete(q: Query, run: seq<Visit>)
    requires IsLine(q.dir, q.line) && SafeLine(q.dir, q.line) && Follows(q, run)
    requires run != [] && run[|run| - 1].page.end.None?
    ensures Shown(run) == Left(q, run[0].from)
  {
    FollowedSoFar(q, run);
    VisitExact(q, run[|run| - 1]);
  }

  /** Whether an event is shown to a client that follows the tokens to the end, and in which order. */
  lemma ShownExact(q: Query, run: seq<Visit>, c: int)
    requires IsLine(q.dir, q.line) && SafeLine(q.dir, q.line) && Follows(q, run)
    requires run != [] && run[|run| - 1].page.end.None?
    ensures IsLine(q.dir, Shown(run))
    ensures c in Shown(run) <==>
              && c in q.line && Ahead(q.dir, run[0].from, c) && q.passes(c)
              && (q.to.Some? && q.to.value in q.line && Ahead(q.dir, run[0].from, q.to.value) ==> Ahead(q.dir, c, q.to.value))
  {
    PagesComplete(q, run);
    WantedExact(q.dir, q.line, q.passes, q.to, run[0].from, c);
  }

  /** The tokens run out after at most one page more than there are events. */
  lemma {:induction false} PagesEnd(q: Query, run: seq<Visit>)
    requires IsLine(q.dir, q.line) && SafeLine(q.dir, q.line) && Follows(q, run)
    ensures |run| <= |q.line| + 1
  {
    if run != [] {
      FollowedSoFar(q, run);
      BeyondIsSuffix(q.dir, q.line, run[0].from);
    }
  }

  /** From token 1 a backward scan finds nothing: backfilled history behind it is lost. */
  lemma TokenOneLosesHistory(line: seq<int>)
    requires IsLine(Backward, line)
    ensures Scan(Backward, line, 1) == []
  {
    forall i | 0 <= i < |line| ensures !InScan(Backward, 1, line[i]) {
      ScanExact(Backward, 1, line[i]);
    }
    FilterNone(line, c => InScan(Backward, 1, c));
  }

  /** From token -1 a forward scan returns the whole backfilled history again. */
  lemma TokenMinusOneRepeats(line: seq<int>)
    requires IsLine(Forward, line)
    ensures Scan(Forward, line, -1) == line
  {
    forall i | 0 <= i < |line| ensures InScan(Forward, -1, line[i]) {
      ScanExact(Forward, -1, line[i]);
    }
    FilterAll(line, c => InScan(Forward, -1, c));
  }

  // The condition is exact

  /** The tokens run out, and then every wanted event was returned once and in order. */
  ghost predicate FaithfulRun(q: Query, run: seq<Visit>) {
    && |run| <= |q.line| + 1
    && (run != [] && run[|run| - 1].page.end.None? ==> Shown(run) == Left(q, run[0].from))
  }

  ghost predicate Faithful(dir: Dir, line: seq<int>) {
    forall passes: int -> bool, to: Option<int>, run: seq<Visit> ::
      Follows(Query(dir, line, passes, to), run) ==> FaithfulRun(Query(dir, line, passes, to), run)
  }

  lemma Unfaithful(dir: Dir, line: seq<int>, run: seq<Visit>)
    requires Follows(Plain(dir, line), run) && !FaithfulRun(Plain(dir, line), run)
    ensures !Faithful(dir, line)
  {
  }

  function Plain(dir: Dir, line: seq<int>): Query {
    Query(dir, line, _ => true, None)
  }

  lemma {:induction false} UntilNone(s: seq<int>)
    ensures Until(s, None) == s
  {
    if s != [] {
      UntilNone(s[1..]);
    }
  }

  /** An unfiltered page that fits in its scan ends on its last event. */
  lemma FullPage(dir: Dir, s: seq<int>, limit: nat)
    requires 0 < limit <= |s|
    ensures PageOf(dir, s, _ => true, None, limit) == Page(s[..limit], Some(s[limit - 1]))
  {
    UntilNone(s);
    FilterAll(s, _ => true);
  }

  /** The first event ahead of `t` leads the scan from it. */
  lemma {:induction false} BeyondNext(dir: Dir, line: seq<int>, t: int, u: int)
    requires IsLine(dir, line) && u in line && Ahead(dir, t, u)
    requires forall c <- line :: Ahead(dir, t, c) ==> c == u || Ahead(dir, u, c)
    ensures Beyond(dir, line, t) == [u] + Beyond(dir, line, u)
  {
    if Ahead(dir, t, line[0]) {
      assert line[0] == u;
      FilterAll(line, c => Ahead(dir, t, c));
      BeyondHead(dir, line);
    } else {
      BeyondNext(dir, line[1..], t, u);
    }
  }

  lemma OneEventPage(dir: Dir, line: seq<int>, t: int, u: int) returns (v: Visit)
    requires IsLine(dir, line) && IsI64(t) && Safe(dir, line, t) && u in line && Ahead(dir, t, u)
    requires forall c <- line :: Ahead(dir, t, c) ==> c == u || Ahead(dir, u, c)
    ensures v == Visit(1, t, Page([u], Some(u))) && Served(Plain(dir, line), v)
  {
    v := Visit(1, t, Page([u], Some(u)));
    ScanIsBeyond(dir, line, t);
    BeyondNext(dir, line, t, u);
    FullPage(dir, Scan(dir, line, t), 1);
  }

  lemma Extend(q: Query, run: seq<Visit>, v: Visit)
    requires Follows(q, run) && Served(q, v)
    requires if run == [] then Safe(q.dir, q.line, v.from) else run[|run| - 1].page.end == Some(v.from)
    ensures Follows(q, run + [v])
  {
    assert (run + [v])[..|run|] == run;
  }

  /** A page whose token is its own `end` is asked for without end. */
  lemma {:induction false} EndlessRun(q: Query, first: Visit, again: Visit, n: nat) returns (run: seq<Visit>)
    requires Served(q, first) && Safe(q.dir, q.line, first.from) && first.page.end == Some(again.from)
    requires Served(q, again) && again.page.end == Some(again.from)
    ensures Follows(q, run) && |run| == n + 1 && run[n].page.end == Some(again.from)
  {
    if n == 0 {
      Extend(q, [], first);
      run := [first];
      assert [] + [first] == run;
    } else {
      var init := EndlessRun(q, first, again, n - 1);
      Extend(q, init, again);
      run := init + [again];
    }
  }

  lemma LossAtOne(line: seq<int>, c: int)
    requires IsLine(Backward, line) && 1 in line && c in line && c < 0
    ensures !Faithful(Backward, line)
  {
    var q := Plain(Backward, line);
    var first := OneEventPage(Backward, line, 2, 1);
    TokenOneLosesHistory(line);
    var last := Visit(1, 1, Page([], None));
    assert Filter(Until([], None), _ => true) == [];
    Extend(q, [], first);
    assert [] + [first] == [first];
    Extend(q, [first], last);
    var run := [first] + [last];
    assert run[..1] == [first] && run[..1][..0] == [];
    assert Shown(run) == [1] by {
      assert Shown([]) == [];
      assert Shown([first]) == [1];
    }
    ScanIsBeyond(Backward, line, 2);
    BeyondNext(Backward, line, 2, 1);
    UntilNone(Beyond(Backward, line, 2));
    FilterAll(Beyond(Backward, line, 2), _ => true);
    BeyondHas(Backward, line, 2, c);
    assert Left(q, 2) == Beyond(Backward, line, 2);
    Unfaithful(Backward, line, run);
  }

  lemma {:induction false} BeyondHas(dir: Dir, line: seq<int>, t: int, c: int)
    requires c in line && Ahead(dir, t, c)
    ensures c in Beyond(dir, line, t)
  {
    if c != line[0] {
      BeyondHas(dir, line[1..], t, c);
    }
  }

  lemma LoopAtMin(line: seq<int>)
    requires IsLine(Backward, line) && I64_MIN in line
    ensures !Faithful(Backward, line)
  {
    var q := Plain(Backward, line);
    var first := OneEventPage(Backward, line, I64_MIN + 1, I64_MIN);
    ScanIsBeyond(Backward, line, I64_MIN + 1);
    forall i | 0 <= i < |line| ensures InScan(Backward, I64_MIN, line[i]) == Ahead(Backward, I64_MIN + 1, line[i]) {
      ScanExact(Backward, I64_MIN, line[i]);
    }
    FilterSame(line, c => InScan(Backward, I64_MIN, c), c => Ahead(Backward, I64_MIN + 1, c));
    var again := Visit(1, I64_MIN, first.page);
    var run := EndlessRun(q, first, again, |line| + 1);
    Unfaithful(Backward, line, run);
  }

  lemma LoopAtMinusOne(line: seq<int>)
    requires IsLine(Forward, line) && -1 in line
    ensures !Faithful(Forward, line)
  {
    var q := Plain(Forward, line);
    var first := OneEventPage(Forward, line, -2, -1);
    TokenMinusOneRepeats(line);
    var k :| 0 <= k < |line| && line[k] == -1;
    FullPage(Forward, line, k + 1);
    var again := Visit(k + 1, -1, Page(line[..k + 1], Some(-1)));
    var run := EndlessRun(q, first, again, |line| + 1);
    Unfaithful(Forward, line, run);
  }

  /**
   Following tokens is faithful exactly on the lines whose counts are safe
   tokens: backward, no event 1 in front of backfilled history and none at the
   type's minimum; forward, no event -1.
   */
  lemma FaithfulIffSafe(dir: Dir, line: seq<int>)
    requires IsLine(dir, line)
    ensures Faithful(dir, line) <==> SafeLine(dir, line)
  {
    if SafeLine(dir, line) {
      forall passes: int -> bool, to: Option<int>, run: seq<Visit> | Follows(Query(dir, line, passes, to), run)
        ensures FaithfulRun(Query(dir, line, passes, to), run)
      {
        var q := Query(dir, line, passes, to);
        PagesEnd(q, run);
        if run != [] && run[|run| - 1].page.end.None? {
          PagesComplete(q, run);
        }
      }
    } else {
      var t :| t in line && !Safe(dir, line, t);
      var c :| c in line && Misplaced(dir, t, c);
      match dir
      case Forward => LoopAtMinusOne(line);
      case Backward => if t == 1 { LossAtOne(line, c); } else { LoopAtMin(line); }
    }
  }
}
