/**
 Paging the hierarchy: every page walks the tree again, leaves out the rooms
 whose short ids the token lists, and extends that list by what it returned.
 */
module HierarchyPages {
  import opened Options
  import opened Sequences
  import opened Hierarchy

  /** Short room ids are handed out from one counter and never change. */
  datatype ShortIds = ShortIds(ids: map<Room, nat>, next: nat) {
    ghost predicate Valid() {
      && (forall r <- ids :: ids[r] < next)
      && (forall r, r' :: r in ids && r' in ids && ids[r] == ids[r'] ==> r == r')
    }

    function Allocate(r: Room): (t: ShortIds)
      ensures Valid() ==> t.Valid() && Extends(t)
      ensures r in t.ids
    {
      if r in ids then this else ShortIds(ids[r := next], next + 1)
    }

    /** Later in time: nothing already handed out has changed. */
    ghost predicate Extends(later: ShortIds) {
      forall r <- ids :: r in later.ids && later.ids[r] == ids[r]
    }
  }

  /** A request for the hierarchy below `root`, and which summaries can be serialized at all. */
  datatype Query = Query(walk: Request, root: Room, via: Via, serializable: Room -> bool)

  /** Everything a client can be shown, in traversal order. */
  function Listing(q: Query): seq<Room> {
    Filter(Emission(q.walk, q.root), q.serializable)
  }

  predicate Skipped(table: ShortIds, skip: seq<nat>, r: Room) {
    r in table.ids && table.ids[r] in skip
  }

  function Kept(s: seq<Room>, table: ShortIds, skip: seq<nat>): seq<Room> {
    Filter(s, (r: Room) => !Skipped(table, skip, r))
  }

  function AllocateAll(table: ShortIds, rooms: seq<Room>): (t: ShortIds)
    ensures table.Valid() ==> t.Valid() && table.Extends(t)
    ensures forall r <- rooms :: r in t.ids
    decreases |rooms|
  {
    if rooms == [] then table
    else
      var front := AllocateAll(table, rooms[..|rooms| - 1]);
      assert rooms == rooms[..|rooms| - 1] + [rooms[|rooms| - 1]];
      front.Allocate(rooms[|rooms| - 1])
  }

  function IdsOf(t: ShortIds, rooms: seq<Room>): (ids: seq<nat>)
    requires forall r <- rooms :: r in t.ids
    ensures |ids| == |rooms|
  {
    seq(|rooms|, i requires 0 <= i < |rooms| => assert rooms[i] in rooms; t.ids[rooms[i]])
  }

  datatype Page = Page(rooms: seq<Room>, token: Option<seq<nat>>, table: ShortIds)

  /** One page: what it returns, the token for the next one, and the ids handed out for it. */
  function PageOf(q: Query, table: ShortIds, skip: seq<nat>, limit: nat): Page {
    var rooms := Take(Kept(Listing(q), table, skip), limit);
    if limit > 0 && |rooms| >= limit then
      var t := AllocateAll(table, rooms);
      Page(rooms, Some(skip + IdsOf(t, rooms)), t)
    else Page(rooms, None, table)
  }

  /** The route's answer; an inaccessible root is refused outright. */
  method GetHierarchy(q: Query, table: ShortIds, skip: seq<nat>, limit: nat) returns (response: Result<Page>)
    ensures response ==
      if q.walk.Accessible(Edge(q.root, q.via)) then Ok(PageOf(q, table, skip, limit)) else Err
  {
    if !q.walk.Accessible(Edge(q.root, q.via)) {
      return Err;
    }
    var emitted := Traverse(q.walk, q.root);
    var rooms := Collect(emitted, q.serializable, table, skip, limit);
    if !(limit > 0 && |rooms| >= limit) {
      return Ok(Page(rooms, None, table));
    }
    var t := CreateIds(table, rooms);
    var next := skip + IdsOf(t, rooms);
    // A token is only given when the skip list grew, which it has: the page is full.
    response := Ok(Page(rooms, if |next| > |skip| then Some(next) else None, t));
  }

  /** Filters the walk and stops once the page is full. */
  method Collect(emitted: seq<Room>, serializable: Room -> bool, table: ShortIds, skip: seq<nat>, limit: nat)
    returns (rooms: seq<Room>)
    ensures rooms == Take(Kept(Filter(emitted, serializable), table, skip), limit)
  {
    rooms := [];
    ghost var rest := Kept(Filter(emitted, serializable), table, skip);
    ghost var all := rest;
    assert emitted[0..] == emitted;
    var i := 0;
    while i < |emitted| && |rooms| < limit
      invariant i <= |emitted| && |rooms| <= limit
      invariant rest == Kept(Filter(emitted[i..], serializable), table, skip)
      invariant all == rooms + rest
    {
      assert emitted[i..] == [emitted[i]] + emitted[i + 1..];
      KeptFilterCons(emitted[i], emitted[i + 1..], serializable, table, skip);
      rest := Kept(Filter(emitted[i + 1..], serializable), table, skip);
      if serializable(emitted[i]) && !Skipped(table, skip, emitted[i]) {
        Reassociate(rooms, [emitted[i]], rest);
        rooms := rooms + [emitted[i]];
      }
      i := i + 1;
    }
    TakeFront(rooms, rest, limit);
  }

  method CreateIds(table: ShortIds, rooms: seq<Room>) returns (t: ShortIds)
    ensures t == AllocateAll(table, rooms)
  {
    t := table;
    for k := 0 to |rooms|
      invariant t == AllocateAll(table, rooms[..k])
    {
      assert rooms[..k + 1][..k] == rooms[..k];
      t := t.Allocate(rooms[k]);
    }
    assert rooms[..|rooms|] == rooms;
  }

  lemma KeptCons(r: Room, s: seq<Room>, table: ShortIds, skip: seq<nat>)
    ensures Kept([r] + s, table, skip) == (if Skipped(table, skip, r) then [] else [r]) + Kept(s, table, skip)
  {
    assert ([r] + s)[1..] == s;
  }

  lemma KeptFilterCons(r: Room, s: seq<Room>, keep: Room -> bool, table: ShortIds, skip: seq<nat>)
    ensures Kept(Filter([r] + s, keep), table, skip)
         == (if keep(r) && !Skipped(table, skip, r) then [r] else []) + Kept(Filter(s, keep), table, skip)
  {
    assert ([r] + s)[1..] == s;
    var rest := Filter(s, keep);
    assert Filter([r] + s, keep) == if keep(r) then [r] + rest else rest;
    KeptCons(r, rest, table, skip);
  }

  // What a client sees by following tokens

  lemma {:induction false} KeptSuffix(s: seq<Room>, n: nat, table: ShortIds, skip: seq<nat>)
    requires n <= |s|
    requires forall i :: 0 <= i < |s| ==> (Skipped(table, skip, s[i]) <==> i < n)
    ensures Kept(s, table, skip) == s[n..]
  {
    if s != [] {
      KeptSuffix(s[1..], if n == 0 then 0 else n - 1, table, skip);
      if n == 0 {
        assert [s[0]] + s[1..] == s;
      } else {
        assert s[1..][n - 1..] == s[n..];
      }
      assert s == [s[0]] + s[1..];
      KeptCons(s[0], s[1..], table, skip);
    }
  }

  /** `skip` names exactly the first `n` rooms of the listing. */
  ghost predicate At(listing: seq<Room>, n: nat, table: ShortIds, skip: seq<nat>) {
    n == |skip| <= |listing| && forall i :: 0 <= i < n ==> listing[i] in table.ids && skip[i] == table.ids[listing[i]]
  }

  lemma AtSkipped(listing: seq<Room>, n: nat, table: ShortIds, skip: seq<nat>, i: nat)
    requires At(listing, n, table, skip) && table.Valid() && Distinct(listing) && i < |listing|
    ensures Skipped(table, skip, listing[i]) <==> i < n
  {
    if i < n {
      assert skip[i] in skip;
    }
  }

  /**
   A page picks up where the token points, returns the next rooms of the
   listing, and hands on a longer token exactly when it is full.
   */
  lemma {:induction false} PageExact(q: Query, table: ShortIds, skip: seq<nat>, limit: nat)
    requires table.Valid() && At(Listing(q), |skip|, table, skip) && limit > 0
    ensures var listing := Listing(q);
            var page := PageOf(q, table, skip, limit);
            var end := if |skip| + limit <= |listing| then |skip| + limit else |listing|;
            && page.rooms == listing[|skip|..end]
            && page.table.Valid() && table.Extends(page.table)
            && (page.token.Some? <==> |skip| + limit <= |listing|)
            && (page.token.Some? ==> |page.token.value| == end > |skip| && At(listing, end, page.table, page.token.value))
  {
    var listing, n := Listing(q), |skip|;
    EmittedOnce(q.walk, q.root);
    FilterDistinct(Emission(q.walk, q.root), q.serializable);
    forall i | 0 <= i < |listing| ensures Skipped(table, skip, listing[i]) <==> i < n {
      AtSkipped(listing, n, table, skip, i);
    }
    KeptSuffix(listing, n, table, skip);
    var page := PageOf(q, table, skip, limit);
    if n + limit <= |listing| {
      assert listing[n..][..limit] == listing[n..n + limit];
      TokenAt(listing, n, table, skip, page.rooms, page.table, page.token.value);
    }
  }

  /** A request for no rooms gets none and no token, and hands out no ids. */
  lemma EmptyPage(q: Query, table: ShortIds, skip: seq<nat>)
    ensures PageOf(q, table, skip, 0) == Page([], None, table)
  {
  }

  lemma TokenAt(listing: seq<Room>, n: nat, table: ShortIds, skip: seq<nat>, rooms: seq<Room>, t: ShortIds, next: seq<nat>)
    requires At(listing, n, table, skip) && table.Extends(t)
    requires n + |rooms| <= |listing| && rooms == listing[n..n + |rooms|]
    requires forall r <- rooms :: r in t.ids
    requires next == skip + IdsOf(t, rooms)
    ensures At(listing, n + |rooms|, t, next)
  {
    forall i | 0 <= i < n + |rooms| ensures listing[i] in t.ids && next[i] == t.ids[listing[i]] {
      if i >= n {
        assert rooms[i - n] == listing[i] && rooms[i - n] in rooms;
      }
    }
  }

  /** One request of a client: the ids known when it ran, and the answer. */
  datatype Visit = Visit(limit: nat, before: ShortIds, skip: seq<nat>, page: Page)

  /**
   Requests that follow the tokens with any positive limits. Between two of
   them the server may hand out further ids.
   */
  ghost predicate Follows(q: Query, run: seq<Visit>) {
    run == [] ||
    var init, last := run[..|run| - 1], run[|run| - 1];
    && Follows(q, init)
    && Served(q, last)
    && if init == [] then last.skip == [] else Linked(init[|init| - 1], last)
  }

  ghost predicate Served(q: Query, v: Visit) {
    v.limit > 0 && v.before.Valid() && v.page == PageOf(q, v.before, v.skip, v.limit)
  }

  ghost predicate Linked(v: Visit, next: Visit) {
    v.page.token == Some(next.skip) && v.page.table.Extends(next.before)
  }

  function Shown(run: seq<Visit>): seq<Room> {
    if run == [] then [] else Shown(run[..|run| - 1]) + run[|run| - 1].page.rooms
  }

  /** The request after a full page starts where that page ended. */
  lemma FollowStep(q: Query, prev: Visit, last: Visit)
    requires Served(q, prev) && At(Listing(q), |prev.skip|, prev.before, prev.skip) && Linked(prev, last)
    ensures |prev.skip| < |last.skip| && At(Listing(q), |last.skip|, last.before, last.skip)
    ensures Listing(q)[..|prev.skip|] + prev.page.rooms == Listing(q)[..|last.skip|]
  {
    PageExact(q, prev.before, prev.skip, prev.limit);
    JoinSlices(Listing(q), |prev.skip|, |last.skip|);
  }

  lemma {:induction false} FollowedSoFar(q: Query, run: seq<Visit>)
    requires Follows(q, run) && run != []
    ensures var last := run[|run| - 1];
            && At(Listing(q), |last.skip|, last.before, last.skip)
            && Shown(run[..|run| - 1]) == Listing(q)[..|last.skip|]
            && |last.skip| >= |run| - 1
    decreases |run|
  {
    var init := run[..|run| - 1];
    if init != [] {
      FollowedSoFar(q, init);
      FollowStep(q, init[|init| - 1], run[|run| - 1]);
    }
  }

  lemma JoinSlices(s: seq<Room>, n: nat, end: nat)
    requires n <= end <= |s|
    ensures s[..n] + s[n..end] == s[..end]
  {
  }

  /**
   Followed to the end, the pages concatenate to the unpaged listing: nothing
   lost, nothing repeated.
   */
  lemma {:induction false} PagesConcatenate(q: Query, run: seq<Visit>)
    requires Follows(q, run) && run != [] && run[|run| - 1].page.token.None?
    ensures Shown(run) == Listing(q)
  {
    FollowedSoFar(q, run);
    var last := run[|run| - 1];
    LastPage(q, last);
    JoinSlices(Listing(q), |last.skip|, |Listing(q)|);
  }

  lemma LastPage(q: Query, last: Visit)
    requires Served(q, last) && At(Listing(q), |last.skip|, last.before, last.skip) && last.page.token.None?
    ensures last.page.rooms == Listing(q)[|last.skip|..|Listing(q)|]
  {
    PageExact(q, last.before, last.skip, last.limit);
  }

  /** No client follows tokens for ever: a run is at most one page longer than the listing. */
  lemma PagesEnd(q: Query, run: seq<Visit>)
    requires Follows(q, run)
    ensures |run| <= |Listing(q)| + 1
  {
    if run != [] {
      FollowedSoFar(q, run);
    }
  }
}
