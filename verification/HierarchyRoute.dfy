/**
 The hierarchy route as a client meets it: page tokens are text it hands back,
 and a request whose depth or filter no longer fits its token is refused.
 */
module HierarchyRoute {
  import opened Options
  import opened Sequences
  import opened Hierarchy
  import opened HierarchyPages
  import PaginationToken

  /** What stays as it is while a client pages: the rooms and what this caller may see of them. */
  datatype World = World(
    rooms: map<Room, seq<ChildEvent>>,
    admits: (Room, Via) -> bool,
    root: Room,
    via: Via,
    serializable: Room -> bool)

  datatype Body = Body(from: Option<string>, limit: Option<nat>, maxDepth: Option<nat>, suggestedOnly: bool) {
    function Limit(): nat {
      AtMost(if limit.Some? then limit.value else 10, 100)
    }

    function MaxDepth(): nat {
      AtMost(if maxDepth.Some? then maxDepth.value else 3, 10)
    }

    /** The token handed back; text that is none counts as no token. */
    function Token(): Option<PaginationToken.Token> {
      if from.None? then None else PaginationToken.FromStr(from.value)
    }

    function Skip(): seq<nat> {
      if Token().Some? then Token().value.shortRoomIds else []
    }

    /** Neither the depth nor the filter may change on the way. */
    predicate Fits() {
      Token().Some? ==> Token().value.suggestedOnly == suggestedOnly && Token().value.maxDepth == MaxDepth()
    }
  }

  function AtMost(n: nat, max: nat): nat {
    if n < max then n else max
  }

  function QueryFor(w: World, b: Body): Query {
    Query(Request(w.rooms, w.admits, b.suggestedOnly, false, b.MaxDepth()), w.root, w.via, w.serializable)
  }

  datatype Reply = Reply(rooms: seq<Room>, nextBatch: Option<string>, table: ShortIds)

  /** The text a page hands on. */
  function NextBatch(b: Body, page: Page): Option<string> {
    if page.token.None? then None
    else Some(PaginationToken.Display(PaginationToken.Token(page.token.value, b.Limit(), b.MaxDepth(), b.suggestedOnly)))
  }

  method Respond(w: World, table: ShortIds, b: Body) returns (r: Result<Reply>)
    ensures r.Ok? <==> b.Fits() && w.root in w.rooms && w.admits(w.root, w.via)
    ensures r.Ok? ==> var page := PageOf(QueryFor(w, b), table, b.Skip(), b.Limit());
                      r.value == Reply(page.rooms, NextBatch(b, page), page.table)
  {
    var token := b.Token();
    if token.Some? && (token.value.suggestedOnly != b.suggestedOnly || token.value.maxDepth != b.MaxDepth()) {
      return Err;
    }
    var page := GetHierarchy(QueryFor(w, b), table, b.Skip(), b.Limit());
    if page.Err? {
      return Err;
    }
    r := Ok(Reply(page.value.rooms, NextBatch(b, page.value), page.value.table));
  }

  // Following the text

  /** One accepted request: the ids known when it ran, and its page. */
  datatype Turn = Turn(body: Body, before: ShortIds, page: Page)

  /** The id counter has 64 bits. */
  ghost predicate Counted(table: ShortIds) {
    table.Valid() && table.next <= PaginationToken.U64_LIMIT
  }

  ghost predicate Accepted(w: World, v: Turn) {
    && v.body.Fits() && v.body.Limit() > 0 && Counted(v.before) && Counted(v.page.table)
    && v.page == PageOf(QueryFor(w, v.body), v.before, v.body.Skip(), v.body.Limit())
  }

  /**
   A client that starts without a token, asks with any limits, depths and
   filters, and hands back each reply's text, as long as it is answered.
   */
  ghost predicate Follows(w: World, run: seq<Turn>) {
    run == [] ||
    var init, last := run[..|run| - 1], run[|run| - 1];
    && Follows(w, init)
    && Accepted(w, last)
    && if init == [] then last.body.from == None else HandedOn(init[|init| - 1], last)
  }

  ghost predicate HandedOn(v: Turn, next: Turn) {
    NextBatch(v.body, v.page).Some? && next.body.from == NextBatch(v.body, v.page) && v.page.table.Extends(next.before)
  }

  function Shown(run: seq<Turn>): seq<Room> {
    if run == [] then [] else Shown(run[..|run| - 1]) + run[|run| - 1].page.rooms
  }

  /** The same request with its token read. */
  function AsVisit(v: Turn): Visit {
    Visit(v.body.Limit(), v.before, v.body.Skip(), v.page)
  }

  function AsVisits(run: seq<Turn>): (visits: seq<Visit>)
    ensures |visits| == |run|
    ensures run != [] ==> visits[|run| - 1] == AsVisit(run[|run| - 1]) && visits[..|run| - 1] == AsVisits(run[..|run| - 1])
  {
    if run == [] then [] else AsVisits(run[..|run| - 1]) + [AsVisit(run[|run| - 1])]
  }

  /** Every id in a token a server hands out is one of its 64-bit ids. */
  ghost predicate Small(ids: seq<nat>) {
    forall id <- ids :: id < PaginationToken.U64_LIMIT
  }

  lemma IdsSmall(t: ShortIds, rooms: seq<Room>)
    requires Counted(t) && forall r <- rooms :: r in t.ids
    ensures Small(IdsOf(t, rooms))
  {
    forall id | id in IdsOf(t, rooms) ensures id < PaginationToken.U64_LIMIT {
      var i :| 0 <= i < |rooms| && IdsOf(t, rooms)[i] == id;
      assert rooms[i] in rooms;
    }
  }

  lemma PageSmall(q: Query, table: ShortIds, skip: seq<nat>, limit: nat)
    requires Small(skip) && Counted(PageOf(q, table, skip, limit).table) && PageOf(q, table, skip, limit).token.Some?
    ensures Small(PageOf(q, table, skip, limit).token.value)
  {
    var page := PageOf(q, table, skip, limit);
    IdsSmall(page.table, page.rooms);
  }

  /** The text of a reply reads back as the list it was made from, and binds depth and filter. */
  lemma ReadBack(w: World, v: Turn, next: Turn)
    requires Accepted(w, v) && Small(v.body.Skip()) && HandedOn(v, next) && next.body.Fits()
    ensures v.page.token == Some(next.body.Skip()) && Small(next.body.Skip())
    ensures QueryFor(w, next.body) == QueryFor(w, v.body)
  {
    PageSmall(QueryFor(w, v.body), v.before, v.body.Skip(), v.body.Limit());
    var t := PaginationToken.Token(v.page.token.value, v.body.Limit(), v.body.MaxDepth(), v.body.suggestedOnly);
    PaginationToken.TokenRoundTrip(t);
  }

  lemma VisitsExtend(q: Query, visits: seq<Visit>, v: Visit)
    requires HierarchyPages.Follows(q, visits) && Served(q, v)
    requires if visits == [] then v.skip == [] else Linked(visits[|visits| - 1], v)
    ensures HierarchyPages.Follows(q, visits + [v])
  {
    assert (visits + [v])[..|visits|] == visits;
  }

  /** An accepted request is a visit of the query its body stands for. */
  lemma AcceptedServed(w: World, q: Query, v: Turn)
    requires Accepted(w, v) && q == QueryFor(w, v.body)
    ensures Served(q, AsVisit(v))
  {
  }

  lemma {:induction false} FollowsVisits(w: World, run: seq<Turn>, q: Query)
    requires Follows(w, run) && run != [] && q == QueryFor(w, run[0].body)
    ensures HierarchyPages.Follows(q, AsVisits(run))
    ensures QueryFor(w, run[|run| - 1].body) == q && Small(run[|run| - 1].body.Skip())
    decreases |run|
  {
    var init, last := run[..|run| - 1], run[|run| - 1];
    if init != [] {
      FollowsVisits(w, init, q);
      ReadBack(w, init[|init| - 1], last);
    }
    AcceptedServed(w, q, last);
    VisitsExtend(q, AsVisits(init), AsVisit(last));
  }

  lemma {:induction false} ShownVisits(run: seq<Turn>)
    ensures Shown(run) == HierarchyPages.Shown(AsVisits(run))
  {
    if run != [] {
      ShownVisits(run[..|run| - 1]);
    }
  }

  /**
   Whatever limits a client asks with, following the text of the replies until
   one has no next batch shows the whole listing of the first request, in order.
   */
  lemma {:induction false} RepliesConcatenate(w: World, run: seq<Turn>)
    requires Follows(w, run) && run != [] && NextBatch(run[|run| - 1].body, run[|run| - 1].page).None?
    ensures Shown(run) == Listing(QueryFor(w, run[0].body))
  {
    FollowsVisits(w, run, QueryFor(w, run[0].body));
    ShownVisits(run);
    PagesConcatenate(QueryFor(w, run[0].body), AsVisits(run));
  }

  lemma {:induction false} RepliesEnd(w: World, run: seq<Turn>)
    requires Follows(w, run) && run != []
    ensures |run| <= |Listing(QueryFor(w, run[0].body))| + 1
  {
    FollowsVisits(w, run, QueryFor(w, run[0].body));
    PagesEnd(QueryFor(w, run[0].body), AsVisits(run));
  }

  /** A reply's token is accepted back exactly with the depth and the filter it was given for. */
  lemma TokenBinds(w: World, v: Turn, b: Body)
    requires Accepted(w, v) && Small(v.body.Skip()) && v.page.token.Some? && b.from == NextBatch(v.body, v.page)
    ensures b.Fits() <==> b.MaxDepth() == v.body.MaxDepth() && b.suggestedOnly == v.body.suggestedOnly
  {
    PageSmall(QueryFor(w, v.body), v.before, v.body.Skip(), v.body.Limit());
    var t := PaginationToken.Token(v.page.token.value, v.body.Limit(), v.body.MaxDepth(), v.body.suggestedOnly);
    PaginationToken.TokenRoundTrip(t);
  }

  // What a client is shown, in terms of the rooms and its own first request

  /** A child event of `from` that the caller may follow, and wants to. */
  ghost predicate Hop(w: World, suggestedOnly: bool, from: Room, c: ChildEvent) {
    && from in w.rooms && c in w.rooms[from] && (suggestedOnly ==> c.suggested)
    && c.room in w.rooms && w.admits(c.room, c.via)
  }

  /** `hops` lead from one room to another. */
  ghost predicate Way(w: World, suggestedOnly: bool, from: Room, hops: seq<ChildEvent>, to: Room)
    decreases |hops|
  {
    if hops == [] then from == to
    else Hop(w, suggestedOnly, from, hops[0]) && Way(w, suggestedOnly, hops[0].room, hops[1..], to)
  }

  lemma HopIsKid(w: World, b: Body, from: Room, c: ChildEvent)
    requires Hop(w, b.suggestedOnly, from, c)
    ensures var walk := QueryFor(w, b).walk;
            var e := Edge(c.room, c.via);
            e in walk.Kids(from) && walk.Accessible(e)
  {
    var walk := QueryFor(w, b).walk;
    SelectExact(walk, w.rooms[from], Edge(c.room, c.via));
    assert EdgeOf(walk, c) == Edge(c.room, c.via);
  }

  lemma KidIsHop(w: World, b: Body, from: Room, e: Edge) returns (c: ChildEvent)
    requires var walk := QueryFor(w, b).walk; e in walk.Kids(from) && walk.Accessible(e)
    ensures Hop(w, b.suggestedOnly, from, c) && c.room == e.room
  {
    var walk := QueryFor(w, b).walk;
    SelectExact(walk, w.rooms[from], e);
    c :| c in w.rooms[from] && (walk.suggestedOnly ==> c.suggested) && EdgeOf(walk, c) == e;
  }

  lemma {:induction false} WayLeads(w: World, b: Body, from: Room, hops: seq<ChildEvent>, to: Room) returns (path: seq<Edge>)
    requires Way(w, b.suggestedOnly, from, hops, to)
    ensures |path| == |hops| && Leads(QueryFor(w, b).walk, from, path, to)
    decreases |hops|
  {
    if hops == [] {
      path := [];
    } else {
      HopIsKid(w, b, from, hops[0]);
      var rest := WayLeads(w, b, hops[0].room, hops[1..], to);
      path := [Edge(hops[0].room, hops[0].via)] + rest;
      assert path[1..] == rest;
    }
  }

  lemma {:induction false} LeadsWay(w: World, b: Body, from: Room, path: seq<Edge>, to: Room) returns (hops: seq<ChildEvent>)
    requires Leads(QueryFor(w, b).walk, from, path, to)
    ensures |path| == |hops| && Way(w, b.suggestedOnly, from, hops, to)
    decreases |path|
  {
    if path == [] {
      hops := [];
    } else {
      var c := KidIsHop(w, b, from, path[0]);
      var rest := LeadsWay(w, b, path[0].room, path[1..], to);
      hops := [c] + rest;
      assert hops[1..] == rest;
    }
  }

  /** At most as many hops as were asked for, 3 if nothing was, and never more than 10. */
  predicate WithinDepth(b: Body, n: nat) {
    n <= 10 && n <= if b.maxDepth.Some? then b.maxDepth.value else 3
  }

  lemma ListingExact(w: World, b: Body, r: Room)
    ensures r in Listing(QueryFor(w, b)) <==>
              w.serializable(r) && exists hops :: WithinDepth(b, |hops|) && Way(w, b.suggestedOnly, w.root, hops, r)
  {
    var q := QueryFor(w, b);
    FilterMembers(Emission(q.walk, w.root), w.serializable, r);
    EmittedIffReachable(q.walk, w.root, r);
    if r in Emission(q.walk, w.root) {
      var path :| |path| <= q.walk.maxDepth && Leads(q.walk, w.root, path, r);
      var hops := LeadsWay(w, b, w.root, path, r);
      assert WithinDepth(b, |hops|);
    }
    if hops :| WithinDepth(b, |hops|) && Way(w, b.suggestedOnly, w.root, hops, r) {
      var path := WayLeads(w, b, w.root, hops, r);
    }
  }

  /**
   A client that follows the replies to the end is shown a room, once, exactly
   when the room can be serialized and child events it may follow lead there from
   the root within the depth of its first request, suggested ones if it asked so.
   */
  lemma {:induction false} ShownIff(w: World, run: seq<Turn>, r: Room)
    requires Follows(w, run) && run != [] && NextBatch(run[|run| - 1].body, run[|run| - 1].page).None?
    ensures Distinct(Shown(run))
    ensures var b := run[0].body;
            r in Shown(run) <==>
              w.serializable(r) && exists hops :: WithinDepth(b, |hops|) && Way(w, b.suggestedOnly, w.root, hops, r)
  {
    RepliesConcatenate(w, run);
    ListingExact(w, run[0].body, r);
    var q := QueryFor(w, run[0].body);
    EmittedOnce(q.walk, q.root);
    FilterDistinct(Emission(q.walk, q.root), q.serializable);
  }

  /**
   A reply holds at most as many rooms as asked for, 10 if nothing was, and never
   more than 100; exactly that many when it has a next batch.
   */
  lemma ReplySize(w: World, v: Turn)
    requires Accepted(w, v)
    ensures var asked := if v.body.limit.Some? then v.body.limit.value else 10;
            && |v.page.rooms| <= asked && |v.page.rooms| <= 100
            && (NextBatch(v.body, v.page).Some? ==> |v.page.rooms| == asked || |v.page.rooms| == 100)
  {
  }
}
