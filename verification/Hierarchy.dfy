/**
 The space hierarchy walk: a depth-bounded traversal of rooms and their
 children. The queue is first-in first-out, so the order is breadth-first.
 */
module Hierarchy {
  import opened Sequences

  type Room = nat

  type Via = seq<nat>

  datatype ChildEvent = ChildEvent(room: Room, via: Via, suggested: bool)

  datatype Edge = Edge(room: Room, via: Via)

  /**
   A request over a fixed room graph: the child events of every room the server
   can learn about, which (room, via) pairs it may see, and the request's flags.
   */
  datatype Request = Request(
    rooms: map<Room, seq<ChildEvent>>,
    admits: (Room, Via) -> bool,
    suggestedOnly: bool,
    bypass: bool,
    maxDepth: nat)
  {
    /** Access errors, unknown rooms and refusals all drop the room the same way. */
    predicate Accessible(e: Edge) {
      e.room in rooms && admits(e.room, e.via)
    }

    function Select(events: seq<ChildEvent>): (edges: seq<Edge>) {
      if events == [] then []
      else
        var e := events[0];
        (if e.suggested || !suggestedOnly then [Edge(e.room, if bypass then [] else e.via)] else []) + Select(events[1..])
    }

    function Kids(r: Room): seq<Edge> {
      if r in rooms then Select(rooms[r]) else []
    }

    /** The rooms of `near` and those one accessible edge away. */
    ghost function Expand(near: set<Room>): set<Room> {
      near + set r, e | r in near && e in Kids(r) && Accessible(e) :: e.room
    }

    /** The rooms at the end of at most `n` accessible edges from `near`. */
    ghost function Spread(near: set<Room>, n: nat): set<Room>
      decreases n
    {
      if n == 0 then near else Spread(Expand(near), n - 1)
    }
  }

  /** The edge a child event stands for; callers that bypass visibility never ask other servers. */
  function EdgeOf(q: Request, event: ChildEvent): Edge {
    Edge(event.room, if q.bypass then [] else event.via)
  }

  lemma {:induction false} SelectExact(q: Request, events: seq<ChildEvent>, e: Edge)
    ensures e in q.Select(events) <==> exists c <- events :: (q.suggestedOnly ==> c.suggested) && EdgeOf(q, c) == e
  {
    if events != [] {
      SelectExact(q, events[1..], e);
      assert events == [events[0]] + events[1..];
    }
  }

  datatype Item = Item(edge: Edge, depth: nat)

  function Enqueue(edges: seq<Edge>, visited: set<Room>, depth: nat): (queue: seq<Item>)
    ensures forall i :: 0 <= i < |queue| ==>
              queue[i].depth == depth && queue[i].edge in edges && queue[i].edge.room !in visited
    ensures forall e <- edges :: e.room !in visited ==> Item(e, depth) in queue
  {
    if edges == [] then []
    else (if edges[0].room in visited then [] else [Item(edges[0], depth)]) + Enqueue(edges[1..], visited, depth)
  }

  /** What one turn appends for a room just visited. */
  function Pushed(q: Request, item: Item, visited: set<Room>): seq<Item> {
    if item.depth < q.maxDepth then Enqueue(q.Kids(item.edge.room), visited, item.depth + 1) else []
  }

  /** The rooms the walk goes on to emit from a queue and a visited set. */
  function Walk(q: Request, queue: seq<Item>, visited: set<Room>): seq<Room>
    decreases q.rooms.Keys - visited, |queue|
  {
    if queue == [] then []
    else
      var item := queue[0];
      if item.edge.room in visited || !q.Accessible(item.edge) then Walk(q, queue[1..], visited)
      else
        var visited' := visited + {item.edge.room};
        [item.edge.room] + Walk(q, queue[1..] + Pushed(q, item, visited'), visited')
  }

  /** The root's children other than itself, unless the depth bound forbids them. */
  function Seed(q: Request, root: Room): seq<Item> {
    if q.maxDepth > 0 then Enqueue(q.Kids(root), {root}, 1) else []
  }

  /** The whole traversal, root first. */
  function Emission(q: Request, root: Room): seq<Room> {
    [root] + Walk(q, Seed(q, root), {root})
  }

  method Traverse(q: Request, root: Room) returns (emitted: seq<Room>)
    ensures emitted == Emission(q, root)
  {
    var queue := Seed(q, root);
    var visited := {root};
    emitted := [root];
    while queue != []
      invariant emitted + Walk(q, queue, visited) == Emission(q, root)
      decreases q.rooms.Keys - visited, |queue|
    {
      var item := queue[0];
      queue := queue[1..];
      if item.edge.room in visited || !q.Accessible(item.edge) {
        continue;
      }
      visited := visited + {item.edge.room};
      queue := queue + Pushed(q, item, visited);
      emitted := emitted + [item.edge.room];
    }
  }

  // No room twice

  lemma {:induction false} WalkDistinct(q: Request, queue: seq<Item>, visited: set<Room>)
    ensures Distinct(Walk(q, queue, visited))
    ensures forall r <- Walk(q, queue, visited) :: r !in visited
    decreases q.rooms.Keys - visited, |queue|
  {
    if queue != [] {
      var item := queue[0];
      if item.edge.room in visited || !q.Accessible(item.edge) {
        WalkDistinct(q, queue[1..], visited);
      } else {
        var visited' := visited + {item.edge.room};
        WalkDistinct(q, queue[1..] + Pushed(q, item, visited'), visited');
      }
    }
  }

  lemma {:induction false} EmittedOnce(q: Request, root: Room)
    ensures Distinct(Emission(q, root))
  {
    WalkDistinct(q, Seed(q, root), {root});
  }

  // Exactly the reachable rooms, nearest first

  lemma {:induction false} SpreadGrows(q: Request, near: set<Room>, n: nat)
    ensures near <= q.Spread(near, n)
    decreases n
  {
    if n > 0 {
      SpreadGrows(q, q.Expand(near), n - 1);
    }
  }

  lemma {:induction false} SpreadFixpoint(q: Request, near: set<Room>, n: nat)
    requires q.Expand(near) == near
    ensures q.Spread(near, n) == near
    decreases n
  {
    if n > 0 {
      SpreadFixpoint(q, near, n - 1);
    }
  }

  /** An accessible item for `r` waits at depth `d`. */
  ghost predicate Pending(q: Request, queue: seq<Item>, r: Room, d: nat) {
    exists item <- queue :: item.depth == d && item.edge.room == r && q.Accessible(item.edge)
  }

  /** Depths in the queue never decrease and span at most two levels. */
  ghost predicate TwoLevels(queue: seq<Item>, d: nat) {
    && (forall i :: 0 <= i < |queue| ==> d <= queue[i].depth <= d + 1)
    && (forall i, j :: 0 <= i < j < |queue| ==> queue[i].depth <= queue[j].depth)
  }

  /** The item's edge leaves a room of the level before it. */
  ghost predicate Sourced(q: Request, near: set<Room>, here: set<Room>, item: Item, d: nat) {
    && item.depth <= q.maxDepth
    && exists r :: r in (if item.depth == d then near else here) && item.edge in q.Kids(r)
  }

  ghost predicate AllSourced(q: Request, near: set<Room>, here: set<Room>, queue: seq<Item>, d: nat) {
    forall item <- queue :: Sourced(q, near, here, item, d)
  }

  /** Rooms of level `d` not yet visited still wait in the queue. */
  ghost predicate LevelPending(q: Request, here: set<Room>, queue: seq<Item>, visited: set<Room>, d: nat) {
    forall r <- here :: r in visited || Pending(q, queue, r, d)
  }

  /** The children of `r` are visited or wait on level `d`. */
  ghost predicate KidsPending(q: Request, queue: seq<Item>, visited: set<Room>, r: Room, d: nat) {
    forall e <- q.Kids(r) :: q.Accessible(e) ==> e.room in visited || Pending(q, queue, e.room, d)
  }

  /**
   The walk is on level `d`: `near` are the rooms fewer than `d` edges away,
   all visited, and `here` those at most `d` away, visited or waiting.
   */
  ghost predicate Inv(q: Request, near: set<Room>, here: set<Room>, queue: seq<Item>, visited: set<Room>, d: nat) {
    && 1 <= d <= q.maxDepth
    && TwoLevels(queue, d)
    && AllSourced(q, near, here, queue, d)
    && near <= visited <= here
    && LevelPending(q, here, queue, visited, d)
    && (d < q.maxDepth ==> forall r <- visited :: r in near || KidsPending(q, queue, visited, r, d + 1))
  }

  /** What waits is kept when the queue loses a head that is of no use to it. */
  lemma PendingKept(q: Request, queue: seq<Item>, more: seq<Item>, r: Room, d: nat)
    requires queue != [] && Pending(q, queue, r, d)
    requires queue[0].edge.room == r ==> !q.Accessible(queue[0].edge)
    ensures Pending(q, queue[1..] + more, r, d)
  {
    var i :| i in queue && i.depth == d && i.edge.room == r && q.Accessible(i.edge);
    assert queue == [queue[0]] + queue[1..];
    assert i in queue[1..] + more;
  }

  lemma LevelKept(q: Request, here: set<Room>, queue: seq<Item>, more: seq<Item>, visited: set<Room>, visited': set<Room>, d: nat)
    requires queue != [] && LevelPending(q, here, queue, visited, d) && visited <= visited'
    requires queue[0].edge.room in visited' || !q.Accessible(queue[0].edge)
    ensures LevelPending(q, here, queue[1..] + more, visited', d)
  {
    forall r | r in here ensures r in visited' || Pending(q, queue[1..] + more, r, d) {
      if r !in visited' {
        PendingKept(q, queue, more, r, d);
      }
    }
  }

  lemma KidsKept(q: Request, queue: seq<Item>, more: seq<Item>, visited: set<Room>, visited': set<Room>, r: Room, d: nat)
    requires queue != [] && KidsPending(q, queue, visited, r, d) && visited <= visited'
    requires queue[0].edge.room in visited' || !q.Accessible(queue[0].edge)
    ensures KidsPending(q, queue[1..] + more, visited', r, d)
  {
    forall e | e in q.Kids(r) && q.Accessible(e)
      ensures e.room in visited' || Pending(q, queue[1..] + more, e.room, d)
    {
      if e.room !in visited' {
        PendingKept(q, queue, more, e.room, d);
      }
    }
  }

  lemma InvDrop(q: Request, near: set<Room>, here: set<Room>, queue: seq<Item>, visited: set<Room>, d: nat)
    requires Inv(q, near, here, queue, visited, d) && queue != []
    requires queue[0].edge.room in visited || !q.Accessible(queue[0].edge)
    ensures Inv(q, near, here, queue[1..], visited, d)
  {
    assert queue[1..] + [] == queue[1..];
    LevelKept(q, here, queue, [], visited, visited, d);
    if d < q.maxDepth {
      forall r | r in visited ensures r in near || KidsPending(q, queue[1..], visited, r, d + 1) {
        if r !in near {
          KidsKept(q, queue, [], visited, visited, r, d + 1);
        }
      }
    }
  }

  lemma ItemReached(q: Request, near: set<Room>, item: Item, d: nat)
    requires Sourced(q, near, q.Expand(near), item, d) && q.Accessible(item.edge) && item.depth == d
    ensures item.edge.room in q.Expand(near)
  {
  }

  lemma PushedSourced(q: Request, near: set<Room>, here: set<Room>, item: Item, visited: set<Room>)
    requires item.edge.room in here
    ensures AllSourced(q, near, here, Pushed(q, item, visited), item.depth)
  {
  }

  lemma PushedPending(q: Request, queue: seq<Item>, item: Item, visited: set<Room>)
    requires item.depth < q.maxDepth
    ensures KidsPending(q, queue + Pushed(q, item, visited), visited, item.edge.room, item.depth + 1)
  {
    var all := queue + Pushed(q, item, visited);
    forall e | e in q.Kids(item.edge.room) && q.Accessible(e)
      ensures e.room in visited || Pending(q, all, e.room, item.depth + 1)
    {
      if e.room !in visited {
        assert Item(e, item.depth + 1) in all;
      }
    }
  }

  lemma LevelsJoin(queue: seq<Item>, pushed: seq<Item>, d: nat)
    requires queue != [] && TwoLevels(queue, d)
    requires forall i :: 0 <= i < |pushed| ==> pushed[i].depth == d + 1
    ensures TwoLevels(queue[1..] + pushed, d)
  {
  }

  lemma InvVisit(q: Request, near: set<Room>, queue: seq<Item>, visited: set<Room>, d: nat)
    requires Inv(q, near, q.Expand(near), queue, visited, d) && queue != [] && queue[0].depth == d
    requires queue[0].edge.room !in visited && q.Accessible(queue[0].edge)
    ensures var visited' := visited + {queue[0].edge.room};
            Inv(q, near, q.Expand(near), queue[1..] + Pushed(q, queue[0], visited'), visited', d)
  {
    var here := q.Expand(near);
    var item := queue[0];
    var visited' := visited + {item.edge.room};
    var pushed := Pushed(q, item, visited');
    assert Sourced(q, near, here, item, d);
    ItemReached(q, near, item, d);
    PushedSourced(q, near, here, item, visited');
    LevelsJoin(queue, pushed, d);
    LevelKept(q, here, queue, pushed, visited, visited', d);
    if d < q.maxDepth {
      PushedPending(q, queue[1..], item, visited');
      forall r | r in visited' ensures r in near || KidsPending(q, queue[1..] + pushed, visited', r, d + 1) {
        if r in visited && r !in near {
          KidsKept(q, queue, pushed, visited, visited', r, d + 1);
        }
      }
    }
  }

  /** Once nothing of level `d` waits, the level has been visited whole. */
  lemma LevelDone(q: Request, here: set<Room>, queue: seq<Item>, visited: set<Room>, d: nat)
    requires LevelPending(q, here, queue, visited, d) && visited <= here
    requires TwoLevels(queue, d) && (queue == [] || queue[0].depth == d + 1)
    ensures visited == here
  {
    forall r | r in here ensures r in visited {
      assert forall i <- queue :: i.depth != d;
    }
  }

  lemma InvNextLevel(q: Request, near: set<Room>, queue: seq<Item>, visited: set<Room>, d: nat)
    requires Inv(q, near, q.Expand(near), queue, visited, d) && d < q.maxDepth
    requires queue == [] || queue[0].depth == d + 1
    ensures visited == q.Expand(near)
    ensures Inv(q, q.Expand(near), q.Expand(q.Expand(near)), queue, visited, d + 1)
  {
    var here := q.Expand(near);
    LevelDone(q, here, queue, visited, d);
    assert forall i <- queue :: i.depth == d + 1;
    forall v | v in q.Expand(here) ensures v in visited || Pending(q, queue, v, d + 1) {
      if v !in visited {
        var u, e :| u in here && e in q.Kids(u) && q.Accessible(e) && e.room == v;
        assert KidsPending(q, queue, visited, u, d + 1);
      }
    }
  }

  lemma LastLevelDone(q: Request, near: set<Room>, visited: set<Room>, d: nat)
    requires Inv(q, near, q.Expand(near), [], visited, d)
    ensures visited == q.Spread(near, q.maxDepth - d + 1)
  {
    var here := q.Expand(near);
    LevelDone(q, here, [], visited, d);
    if d < q.maxDepth {
      InvNextLevel(q, near, [], visited, d);
      LevelDone(q, q.Expand(here), [], visited, d + 1);
      SpreadFixpoint(q, here, q.maxDepth - d);
    }
  }

  ghost function Rooms(s: seq<Room>): set<Room> {
    set r | r in s
  }

  lemma RoomsCons(r: Room, s: seq<Room>)
    ensures Rooms([r] + s) == {r} + Rooms(s)
  {
  }

  lemma {:induction false} WalkComplete(q: Request, near: set<Room>, queue: seq<Item>, visited: set<Room>, d: nat)
    requires Inv(q, near, q.Expand(near), queue, visited, d)
    ensures visited + Rooms(Walk(q, queue, visited)) == q.Spread(near, q.maxDepth - d + 1)
    decreases q.rooms.Keys - visited, |queue|, q.maxDepth - d
  {
    if queue == [] {
      LastLevelDone(q, near, visited, d);
    } else if queue[0].depth == d + 1 {
      assert Sourced(q, near, q.Expand(near), queue[0], d);
      InvNextLevel(q, near, queue, visited, d);
      WalkComplete(q, q.Expand(near), queue, visited, d + 1);
    } else if queue[0].edge.room in visited || !q.Accessible(queue[0].edge) {
      InvDrop(q, near, q.Expand(near), queue, visited, d);
      WalkComplete(q, near, queue[1..], visited, d);
    } else {
      var r := queue[0].edge.room;
      var visited' := visited + {r};
      var rest := queue[1..] + Pushed(q, queue[0], visited');
      InvVisit(q, near, queue, visited, d);
      WalkComplete(q, near, rest, visited', d);
      RoomsCons(r, Walk(q, rest, visited'));
    }
  }

  lemma InvSeed(q: Request, root: Room)
    requires q.maxDepth > 0
    ensures Inv(q, {root}, q.Expand({root}), Seed(q, root), {root}, 1)
  {
    var queue := Seed(q, root);
    forall v | v in q.Expand({root}) ensures v == root || Pending(q, queue, v, 1) {
      if v != root {
        var e :| e in q.Kids(root) && q.Accessible(e) && e.room == v;
        assert Item(e, 1) in queue;
      }
    }
  }

  /** The walk emits exactly the rooms within `maxDepth` accessible edges of the root. */
  lemma EmissionIsReach(q: Request, root: Room)
    ensures Rooms(Emission(q, root)) == q.Spread({root}, q.maxDepth)
  {
    var walk := Walk(q, Seed(q, root), {root});
    if q.maxDepth > 0 {
      InvSeed(q, root);
      WalkComplete(q, {root}, Seed(q, root), {root}, 1);
    } else {
      assert walk == [];
    }
    RoomsCons(root, walk);
  }

  /** `path` leads from one room to another over child edges the caller may follow. */
  ghost predicate Leads(q: Request, from: Room, path: seq<Edge>, to: Room)
    decreases |path|
  {
    if path == [] then from == to
    else path[0] in q.Kids(from) && q.Accessible(path[0]) && Leads(q, path[0].room, path[1..], to)
  }

  lemma EdgeExpands(q: Request, near: set<Room>, from: Room, e: Edge)
    requires from in near && e in q.Kids(from) && q.Accessible(e)
    ensures e.room in q.Expand(near)
  {
  }

  lemma {:induction false} PathSpreads(q: Request, near: set<Room>, from: Room, path: seq<Edge>, to: Room, n: nat, far: set<Room>)
    requires from in near && Leads(q, from, path, to) && |path| <= n
    requires far == q.Spread(near, n)
    ensures to in far
    decreases n
  {
    if path == [] {
      SpreadGrows(q, near, n);
    } else {
      EdgeExpands(q, near, from, path[0]);
      PathSpreads(q, q.Expand(near), path[0].room, path[1..], to, n - 1, far);
    }
  }

  lemma {:induction false} SpreadPath(q: Request, near: set<Room>, to: Room, n: nat) returns (from: Room, path: seq<Edge>)
    requires to in q.Spread(near, n)
    ensures from in near && |path| <= n && Leads(q, from, path, to)
    decreases n
  {
    if n == 0 {
      return to, [];
    }
    from, path := SpreadPath(q, q.Expand(near), to, n - 1);
    if from !in near {
      var r, e :| r in near && e in q.Kids(r) && q.Accessible(e) && e.room == from;
      assert ([e] + path)[1..] == path;
      from, path := r, [e] + path;
    }
  }

  /**
   A room is emitted exactly when some path of at most `maxDepth` edges leads
   to it from the root, whatever cycles and other parents there are.
   */
  lemma {:induction false} EmittedIffReachable(q: Request, root: Room, r: Room)
    ensures r in Emission(q, root) <==> exists path :: |path| <= q.maxDepth && Leads(q, root, path, r)
  {
    EmissionIsReach(q, root);
    assert r in Emission(q, root) <==> r in Rooms(Emission(q, root));
    if r in q.Spread({root}, q.maxDepth) {
      var from, path := SpreadPath(q, {root}, r, q.maxDepth);
    }
    forall path | |path| <= q.maxDepth && Leads(q, root, path, r) ensures r in q.Spread({root}, q.maxDepth) {
      PathSpreads(q, {root}, root, path, r, q.maxDepth, q.Spread({root}, q.maxDepth));
    }
  }

  /** `s` lists rooms nearest first: as many edges as reach a later one reach an earlier one. */
  ghost predicate NearestFirst(q: Request, near: set<Room>, s: seq<Room>) {
    forall i, j, n: nat :: 0 <= i < j < |s| && s[j] in q.Spread(near, n) ==> s[i] in q.Spread(near, n)
  }

  lemma NearestBeyond(q: Request, near: set<Room>, s: seq<Room>)
    requires NearestFirst(q, q.Expand(near), s)
    requires forall v <- s :: v !in near
    ensures NearestFirst(q, near, s)
  {
    forall i, j, n: nat | 0 <= i < j < |s| && s[j] in q.Spread(near, n) ensures s[i] in q.Spread(near, n) {
      assert n != 0 by { assert s[j] in s; }
      assert q.Spread(near, n) == q.Spread(q.Expand(near), n - 1);
    }
  }

  lemma SpreadGrowsNext(q: Request, near: set<Room>, far: set<Room>, n: nat)
    requires n > 0 && q.Spread(near, n) == q.Spread(far, n - 1)
    ensures far <= q.Spread(near, n)
  {
    SpreadGrows(q, far, n - 1);
  }

  lemma NearestHead(q: Request, near: set<Room>, r: Room, s: seq<Room>)
    requires NearestFirst(q, near, s)
    requires r in near || (r in q.Expand(near) && forall v <- s :: v !in near)
    ensures NearestFirst(q, near, [r] + s)
  {
    var t := [r] + s;
    forall i, j, n: nat | 0 <= i < j < |t| && t[j] in q.Spread(near, n) ensures t[i] in q.Spread(near, n) {
      var v := s[j - 1];
      assert t[j] == v && v in s;
      if i == 0 {
        if r in near {
          SpreadGrows(q, near, n);
        } else {
          SpreadGrowsNext(q, near, q.Expand(near), n);
        }
      } else {
        var u := s[i - 1];
        assert t[i] == u && u in q.Spread(near, n);
      }
    }
  }

  lemma {:induction false} WalkNearestFirst(q: Request, near: set<Room>, queue: seq<Item>, visited: set<Room>, d: nat)
    requires Inv(q, near, q.Expand(near), queue, visited, d)
    ensures NearestFirst(q, near, Walk(q, queue, visited))
    decreases q.rooms.Keys - visited, |queue|, q.maxDepth - d
  {
    WalkDistinct(q, queue, visited);
    if queue == [] {
    } else if queue[0].depth == d + 1 {
      assert Sourced(q, near, q.Expand(near), queue[0], d);
      InvNextLevel(q, near, queue, visited, d);
      WalkNearestFirst(q, q.Expand(near), queue, visited, d + 1);
      NearestBeyond(q, near, Walk(q, queue, visited));
    } else if queue[0].edge.room in visited || !q.Accessible(queue[0].edge) {
      InvDrop(q, near, q.Expand(near), queue, visited, d);
      WalkNearestFirst(q, near, queue[1..], visited, d);
    } else {
      var r := queue[0].edge.room;
      var visited' := visited + {r};
      var rest := queue[1..] + Pushed(q, queue[0], visited');
      InvVisit(q, near, queue, visited, d);
      WalkNearestFirst(q, near, rest, visited', d);
      WalkDistinct(q, rest, visited');
      NearestHead(q, near, r, Walk(q, rest, visited'));
    }
  }

  /** The order is breadth-first, not the depth-first order the route documents. */
  lemma {:induction false} EmissionNearestFirst(q: Request, root: Room)
    ensures NearestFirst(q, {root}, Emission(q, root))
  {
    if q.maxDepth > 0 {
      InvSeed(q, root);
      WalkNearestFirst(q, {root}, Seed(q, root), {root}, 1);
    }
    NearestHead(q, {root}, root, Walk(q, Seed(q, root), {root}));
  }
}
