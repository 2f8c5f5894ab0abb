/**
 The order of the hierarchy walk: level by level, and within a level in the
 order of the parents and of each parent's child events.
 */
module HierarchyLevels {
  import opened Sequences
  import opened Hierarchy

  /** The rooms a list of edges leads to for the first time, in its order. */
  function Discover(q: Request, edges: seq<Edge>, seen: set<Room>): seq<Room> {
    if edges == [] then []
    else if edges[0].room in seen || !q.Accessible(edges[0]) then Discover(q, edges[1..], seen)
    else [edges[0].room] + Discover(q, edges[1..], seen + {edges[0].room})
  }

  /** The edges out of some rooms, one room after another. */
  function EdgesOf(q: Request, rooms: seq<Room>): seq<Edge> {
    if rooms == [] then [] else q.Kids(rooms[0]) + EdgesOf(q, rooms[1..])
  }

  /** `n` levels, of which `edges` lead to the first. */
  function Levels(q: Request, edges: seq<Edge>, seen: set<Room>, n: nat): seq<Room>
    decreases n
  {
    if n == 0 then []
    else
      var level := Discover(q, edges, seen);
      level + Levels(q, EdgesOf(q, level), seen + Members(level), n - 1)
  }

  function Members(rooms: seq<Room>): set<Room> {
    set r | r in rooms
  }

  // Child events in order

  function EdgesFor(q: Request, events: seq<ChildEvent>): seq<Edge> {
    seq(|events|, i requires 0 <= i < |events| => EdgeOf(q, events[i]))
  }

  /** The children followed are those of the chosen child events, in their order. */
  lemma {:induction false} SelectInOrder(q: Request, events: seq<ChildEvent>)
    ensures q.Select(events) == EdgesFor(q, Filter(events, (c: ChildEvent) => q.suggestedOnly ==> c.suggested))
  {
    if events != [] {
      SelectInOrder(q, events[1..]);
    }
  }

  // Edges to rooms already seen do not matter

  function Unseen(edges: seq<Edge>, visited: set<Room>): seq<Edge> {
    if edges == [] then []
    else (if edges[0].room in visited then [] else [edges[0]]) + Unseen(edges[1..], visited)
  }

  lemma {:induction false} DiscoverConcat(q: Request, a: seq<Edge>, b: seq<Edge>, seen: set<Room>)
    ensures var first := Discover(q, a, seen);
            Discover(q, a + b, seen) == first + Discover(q, b, seen + Members(first))
  {
    if a == [] {
      assert a + b == b && seen + Members([]) == seen;
    } else {
      assert (a + b)[0] == a[0] && (a + b)[1..] == a[1..] + b;
      if a[0].room in seen || !q.Accessible(a[0]) {
        DiscoverConcat(q, a[1..], b, seen);
      } else {
        var r := a[0].room;
        DiscoverConcat(q, a[1..], b, seen + {r});
        var rest := Discover(q, a[1..], seen + {r});
        assert seen + Members([r] + rest) == seen + {r} + Members(rest);
      }
    }
  }

  lemma {:induction false} DiscoverUnseen(q: Request, edges: seq<Edge>, visited: set<Room>, seen: set<Room>)
    requires visited <= seen
    ensures Discover(q, Unseen(edges, visited), seen) == Discover(q, edges, seen)
  {
    if edges != [] {
      var rest := Unseen(edges[1..], visited);
      assert edges[0].room !in visited ==> ([edges[0]] + rest)[1..] == rest;
      assert [] + rest == rest;
      if edges[0].room in seen || !q.Accessible(edges[0]) {
        DiscoverUnseen(q, edges[1..], visited, seen);
      } else {
        DiscoverUnseen(q, edges[1..], visited, seen + {edges[0].room});
      }
    }
  }

  lemma DiscoverMiddle(q: Request, a: seq<Edge>, b: seq<Edge>, c: seq<Edge>, visited: set<Room>, seen: set<Room>)
    requires visited <= seen
    ensures Discover(q, a + Unseen(b, visited) + c, seen) == Discover(q, a + (b + c), seen)
  {
    var first := Discover(q, a, seen);
    var seen' := seen + Members(first);
    Reassociate(a, Unseen(b, visited), c);
    DiscoverConcat(q, a, Unseen(b, visited) + c, seen);
    DiscoverConcat(q, a, b + c, seen);
    DiscoverConcat(q, Unseen(b, visited), c, seen');
    DiscoverConcat(q, b, c, seen');
    DiscoverUnseen(q, b, visited, seen');
  }

  lemma LevelsMiddle(q: Request, a: seq<Edge>, b: seq<Edge>, c: seq<Edge>, visited: set<Room>, seen: set<Room>, n: nat)
    requires visited <= seen
    ensures Levels(q, a + Unseen(b, visited) + c, seen, n) == Levels(q, a + (b + c), seen, n)
  {
    DiscoverMiddle(q, a, b, c, visited, seen);
  }

  // The queue

  function Items(edges: seq<Edge>, depth: nat): seq<Item> {
    seq(|edges|, i requires 0 <= i < |edges| => Item(edges[i], depth))
  }

  lemma {:induction false} EnqueueItems(edges: seq<Edge>, visited: set<Room>, depth: nat)
    ensures Enqueue(edges, visited, depth) == Items(Unseen(edges, visited), depth)
  {
    if edges != [] {
      EnqueueItems(edges[1..], visited, depth);
    }
  }

  lemma ItemsConcat(a: seq<Edge>, b: seq<Edge>, depth: nat)
    ensures Items(a + b, depth) == Items(a, depth) + Items(b, depth)
  {
  }

  /** One level at the front of the queue, what is known of the next one behind it. */
  function Queue(here: seq<Edge>, next: seq<Edge>, d: nat): seq<Item> {
    Items(here, d) + Items(next, d + 1)
  }

  lemma QueueHead(here: seq<Edge>, next: seq<Edge>, d: nat)
    requires here != []
    ensures Queue(here, next, d) != [] && Queue(here, next, d)[0] == Item(here[0], d)
    ensures Queue(here, next, d)[1..] == Queue(here[1..], next, d)
  {
  }

  lemma QueuePush(q: Request, here: seq<Edge>, next: seq<Edge>, d: nat, e: Edge, visited: set<Room>)
    requires d < q.maxDepth
    ensures Queue(here, next, d) + Pushed(q, Item(e, d), visited) == Queue(here, next + Unseen(q.Kids(e.room), visited), d)
  {
    var more := Unseen(q.Kids(e.room), visited);
    EnqueueItems(q.Kids(e.room), visited, d + 1);
    ItemsConcat(next, more, d + 1);
    Reassociate(Items(here, d), Items(next, d + 1), Items(more, d + 1));
  }

  lemma LevelsEmpty(q: Request, seen: set<Room>, n: nat)
    ensures Levels(q, [], seen, n) == []
    decreases n
  {
    if n > 0 {
      assert Discover(q, [], seen) == [] && EdgesOf(q, []) == [];
      LevelsEmpty(q, seen + Members([]), n - 1);
    }
  }

  /** What the walk goes on to emit from such a queue. */
  function Ahead(q: Request, here: seq<Edge>, next: seq<Edge>, visited: set<Room>, n: nat): seq<Room> {
    var level := Discover(q, here, visited);
    level + Levels(q, next + EdgesOf(q, level), visited + Members(level), n)
  }

  lemma AheadSkip(q: Request, here: seq<Edge>, next: seq<Edge>, visited: set<Room>, n: nat)
    requires here != [] && (here[0].room in visited || !q.Accessible(here[0]))
    ensures Ahead(q, here, next, visited, n) == Ahead(q, here[1..], next, visited, n)
  {
  }

  lemma AheadVisit(q: Request, here: seq<Edge>, next: seq<Edge>, visited: set<Room>, n: nat)
    requires here != [] && here[0].room !in visited && q.Accessible(here[0])
    ensures var r := here[0].room;
            var visited' := visited + {r};
            && Ahead(q, here, next, visited, n) == [r] + Ahead(q, here[1..], next + Unseen(q.Kids(r), visited'), visited', n)
            && (n == 0 ==> Ahead(q, here, next, visited, n) == [r] + Ahead(q, here[1..], next, visited', n))
  {
    var r := here[0].room;
    var visited' := visited + {r};
    var rest := Discover(q, here[1..], visited');
    var level := [r] + rest;
    assert level[1..] == rest && level[0] == r;
    assert visited + Members(level) == visited' + Members(rest);
    LevelsMiddle(q, next, q.Kids(r), EdgesOf(q, rest), visited', visited' + Members(rest), n);
    Reassociate([r], rest, Levels(q, next + EdgesOf(q, level), visited + Members(level), n));
  }

  lemma {:induction false} WalkIsAhead(q: Request, here: seq<Edge>, next: seq<Edge>, visited: set<Room>, d: nat, walk: seq<Room>)
    requires d <= q.maxDepth && (d == q.maxDepth ==> next == [])
    requires walk == Walk(q, Queue(here, next, d), visited)
    ensures walk == Ahead(q, here, next, visited, q.maxDepth - d)
    decreases q.rooms.Keys - visited, |here| + |next|, q.maxDepth - d + 1
  {
    var n := q.maxDepth - d;
    if here == [] {
      assert visited + Members([]) == visited && next + EdgesOf(q, []) == next;
      assert Ahead(q, here, next, visited, n) == Levels(q, next, visited, n);
      if next == [] {
        assert Queue(here, next, d) == [];
        LevelsEmpty(q, visited, n);
      } else {
        assert Queue(here, next, d) == Queue(next, [], d + 1);
        WalkIsAhead(q, next, [], visited, d + 1, walk);
        var level := Discover(q, next, visited);
        assert [] + EdgesOf(q, level) == EdgesOf(q, level);
      }
    } else {
      QueueHead(here, next, d);
      if here[0].room in visited || !q.Accessible(here[0]) {
        AheadSkip(q, here, next, visited, n);
        WalkIsAhead(q, here[1..], next, visited, d, walk);
      } else {
        WalkVisits(q, here, next, visited, d, walk);
      }
    }
  }

  lemma WalkStep(q: Request, queue: seq<Item>, visited: set<Room>, queue': seq<Item>)
    requires queue != [] && queue[0].edge.room !in visited && q.Accessible(queue[0].edge)
    requires queue' == queue[1..] + Pushed(q, queue[0], visited + {queue[0].edge.room})
    ensures Walk(q, queue, visited) == [queue[0].edge.room] + Walk(q, queue', visited + {queue[0].edge.room})
  {
  }

  /** The queue once its head is visited, and what is then known of the next level. */
  lemma Visited(q: Request, here: seq<Edge>, next: seq<Edge>, d: nat, visited: set<Room>) returns (next': seq<Edge>)
    requires d <= q.maxDepth && (d == q.maxDepth ==> next == []) && here != []
    ensures next' == if d < q.maxDepth then next + Unseen(q.Kids(here[0].room), visited) else next
    ensures Queue(here[1..], next, d) + Pushed(q, Item(here[0], d), visited) == Queue(here[1..], next', d)
  {
    next' := next;
    if d < q.maxDepth {
      next' := next + Unseen(q.Kids(here[0].room), visited);
      QueuePush(q, here[1..], next, d, here[0], visited);
    }
  }

  lemma {:induction false} WalkVisits(q: Request, here: seq<Edge>, next: seq<Edge>, visited: set<Room>, d: nat, walk: seq<Room>)
    requires d <= q.maxDepth && (d == q.maxDepth ==> next == [])
    requires here != [] && here[0].room !in visited && q.Accessible(here[0])
    requires walk == Walk(q, Queue(here, next, d), visited)
    ensures walk == Ahead(q, here, next, visited, q.maxDepth - d)
    decreases q.rooms.Keys - visited, |here| + |next|, 0
  {
    var visited' := visited + {here[0].room};
    QueueHead(here, next, d);
    var next' := Visited(q, here, next, d, visited');
    var queue' := Queue(here[1..], next', d);
    WalkStep(q, Queue(here, next, d), visited, queue');
    WalkIsAhead(q, here[1..], next', visited', d, Walk(q, queue', visited'));
    AheadVisit(q, here, next, visited, q.maxDepth - d);
  }

  lemma FirstLevel(q: Request, edges: seq<Edge>, seen: set<Room>, n: nat)
    requires n > 0
    ensures Ahead(q, Unseen(edges, seen), [], seen, n - 1) == Levels(q, edges, seen, n)
  {
    DiscoverUnseen(q, edges, seen, seen);
    var level := Discover(q, edges, seen);
    assert [] + EdgesOf(q, level) == EdgesOf(q, level);
  }

  lemma SeedIsQueue(q: Request, root: Room)
    requires q.maxDepth > 0
    ensures Seed(q, root) == Queue(Unseen(q.Kids(root), {root}), [], 1)
  {
    EnqueueItems(q.Kids(root), {root}, 1);
    var items := Items(Unseen(q.Kids(root), {root}), 1);
    assert Items([], 2) == [] && items + [] == items;
  }

  lemma QueueLevels(q: Request, edges: seq<Edge>, seen: set<Room>, here: seq<Edge>, walk: seq<Room>)
    requires q.maxDepth > 0 && here == Unseen(edges, seen) && walk == Walk(q, Queue(here, [], 1), seen)
    ensures walk == Levels(q, edges, seen, q.maxDepth)
  {
    WalkIsAhead(q, here, [], seen, 1, walk);
    FirstLevel(q, edges, seen, q.maxDepth);
  }

  /** The queue emits the root, then level after level, each in the order its edges are met. */
  lemma EmissionIsLevels(q: Request, root: Room)
    ensures Emission(q, root) == [root] + Levels(q, q.Kids(root), {root}, q.maxDepth)
  {
    var edges := q.Kids(root);
    if q.maxDepth > 0 {
      SeedIsQueue(q, root);
      var here := Unseen(edges, {root});
      QueueLevels(q, edges, {root}, here, Walk(q, Queue(here, [], 1), {root}));
    }
  }
}
