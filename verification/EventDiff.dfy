/** Comparing two sorted lists of event ids by walking both at once. */
module EventDiff {
  import opened Bytes

  type EventId = Data

  /** Strictly ascending, as ids are compared: byte by byte. */
  ghost predicate Ascending(ids: seq<EventId>) {
    forall i, j :: 0 <= i < j < |ids| ==> LexLess(ids[i], ids[j])
  }

  ghost function Set(ids: seq<EventId>): set<EventId> {
    set id | id in ids
  }

  /** `=` or `+added/-missing`. */
  datatype Comparison = Same | Differs(added: nat, missing: nat)

  lemma TailAscending(ids: seq<EventId>)
    requires Ascending(ids) && ids != []
    ensures Ascending(ids[1..])
    ensures Set(ids) == {ids[0]} + Set(ids[1..]) && ids[0] !in Set(ids[1..])
  {
    assert ids == [ids[0]] + ids[1..];
    forall i | 0 <= i < |ids[1..]| ensures ids[1..][i] != ids[0] {
      LexTotal(ids[0], ids[0]);
      assert LexLess(ids[0], ids[i + 1]);
    }
  }

  /** An id below the head of an ascending list is not in it. */
  lemma BelowHead(id: EventId, ids: seq<EventId>)
    requires Ascending(ids) && (ids == [] || LexLess(id, ids[0]))
    ensures id !in ids
  {
    if id in ids {
      var i :| 0 <= i < |ids| && ids[i] == id;
      LexTotal(id, id);
      if i > 0 {
        LexTransitive(id, ids[0], ids[i]);
      }
    }
  }

  lemma {:induction false} AscendingSize(ids: seq<EventId>)
    requires Ascending(ids)
    ensures |Set(ids)| == |ids|
  {
    if ids != [] {
      TailAscending(ids);
      AscendingSize(ids[1..]);
    }
  }

  /** How many ids of `a` are not in `b`. */
  ghost function Extra(a: seq<EventId>, b: seq<EventId>): nat {
    |Set(a) - Set(b)|
  }

  /** The smaller head counts; equal heads cancel. */
  lemma StepLess(a: seq<EventId>, b: seq<EventId>)
    requires Ascending(a) && Ascending(b) && a != [] && (b == [] || LexLess(a[0], b[0]))
    ensures Ascending(a[1..])
    ensures Extra(a, b) == 1 + Extra(a[1..], b)
    ensures Extra(b, a) == Extra(b, a[1..])
  {
    TailAscending(a);
    BelowHead(a[0], b);
    assert Set(a) - Set(b) == {a[0]} + (Set(a[1..]) - Set(b));
    assert Set(b) - Set(a) == Set(b) - Set(a[1..]);
  }

  lemma StepEqual(a: seq<EventId>, b: seq<EventId>)
    requires Ascending(a) && Ascending(b) && a != [] && b != [] && a[0] == b[0]
    ensures Ascending(a[1..]) && Ascending(b[1..])
    ensures Extra(a, b) == Extra(a[1..], b[1..]) && Extra(b, a) == Extra(b[1..], a[1..])
  {
    TailAscending(a);
    TailAscending(b);
    assert Set(a) - Set(b) == Set(a[1..]) - Set(b[1..]);
    assert Set(b) - Set(a) == Set(b[1..]) - Set(a[1..]);
  }

  /** Once one list is used up the other one is all extra. */
  lemma OneUsedUp(a: seq<EventId>, b: seq<EventId>)
    requires Ascending(a) && Ascending(b) && (a == [] || b == [])
    ensures Extra(a, b) == |a| && Extra(b, a) == |b|
  {
    AscendingSize(a);
    AscendingSize(b);
    assert a == [] ==> Set(b) - Set(a) == Set(b) && Set(a) - Set(b) == {};
    assert b == [] ==> Set(a) - Set(b) == Set(a) && Set(b) - Set(a) == {};
  }

  lemma NothingExtra(a: seq<EventId>, b: seq<EventId>)
    requires Ascending(a) && Ascending(b)
    ensures Extra(a, b) == 0 && Extra(b, a) == 0 <==> a == b
  {
    assert Set(a) - Set(a) == {};
    if Extra(a, b) == 0 && Extra(b, a) == 0 {
      assert Set(a) - Set(b) == {} && Set(b) - Set(a) == {};
      SameSet(a, b, Set(a));
    }
  }

  lemma HeadsEqual(a: seq<EventId>, b: seq<EventId>)
    requires Ascending(a) && Ascending(b) && a != [] && b != [] && a[0] in b && b[0] in a
    ensures a[0] == b[0]
  {
    LexTotal(a[0], b[0]);
  }

  lemma TailMembers(ids: seq<EventId>, members: set<EventId>)
    requires Ascending(ids) && ids != [] && members == Set(ids)
    ensures Ascending(ids[1..]) && members - {ids[0]} == Set(ids[1..])
  {
    TailAscending(ids);
  }

  /** An ascending list is determined by its members. */
  lemma {:induction false} SameSet(a: seq<EventId>, b: seq<EventId>, members: set<EventId>)
    requires Ascending(a) && Ascending(b) && members == Set(a) && members == Set(b)
    ensures a == b
    decreases |a|
  {
    assert a != [] ==> a[0] in members;
    assert b != [] ==> b[0] in members;
    if a != [] {
      HeadsEqual(a, b);
      TailMembers(a, members);
      TailMembers(b, members);
      SameSet(a[1..], b[1..], members - {a[0]});
      assert a == [a[0]] + a[1..] && b == [b[0]] + b[1..];
    }
  }

  method SortedDifference(remote: seq<EventId>, local: seq<EventId>) returns (r: Comparison)
    requires Ascending(remote) && Ascending(local)
    ensures var added, missing := |Set(remote) - Set(local)|, |Set(local) - Set(remote)|;
            r == if added == 0 && missing == 0 then Same else Differs(added, missing)
    ensures r == Same <==> remote == local
  {
    var added, missing: nat := 0, 0;
    var a, b := remote, local;
    while a != [] && b != []
      invariant Ascending(a) && Ascending(b)
      invariant added + Extra(a, b) == Extra(remote, local)
      invariant missing + Extra(b, a) == Extra(local, remote)
      decreases |a| + |b|
    {
      LexTotal(a[0], b[0]);
      if LexLess(a[0], b[0]) {
        StepLess(a, b);
        added := added + 1;
        a := a[1..];
      } else if LexLess(b[0], a[0]) {
        StepLess(b, a);
        missing := missing + 1;
        b := b[1..];
      } else {
        StepEqual(a, b);
        a, b := a[1..], b[1..];
      }
    }
    OneUsedUp(a, b);
    added := added + |a|;
    missing := missing + |b|;
    r := if added == 0 && missing == 0 then Same else Differs(added, missing);
    NothingExtra(remote, local);
  }
}
