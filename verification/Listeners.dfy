/**
 Which configured addresses to bind, given the listeners a service manager
 already passed and what each bound socket answers for.
 */
module Listeners {
  import opened Options

  datatype Ip = V4(bits: nat) | V6(bits: nat) {
    predicate Unspecified() {
      bits == 0
    }
  }

  datatype Addr = Addr(ip: Ip, port: nat)

  /** What the host does: which binds fail, the port an unspecified one gets, and whether wildcards are IPv6 only. */
  datatype Host = Host(fails: Addr -> bool, ephemeral: Addr -> nat, ipv6Only: Addr -> bool) {
    ghost predicate Valid() {
      forall a :: ephemeral(a) > 0
    }

    function LocalAddr(a: Addr): Addr {
      if a.port == 0 then a.(port := ephemeral(a)) else a
    }

    /** The addresses a listener bound to `a` answers on; a dual-stack wildcard answers for IPv4 too. */
    function Answers(a: Addr): seq<Addr> {
      var local := LocalAddr(a);
      (if DualStack(a) then [Addr(V4(0), local.port)] else []) + [local]
    }

    predicate DualStack(a: Addr) {
      a.ip.V6? && a.ip.Unspecified() && !ipv6Only(LocalAddr(a))
    }
  }

  /** A listener on `listening` answers for `addr`: the same socket, or the wildcard of its family. */
  predicate Covers(listening: Addr, addr: Addr) {
    listening.port == addr.port &&
    (listening.ip == addr.ip || (listening.ip.Unspecified() && listening.ip.V6? == addr.ip.V6?))
  }

  predicate Covered(listening: seq<Addr>, addr: Addr) {
    exists l <- listening :: Covers(l, addr)
  }

  /** IPv6 first, otherwise in the order given. */
  function Family(addrs: seq<Addr>, v6: bool): seq<Addr> {
    if addrs == [] then []
    else if addrs[0].ip.V6? == v6 then [addrs[0]] + Family(addrs[1..], v6) else Family(addrs[1..], v6)
  }

  function Sorted(addrs: seq<Addr>): seq<Addr> {
    Family(addrs, true) + Family(addrs, false)
  }

  lemma {:induction false} FamilyExact(addrs: seq<Addr>, v6: bool)
    ensures forall a :: a in Family(addrs, v6) <==> a in addrs && a.ip.V6? == v6
    ensures multiset(Family(addrs, true)) + multiset(Family(addrs, false)) == multiset(addrs)
  {
    if addrs != [] {
      FamilyExact(addrs[1..], v6);
      assert addrs == [addrs[0]] + addrs[1..];
    }
  }

  /** One address after another: what is bound, and what is then answered for. */
  datatype Bound = Bound(listeners: seq<Addr>, listening: seq<Addr>)

  function BindOne(host: Host, defaulted: bool, b: Bound, addr: Addr): Result<Bound> {
    if Covered(b.listening, addr) then Ok(b)
    else if host.fails(addr) then if defaulted then Ok(b) else Err
    else Ok(Bound(b.listeners + [addr], b.listening + host.Answers(addr)))
  }

  function BindAll(host: Host, defaulted: bool, b: Bound, addrs: seq<Addr>): Result<Bound>
    decreases |addrs|
  {
    if addrs == [] then Ok(b)
    else
      var r := BindOne(host, defaulted, b, addrs[0]);
      if r.Err? then Err else BindAll(host, defaulted, r.value, addrs[1..])
  }

  method BindAddrs(host: Host, addrs: seq<Addr>, passed: seq<Addr>, defaulted: bool) returns (r: Result<Bound>)
    ensures r == BindAll(host, defaulted, Bound([], passed), Sorted(addrs))
  {
    var listeners, listening := [], passed;
    var sorted := Sorted(addrs);
    assert sorted[0..] == sorted;
    for i := 0 to |sorted|
      invariant BindAll(host, defaulted, Bound(listeners, listening), sorted[i..])
             == BindAll(host, defaulted, Bound([], passed), sorted)
    {
      var addr := sorted[i];
      assert sorted[i..][1..] == sorted[i + 1..] && sorted[i..][0] == addr;
      if Covered(listening, addr) {
        continue;
      }
      if host.fails(addr) {
        if defaulted {
          continue;
        }
        return Err;
      }
      listening := listening + host.Answers(addr);
      listeners := listeners + [addr];
    }
    r := Ok(Bound(listeners, listening));
  }

  // Coverage

  lemma CoveredGrows(listening: seq<Addr>, more: seq<Addr>, addr: Addr)
    requires Covered(listening, addr)
    ensures Covered(listening + more, addr)
  {
    var l :| l in listening && Covers(l, addr);
    assert l in listening + more;
  }

  lemma SelfCovers(host: Host, listening: seq<Addr>, addr: Addr)
    requires addr.port > 0
    ensures Covered(listening + host.Answers(addr), addr)
  {
    var all := listening + host.Answers(addr);
    assert all[|all| - 1] == addr;
    assert addr in all && Covers(addr, addr);
  }

  /** What is listened on: only addresses with a port, and only ever more of them. */
  lemma {:induction false} BindAllGrows(host: Host, defaulted: bool, b: Bound, addrs: seq<Addr>)
    requires BindAll(host, defaulted, b, addrs).Ok?
    ensures var b' := BindAll(host, defaulted, b, addrs).value;
            b.listening <= b'.listening && b.listeners <= b'.listeners
    decreases |addrs|
  {
    if addrs != [] {
      BindAllGrows(host, defaulted, BindOne(host, defaulted, b, addrs[0]).value, addrs[1..]);
    }
  }

  lemma {:induction false} AllCovered(host: Host, b: Bound, addrs: seq<Addr>, addr: Addr)
    requires BindAll(host, false, b, addrs).Ok? && addr in addrs && addr.port > 0
    ensures Covered(BindAll(host, false, b, addrs).value.listening, addr)
    decreases |addrs|
  {
    var b1 := BindOne(host, false, b, addrs[0]).value;
    if addr == addrs[0] {
      if !Covered(b.listening, addr) {
        SelfCovers(host, b.listening, addr);
      }
      BindAllGrows(host, false, b1, addrs[1..]);
      var b2 := BindAll(host, false, b1, addrs[1..]).value;
      CoveredGrows(b1.listening, b2.listening[|b1.listening|..], addr);
      assert b2.listening == b1.listening + b2.listening[|b1.listening|..];
    } else {
      AllCovered(host, b1, addrs[1..], addr);
    }
  }

  predicate HavePorts(listening: seq<Addr>) {
    forall l <- listening :: l.port > 0
  }

  lemma {:induction false} PortsStay(host: Host, defaulted: bool, b: Bound, addrs: seq<Addr>)
    requires host.Valid() && HavePorts(b.listening) && BindAll(host, defaulted, b, addrs).Ok?
    ensures HavePorts(BindAll(host, defaulted, b, addrs).value.listening)
    decreases |addrs|
  {
    if addrs != [] {
      PortsStay(host, defaulted, BindOne(host, defaulted, b, addrs[0]).value, addrs[1..]);
    }
  }

  /**
   When binding configured addresses succeeds, each of them is answered for,
   in whatever order they were listed; an address that leaves its port to the
   system is the one kind that never counts as answered for.
   */
  lemma ConfiguredAddressesAnswered(host: Host, addrs: seq<Addr>, passed: seq<Addr>, addr: Addr)
    requires host.Valid() && HavePorts(passed) && addr in addrs
    requires BindAll(host, false, Bound([], passed), Sorted(addrs)).Ok?
    ensures Covered(BindAll(host, false, Bound([], passed), Sorted(addrs)).value.listening, addr) <==> addr.port > 0
  {
    FamilyExact(addrs, addr.ip.V6?);
    assert addr in Sorted(addrs);
    if addr.port > 0 {
      AllCovered(host, Bound([], passed), Sorted(addrs), addr);
    } else {
      PortsStay(host, false, Bound([], passed), Sorted(addrs));
    }
  }

  // Nothing is bound twice over

  /** Each newly bound address was answered for by nothing listened on before it. */
  ghost predicate Fresh(host: Host, passed: seq<Addr>, listeners: seq<Addr>) {
    listeners != [] ==>
      var init, last := listeners[..|listeners| - 1], listeners[|listeners| - 1];
      Fresh(host, passed, init) && !Covered(Listening(host, passed, init), last)
  }

  function Listening(host: Host, passed: seq<Addr>, listeners: seq<Addr>): seq<Addr> {
    if listeners == [] then passed
    else Listening(host, passed, listeners[..|listeners| - 1]) + host.Answers(listeners[|listeners| - 1])
  }

  lemma {:induction false} BoundFresh(host: Host, defaulted: bool, passed: seq<Addr>, b: Bound, addrs: seq<Addr>)
    requires Fresh(host, passed, b.listeners) && b.listening == Listening(host, passed, b.listeners)
    requires BindAll(host, defaulted, b, addrs).Ok?
    ensures var b' := BindAll(host, defaulted, b, addrs).value;
            Fresh(host, passed, b'.listeners) && b'.listening == Listening(host, passed, b'.listeners)
    decreases |addrs|
  {
    if addrs != [] {
      var more := b.listeners + [addrs[0]];
      assert more[..|more| - 1] == b.listeners;
      BoundFresh(host, defaulted, passed, BindOne(host, defaulted, b, addrs[0]).value, addrs[1..]);
    }
  }

  /** No address is bound that a passed or earlier listener already answers for. */
  lemma NeverBindsCovered(host: Host, addrs: seq<Addr>, passed: seq<Addr>, defaulted: bool)
    requires BindAll(host, defaulted, Bound([], passed), Sorted(addrs)).Ok?
    ensures var b := BindAll(host, defaulted, Bound([], passed), Sorted(addrs)).value;
            Fresh(host, passed, b.listeners) && b.listening == Listening(host, passed, b.listeners)
  {
    BoundFresh(host, defaulted, passed, Bound([], passed), Sorted(addrs));
  }

  /** Bound addresses keep the sorted order: every IPv6 one comes before every IPv4 one. */
  ghost predicate V6First(addrs: seq<Addr>) {
    forall i, j :: 0 <= i < j < |addrs| && addrs[j].ip.V6? ==> addrs[i].ip.V6?
  }

  lemma {:induction false} BoundV6First(host: Host, defaulted: bool, b: Bound, addrs: seq<Addr>)
    requires V6First(addrs) && V6First(b.listeners) && BindAll(host, defaulted, b, addrs).Ok?
    requires (exists a <- b.listeners :: a.ip.V4?) ==> forall a <- addrs :: a.ip.V4?
    ensures V6First(BindAll(host, defaulted, b, addrs).value.listeners)
    decreases |addrs|
  {
    if addrs != [] {
      var b1 := BindOne(host, defaulted, b, addrs[0]).value;
      assert addrs[0] in addrs;
      BoundV6First(host, defaulted, b1, addrs[1..]);
    }
  }

  lemma SortedV6First(addrs: seq<Addr>)
    ensures V6First(Sorted(addrs))
  {
    FamilyExact(addrs, true);
    FamilyExact(addrs, false);
    var v6, v4 := Family(addrs, true), Family(addrs, false);
    forall i, j | 0 <= i < j < |Sorted(addrs)| && Sorted(addrs)[j].ip.V6? ensures Sorted(addrs)[i].ip.V6? {
      assert Sorted(addrs)[i] in v6;
    }
  }

  lemma {:induction false} EarlierAnswers(host: Host, passed: seq<Addr>, listeners: seq<Addr>, i: nat, addr: Addr)
    requires i < |listeners| && addr in host.Answers(listeners[i])
    ensures addr in Listening(host, passed, listeners)
  {
    if i < |listeners| - 1 {
      EarlierAnswers(host, passed, listeners[..|listeners| - 1], i, addr);
    }
  }

  lemma {:induction false} FreshAt(host: Host, passed: seq<Addr>, listeners: seq<Addr>, j: nat)
    requires Fresh(host, passed, listeners) && j < |listeners|
    ensures !Covered(Listening(host, passed, listeners[..j]), listeners[j])
  {
    var init := listeners[..|listeners| - 1];
    if j < |listeners| - 1 {
      FreshAt(host, passed, init, j);
      assert init[..j] == listeners[..j];
    }
  }

  /** Once a dual-stack IPv6 wildcard is bound, no IPv4 address is bound on its port. */
  lemma DualStackSuppressesV4(host: Host, addrs: seq<Addr>, passed: seq<Addr>, defaulted: bool, wildcard: Addr, addr: Addr)
    requires BindAll(host, defaulted, Bound([], passed), Sorted(addrs)).Ok?
    requires var b := BindAll(host, defaulted, Bound([], passed), Sorted(addrs)).value;
             wildcard in b.listeners && addr in b.listeners
    requires host.DualStack(wildcard) && addr.ip.V4?
    ensures addr.port != host.LocalAddr(wildcard).port
  {
    var b := BindAll(host, defaulted, Bound([], passed), Sorted(addrs)).value;
    NeverBindsCovered(host, addrs, passed, defaulted);
    SortedV6First(addrs);
    BoundV6First(host, defaulted, Bound([], passed), Sorted(addrs));
    var i :| 0 <= i < |b.listeners| && b.listeners[i] == wildcard;
    var j :| 0 <= j < |b.listeners| && b.listeners[j] == addr;
    assert i < j;
    var before := b.listeners[..j];
    var v4 := Addr(V4(0), host.LocalAddr(wildcard).port);
    assert before[i] == wildcard && v4 in host.Answers(wildcard);
    EarlierAnswers(host, passed, before, i, v4);
    FreshAt(host, passed, b.listeners, j);
  }

  // Which connections are accepted

  /** A socket on `l` accepts a connection to `dest`: its own address, or any of its family if it is the wildcard. */
  predicate Accepts(l: Addr, dest: Addr) {
    l.port == dest.port &&
    match (l.ip, dest.ip)
    case (V4(bits), V4(bits')) => bits == 0 || bits == bits'
    case (V6(bits), V6(bits')) => bits == 0 || bits == bits'
    case _ => false
  }

  /** A bound listener also accepts IPv4 connections when it is a dual-stack wildcard. */
  predicate Serves(host: Host, bound: Addr, dest: Addr) {
    Accepts(host.LocalAddr(bound), dest) ||
    (host.DualStack(bound) && dest.ip.V4? && dest.port == host.LocalAddr(bound).port)
  }

  /** Covering an address means accepting every connection a socket on it would accept. */
  lemma CoversExact(l: Addr, addr: Addr)
    ensures Covers(l, addr) <==> forall dest :: Accepts(addr, dest) ==> Accepts(l, dest)
  {
    assert Accepts(addr, addr);
  }

  /** What a listener answers on is what it serves. */
  lemma AnswersServe(host: Host, bound: Addr, dest: Addr)
    ensures Serves(host, bound, dest) <==> exists l <- host.Answers(bound) :: Accepts(l, dest)
  {
    var local, answers := host.LocalAddr(bound), host.Answers(bound);
    assert answers[|answers| - 1] == local && local in answers;
    if host.DualStack(bound) {
      assert answers[0] == Addr(V4(0), local.port) && answers[0] in answers;
    }
  }

  lemma {:induction false} ListenedBy(host: Host, passed: seq<Addr>, listeners: seq<Addr>, l: Addr)
    ensures l in Listening(host, passed, listeners) <==> l in passed || exists b <- listeners :: l in host.Answers(b)
  {
    if listeners != [] {
      var init := listeners[..|listeners| - 1];
      ListenedBy(host, passed, init, l);
      assert listeners == init + [listeners[|listeners| - 1]];
    }
  }

  /** Some passed or newly bound listener accepts the connection. */
  ghost predicate Served(host: Host, passed: seq<Addr>, listeners: seq<Addr>, dest: Addr) {
    (exists p <- passed :: Accepts(p, dest)) || (exists b <- listeners :: Serves(host, b, dest))
  }

  /** Whatever connection a configured address stands for is accepted once binding has succeeded. */
  lemma DestinationsServed(host: Host, addrs: seq<Addr>, passed: seq<Addr>, addr: Addr, dest: Addr)
    requires host.Valid() && HavePorts(passed) && addr in addrs && addr.port > 0 && Accepts(addr, dest)
    requires BindAll(host, false, Bound([], passed), Sorted(addrs)).Ok?
    ensures Served(host, passed, BindAll(host, false, Bound([], passed), Sorted(addrs)).value.listeners, dest)
  {
    var b := BindAll(host, false, Bound([], passed), Sorted(addrs)).value;
    ConfiguredAddressesAnswered(host, addrs, passed, addr);
    NeverBindsCovered(host, addrs, passed, false);
    var l :| l in b.listening && Covers(l, addr);
    CoversExact(l, addr);
    ListenedBy(host, passed, b.listeners, l);
    if l !in passed {
      var bound :| bound in b.listeners && l in host.Answers(bound);
      AnswersServe(host, bound, dest);
    }
  }

  // When binding fails

  lemma {:induction false} BindAllOutcome(host: Host, defaulted: bool, b: Bound, addrs: seq<Addr>)
    ensures var r := BindAll(host, defaulted, b, addrs);
            && (r.Err? ==> !defaulted && exists a <- addrs :: host.fails(a))
            && (r.Ok? ==> forall a <- r.value.listeners :: a in b.listeners || (a in addrs && !host.fails(a)))
            && (r.Ok? && !defaulted ==> forall a <- addrs :: host.fails(a) ==> Covered(r.value.listening, a))
    decreases |addrs|
  {
    if addrs != [] {
      assert addrs[0] in addrs && addrs == [addrs[0]] + addrs[1..];
      var r := BindOne(host, defaulted, b, addrs[0]);
      if r.Ok? {
        BindAllOutcome(host, defaulted, r.value, addrs[1..]);
        var all := BindAll(host, defaulted, b, addrs);
        if all.Ok? && !defaulted && host.fails(addrs[0]) {
          BindAllGrows(host, defaulted, r.value, addrs[1..]);
          var more := all.value.listening[|b.listening|..];
          CoveredGrows(b.listening, more, addrs[0]);
          assert all.value.listening == b.listening + more;
        }
      }
    }
  }

  /**
   Binding is refused only for a configured address that cannot be bound; a
   default one is passed over, and what is bound was asked for and could be.
   */
  lemma BindOutcome(host: Host, addrs: seq<Addr>, passed: seq<Addr>, defaulted: bool)
    ensures var r := BindAll(host, defaulted, Bound([], passed), Sorted(addrs));
            && (r.Err? ==> !defaulted && exists a <- addrs :: host.fails(a))
            && (r.Ok? ==> forall a <- r.value.listeners :: a in addrs && !host.fails(a))
            && (r.Ok? && !defaulted ==> forall a <- addrs :: host.fails(a) ==> Covered(r.value.listening, a))
  {
    FamilyExact(addrs, true);
    FamilyExact(addrs, false);
    forall a ensures a in Sorted(addrs) <==> a in addrs {
    }
    BindAllOutcome(host, defaulted, Bound([], passed), Sorted(addrs));
  }
}
