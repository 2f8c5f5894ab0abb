/** The per-address limit: which addresses share a count, and the counts. */
module Addresses {
  import opened Options
  import opened Bytes

  datatype IpAddr = V4(octets: Data) | V6(octets: Data) {
    predicate Valid() {
      |octets| == if V4? then 4 else 16
    }
  }

  function Zeros(n: nat): Data {
    seq(n, _ => 0)
  }

  /** The IPv4-mapped form, section 2.5.5.2 of RFC 4291. */
  predicate IsMapped(a: IpAddr)
    requires a.Valid()
  {
    a.V6? && a.octets[..10] == Zeros(10) && a.octets[10] == 0xFF && a.octets[11] == 0xFF
  }

  function ToCanonical(a: IpAddr): (c: IpAddr)
    requires a.Valid()
    ensures c.Valid()
  {
    if IsMapped(a) then V4(a.octets[12..]) else a
  }

  /** IPv4 unchanged; IPv6 with everything below its /64 zeroed. */
  function ToGroup(a: IpAddr): (g: IpAddr)
    requires a.Valid()
    ensures g.Valid()
  {
    var c := ToCanonical(a);
    if c.V4? then c else V6(c.octets[..8] + Zeros(8))
  }

  /** A group is its own group, so groups partition the addresses. */
  lemma GroupIdempotent(a: IpAddr)
    requires a.Valid()
    ensures ToGroup(ToGroup(a)) == ToGroup(a)
  {
    var g := ToGroup(a);
    if g.V6? {
      assert g.octets[10] == 0;
      assert g.octets[..8] == ToCanonical(a).octets[..8];
    }
  }

  /** Two addresses share a count exactly when they are one IPv4 address or lie in one IPv6 /64. */
  lemma SameGroup(a: IpAddr, b: IpAddr)
    requires a.Valid() && b.Valid()
    ensures ToGroup(a) == ToGroup(b) <==>
              var c, d := ToCanonical(a), ToCanonical(b);
              (c.V4? && c == d) || (c.V6? && d.V6? && c.octets[..8] == d.octets[..8])
  {
    var c, d := ToCanonical(a), ToCanonical(b);
    if c.V6? && d.V6? {
      assert ToGroup(a).octets[..8] == c.octets[..8];
      assert ToGroup(b).octets[..8] == d.octets[..8];
    }
  }

  /** A mapped IPv4 peer counts as the IPv4 address it is, never with another one. */
  lemma MappedGroupsAsItself(v4: Data)
    requires |v4| == 4
    ensures ToGroup(V6(Zeros(10) + [0xFF, 0xFF] + v4)) == V4(v4)
  {
    var a := V6(Zeros(10) + [0xFF, 0xFF] + v4);
    assert a.octets[..10] == Zeros(10) && a.octets[12..] == v4;
  }

  /** The count table as the server holds it; the outstanding slots are ghost. */
  class AddressTable {
    var table: map<IpAddr, nat>
    ghost var slots: multiset<IpAddr>

    /** Each group's count is its outstanding slots, and no group is kept at zero. */
    ghost predicate Valid()
      reads this
    {
      && (forall g <- table :: g.Valid() && table[g] == slots[g] > 0)
      && (forall g <- slots :: g in table)
    }

    constructor ()
      ensures Valid() && table == map[] && slots == multiset{}
    {
      table, slots := map[], multiset{};
    }

    method TakeSlot(address: IpAddr, max: nat) returns (granted: bool, slot: Option<IpAddr>)
      requires Valid() && address.Valid()
      modifies this
      ensures Valid()
      ensures granted <==> max == 0 || old(slots)[ToGroup(address)] < max
      ensures slot == if granted && max > 0 then Some(ToGroup(address)) else None
      ensures slots == if slot.Some? then old(slots) + multiset{slot.value} else old(slots)
      ensures forall g :: max > 0 && old(slots)[g] <= max ==> slots[g] <= max
    {
      if max == 0 {
        return true, None;
      }
      var group := ToGroup(address);
      var count := if group in table then table[group] else 0;
      if count >= max {
        return false, None;
      }
      table := table[group := count + 1];
      slots := slots + multiset{group};
      return true, Some(group);
    }

    method DropSlot(group: IpAddr)
      requires Valid() && group in slots
      modifies this
      ensures Valid() && slots == old(slots) - multiset{group}
    {
      if group in table && table[group] > 1 {
        table := table[group := table[group] - 1];
      } else {
        table := table - {group};
      }
      slots := slots - multiset{group};
    }

    method CountFor(address: IpAddr) returns (count: nat)
      requires Valid() && address.Valid()
      ensures count == slots[ToGroup(address)]
    {
      var group := ToGroup(address);
      count := if group in table then table[group] else 0;
    }
  }
}
