/**
 The DHCP server's addresses (network/lwip_dhcpd/dhcp_server_raw.c): clients are known by their
 six-byte hardware address, free addresses are searched for round the pool.
 */
module Dhcp {
  import opened Basics

  const WORD := 0x1_0000_0000

  // An IPv4 address in host order.
  type Ip = x: int | 0 <= x < 0x1_0000_0000

  type Mac = seq<int>

  // `dhcp_client_node`
  datatype Node = Node(chaddr: Mac, ipaddr: Ip)

  // What is sent: an offer or acknowledgement with an address, or a refusal.
  datatype Reply = Offer(mac: Mac, ip: Ip) | Ack(mac: Mac, ip: Ip) | Nak(mac: Mac)

  // ----- the pool -----

  // The address that is tried next.
  function Next(start: Ip, end: Ip, current: Ip): Ip {
    var ip: Ip := (current + 1) % WORD;
    if ip > end then start else ip
  }

  function Nth(start: Ip, end: Ip, current: Ip, k: nat): Ip
    decreases k
  {
    if k == 0 then current else Nth(start, end, Next(start, end, current), k - 1)
  }

  // A range from `start` to `end`, or `start` alone if the range is upside down. The last address of all
  // is not in a pool.
  ghost predicate InPool(start: Ip, end: Ip, ip: Ip) {
    start < WORD - 1 && end < WORD - 1 && (start <= ip <= end || (start > end && ip == start))
  }

  // How many tries it takes from one address of the pool to another.
  function Distance(start: Ip, end: Ip, current: Ip, ip: Ip): int {
    if current <= ip then ip - current else (end - current) + 1 + (ip - start)
  }

  lemma DistanceStep(start: Ip, end: Ip, current: Ip, ip: Ip)
    requires InPool(start, end, current) && InPool(start, end, ip)
    ensures Distance(start, end, current, ip) >= 0 && InPool(start, end, Next(start, end, current))
    ensures current != ip ==> 0 <= Distance(start, end, Next(start, end, current), ip) == Distance(start, end, current, ip) - 1
    ensures Distance(start, end, current, ip) == 0 <==> current == ip
  {
  }

  lemma {:induction false} NthReaches(start: Ip, end: Ip, current: Ip, ip: Ip)
    requires InPool(start, end, current) && InPool(start, end, ip)
    ensures Distance(start, end, current, ip) >= 0 && Nth(start, end, current, Distance(start, end, current, ip)) == ip
    decreases Distance(start, end, current, ip)
  {
    DistanceStep(start, end, current, ip);
    if current != ip {
      NthReaches(start, end, Next(start, end, current), ip);
    }
  }

  lemma {:induction false} NthInPool(start: Ip, end: Ip, current: Ip, k: nat)
    requires InPool(start, end, current)
    ensures InPool(start, end, Nth(start, end, current, k))
    decreases k
  {
    if k > 0 {
      DistanceStep(start, end, current, current);
      NthInPool(start, end, Next(start, end, current), k - 1);
    }
  }

  // An address of the pool that no client holds.
  ghost predicate Free(nodes: seq<Node>, start: Ip, end: Ip, ip: Ip) {
    InPool(start, end, ip) && Unheld(nodes, ip)
  }

  // Nobody holds the address.
  ghost predicate Unheld(nodes: seq<Node>, ip: Ip) {
    forall i :: 0 <= i < |nodes| ==> nodes[i].ipaddr != ip
  }

  // One of the first addresses that are tried is held by nobody.
  ghost predicate Within(nodes: seq<Node>, start: Ip, end: Ip, current: Ip, tries: nat) {
    exists k: nat :: k < tries && Unheld(nodes, Nth(start, end, current, k))
  }

  /** The search for an address comes to an end if and only if an address of the pool is free. */
  lemma SearchEnds(nodes: seq<Node>, start: Ip, end: Ip, current: Ip)
    requires InPool(start, end, current)
    ensures (exists tries: nat :: Within(nodes, start, end, current, tries)) <==> (exists ip :: Free(nodes, start, end, ip))
  {
    hide Unheld, InPool;
    if ip :| Free(nodes, start, end, ip) {
      NthReaches(start, end, current, ip);
      var k := Distance(start, end, current, ip);
      assert Unheld(nodes, Nth(start, end, current, k));
      assert Within(nodes, start, end, current, k + 1);
    }
    if tries: nat :| Within(nodes, start, end, current, tries) {
      var k: nat :| k < tries && Unheld(nodes, Nth(start, end, current, k));
      NthInPool(start, end, current, k);
      assert Free(nodes, start, end, Nth(start, end, current, k));
    }
  }

  lemma WithinStep(nodes: seq<Node>, start: Ip, end: Ip, current: Ip, tries: nat)
    requires tries > 0
    ensures Within(nodes, start, end, current, tries) <==> Unheld(nodes, current) || Within(nodes, start, end, Next(start, end, current), tries - 1)
  {
    hide Unheld, Next;
    if Within(nodes, start, end, current, tries) {
      var k: nat :| k < tries && Unheld(nodes, Nth(start, end, current, k));
      if k > 0 {
        assert Unheld(nodes, Nth(start, end, Next(start, end, current), k - 1));
      }
    }
    if Unheld(nodes, current) {
      assert Nth(start, end, current, 0) == current;
    }
    if Within(nodes, start, end, Next(start, end, current), tries - 1) {
      var k: nat :| k < tries - 1 && Unheld(nodes, Nth(start, end, Next(start, end, current), k));
      assert Nth(start, end, current, k + 1) == Nth(start, end, Next(start, end, current), k);
    }
  }

  lemma {:induction false} NthUp(start: Ip, end: Ip, current: Ip, k: nat)
    requires current + k <= end
    ensures Nth(start, end, current, k) == current + k
    decreases k
  {
    if k > 0 {
      NthUp(start, end, current + 1, k - 1);
    }
  }

  lemma NthNone(start: Ip, end: Ip, current: Ip)
    ensures Nth(start, end, current, 0) == current
  {
  }

  lemma {:induction false} NthAfter(start: Ip, end: Ip, current: Ip, k: nat)
    ensures Nth(start, end, current, k + 1) == Next(start, end, Nth(start, end, current, k))
    decreases k
  {
    if k > 0 {
      NthAfter(start, end, Next(start, end, current), k - 1);
    }
  }

  /** All addresses that are ever tried are in the range, if and only if the range does not reach up to the
      last address of all: behind that one comes address 0. */
  lemma TriesInRange(start: Ip, end: Ip)
    requires 0 < start <= end
    ensures (forall k: nat :: start <= Nth(start, end, start, k) <= end) <==> end < WORD - 1
  {
    if end < WORD - 1 {
      forall k: nat ensures start <= Nth(start, end, start, k) <= end {
        NthInPool(start, end, start, k);
      }
    } else {
      NthUp(start, end, start, end - start);
      NthAfter(start, end, start, end - start);
      assert Nth(start, end, start, end - start + 1) == 0;
    }
  }

  function Mod(a: nat, size: nat): nat
    requires size > 0
  {
    a % size
  }

  lemma ModRound(k: nat, size: nat)
    requires size > 0
    ensures Mod(k + size, size) == Mod(k, size)
  {
    var q, r := k / size, k % size;
    assert k == size * q + r;
    assert k + size == size * (q + 1) + r;
    DivIs(k + size, size, q + 1, r);
  }

  lemma ModSmall(k: nat, size: nat)
    requires k < size
    ensures Mod(k, size) == k
  {
  }

  lemma NextIs(start: Ip, end: Ip, current: Ip)
    requires start <= current <= end < WORD - 1
    ensures Next(start, end, current) == if current < end then current + 1 else start
  {
  }

  /** The addresses are tried one after the other, round the range. */
  lemma {:induction false} NthRound(start: Ip, end: Ip, current: Ip, k: nat)
    requires start <= current <= end < WORD - 1
    ensures Nth(start, end, current, k) == start + Mod(current - start + k, end - start + 1)
    decreases k
  {
    hide Mod, Next;
    NextIs(start, end, current);
    var size := end - start + 1;
    if k == 0 {
      ModSmall(current - start, size);
    } else if current < end {
      NthRound(start, end, current + 1, k - 1);
    } else {
      NthRound(start, end, start, k - 1);
      ModRound(k - 1, size);
    }
  }

  // The first of the addresses tried that nobody holds is the k-th.
  ghost predicate FirstUnheld(nodes: seq<Node>, start: Ip, end: Ip, current: Ip, k: nat) {
    Unheld(nodes, Nth(start, end, current, k)) && forall i: nat :: i < k ==> !Unheld(nodes, Nth(start, end, current, i))
  }

  // ----- bindings -----

  // A client without an address.
  ghost predicate Lacks(nodes: seq<Node>, mac: Mac) {
    forall i :: 0 <= i < |nodes| ==> nodes[i].chaddr != mac
  }

  // No address and no client twice.
  ghost predicate Distinct(nodes: seq<Node>) {
    forall i, j :: 0 <= i < j < |nodes| ==> nodes[i].chaddr != nodes[j].chaddr && nodes[i].ipaddr != nodes[j].ipaddr
  }

  ghost predicate Holds(nodes: seq<Node>, mac: Mac, ip: Ip) {
    Node(mac, ip) in nodes
  }

  // A reply gives a client the address that it holds.
  ghost predicate Right(nodes: seq<Node>, r: Reply) {
    r.Nak? || Holds(nodes, r.mac, r.ip)
  }

  /** Over a whole run, a client is given one address only, and no two clients are given the same. */
  ghost predicate Consistent(replies: seq<Reply>) {
    forall i, j :: 0 <= i < |replies| && 0 <= j < |replies| && !replies[i].Nak? && !replies[j].Nak? ==>
      (replies[i].mac == replies[j].mac <==> replies[i].ip == replies[j].ip)
  }

  lemma RightConsistent(nodes: seq<Node>, replies: seq<Reply>)
    requires Distinct(nodes) && forall i :: 0 <= i < |replies| ==> Right(nodes, replies[i])
    ensures Consistent(replies)
  {
    forall i, j | 0 <= i < |replies| && 0 <= j < |replies| && !replies[i].Nak? && !replies[j].Nak?
      ensures replies[i].mac == replies[j].mac <==> replies[i].ip == replies[j].ip
    {
      assert Right(nodes, replies[i]) && Right(nodes, replies[j]);
      var a :| 0 <= a < |nodes| && nodes[a] == Node(replies[i].mac, replies[i].ip);
      var b :| 0 <= b < |nodes| && nodes[b] == Node(replies[j].mac, replies[j].ip);
      assert a < b || b < a || a == b;
    }
  }

  lemma NoneWithin(nodes: seq<Node>, start: Ip, end: Ip, current: Ip)
    ensures !Within(nodes, start, end, current, 0)
  {
  }

  lemma FoundLacks(nodes: seq<Node>, mac: Mac, r: Option<Node>)
    requires r.Some? ==> r.value in nodes && r.value.chaddr == mac
    requires r.None? ==> Lacks(nodes, mac)
    ensures r.Some? <==> !Lacks(nodes, mac)
  {
  }

  class Server {
    var nodes: seq<Node>
    var start: Ip
    var end: Ip
    var current: Ip
    ghost var replies: seq<Reply>     // all that has been sent

    ghost predicate Valid()
      reads this
    {
      Distinct(nodes) && forall i :: 0 <= i < |replies| ==> Right(nodes, replies[i])
    }

    // `dhcp_server_start` for a new interface
    constructor (start: Ip, end: Ip)
      ensures Valid() && nodes == [] && replies == [] && this.start == start && this.end == end && current == start
    {
      nodes, replies := [], [];
      this.start, this.end, current := start, end, start;
    }

    // `dhcp_server_start` for an interface that is served already: clients keep their addresses
    method Reset(start: Ip, end: Ip)
      requires Valid()
      modifies this
      ensures Valid() && nodes == old(nodes) && replies == old(replies) && this.start == start && this.end == end && current == start
    {
      this.start, this.end, current := start, end, start;
    }

    method FindByMac(mac: Mac) returns (i: nat)
      ensures i <= |nodes| && (i < |nodes| ==> nodes[i].chaddr == mac) && (i == |nodes| <==> Lacks(nodes, mac))
    {
      i := 0;
      while i < |nodes| && nodes[i].chaddr != mac
        invariant i <= |nodes| && forall x :: 0 <= x < i ==> nodes[x].chaddr != mac
      {
        i := i + 1;
      }
    }

    method FindByIp(ip: Ip) returns (i: nat)
      ensures i <= |nodes| && (i < |nodes| ==> nodes[i].ipaddr == ip) && (i == |nodes| <==> Unheld(nodes, ip))
    {
      i := 0;
      while i < |nodes| && nodes[i].ipaddr != ip
        invariant i <= |nodes| && forall x :: 0 <= x < i ==> nodes[x].ipaddr != ip
      {
        i := i + 1;
      }
    }

    /** `dhcp_client_find`: the client's own node, whatever address is asked for. */
    method Find(mac: Mac, requested: Option<Ip>) returns (r: Option<Node>)
      requires Valid()
      ensures r.Some? ==> r.value in nodes && r.value.chaddr == mac
      ensures r.None? ==> Lacks(nodes, mac)
    {
      hide Lacks;
      var i := FindByMac(mac);
      if i < |nodes| {
        return Some(nodes[i]);
      }
      if requested.Some? {
        var k := FindByIp(requested.value);
        if k < |nodes| && nodes[k].chaddr == mac {
          return Some(nodes[k]);
        }
      }
      return None;
    }

    /** The search round the pool, followed for so many tries. It starts where the last one has stopped, and
        ends at an address that nobody holds, in the pool if it started there. */
    method Search(tries: nat) returns (found: bool)
      requires Valid()
      modifies this`current
      ensures found <==> Within(nodes, start, end, old(current), tries)
      ensures found ==> Unheld(nodes, current)
      ensures found ==> exists k: nat :: k < tries && FirstUnheld(nodes, start, end, old(current), k) && current == Nth(start, end, old(current), k)
      ensures InPool(start, end, old(current)) ==> InPool(start, end, current)
    {
      hide Next, Distance, InPool, Nth, Unheld, Within;
      NthNone(start, end, current);
      var left: nat := tries;
      NoneWithin(nodes, start, end, current);
      while left > 0
        invariant left <= tries
        invariant Within(nodes, start, end, old(current), tries) <==> Within(nodes, start, end, current, left)
        invariant current == Nth(start, end, old(current), tries - left)
        invariant forall i: nat :: i < tries - left ==> !Unheld(nodes, Nth(start, end, old(current), i))
        invariant InPool(start, end, old(current)) ==> InPool(start, end, current)
      {
        WithinStep(nodes, start, end, current, left);
        var i := FindByIp(current);
        if i == |nodes| {
          assert FirstUnheld(nodes, start, end, old(current), tries - left);
          return true;
        }
        NthAfter(start, end, old(current), tries - left);
        if InPool(start, end, current) {
          DistanceStep(start, end, current, current);
        }
        current := Next(start, end, current);
        left := left - 1;
      }
      NoneWithin(nodes, start, end, current);
      return false;
    }

    /** `dhcp_client_alloc`: a client that holds an address keeps it; otherwise it gets one that nobody holds, of
        the pool. The search is followed for so many tries; it goes on if all those addresses are held. */
    method Alloc(mac: Mac, requested: Option<Ip>, memory: bool, tries: nat) returns (r: Option<Node>, searching: bool)
      requires Valid()
      modifies this`nodes, this`current
      ensures Valid() && (r.Some? ==> r.value in nodes && r.value.chaddr == mac)
      ensures searching <==> Lacks(old(nodes), mac) && !Within(old(nodes), start, end, old(current), tries)
      ensures !Lacks(old(nodes), mac) ==> r.Some? && nodes == old(nodes)
      ensures Lacks(old(nodes), mac) ==>
                if memory && !searching then
                  && r.Some? && nodes == [r.value] + old(nodes) && Unheld(old(nodes), r.value.ipaddr)
                  && (InPool(start, end, old(current)) ==> InPool(start, end, r.value.ipaddr))
                  && exists k: nat :: FirstUnheld(old(nodes), start, end, old(current), k) && r.value.ipaddr == Nth(start, end, old(current), k)
                else r.None? && nodes == old(nodes)
      ensures InPool(start, end, old(current)) ==> InPool(start, end, current)
    {
      hide InPool, Within, Lacks;
      r := Find(mac, requested);
      FoundLacks(nodes, mac, r);
      if r.Some? {
        return r, false;
      }
      var found := Search(tries);
      if !found {
        return None, true;
      }
      if !memory {
        return None, false;
      }
      var node := Node(mac, current);
      ghost var before := nodes;
      nodes := [node] + nodes;
      KeepRight(before, node, replies);
      return Some(node), false;
    }

    /** DISCOVER */
    method Discover(mac: Mac, requested: Option<Ip>, memory: bool, tries: nat) returns (r: Option<Reply>, searching: bool)
      requires Valid()
      modifies this
      ensures Valid() && start == old(start) && end == old(end)
      ensures forall m, ip :: Holds(old(nodes), m, ip) ==> Holds(nodes, m, ip)
      ensures searching <==> Lacks(old(nodes), mac) && !Within(old(nodes), start, end, old(current), tries)
      ensures r.Some? ==> r.value.Offer? && r.value.mac == mac && Holds(nodes, mac, r.value.ip) && replies == old(replies) + [r.value]
      ensures r.Some? ==> Holds(old(nodes), mac, r.value.ip) ||
                          (Unheld(old(nodes), r.value.ip) && (InPool(start, end, old(current)) ==> InPool(start, end, r.value.ip)))
      ensures r.None? ==> (searching || !memory) && replies == old(replies) && nodes == old(nodes)
      ensures forall ip :: Holds(old(nodes), mac, ip) ==> r == Some(Offer(mac, ip))
      ensures InPool(start, end, old(current)) ==> InPool(start, end, current)
    {
      hide InPool, Within;
      ghost var before := nodes;
      var node;
      node, searching := Alloc(mac, requested, memory, tries);
      if node.None? {
        return None, searching;
      }
      OneHolding(before, mac);
      OneHolding(nodes, mac);
      replies := replies + [Offer(mac, node.value.ipaddr)];
      return Some(Offer(mac, node.value.ipaddr)), searching;
    }

    /** REQUEST */
    method Request(mac: Mac, requested: Option<Ip>) returns (r: Reply)
      requires Valid()
      modifies this`replies
      ensures Valid() && replies == old(replies) + [r]
      ensures forall ip :: Holds(nodes, mac, ip) <==> r == Ack(mac, ip)
      ensures r == Nak(mac) <==> Lacks(nodes, mac)
    {
      var node := Find(mac, requested);
      OneHolding(nodes, mac);
      r := if node.None? then Nak(mac) else Ack(mac, node.value.ipaddr);
      replies := replies + [r];
    }

    /** At any point of any run the replies are consistent. */
    lemma RunConsistent()
      requires Valid()
      ensures Consistent(replies)
    {
      RightConsistent(nodes, replies);
    }
  }

  // A client holds at most one address.
  lemma OneHolding(nodes: seq<Node>, mac: Mac)
    requires Distinct(nodes)
    ensures forall a, b :: Holds(nodes, mac, a) && Holds(nodes, mac, b) ==> a == b
    ensures Lacks(nodes, mac) <==> forall ip :: !Holds(nodes, mac, ip)
  {
    if !Lacks(nodes, mac) {
      var i :| 0 <= i < |nodes| && nodes[i].chaddr == mac;
      assert nodes[i] == Node(mac, nodes[i].ipaddr);
      assert Holds(nodes, mac, nodes[i].ipaddr);
    }
    forall a, b | Holds(nodes, mac, a) && Holds(nodes, mac, b) ensures a == b {
      var i :| 0 <= i < |nodes| && nodes[i] == Node(mac, a);
      var j :| 0 <= j < |nodes| && nodes[j] == Node(mac, b);
      assert i < j || j < i || i == j;
    }
  }

  lemma KeepRight(nodes: seq<Node>, node: Node, replies: seq<Reply>)
    requires Distinct(nodes) && Lacks(nodes, node.chaddr) && Unheld(nodes, node.ipaddr)
    requires forall i :: 0 <= i < |replies| ==> Right(nodes, replies[i])
    ensures Distinct([node] + nodes) && forall i :: 0 <= i < |replies| ==> Right([node] + nodes, replies[i])
  {
  }
}
