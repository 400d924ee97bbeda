/** The pool loop of selectIp (src/dhcp/DhcpServer.cpp:1128-1151): it steps in host
    order but compares in wire order. */
module PoolScan {
  import opened Net

  const LIMITED_BROADCAST: Ip := Ip(255, 255, 255, 255)

  lemma {:induction false} HostOrderInjective(x: Ip, y: Ip)
    requires HostOrder(x) == HostOrder(y)
    ensures x == y
  {
    assert x.a == y.a;
    assert x.b == y.b;
  }

  /** Numeric order compares the octets from the first on, wire order from the last on. */
  lemma {:induction false} OrdersCompareOctets(x: Ip, y: Ip)
    ensures HostOrder(x) < HostOrder(y) <==>
      x.a < y.a || (x.a == y.a && (x.b < y.b || (x.b == y.b && (x.c < y.c || (x.c == y.c && x.d < y.d)))))
    ensures WireOrder(x) < WireOrder(y) <==>
      x.d < y.d || (x.d == y.d && (x.c < y.c || (x.c == y.c && (x.b < y.b || (x.b == y.b && x.a < y.a)))))
    ensures WireOrder(x) == HostOrder(Ip(x.d, x.c, x.b, x.a))
  {
  }

  lemma {:induction false} HostOrderRange(ip: Ip)
    ensures 0 <= HostOrder(ip) <= 0xFFFF_FFFF && (HostOrder(ip) == 0xFFFF_FFFF <==> ip == LIMITED_BROADCAST)
  {
  }

  lemma {:induction false} NextIsLater(ip: Ip, end: Ip)
    requires end != LIMITED_BROADCAST && WireOrder(ip) <= WireOrder(end)
    ensures ip != LIMITED_BROADCAST && HostOrder(ip) < HostOrder(Next(ip)) == HostOrder(ip) + 1 <= 0xFFFF_FFFF
  {
  }

  /** Steps from one address to another, around the whole address space if need be. */
  function Distance(ip: Ip, target: Ip): (n: nat)
    ensures n <= 0xFFFF_FFFF && (n == 0 <==> HostOrder(ip) == HostOrder(target))
  {
    if HostOrder(ip) <= HostOrder(target) then HostOrder(target) - HostOrder(ip)
    else HostOrder(target) - HostOrder(ip) + 0x1_0000_0000
  }

  lemma {:induction false} NextIsCloser(ip: Ip, target: Ip)
    requires ip != target
    ensures Distance(Next(ip), target) == Distance(ip, target) - 1
  {
    hide HostOrder, Next;
    if HostOrder(ip) == HostOrder(target) { HostOrderInjective(ip, target); }
    HostOrderRange(ip);
    HostOrderRange(target);
  }

  /** The addresses the loop looks at from `ip` on when none of them ends it: it
      steps until the wire-order value passes that of the end. */
  function Visits(ip: Ip, end: Ip): (r: seq<Ip>)
    requires end != LIMITED_BROADCAST
    decreases 0xFFFF_FFFF - HostOrder(ip)
  {
    if WireOrder(ip) > WireOrder(end) then []
    else
      NextIsLater(ip, end);
      [ip] + Visits(Next(ip), end)
  }

  /** They are consecutive, and none is past the end in wire order. */
  lemma {:induction false} VisitsAt(ip: Ip, end: Ip, i: nat)
    requires end != LIMITED_BROADCAST && i < |Visits(ip, end)|
    ensures var x := Visits(ip, end)[i]; HostOrder(x) == HostOrder(ip) + i && WireOrder(x) <= WireOrder(end)
    decreases i
  {
    if i > 0 {
      NextIsLater(ip, end);
      VisitsAt(Next(ip), end, i - 1);
    }
  }

  /** Where the loop stops: the first address whose wire order is past the end. */
  lemma {:induction false} VisitsStop(ip: Ip, end: Ip, w: Ip)
    requires end != LIMITED_BROADCAST && HostOrder(w) == HostOrder(ip) + |Visits(ip, end)|
    ensures WireOrder(w) > WireOrder(end)
    decreases 0xFFFF_FFFF - HostOrder(ip)
  {
    if WireOrder(ip) > WireOrder(end) {
      HostOrderInjective(w, ip);
    } else {
      NextIsLater(ip, end);
      VisitsStop(Next(ip), end, w);
    }
  }

  lemma {:induction false} VisitsPass(ip: Ip, end: Ip, w: Ip)
    requires end != LIMITED_BROADCAST && HostOrder(ip) <= HostOrder(w) < HostOrder(ip) + |Visits(ip, end)|
    ensures WireOrder(w) <= WireOrder(end)
  {
    var i := HostOrder(w) - HostOrder(ip);
    VisitsAt(ip, end, i);
    HostOrderInjective(w, Visits(ip, end)[i]);
  }

  /** Both ends share three octets and the last octet of the end is below 255. */
  predicate OneSubnet(start: Ip, end: Ip) {
    start.a == end.a && start.b == end.b && start.c == end.c && end.d < 255
  }

  function PoolSize(start: Ip, end: Ip): int {
    HostOrder(end) - HostOrder(start) + 1
  }

  lemma {:induction false} OneSubnetIsVisited(start: Ip, end: Ip, ip: Ip)
    requires OneSubnet(start, end) && start.d <= ip.d <= end.d + 1 && OneSubnet(ip, end)
    ensures |Visits(ip, end)| == end.d + 1 - ip.d
    decreases end.d + 1 - ip.d
  {
    if ip.d <= end.d { OneSubnetIsVisited(start, end, Next(ip)); }
  }

  /** The first three octets as a number. */
  function Network(ip: Ip): int { ip.a * 0x1_0000 + ip.b * 0x100 + ip.c }

  lemma {:induction false} NetworkInjective(x: Ip, y: Ip)
    requires Network(x) == Network(y)
    ensures x.a == y.a && x.b == y.b && x.c == y.c
  {
    assert x.a == y.a;
  }

  lemma {:induction false} EarlierSubnet(start: Ip, end: Ip)
    requires HostOrder(start) <= HostOrder(end) && end.d < 255 && !OneSubnet(start, end)
    ensures HostOrder(start) <= HostOrder(start.(d := 255)) < HostOrder(end)
    ensures WireOrder(start.(d := 255)) > WireOrder(end)
  {
    var p, q := Network(start), Network(end);
    assert p * 0x100 + start.d == HostOrder(start) && q * 0x100 + end.d == HostOrder(end);
    assert HostOrder(start.(d := 255)) == p * 0x100 + 255;
    if p == q { NetworkInjective(start, end); }
  }

  lemma {:induction false} OnlyOneSubnetIsVisited(start: Ip, end: Ip)
    requires end != LIMITED_BROADCAST && HostOrder(start) <= HostOrder(end)
    requires |Visits(start, end)| == PoolSize(start, end)
    ensures OneSubnet(start, end)
  {
    hide Visits;
    VisitsStop(start, end, Next(end));
    if end.d < 255 && !OneSubnet(start, end) {
      EarlierSubnet(start, end);
      VisitsPass(start, end, start.(d := 255));
    }
  }

  /** A pool across two networks: the loop looks at none of its 157 addresses. */
  lemma {:induction false} PoolAcrossNetworksIsMissed()
    ensures var start, end := Ip(10, 0, 0, 200), Ip(10, 0, 1, 100);
      PoolSize(start, end) == 157 && Visits(start, end) == []
  {
  }

  ghost predicate InPool(start: Ip, end: Ip, ip: Ip) {
    HostOrder(start) <= HostOrder(ip) <= HostOrder(end)
  }

  lemma {:induction false} VisitsBetween(start: Ip, end: Ip, ip: Ip)
    requires end != LIMITED_BROADCAST
    ensures ip in Visits(start, end) <==>
      HostOrder(start) <= HostOrder(ip) < HostOrder(start) + |Visits(start, end)|
  {
    hide Visits, WireOrder, HostOrder;
    var vs := Visits(start, end);
    if i :| 0 <= i < |vs| && vs[i] == ip { VisitsAt(start, end, i); }
    if HostOrder(start) <= HostOrder(ip) < HostOrder(start) + |vs| {
      var i := HostOrder(ip) - HostOrder(start);
      VisitsAt(start, end, i);
      HostOrderInjective(ip, vs[i]);
    }
  }

  lemma {:induction false} VisitsPastEnd(start: Ip, end: Ip) returns (ip: Ip)
    requires end != LIMITED_BROADCAST && HostOrder(start) <= HostOrder(end)
    requires |Visits(start, end)| > PoolSize(start, end)
    ensures ip in Visits(start, end) && !InPool(start, end, ip)
  {
    hide Visits, WireOrder, HostOrder;
    ip := Visits(start, end)[PoolSize(start, end)];
    VisitsAt(start, end, PoolSize(start, end));
  }

  /** The loop looks at exactly the pool, in numeric order, if and only if the pool lies
      in one /24 and does not end in 255; that is also when it looks at as many
      addresses as the pool has. In any case the order is numeric, from the start on. */
  lemma {:induction false} VisitsThePoolExactly(start: Ip, end: Ip)
    requires end != LIMITED_BROADCAST && HostOrder(start) <= HostOrder(end)
    ensures (forall ip :: ip in Visits(start, end) <==> InPool(start, end, ip)) <==> OneSubnet(start, end)
    ensures |Visits(start, end)| == PoolSize(start, end) <==> OneSubnet(start, end)
    ensures forall i :: 0 <= i < |Visits(start, end)| ==> HostOrder(Visits(start, end)[i]) == HostOrder(start) + i
  {
    hide Visits, WireOrder, HostOrder, OneSubnet;
    var vs := Visits(start, end);
    forall ip ensures ip in vs <==> HostOrder(start) <= HostOrder(ip) < HostOrder(start) + |vs| {
      VisitsBetween(start, end, ip);
    }
    forall i | 0 <= i < |vs| ensures HostOrder(vs[i]) == HostOrder(start) + i { VisitsAt(start, end, i); }
    if OneSubnet(start, end) { AllOfOneSubnet(start, end); }
    if |vs| == PoolSize(start, end) { OnlyOneSubnetIsVisited(start, end); }
    if |vs| > PoolSize(start, end) {
      var extra := VisitsPastEnd(start, end);
    } else if forall ip :: ip in vs <==> InPool(start, end, ip) {
      assert end in vs;
    }
  }

  lemma {:induction false} AllOfOneSubnet(start: Ip, end: Ip)
    requires OneSubnet(start, end) && HostOrder(start) <= HostOrder(end)
    ensures |Visits(start, end)| == PoolSize(start, end)
  {
    OneSubnetIsVisited(start, end, start);
  }
}
