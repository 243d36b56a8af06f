/** IPv4 network arithmetic of the scanner: the /24 network an interface
    address belongs to, the host addresses of a network (network and
    broadcast excluded), and the sorted, duplicate-free list of networks
    derived from the machine's interfaces. */
module NetDetect {
  import opened Seqs
  import opened Arith
  import Ports

  /** Number of IPv4 addresses; an address is its `u32` value. */
  const AddrCount: nat := 0x1_0000_0000
  const MaxAddr: nat := 0xFFFF_FFFF

  type Addr = a: nat | a < AddrCount

  type PrefixLen = p: nat | p <= 32

  type Octet = o: nat | o < 256

  /** `ipnet::Ipv4Net`: an address with a prefix length. As in ipnet, the
      address may carry host bits; `Network` masks them off. */
  datatype Ipv4Net = Ipv4Net(addr: Addr, prefix: PrefixLen)

  /** `ipnet::IpNet` and `std::net::IpAddr`. IPv6 values are carried as an
      opaque number, since nothing here looks inside them. */
  datatype IpNet = NetV4(v4: Ipv4Net) | NetV6(v6: nat)
  datatype IpAddr = AddrV4(v4: Addr) | AddrV6(v6: nat)

  // ---------------------------------------------------------------------
  // Powers of two

  function Pow2(n: nat): (r: nat)
    ensures r >= 1
  {
    if n == 0 then 1 else 2 * Pow2(n - 1)
  }

  lemma {:induction false} Pow2Add(a: nat, b: nat)
    ensures Pow2(a + b) == Pow2(a) * Pow2(b)
    decreases a
  {
    if a > 0 {
      Pow2Add(a - 1, b);
      assert Pow2(a + b) == 2 * Pow2(a - 1 + b);
    }
  }

  /** The number of addresses a network of the given prefix covers:
      2^(32 - prefix). The prefix's mask is AddrCount - HostSpan. */
  function HostSpan(prefix: PrefixLen): (r: nat)
    ensures 1 <= r <= AddrCount
  {
    HostSpanBlocks(prefix);
    Pow2(32 - prefix)
  }

  /** A /prefix network is one of 2^prefix equal blocks of the space. */
  lemma HostSpanBlocks(prefix: PrefixLen)
    ensures Pow2(32 - prefix) * Pow2(prefix) == AddrCount
  {
    Pow2Add(32 - prefix, prefix);
    Pow2Of32();
  }

  lemma Pow2Of32()
    ensures Pow2(32) == AddrCount
  {
    assert Pow2(8) == 256;
    Pow2Add(8, 8);
    Pow2Add(16, 16);
  }

  lemma HostSpanSmall(prefix: PrefixLen)
    ensures prefix == 32 ==> HostSpan(prefix) == 1
    ensures prefix == 31 ==> HostSpan(prefix) == 2
    ensures prefix <= 30 ==> HostSpan(prefix) >= 4
  {
    if prefix <= 30 {
      Pow2Add(2, 30 - prefix);
    }
  }

  // ---------------------------------------------------------------------
  // Network and broadcast

  /** Rounding x < s * m down to a multiple of s leaves room for one more
      block of s below s * m. */
  lemma RoundDown(x: nat, s: nat, m: nat)
    requires s >= 1 && x < s * m
    ensures 0 <= x % s < s && x % s <= x
    ensures (x - x % s) % s == 0
    ensures x - x % s + s <= s * m
  {
    var q := x / s;
    QuotientBelow(x, s, m);
    MulMonotone(s, q + 1, m);
    assert s * (q + 1) == s * q + s;
    assert x - x % s == s * q;
    DivUnique(s * q, s, q, 0);
  }

  /** `net.network()`: the address with its host bits cleared, i.e.
      `addr & mask`, which for mask = AddrCount - HostSpan is the address
      rounded down to a multiple of HostSpan. */
  function Network(net: Ipv4Net): (r: Addr)
    ensures r <= net.addr && net.addr - r < HostSpan(net.prefix)
    ensures r % HostSpan(net.prefix) == 0
    ensures r + HostSpan(net.prefix) <= AddrCount
  {
    var x, s, m := net.addr, HostSpan(net.prefix), Pow2(net.prefix);
    HostSpanBlocks(net.prefix);
    RoundDown(x, s, m);
    var r: int := x - x % s;
    assert 0 <= r <= x;
    assert r + s <= AddrCount;
    r
  }

  /** `net.broadcast()`: the network with all host bits set,
      `network | !mask`. */
  function Broadcast(net: Ipv4Net): (r: Addr)
    ensures Network(net) <= net.addr <= r
    ensures r - Network(net) == HostSpan(net.prefix) - 1
  {
    Network(net) + HostSpan(net.prefix) - 1
  }

  predicate Contains(net: Ipv4Net, ip: Addr)
  {
    Network(net) <= ip <= Broadcast(net)
  }

  /** Two addresses share a network exactly when they agree above the host
      bits. */
  lemma ContainsIff(net: Ipv4Net, ip: Addr)
    ensures Contains(net, ip) <==> ip / HostSpan(net.prefix) == net.addr / HostSpan(net.prefix)
  {
    var s := HostSpan(net.prefix);
    var q := net.addr / s;
    DivMod(net.addr, s);
    assert Network(net) == s * q;
    if Contains(net, ip) {
      DivUnique(ip, s, q, ip - Network(net));
    }
    if ip / s == q {
      DivMod(ip, s);
      DivUnique(ip, s, q, ip % s);
    }
  }

  // ---------------------------------------------------------------------
  // Octets

  /** `ip.octets()`, most significant first. */
  function Octets(a: Addr): (o: seq<Octet>)
    ensures |o| == 4
  {
    [a / 0x100_0000, a / 0x1_0000 % 256, a / 256 % 256, a % 256]
  }

  /** `Ipv4Addr::new(a, b, c, d)`. */
  function FromOctets(a: Octet, b: Octet, c: Octet, d: Octet): (r: Addr)
    ensures r / 256 == (a * 256 + b) * 256 + c && r % 256 == d
  {
    ((a * 256 + b) * 256 + c) * 256 + d
  }

  lemma OctetsRoundTrip(a: Addr)
    ensures var o := Octets(a); FromOctets(o[0], o[1], o[2], o[3]) == a
  {
  }

  lemma FromOctetsRoundTrip(a: Octet, b: Octet, c: Octet, d: Octet)
    ensures Octets(FromOctets(a, b, c, d)) == [a, b, c, d]
  {
  }

  // ---------------------------------------------------------------------
  // The default /24 network of an address

  /** `ipv4_to_default_cidr`: the first three octets of the address, a zero
      last octet, prefix 24. */
  function DefaultCidr(ip: Addr): (r: Ipv4Net)
    ensures r.prefix == 24
    ensures Octets(r.addr) == Octets(ip)[..3] + [0]
    ensures r.addr == Network(r)
    ensures Contains(r, ip)
  {
    var o := Octets(ip);
    var r := Ipv4Net(FromOctets(o[0], o[1], o[2], 0), 24);
    OctetsRoundTrip(ip);
    FromOctetsRoundTrip(o[0], o[1], o[2], 0);
    Span24();
    r
  }

  lemma Span24()
    ensures HostSpan(24) == 256
  {
    assert Pow2(8) == 256;
  }

  lemma DefaultCidrAddr(ip: Addr)
    ensures DefaultCidr(ip).addr == 256 * (ip / 256)
  {
    OctetsRoundTrip(ip);
  }

  /** The first three octets are the address above its last 8 bits. */
  lemma OctetsPrefixIff(a: Addr, b: Addr)
    ensures Octets(a)[..3] == Octets(b)[..3] <==> a / 256 == b / 256
  {
    var oa, ob := Octets(a), Octets(b);
    assert a / 256 == FromOctets(oa[0], oa[1], oa[2], 0) / 256 by { OctetsRoundTrip(a); }
    assert b / 256 == FromOctets(ob[0], ob[1], ob[2], 0) / 256 by { OctetsRoundTrip(b); }
    if a / 256 == b / 256 {
      FromOctetsRoundTrip(oa[0], oa[1], oa[2], 0);
      FromOctetsRoundTrip(ob[0], ob[1], ob[2], 0);
      assert FromOctets(oa[0], oa[1], oa[2], 0) == FromOctets(ob[0], ob[1], ob[2], 0);
    }
  }

  /** Two addresses get the same /24 network exactly when they agree on
      their first three octets, that is, when each lies in the other's. */
  lemma DefaultCidrSameIff(a: Addr, b: Addr)
    ensures DefaultCidr(a) == DefaultCidr(b) <==> Octets(a)[..3] == Octets(b)[..3]
    ensures DefaultCidr(a) == DefaultCidr(b) <==> Contains(DefaultCidr(a), b)
  {
    DefaultCidrAddr(a);
    DefaultCidrAddr(b);
    OctetsPrefixIff(a, b);
    Span24();
    ContainsIff(DefaultCidr(a), b);
    DivUnique(256 * (a / 256), 256, a / 256, 0);
  }

  /** Deriving the /24 network of a /24 network's address changes nothing. */
  lemma DefaultCidrIdempotent(ip: Addr)
    ensures DefaultCidr(DefaultCidr(ip).addr) == DefaultCidr(ip)
  {
    var n := DefaultCidr(ip);
    DefaultCidrSameIff(ip, n.addr);
    assert Octets(n.addr)[..3] == Octets(ip)[..3];
  }

  // ---------------------------------------------------------------------
  // Text form, as `Display` prints it

  function ShowAddr(a: Addr): string
  {
    var o := Octets(a);
    Ports.ShowDecimal(o[0]) + "." + Ports.ShowDecimal(o[1]) + "." +
    Ports.ShowDecimal(o[2]) + "." + Ports.ShowDecimal(o[3])
  }

  function ShowNet(net: Ipv4Net): string
  {
    ShowAddr(net.addr) + "/" + Ports.ShowDecimal(net.prefix)
  }

  // ---------------------------------------------------------------------
  // Host expansion

  /** `expand_ipv4net_hosts` with exact arithmetic: every address strictly
      between the network and broadcast addresses, ascending. */
  function ExpandHosts(net: Ipv4Net): (r: seq<Addr>)
    ensures |r| == if net.prefix <= 30 then HostSpan(net.prefix) - 2 else 0
    ensures forall k :: 0 <= k < |r| ==> Network(net) < r[k] < Broadcast(net)
  {
    HostSpanSmall(net.prefix);
    var start, end := Network(net), Broadcast(net);
    if end <= start + 1 then []
    else seq(end - start - 1, k requires 0 <= k < end - start - 1 => start + 1 + k)
  }

  /** An address is expanded exactly when it lies strictly inside the
      network: the network and broadcast addresses never appear. */
  lemma ExpandHostsIff(net: Ipv4Net, h: Addr)
    ensures h in ExpandHosts(net) <==> Network(net) < h < Broadcast(net)
  {
    if Network(net) < h < Broadcast(net) {
      assert ExpandHosts(net)[h - Network(net) - 1] == h;
    }
  }

  /** The hosts are consecutive addresses, so strictly increasing, and
      there are broadcast - network - 1 of them when there are any. */
  lemma ExpandHostsContiguous(net: Ipv4Net)
    ensures var r := ExpandHosts(net);
            forall k :: 0 <= k < |r| - 1 ==> r[k + 1] == r[k] + 1
    ensures var r := ExpandHosts(net);
            forall i, j :: 0 <= i < j < |r| ==> r[i] < r[j]
    ensures |ExpandHosts(net)| > 0 ==> |ExpandHosts(net)| == Broadcast(net) - Network(net) - 1
    ensures |ExpandHosts(net)| > 0 ==> ExpandHosts(net)[0] == Network(net) + 1
  {
  }

  /** /31 and /32 networks have no host addresses. */
  lemma ExpandTinyNets(net: Ipv4Net)
    requires net.prefix >= 31
    ensures ExpandHosts(net) == []
  {
  }

  /** `expand_cidr_to_ips`: IPv4 hosts as `IpAddr`; IPv6 is not scanned. */
  function ExpandCidrToIps(cidr: IpNet): (r: seq<IpAddr>)
    ensures cidr.NetV6? ==> r == []
    ensures forall a :: a in r <==>
              cidr.NetV4? && a.AddrV4? && Network(cidr.v4) < a.v4 < Broadcast(cidr.v4)
  {
    match cidr
    case NetV6(_) => []
    case NetV4(n4) =>
      var hosts := ExpandHosts(n4);
      var r := seq(|hosts|, k requires 0 <= k < |hosts| => AddrV4(hosts[k]));
      assert forall a: IpAddr :: a in r <==> a.AddrV4? && a.v4 in hosts by {
        forall a: IpAddr | a.AddrV4? && a.v4 in hosts ensures a in r {
          var k :| 0 <= k < |hosts| && hosts[k] == a.v4;
          assert r[k] == a;
        }
      }
      assert forall h :: h in hosts <==> Network(n4) < h < Broadcast(n4) by {
        forall h: Addr ensures h in hosts <==> Network(n4) < h < Broadcast(n4) {
          ExpandHostsIff(n4, h);
        }
      }
      r
  }

  /** The code as written computes `start + 1` in `u32`: with wrap-around
      (a release build) the network 255.255.255.255/32 gives start + 1 = 0,
      and the range 0..end lists almost every address. */
  function ExpandHostsAsWritten(net: Ipv4Net): (r: seq<Addr>)
    ensures |r| == if Broadcast(net) <= (Network(net) + 1) % AddrCount then 0
                   else Broadcast(net) - (Network(net) + 1) % AddrCount
  {
    var start, end := Network(net), Broadcast(net);
    var next := (start + 1) % AddrCount;
    if end <= next then []
    else seq(end - next, k requires 0 <= k < end - next => next + k)
  }

  /** Below the last address, the wrapping and the exact version agree. */
  lemma AsWrittenAgrees(net: Ipv4Net)
    requires Network(net) < MaxAddr
    ensures ExpandHostsAsWritten(net) == ExpandHosts(net)
  {
  }

  /** 255.255.255.255/32 is the one network where they differ: the code
      as written lists 2^32 - 1 addresses, starting with 0.0.0.0, which is
      not in the network at all. */
  lemma AsWrittenOverflow()
    ensures var net := Ipv4Net(MaxAddr, 32);
            |ExpandHostsAsWritten(net)| == MaxAddr &&
            ExpandHostsAsWritten(net)[0] == 0 && !Contains(net, 0) &&
            ExpandHosts(net) == []
  {
    var net := Ipv4Net(MaxAddr, 32);
    assert HostSpan(32) == 1;
    assert Network(net) == MaxAddr;
  }

  lemma OnlyTopNetworkOverflows(net: Ipv4Net)
    requires Network(net) == MaxAddr
    ensures net == Ipv4Net(MaxAddr, 32)
  {
    HostSpanSmall(net.prefix);
  }

  // ---------------------------------------------------------------------
  // Networks of the local interfaces

  /** An interface address as `if_addrs` reports it. */
  datatype IfAddr = IfV4(ip: Addr) | IfV6(v6: nat)

  /** `Ipv4Addr::is_loopback`: 127.0.0.0/8. */
  predicate IsLoopback(ip: Addr)
  {
    Octets(ip)[0] == 127
  }

  /** The sort key of `detect_local_cidrs`: (network, prefix length),
      compared lexicographically. */
  predicate KeyBelow(a: Ipv4Net, b: Ipv4Net)
  {
    Network(a) < Network(b) || (Network(a) == Network(b) && a.prefix < b.prefix)
  }

  predicate StrictlySorted(xs: seq<Ipv4Net>)
  {
    forall i, j :: 0 <= i < j < |xs| ==> KeyBelow(xs[i], xs[j])
  }

  /** A network whose address has no host bits, as `Ipv4Net::new` of a
      /24 network address gives. */
  predicate Canonical(n: Ipv4Net)
  {
    n.addr == Network(n)
  }

  predicate AllCanonical(xs: seq<Ipv4Net>)
  {
    forall i :: 0 <= i < |xs| ==> Canonical(xs[i])
  }

  /** Distinct canonical networks have distinct keys. */
  lemma CanonicalKeysDiffer(a: Ipv4Net, b: Ipv4Net)
    requires Canonical(a) && Canonical(b) && a != b
    ensures KeyBelow(a, b) || KeyBelow(b, a)
  {
  }

  lemma KeyBelowTransitive(a: Ipv4Net, b: Ipv4Net, c: Ipv4Net)
    requires KeyBelow(a, b) && KeyBelow(b, c)
    ensures KeyBelow(a, c)
  {
  }

  /** A network below every element of a sorted list can head it. */
  lemma ConsSorted(x: Ipv4Net, xs: seq<Ipv4Net>)
    requires StrictlySorted(xs)
    requires forall m :: m in xs ==> KeyBelow(x, m)
    ensures StrictlySorted([x] + xs)
  {
    forall i, j | 0 <= i < j < |xs| + 1 ensures KeyBelow(([x] + xs)[i], ([x] + xs)[j]) {
      if i == 0 {
        assert ([x] + xs)[j] == xs[j - 1];
      } else {
        assert ([x] + xs)[i] == xs[i - 1] && ([x] + xs)[j] == xs[j - 1];
      }
    }
  }

  /** Adds a network to a sorted list of distinct networks, unless it is
      already there: the `HashSet` insert followed by the final sort. */
  function InsertNet(xs: seq<Ipv4Net>, n: Ipv4Net): (r: seq<Ipv4Net>)
    requires StrictlySorted(xs) && AllCanonical(xs) && Canonical(n)
    ensures StrictlySorted(r) && AllCanonical(r)
    ensures forall m :: m in r <==> m in xs || m == n
    decreases |xs|
  {
    if |xs| == 0 then [n]
    else if xs[0] == n then xs
    else if KeyBelow(n, xs[0]) then
      assert forall m :: m in xs ==> KeyBelow(n, m) by {
        forall m | m in xs ensures KeyBelow(n, m) {
          var i :| 0 <= i < |xs| && xs[i] == m;
          if i > 0 {
            KeyBelowTransitive(n, xs[0], m);
          }
        }
      }
      ConsSorted(n, xs);
      [n] + xs
    else
      CanonicalKeysDiffer(n, xs[0]);
      var rest := InsertNet(xs[1..], n);
      assert forall m :: m in xs <==> m == xs[0] || m in xs[1..];
      assert forall m :: m in rest ==> KeyBelow(xs[0], m) by {
        forall m | m in rest ensures KeyBelow(xs[0], m) {
          if m in xs[1..] {
            var i :| 1 <= i < |xs| && xs[i] == m;
          }
        }
      }
      ConsSorted(xs[0], rest);
      [xs[0]] + rest
  }

  /** The networks the interfaces yield: loopback and IPv6 addresses are
      skipped, every other address gives its /24 network. */
  predicate Derived(ifaces: seq<IfAddr>, net: Ipv4Net)
  {
    exists i :: 0 <= i < |ifaces| && ifaces[i].IfV4? && !IsLoopback(ifaces[i].ip) &&
                net == DefaultCidr(ifaces[i].ip)
  }

  /** The networks derived from a list are those of all but its last
      interface, plus the last one's /24 when it counts. */
  lemma DerivedSnoc(ifaces: seq<IfAddr>)
    requires |ifaces| > 0
    ensures var init, last := ifaces[..|ifaces| - 1], ifaces[|ifaces| - 1];
            forall m :: Derived(ifaces, m) <==>
              Derived(init, m) || (last.IfV4? && !IsLoopback(last.ip) && m == DefaultCidr(last.ip))
  {
    var init, last := ifaces[..|ifaces| - 1], ifaces[|ifaces| - 1];
    forall m | Derived(init, m) ensures Derived(ifaces, m) {
      var i :| 0 <= i < |init| && init[i].IfV4? && !IsLoopback(init[i].ip) &&
               m == DefaultCidr(init[i].ip);
      assert ifaces[i] == init[i];
    }
    forall m | Derived(ifaces, m)
      ensures Derived(init, m) || (last.IfV4? && !IsLoopback(last.ip) && m == DefaultCidr(last.ip))
    {
      var i :| 0 <= i < |ifaces| && ifaces[i].IfV4? && !IsLoopback(ifaces[i].ip) &&
               m == DefaultCidr(ifaces[i].ip);
      if i < |init| {
        assert init[i] == ifaces[i];
      }
    }
  }

  /** The interface loop of `detect_local_cidrs`, keeping the collected
      networks sorted. Defined from the end, one interface per step. */
  function CollectCidrs(ifaces: seq<IfAddr>): (r: seq<Ipv4Net>)
    ensures StrictlySorted(r) && AllCanonical(r)
    ensures forall m :: m in r <==> Derived(ifaces, m)
    decreases |ifaces|
  {
    if |ifaces| == 0 then []
    else
      var init := ifaces[..|ifaces| - 1];
      var prev := CollectCidrs(init);
      var last := ifaces[|ifaces| - 1];
      DerivedSnoc(ifaces);
      match last
      case IfV4(ip) => if IsLoopback(ip) then prev else InsertNet(prev, DefaultCidr(ip))
      case IfV6(_) => prev
  }

  /** `detect_local_cidrs` given the interface addresses: the distinct /24
      networks of the non-loopback IPv4 addresses, sorted by (network,
      prefix). */
  function DetectLocalCidrs(ifaces: seq<IfAddr>): (r: seq<IpNet>)
    ensures forall k :: 0 <= k < |r| ==> r[k].NetV4? && r[k].v4.prefix == 24
    ensures forall n :: NetV4(n) in r <==> Derived(ifaces, n)
    ensures forall i, j :: 0 <= i < j < |r| ==> KeyBelow(r[i].v4, r[j].v4)
    ensures NoDuplicates(r)
  {
    var nets := CollectCidrs(ifaces);
    var r := seq(|nets|, k requires 0 <= k < |nets| => NetV4(nets[k]));
    assert forall n :: NetV4(n) in r <==> n in nets by {
      forall n | n in nets ensures NetV4(n) in r {
        var k :| 0 <= k < |nets| && nets[k] == n;
        assert r[k] == NetV4(n);
      }
    }
    forall k | 0 <= k < |r| ensures r[k].v4.prefix == 24 {
      assert nets[k] in nets;
    }
    r
  }

  /** No derived network is a loopback network. */
  lemma DetectedNotLoopback(ifaces: seq<IfAddr>)
    ensures forall k :: 0 <= k < |DetectLocalCidrs(ifaces)| ==>
              !IsLoopback(DetectLocalCidrs(ifaces)[k].v4.addr)
  {
    var r := DetectLocalCidrs(ifaces);
    forall k | 0 <= k < |r| ensures !IsLoopback(r[k].v4.addr) {
      assert NetV4(r[k].v4) in r;
      var i :| 0 <= i < |ifaces| && ifaces[i].IfV4? && !IsLoopback(ifaces[i].ip) &&
               r[k].v4 == DefaultCidr(ifaces[i].ip);
      assert Octets(r[k].v4.addr)[0] == (Octets(ifaces[i].ip)[..3] + [0])[0];
    }
  }

  /** Sorting makes the result independent of the `HashSet`'s iteration
      order: two strictly sorted lists with the same networks are equal. */
  lemma SameElementsEmpty<T>(a: seq<T>, b: seq<T>)
    requires forall m :: m in a <==> m in b
    ensures |a| == 0 <==> |b| == 0
  {
    if |a| > 0 {
      assert a[0] in b;
    }
    if |b| > 0 {
      assert b[0] in a;
    }
  }

  /** The least network heads every sorted list of the same networks. */
  lemma SortedHeadsEqual(a: seq<Ipv4Net>, b: seq<Ipv4Net>)
    requires StrictlySorted(a) && StrictlySorted(b)
    requires forall m :: m in a <==> m in b
    requires |a| > 0 && |b| > 0
    ensures a[0] == b[0]
  {
    assert a[0] in b && b[0] in a;
    SortedHeadLeast(b, a[0]);
    SortedHeadLeast(a, b[0]);
  }

  /** Every element of a strictly sorted list is its head or above it. */
  lemma SortedHeadLeast(s: seq<Ipv4Net>, x: Ipv4Net)
    requires StrictlySorted(s) && x in s
    ensures x == s[0] || KeyBelow(s[0], x)
  {
    var i :| 0 <= i < |s| && s[i] == x;
    if i > 0 {
      assert KeyBelow(s[0], s[i]);
    }
  }

  lemma {:induction false} SortedUnique(a: seq<Ipv4Net>, b: seq<Ipv4Net>)
    requires StrictlySorted(a) && StrictlySorted(b)
    requires forall m :: m in a <==> m in b
    ensures a == b
    decreases |a|
  {
    SameElementsEmpty(a, b);
    if |a| > 0 {
      SortedHeadsEqual(a, b);
      forall m ensures m in a[1..] <==> m in b[1..] {
        if m in a[1..] {
          var i :| 1 <= i < |a| && a[i] == m;
          assert KeyBelow(a[0], m);
          assert m in b;
        }
        if m in b[1..] {
          var i :| 1 <= i < |b| && b[i] == m;
          assert KeyBelow(b[0], m);
          assert m in a;
        }
      }
      SortedUnique(a[1..], b[1..]);
      assert a == [a[0]] + a[1..];
      assert b == [b[0]] + b[1..];
    }
  }
}
