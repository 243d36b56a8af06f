/** The network examples the scanner is expected to reproduce, worked
    through the model. */
module NetDetectExamples {
  import opened NetDetect
  import Ports

  lemma ShowDefaultCidr(a: Octet, b: Octet, c: Octet, d: Octet)
    ensures ShowNet(DefaultCidr(FromOctets(a, b, c, d))) ==
            Ports.ShowDecimal(a) + "." + Ports.ShowDecimal(b) + "." + Ports.ShowDecimal(c) + "." + "0" + "/" + "24"
  {
    var n := DefaultCidr(FromOctets(a, b, c, d));
    FromOctetsRoundTrip(a, b, c, d);
    assert Octets(n.addr) == [a, b, c, 0];
    Decimal24();
  }

  lemma Decimal24()
    ensures Ports.ShowDecimal(0) == "0"
    ensures Ports.ShowDecimal(24) == "24"
  {
    assert Ports.DigitChar(0) == '0';
    assert Ports.ShowDecimal(2) == [Ports.DigitChar(2)] == "2";
    assert Ports.DigitChar(4) == '4';
    assert Ports.ShowDecimal(24) == Ports.ShowDecimal(2) + [Ports.DigitChar(4)];
  }

  lemma ShowDefaultCidrText(a: Octet, b: Octet, c: Octet, d: Octet, sa: string, sb: string, sc: string)
    requires Ports.ShowDecimal(a) == sa && Ports.ShowDecimal(b) == sb && Ports.ShowDecimal(c) == sc
    ensures ShowNet(DefaultCidr(FromOctets(a, b, c, d))) == sa + "." + sb + "." + sc + "." + "0" + "/" + "24"
  {
    ShowDefaultCidr(a, b, c, d);
  }

  lemma Decimals()
    ensures Ports.ShowDecimal(192) == "192"
    ensures Ports.ShowDecimal(168) == "168"
    ensures Ports.ShowDecimal(42) == "42"
  {
  }

  lemma Text192()
    ensures "192" + "." + "168" + "." + "42" + "." + "0" + "/" + "24" == "192.168.42.0/24"
  {
  }

  lemma Text10()
    ensures "10" + "." + "1" + "." + "2" + "." + "0" + "/" + "24" == "10.1.2.0/24"
  {
  }

  /** 192.168.42.99 lies in 192.168.42.0/24, printed "192.168.42.0/24". */
  lemma ExampleDefaultCidr()
    ensures ShowNet(DefaultCidr(FromOctets(192, 168, 42, 99))) == "192.168.42.0/24"
  {
    Decimals();
    ShowDefaultCidrText(192, 168, 42, 99, "192", "168", "42");
    Text192();
  }

  /** 10.1.2.3 lies in 10.1.2.0/24, printed "10.1.2.0/24". */
  lemma ExampleDefaultCidrSmall()
    ensures ShowNet(DefaultCidr(FromOctets(10, 1, 2, 3))) == "10.1.2.0/24"
  {
    assert Ports.ShowDecimal(10) == "10";
    assert Ports.ShowDecimal(1) == "1";
    assert Ports.ShowDecimal(2) == "2";
    ShowDefaultCidrText(10, 1, 2, 3, "10", "1", "2");
    Text10();
  }

  /** 10.0.0.0/30 has the hosts 10.0.0.1 and 10.0.0.2. */
  lemma ExampleSlash30()
    ensures ExpandHosts(Ipv4Net(FromOctets(10, 0, 0, 0), 30)) == [FromOctets(10, 0, 0, 1), FromOctets(10, 0, 0, 2)]
    ensures ExpandCidrToIps(NetV4(Ipv4Net(FromOctets(192, 168, 1, 0), 30))) ==
            [AddrV4(FromOctets(192, 168, 1, 1)), AddrV4(FromOctets(192, 168, 1, 2))]
  {
    assert HostSpan(30) == 4;
  }

  /** Detection yields exactly two networks, in key order, when those two
      are all the interfaces derive. */
  lemma DetectTwo(ifaces: seq<IfAddr>, a: Ipv4Net, b: Ipv4Net)
    requires forall m :: Derived(ifaces, m) <==> m == a || m == b
    requires KeyBelow(a, b)
    ensures DetectLocalCidrs(ifaces) == [NetV4(a), NetV4(b)]
  {
    var expected := [a, b];
    var nets := CollectCidrs(ifaces);
    SortedUnique(nets, expected);
  }

  /** Five interfaces: a loopback address, `x`, an IPv6 address, `y` and
      `z`, where `y` derives `a` and both `x` and `z` derive `b`. */
  lemma DerivedOfFive(ifaces: seq<IfAddr>, l: Addr, x: Addr, y: Addr, z: Addr, a: Ipv4Net, b: Ipv4Net)
    requires ifaces == [IfV4(l), IfV4(x), IfV6(1), IfV4(y), IfV4(z)]
    requires IsLoopback(l) && !IsLoopback(x) && !IsLoopback(y) && !IsLoopback(z)
    requires DefaultCidr(y) == a && DefaultCidr(x) == b && DefaultCidr(z) == b
    ensures forall m :: Derived(ifaces, m) <==> m == a || m == b
  {
    forall m ensures Derived(ifaces, m) <==> m == a || m == b {
      if Derived(ifaces, m) {
        var i :| 0 <= i < |ifaces| && ifaces[i].IfV4? && !IsLoopback(ifaces[i].ip) &&
                 m == DefaultCidr(ifaces[i].ip);
        assert i == 1 || i == 3 || i == 4;
      }
      if m == a {
        assert ifaces[3].IfV4? && !IsLoopback(ifaces[3].ip) && m == DefaultCidr(ifaces[3].ip);
      }
      if m == b {
        assert ifaces[1].IfV4? && !IsLoopback(ifaces[1].ip) && m == DefaultCidr(ifaces[1].ip);
      }
    }
  }

  lemma ExampleNetworks()
    ensures IsLoopback(FromOctets(127, 0, 0, 1))
    ensures !IsLoopback(FromOctets(192, 168, 1, 42)) && !IsLoopback(FromOctets(10, 0, 0, 5))
    ensures !IsLoopback(FromOctets(192, 168, 1, 7))
    ensures DefaultCidr(FromOctets(10, 0, 0, 5)) == Ipv4Net(FromOctets(10, 0, 0, 0), 24)
    ensures DefaultCidr(FromOctets(192, 168, 1, 42)) == Ipv4Net(FromOctets(192, 168, 1, 0), 24)
    ensures DefaultCidr(FromOctets(192, 168, 1, 7)) == Ipv4Net(FromOctets(192, 168, 1, 0), 24)
    ensures KeyBelow(Ipv4Net(FromOctets(10, 0, 0, 0), 24), Ipv4Net(FromOctets(192, 168, 1, 0), 24))
  {
    Span24();
    FromOctetsRoundTrip(127, 0, 0, 1);
    FromOctetsRoundTrip(192, 168, 1, 42);
    FromOctetsRoundTrip(10, 0, 0, 5);
    FromOctetsRoundTrip(192, 168, 1, 7);
    DefaultCidrAddr(FromOctets(10, 0, 0, 5));
    DefaultCidrAddr(FromOctets(192, 168, 1, 42));
    DefaultCidrAddr(FromOctets(192, 168, 1, 7));
  }

  /** Loopback and IPv6 interfaces are skipped, two addresses in one /24
      give it once, and the networks come out ordered by address. */
  lemma ExampleDetect()
    ensures DetectLocalCidrs([IfV4(FromOctets(127, 0, 0, 1)), IfV4(FromOctets(192, 168, 1, 42)),
                              IfV6(1), IfV4(FromOctets(10, 0, 0, 5)), IfV4(FromOctets(192, 168, 1, 7))])
            == [NetV4(Ipv4Net(FromOctets(10, 0, 0, 0), 24)), NetV4(Ipv4Net(FromOctets(192, 168, 1, 0), 24))]
  {
    var ifaces := [IfV4(FromOctets(127, 0, 0, 1)), IfV4(FromOctets(192, 168, 1, 42)),
                   IfV6(1), IfV4(FromOctets(10, 0, 0, 5)), IfV4(FromOctets(192, 168, 1, 7))];
    var a, b := Ipv4Net(FromOctets(10, 0, 0, 0), 24), Ipv4Net(FromOctets(192, 168, 1, 0), 24);
    ExampleNetworks();
    DerivedOfFive(ifaces, FromOctets(127, 0, 0, 1), FromOctets(192, 168, 1, 42),
                  FromOctets(10, 0, 0, 5), FromOctets(192, 168, 1, 7), a, b);
    DetectTwo(ifaces, a, b);
  }
}
