/**
 * `utils.go` of the raft module: whether an address lies in one of the
 * private IPv4 blocks of section 3 of RFC 1918, and the discovery of the
 * host's first private address over its network interfaces.
 *
 * The operating system's interface list is an input: `net.Interfaces()`
 * and each interface's `Addrs()` are given as results that either hold the
 * list or the error the call returned.
 */
module RaftMod {
  import opened Wrappers
  import opened GoNet

  /** A CIDR literal such as `"172.16.0.0/12"`: network address and prefix length. */
  datatype Cidr = Cidr(network: IP, ones: nat)

  /** The blocks `isPrivateIP` checks; loopback and link-local are deliberately absent. */
  const PrivateCidrs: seq<Cidr> := [
    Cidr([10, 0, 0, 0], 8),
    Cidr([172, 16, 0, 0], 12),
    Cidr([192, 168, 0, 0], 16)
  ]

  ghost predicate ValidCidr(c: Cidr) {
    |c.network| == 4 && c.ones <= 32
  }

  /** `net.ParseCIDR` of one of the literals, which are already network numbers. */
  function ParseCidr(c: Cidr): (n: IPNet)
    requires ValidCidr(c)
    ensures WellFormedV4(n)
  {
    IPNet(c.network, c.ones)
  }

  /** The parsed blocks, in the order of the literals. */
  function PrivateBlocks(): (blocks: seq<IPNet>)
    ensures |blocks| == |PrivateCidrs|
    ensures forall k :: 0 <= k < |blocks| ==> WellFormedV4(blocks[k]) && blocks[k] == ParseCidr(PrivateCidrs[k])
  {
    seq(|PrivateCidrs|, k requires 0 <= k < |PrivateCidrs| => ParseCidr(PrivateCidrs[k]))
  }

  /** Some block of the list contains the address. */
  predicate AnyContains(blocks: seq<IPNet>, ip: IP)
    requires forall k :: 0 <= k < |blocks| ==> WellFormedV4(blocks[k])
    decreases |blocks|
  {
    |blocks| > 0 && (Contains(blocks[0], ip) || AnyContains(blocks[1..], ip))
  }

  /** Membership in one of the private blocks: what `isPrivateIP` computes. */
  predicate IsPrivate(ip: IP) {
    AnyContains(PrivateBlocks(), ip)
  }

  /** The same three blocks, written as byte ranges of an IPv4 address. */
  predicate InRfc1918(x: IP)
    requires |x| == 4
  {
    || x[0] == 10
    || (x[0] == 172 && 16 <= x[1] <= 31)
    || (x[0] == 192 && x[1] == 168)
  }

  /**
   * `isPrivateIP`: build the block list from the literals, then scan it and
   * answer true at the first block that contains the address.
   */
  method IsPrivateIP(ip: IP) returns (r: bool)
    ensures r == IsPrivate(ip)
  {
    var privateIPBlocks: seq<IPNet> := [];
    for i := 0 to |PrivateCidrs|
      invariant privateIPBlocks == PrivateBlocks()[..i]
    {
      privateIPBlocks := privateIPBlocks + [ParseCidr(PrivateCidrs[i])];
    }
    assert privateIPBlocks == PrivateBlocks();
    for i := 0 to |privateIPBlocks|
      invariant AnyContains(privateIPBlocks, ip) == AnyContains(privateIPBlocks[i..], ip)
    {
      if Contains(privateIPBlocks[i], ip) {
        return true;
      }
      assert privateIPBlocks[i..][1..] == privateIPBlocks[i + 1..];
    }
    return false;
  }

  /** 10.0.0.0/8: the first byte decides. */
  lemma InBlock10(x: IP)
    requires |x| == 4
    ensures MaskedEqual(IPNet([10, 0, 0, 0], 8), x) <==> x[0] == 10
  {
    var n := IPNet([10, 0, 0, 0], 8);
    MaskedEqualBytes(n, x);
    assert BitsOfByte(8, 0) == 8 && BitsOfByte(8, 1) == 0 && BitsOfByte(8, 2) == 0 && BitsOfByte(8, 3) == 0;
    assert n.network[0] == 10;
  }

  /** 172.16.0.0/12: the first byte and the high nibble of the second decide. */
  lemma InBlock172(x: IP)
    requires |x| == 4
    ensures MaskedEqual(IPNet([172, 16, 0, 0], 12), x) <==> x[0] == 172 && 16 <= x[1] <= 31
  {
    var n := IPNet([172, 16, 0, 0], 12);
    MaskedEqualBytes(n, x);
    assert BitsOfByte(12, 0) == 8 && BitsOfByte(12, 1) == 4 && BitsOfByte(12, 2) == 0 && BitsOfByte(12, 3) == 0;
    assert n.network[0] == 172 && n.network[1] == 16;
    TopBitsNibble(x[1]);
    TopBitsNibble(16);
  }

  /** 192.168.0.0/16: the first two bytes decide. */
  lemma InBlock192(x: IP)
    requires |x| == 4
    ensures MaskedEqual(IPNet([192, 168, 0, 0], 16), x) <==> x[0] == 192 && x[1] == 168
  {
    var n := IPNet([192, 168, 0, 0], 16);
    MaskedEqualBytes(n, x);
    assert BitsOfByte(16, 0) == 8 && BitsOfByte(16, 1) == 8 && BitsOfByte(16, 2) == 0 && BitsOfByte(16, 3) == 0;
    assert n.network[0] == 192 && n.network[1] == 168;
  }

  /** The mask comparison of `Contains` is exactly the byte-range reading of RFC 1918. */
  lemma IsPrivateIffInRfc1918(ip: IP)
    ensures IsPrivate(ip) <==> |To4(ip)| == 4 && InRfc1918(To4(ip))
  {
    var blocks := PrivateBlocks();
    assert blocks == [IPNet([10, 0, 0, 0], 8), IPNet([172, 16, 0, 0], 12), IPNet([192, 168, 0, 0], 16)];
    var x := Normalized(ip);
    if |x| == 4 {
      assert x == To4(ip);
      InBlock10(x);
      InBlock172(x);
      InBlock192(x);
    }
    assert blocks[1..][1..][1..] == [];
    assert IsPrivate(ip) <==> Contains(blocks[0], ip) || Contains(blocks[1], ip) || Contains(blocks[2], ip);
  }

  /** For a four-byte address, privacy is the byte-range reading of RFC 1918. */
  lemma IsPrivateV4(x: IP)
    requires |x| == 4
    ensures IsPrivate(x) <==> InRfc1918(x)
  {
    IsPrivateIffInRfc1918(x);
  }

  /** The edges of 10.0.0.0/8 and 192.168.0.0/16. */
  lemma PrivateExamplesOuterBlocks()
    ensures IsPrivate([10, 1, 2, 3]) && IsPrivate([10, 255, 255, 255]) && !IsPrivate([11, 0, 0, 0])
    ensures IsPrivate([192, 168, 1, 1]) && !IsPrivate([192, 169, 0, 0])
  {
    IsPrivateV4([10, 1, 2, 3]);
    IsPrivateV4([10, 255, 255, 255]);
    IsPrivateV4([11, 0, 0, 0]);
    IsPrivateV4([192, 168, 1, 1]);
    IsPrivateV4([192, 169, 0, 0]);
  }

  /** The edges of 172.16.0.0/12, which follow from its twelve-bit prefix. */
  lemma PrivateExamplesMiddleBlock()
    ensures !IsPrivate([172, 15, 255, 255]) && IsPrivate([172, 16, 0, 0])
    ensures IsPrivate([172, 31, 255, 255]) && !IsPrivate([172, 32, 0, 0])
  {
    IsPrivateV4([172, 15, 255, 255]);
    IsPrivateV4([172, 16, 0, 0]);
    IsPrivateV4([172, 31, 255, 255]);
    IsPrivateV4([172, 32, 0, 0]);
  }

  /** Loopback, link-local and public addresses. */
  lemma PrivateExamplesExcluded()
    ensures !IsPrivate([127, 0, 0, 1]) && !IsPrivate([169, 254, 1, 1]) && !IsPrivate([8, 8, 8, 8])
  {
    IsPrivateV4([127, 0, 0, 1]);
    IsPrivateV4([169, 254, 1, 1]);
    IsPrivateV4([8, 8, 8, 8]);
  }

  /** Loopback (127.0.0.0/8) and link-local (169.254.0.0/16) addresses are never private. */
  lemma LoopbackAndLinkLocalNotPrivate(ip: IP)
    requires |ip| == 4 && (ip[0] == 127 || (ip[0] == 169 && ip[1] == 254))
    ensures !IsPrivate(ip)
  {
    IsPrivateIffInRfc1918(ip);
  }

  /**
   * `nil` and every 16-byte address that is not an IPv4-mapped one are never
   * private; an IPv4-mapped address is private exactly when its IPv4 part is.
   */
  lemma IPv6AndNilPrivacy(ip: IP)
    ensures ip == [] ==> !IsPrivate(ip)
    ensures |ip| == 16 && To4(ip) == [] ==> !IsPrivate(ip)
    ensures |ip| == 16 && To4(ip) != [] ==> (IsPrivate(ip) <==> IsPrivate(ip[12..16]))
  {
    IsPrivateIffInRfc1918(ip);
    if |ip| == 16 {
      IsPrivateIffInRfc1918(ip[12..16]);
    }
  }

  /** An interface address, by its dynamic type in `LocalIP`'s type switch. */
  datatype Addr =
    | IPNetAddr(netIP: IP)     // *net.IPNet
    | IPAddrAddr(addrIP: IP)   // *net.IPAddr
    | OtherAddr                // any other net.Addr, such as *net.UnixAddr

  /** The IP the type switch extracts: `nil` for any other kind of address. */
  function AddrIP(a: Addr): (ip: IP)
    ensures a.IPNetAddr? ==> ip == a.netIP
    ensures a.IPAddrAddr? ==> ip == a.addrIP
    ensures a.OtherAddr? ==> ip == []
  {
    match a
    case IPNetAddr(ip) => ip
    case IPAddrAddr(ip) => ip
    case OtherAddr => []
  }

  /** An address of another kind is never selected. */
  lemma OtherAddrNeverPrivate()
    ensures !IsPrivate(AddrIP(OtherAddr))
  {
    IPv6AndNilPrivacy([]);
  }

  /** An interface, as far as `LocalIP` sees it: the outcome of its `Addrs()` call. */
  datatype Interface = Interface(addrs: Result<seq<Addr>, string>)

  datatype LocalIPError =
    | OsError(cause: string)   // returned by `net.Interfaces()` or `Addrs()`
    | NoIP                     // no private address anywhere

  /** None of the first `j` addresses is private. */
  ghost predicate NoPrivateBefore(addrs: seq<Addr>, j: nat)
    requires j <= |addrs|
  {
    forall k :: 0 <= k < j ==> !IsPrivate(AddrIP(addrs[k]))
  }

  ghost predicate NoPrivateAddr(addrs: seq<Addr>) {
    NoPrivateBefore(addrs, |addrs|)
  }

  /** Every interface before `i` listed its addresses and none of them is private. */
  ghost predicate PassedBefore(ifaces: seq<Interface>, i: nat)
    requires i <= |ifaces|
  {
    forall m :: 0 <= m < i ==> ifaces[m].addrs.Success? && NoPrivateAddr(ifaces[m].addrs.value)
  }

  /** Address `j` of interface `i` is the first private address in interface-then-address order. */
  ghost predicate FirstPrivateAt(ifaces: seq<Interface>, i: nat, j: nat) {
    && i < |ifaces|
    && PassedBefore(ifaces, i)
    && ifaces[i].addrs.Success?
    && j < |ifaces[i].addrs.value|
    && NoPrivateBefore(ifaces[i].addrs.value, j)
    && IsPrivate(AddrIP(ifaces[i].addrs.value[j]))
  }

  /** Position of the first private address of one interface, or `|addrs|` when there is none. */
  function FirstPrivateIndex(addrs: seq<Addr>): (j: nat)
    ensures j <= |addrs|
    ensures j < |addrs| ==> IsPrivate(AddrIP(addrs[j]))
    ensures forall k :: 0 <= k < j ==> !IsPrivate(AddrIP(addrs[k]))
    decreases |addrs|
  {
    if |addrs| == 0 then 0
    else if IsPrivate(AddrIP(addrs[0])) then 0
    else 1 + FirstPrivateIndex(addrs[1..])
  }

  /** Reference scan of one interface's addresses. */
  function FirstPrivateAddr(addrs: seq<Addr>): Option<IP> {
    var j := FirstPrivateIndex(addrs);
    if j < |addrs| then Some(AddrIP(addrs[j])) else None
  }

  /** Reference scan of the interfaces, in order. */
  function ScanInterfaces(ifaces: seq<Interface>): (r: Result<IP, LocalIPError>)
    decreases |ifaces|
  {
    if |ifaces| == 0 then Failure(NoIP)
    else match ifaces[0].addrs
      case Failure(e) => Failure(OsError(e))
      case Success(addrs) =>
        match FirstPrivateAddr(addrs)
        case Some(ip) => Success(ip)
        case None => ScanInterfaces(ifaces[1..])
  }

  /** What `LocalIP` returns, given the outcome of `net.Interfaces()`. */
  function LocalIPOf(interfaces: Result<seq<Interface>, string>): Result<IP, LocalIPError> {
    match interfaces
    case Failure(e) => Failure(OsError(e))
    case Success(ifaces) => ScanInterfaces(ifaces)
  }

  /** The first private address is the one before which no address is private. */
  lemma FirstPrivateIndexUnique(addrs: seq<Addr>, j: nat)
    requires j < |addrs| && NoPrivateBefore(addrs, j) && IsPrivate(AddrIP(addrs[j]))
    ensures FirstPrivateIndex(addrs) == j
  {
  }

  lemma FirstPrivateAddrNone(addrs: seq<Addr>)
    ensures FirstPrivateAddr(addrs).None? <==> NoPrivateAddr(addrs)
  {
  }

  /** Whatever `LocalIP` finds is the first private address, in interface-then-address order. */
  lemma {:induction false} ScanFoundIsFirstPrivate(ifaces: seq<Interface>, ip: IP)
    requires ScanInterfaces(ifaces) == Success(ip)
    ensures IsPrivate(ip)
    ensures exists i: nat, j: nat :: FirstPrivateAt(ifaces, i, j) && ip == AddrIP(ifaces[i].addrs.value[j])
    decreases |ifaces|
  {
    var addrs := ifaces[0].addrs.value;
    if FirstPrivateAddr(addrs).Some? {
      var j := FirstPrivateIndex(addrs);
      assert FirstPrivateAt(ifaces, 0, j);
    } else {
      FirstPrivateAddrNone(addrs);
      ScanFoundIsFirstPrivate(ifaces[1..], ip);
      var i: nat, j: nat :| FirstPrivateAt(ifaces[1..], i, j) && ip == AddrIP(ifaces[1..][i].addrs.value[j]);
      assert FirstPrivateAt(ifaces, i + 1, j) by {
        assert forall m :: 1 <= m <= i ==> ifaces[m] == ifaces[1..][m - 1];
      }
    }
  }

  /** And the first private address is what `LocalIP` finds. */
  lemma {:induction false} FirstPrivateIsFound(ifaces: seq<Interface>, i: nat, j: nat)
    requires FirstPrivateAt(ifaces, i, j)
    ensures ScanInterfaces(ifaces) == Success(AddrIP(ifaces[i].addrs.value[j]))
    decreases i
  {
    if i == 0 {
      FirstPrivateIndexUnique(ifaces[0].addrs.value, j);
    } else {
      FirstPrivateAddrNone(ifaces[0].addrs.value);
      assert FirstPrivateAt(ifaces[1..], i - 1, j) by {
        assert forall m :: 0 <= m < i - 1 ==> ifaces[1..][m] == ifaces[m + 1];
      }
      FirstPrivateIsFound(ifaces[1..], i - 1, j);
    }
  }

  /** `LocalIP` reports "no IP" exactly when every interface listed its addresses and none is private. */
  lemma {:induction false} ScanNoIP(ifaces: seq<Interface>)
    ensures ScanInterfaces(ifaces) == Failure(NoIP) <==> PassedBefore(ifaces, |ifaces|)
    decreases |ifaces|
  {
    if |ifaces| > 0 {
      ScanNoIP(ifaces[1..]);
      assert PassedBefore(ifaces, |ifaces|) <==>
        ifaces[0].addrs.Success? && NoPrivateAddr(ifaces[0].addrs.value) && PassedBefore(ifaces[1..], |ifaces| - 1)
      by {
        assert forall m :: 1 <= m < |ifaces| ==> ifaces[m] == ifaces[1..][m - 1];
      }
      if ifaces[0].addrs.Success? {
        FirstPrivateAddrNone(ifaces[0].addrs.value);
      }
    }
  }

  /**
   * An `Addrs()` failure is returned as it is, exactly when no earlier
   * interface had a private address.
   */
  lemma {:induction false} ScanOsError(ifaces: seq<Interface>, e: string)
    ensures ScanInterfaces(ifaces) == Failure(OsError(e)) <==>
      exists i :: 0 <= i < |ifaces| && PassedBefore(ifaces, i) && ifaces[i].addrs == Failure(e)
    decreases |ifaces|
  {
    if |ifaces| > 0 {
      ScanOsError(ifaces[1..], e);
      if ifaces[0].addrs.Success? {
        FirstPrivateAddrNone(ifaces[0].addrs.value);
        if exists i :: 0 <= i < |ifaces| && PassedBefore(ifaces, i) && ifaces[i].addrs == Failure(e) {
          var i :| 0 <= i < |ifaces| && PassedBefore(ifaces, i) && ifaces[i].addrs == Failure(e);
          assert PassedBefore(ifaces[1..], i - 1) && ifaces[1..][i - 1].addrs == Failure(e);
        }
        if exists i :: 0 <= i < |ifaces[1..]| && PassedBefore(ifaces[1..], i) && ifaces[1..][i].addrs == Failure(e) {
          var i :| 0 <= i < |ifaces[1..]| && PassedBefore(ifaces[1..], i) && ifaces[1..][i].addrs == Failure(e);
          if NoPrivateAddr(ifaces[0].addrs.value) {
            assert PassedBefore(ifaces, i + 1) by {
              assert forall m :: 1 <= m <= i ==> ifaces[m] == ifaces[1..][m - 1];
            }
          }
        }
      } else {
        assert PassedBefore(ifaces, 0);
      }
    }
  }

  /** The inner loop of `LocalIP`: the first private address of one interface, if any. */
  method FirstPrivateOf(addrs: seq<Addr>) returns (r: Option<IP>)
    ensures r == FirstPrivateAddr(addrs)
  {
    for j := 0 to |addrs|
      invariant NoPrivateBefore(addrs, j)
    {
      var ip := AddrIP(addrs[j]);
      var isPrivate := IsPrivateIP(ip);
      if isPrivate {
        FirstPrivateIndexUnique(addrs, j);
        return Some(ip);
      }
    }
    FirstPrivateAddrNone(addrs);
    return None;
  }

  /**
   * `LocalIP`: a failed interface enumeration or address listing is
   * returned at once; otherwise the first private address, in
   * interface-then-address order, or "no IP".
   */
  method LocalIP(interfaces: Result<seq<Interface>, string>) returns (r: Result<IP, LocalIPError>)
    ensures r == LocalIPOf(interfaces)
    ensures r.Success? ==> IsPrivate(r.value)
  {
    if interfaces.Failure? {
      return Failure(OsError(interfaces.error));
    }
    var ifaces := interfaces.value;
    for i := 0 to |ifaces|
      invariant ScanInterfaces(ifaces) == ScanInterfaces(ifaces[i..])
    {
      assert ifaces[i..][0] == ifaces[i] && ifaces[i..][1..] == ifaces[i + 1..];
      if ifaces[i].addrs.Failure? {
        return Failure(OsError(ifaces[i].addrs.error));
      }
      var found := FirstPrivateOf(ifaces[i].addrs.value);
      if found.Some? {
        return Success(found.value);
      }
    }
    return Failure(NoIP);
  }
}
