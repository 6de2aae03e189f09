/**
  The outbound IPv6 address chooser of the hyper proxy (src/proxy.rs): a
  per-hostname address that keeps the configured network bits and takes its
  host bits from a random 128-bit value, remembered in a map that only grows;
  and the `ip addr add` / `traceroute` command lines run for system routing.
  A `u128` is a sequence of 128 bits, most significant first; shifts and
  `|` are written out on those bits.
  The random values are parameters, and the textual form of an address
  (`Display for Ipv6Addr`) is an input of the command builders.
 */
module OutboundAddress {
  import opened Text

  // ---------------------------------------------------------------------
  // u128 as 128 bits, most significant first
  // ---------------------------------------------------------------------

  function Zeros(n: nat): (z: seq<bool>)
    ensures |z| == n && forall i :: 0 <= i < n ==> !z[i]
  {
    seq(n, _ => false)
  }

  /** A `u128`: bit 0 is the most significant. */
  type U128 = w: seq<bool> | |w| == 128 witness Zeros(128)

  /** `x >> n` as a mathematical shift: a shift by 128 or more clears the
      word. Rust's `u128` shift differs there (see `AsWrittenAddress`). */
  function Shr(x: U128, n: nat): U128 {
    if n >= 128 then Zeros(128) else Zeros(n) + x[..128 - n]
  }

  /** `x << n` as a mathematical shift: the bits shifted out of the word are
      lost, and a shift by 128 or more clears the word. */
  function Shl(x: U128, n: nat): U128 {
    if n >= 128 then Zeros(128) else x[n..] + Zeros(n)
  }

  /** `x | y`. */
  function Or(x: U128, y: U128): (r: U128)
    ensures forall i :: 0 <= i < 128 ==> r[i] == (x[i] || y[i])
  {
    seq(128, i requires 0 <= i < 128 => x[i] || y[i])
  }

  // ---------------------------------------------------------------------
  // get_rand_ipv6 (173-176)
  // ---------------------------------------------------------------------

  /** `(ipv6 >> (128 - p)) << (128 - p)`: the top `p` bits of the base. */
  function NetPart(base: U128, prefixLen: nat): (n: U128)
    requires prefixLen <= 128
    ensures n == base[..prefixLen] + Zeros(128 - prefixLen)
  {
    var h := 128 - prefixLen;
    var n := Shl(Shr(base, h), h);
    assert prefixLen > 0 ==> Shr(base, h)[h..] == base[..prefixLen];
    n
  }

  /** `(rand << p) >> p`: the low `128 - p` bits of the random value. */
  function HostPart(rand: U128, prefixLen: nat): (h: U128)
    requires prefixLen <= 128
    ensures h == Zeros(prefixLen) + rand[prefixLen..]
  {
    var h := Shr(Shl(rand, prefixLen), prefixLen);
    assert prefixLen < 128 ==> Shl(rand, prefixLen)[..128 - prefixLen] == rand[prefixLen..];
    h
  }

  /** A fresh address: the top `prefixLen` bits of `base`, the low
      `128 - prefixLen` bits of `rand`. Shifts are taken mathematically, so a
      shift by 128 clears the word. */
  function NewAddress(base: U128, prefixLen: nat, rand: U128): (a: U128)
    requires prefixLen <= 128
    ensures a[..prefixLen] == base[..prefixLen]
    ensures a[prefixLen..] == rand[prefixLen..]
  {
    var a := Or(NetPart(base, prefixLen), HostPart(rand, prefixLen));
    assert a == base[..prefixLen] + rand[prefixLen..];
    a
  }

  /** The two conditions pin the address down: no other word keeps the
      network bits of `base` and the host bits of `rand`. */
  lemma NewAddressUnique(base: U128, prefixLen: nat, rand: U128, a: U128)
    requires prefixLen <= 128
    requires a[..prefixLen] == base[..prefixLen] && a[prefixLen..] == rand[prefixLen..]
    ensures a == NewAddress(base, prefixLen, rand)
  {
    var b := NewAddress(base, prefixLen, rand);
    assert a == a[..prefixLen] + a[prefixLen..];
    assert b == b[..prefixLen] + b[prefixLen..];
  }

  /** A /0 prefix gives the random value itself, a /128 prefix the base. */
  lemma NewAddressEdges(base: U128, rand: U128)
    ensures NewAddress(base, 0, rand) == rand
    ensures NewAddress(base, 128, rand) == base
  {
    NewAddressUnique(base, 0, rand, rand);
    NewAddressUnique(base, 128, rand, base);
  }

  /** The address as the source computes it in a release build: a `u128`
      shift amount is taken modulo 128, so `128 - 0` and `128` shift by 0.
      (A debug build panics on those two shifts.) */
  function AsWrittenAddress(base: U128, prefixLen: nat, rand: U128): U128
    requires prefixLen <= 128
  {
    var up := (128 - prefixLen) % 128;
    var down := prefixLen % 128;
    Or(Shl(Shr(base, up), up), Shr(Shl(rand, down), down))
  }

  /** For prefixes 1 to 127 the source computes the intended address. */
  lemma AsWrittenAgrees(base: U128, prefixLen: nat, rand: U128)
    requires 1 <= prefixLen <= 127
    ensures AsWrittenAddress(base, prefixLen, rand) == NewAddress(base, prefixLen, rand)
  {
    assert (128 - prefixLen) % 128 == 128 - prefixLen;
    assert prefixLen % 128 == prefixLen;
    assert AsWrittenAddress(base, prefixLen, rand) == Or(NetPart(base, prefixLen), HostPart(rand, prefixLen));
  }

  /** The `u128` value 1. */
  const One: U128 := Zeros(127) + [true]

  /** For a /0 or /128 prefix the source ORs the base and the random value:
      with base 0 and rand 1 a /128 prefix yields 1, not the configured
      address 0; with base 1 and rand 0 a /0 prefix yields 1, not 0. */
  lemma AsWrittenEdgeCases(base: U128, rand: U128)
    ensures AsWrittenAddress(base, 0, rand) == Or(base, rand)
    ensures AsWrittenAddress(base, 128, rand) == Or(base, rand)
    ensures AsWrittenAddress(Zeros(128), 128, One) == One != NewAddress(Zeros(128), 128, One)
    ensures AsWrittenAddress(One, 0, Zeros(128)) == One != NewAddress(One, 0, Zeros(128))
  {
    assert Shl(Shr(base, 0), 0) == base;
    assert Shr(Shl(rand, 0), 0) == rand;
    NewAddressEdges(Zeros(128), One);
    NewAddressEdges(One, Zeros(128));
    assert Or(Zeros(128), One) == One;
    assert Or(One, Zeros(128)) == One;
    assert One[127] != Zeros(128)[127];
  }

  // ---------------------------------------------------------------------
  // The IP_MAP cache (17-20, 164-183)
  // ---------------------------------------------------------------------

  /** `get_rand_ipv6` on the map's contents: the address for `hostname` and
      the map afterwards. The prefix length is limited to 1..127, the range
      in which the source's shifts by `128 - prefix_len` and `prefix_len`
      are defined. */
  function Allocate(ipMap: map<string, U128>, base: U128, prefixLen: nat, hostname: string, rand: U128)
    : (r: (U128, map<string, U128>))
    requires 1 <= prefixLen <= 127
    ensures hostname in ipMap ==> r.0 == ipMap[hostname] && r.1 == ipMap
    ensures hostname !in ipMap ==>
      r.1.Keys == ipMap.Keys + {hostname} && r.1[hostname] == r.0
      && r.0[..prefixLen] == base[..prefixLen] && r.0[prefixLen..] == rand[prefixLen..]
    ensures forall h :: h in ipMap ==> h in r.1 && r.1[h] == ipMap[h]
  {
    if hostname in ipMap then (ipMap[hostname], ipMap)
    else
      var ip := NewAddress(base, prefixLen, rand);
      (ip, ipMap[hostname := ip])
  }

  /** A second request for the same hostname gets the same address and leaves
      the map alone, whatever the random values were. */
  lemma AllocateStable(ipMap: map<string, U128>, base: U128, prefixLen: nat, hostname: string,
                       rand1: U128, rand2: U128)
    requires 1 <= prefixLen <= 127
    ensures var first := Allocate(ipMap, base, prefixLen, hostname, rand1);
      var second := Allocate(first.1, base, prefixLen, hostname, rand2);
      second.0 == first.0 && second.1 == first.1
  {
  }

  /** The map after a series of requests. */
  function AllocateAll(ipMap: map<string, U128>, base: U128, prefixLen: nat,
                       hostnames: seq<string>, rands: seq<U128>): map<string, U128>
    requires 1 <= prefixLen <= 127 && |rands| == |hostnames|
    decreases |hostnames|
  {
    if hostnames == [] then ipMap
    else AllocateAll(Allocate(ipMap, base, prefixLen, hostnames[0], rands[0]).1,
                     base, prefixLen, hostnames[1..], rands[1..])
  }

  /** The address a hostname is given never changes afterwards, and every
      requested hostname ends up in the map, whichever hostnames are
      requested later with whichever random values. */
  lemma {:induction false} AllocationPersists(ipMap: map<string, U128>, base: U128, prefixLen: nat,
                                              hostnames: seq<string>, rands: seq<U128>, h: string)
    requires 1 <= prefixLen <= 127 && |rands| == |hostnames|
    ensures var m := AllocateAll(ipMap, base, prefixLen, hostnames, rands);
      (h in ipMap ==> h in m && m[h] == ipMap[h]) && (h in hostnames ==> h in m)
    decreases |hostnames|
  {
    if hostnames != [] {
      var m1 := Allocate(ipMap, base, prefixLen, hostnames[0], rands[0]).1;
      AllocationPersists(m1, base, prefixLen, hostnames[1..], rands[1..], h);
      if h in hostnames && h != hostnames[0] {
        assert h in hostnames[1..];
      }
    }
  }

  /** `IP_MAP`: the process-wide hostname to address map. */
  class AddressCache {
    var ipMap: map<string, U128>

    constructor ()
      ensures ipMap == map[]
    {
      ipMap := map[];
    }

    /** `get_rand_ipv6`: the cached address, or a fresh one that is stored.
        The prefix length is 1 to 127, where the source's shifts are defined
        and compute `NewAddress` (`AsWrittenAgrees`). */
    method GetRandIpv6(base: U128, prefixLen: nat, hostname: string, rand: U128) returns (ip: U128)
      requires 1 <= prefixLen <= 127
      modifies this
      ensures (ip, ipMap) == Allocate(old(ipMap), base, prefixLen, hostname, rand)
    {
      if hostname in ipMap {
        return ipMap[hostname];
      }
      var netPart := Shl(Shr(base, 128 - prefixLen), 128 - prefixLen);
      var hostPart := Shr(Shl(rand, prefixLen), prefixLen);
      ip := Or(netPart, hostPart);
      ipMap := ipMap[hostname := ip];
    }

    /** `get_rand_ipv6_socket_addr`: the cached address for the key and a
        random port. */
    method GetRandIpv6SocketAddr(base: U128, prefixLen: nat, addrStr: string, rand: U128, port: nat)
      returns (sa: SocketAddrV6)
      requires 1 <= prefixLen <= 127 && port < 0x1_0000
      modifies this
      ensures (sa.ip, ipMap) == Allocate(old(ipMap), base, prefixLen, addrStr, rand)
      ensures sa.port == port
    {
      var ip := GetRandIpv6(base, prefixLen, addrStr, rand);
      sa := SocketAddrV6(ip, port);
    }
  }

  datatype SocketAddrV6 = SocketAddrV6(ip: U128, port: nat)

  // ---------------------------------------------------------------------
  // System-route command lines (89-95, 128-134)
  // ---------------------------------------------------------------------

  /** `format!("ip addr add {}/{} dev {}", addr, prefix_len, interface)`. */
  function AddAddressCommand(addrText: string, prefixLen: nat, iface: string): string {
    "ip addr add " + addrText + "/" + Decimal(prefixLen) + " dev " + iface
  }

  /** `format!("traceroute -s {} {}", addr, gateway)`, run only with a gateway. */
  function TracerouteCommand(addrText: string, gateway: string): string {
    "traceroute -s " + addrText + " " + gateway
  }

  /** The commands run, in order, for one bound address. */
  function RouteCommands(addrText: string, prefixLen: nat, iface: string, gateway: string,
                         isSystemRoute: bool): (cmds: seq<string>)
    ensures !isSystemRoute ==> cmds == []
    ensures isSystemRoute ==> (|cmds| == (if gateway == "" then 1 else 2)
      && cmds[0] == AddAddressCommand(addrText, prefixLen, iface))
    ensures isSystemRoute && gateway != "" ==> cmds[1] == TracerouteCommand(addrText, gateway)
  {
    if !isSystemRoute then []
    else
      [AddAddressCommand(addrText, prefixLen, iface)]
      + (if gateway != "" then [TracerouteCommand(addrText, gateway)] else [])
  }

  /** The shell splits the add command into exactly these words when the
      address text and the interface name hold no space. */
  lemma AddAddressCommandWords(addrText: string, prefixLen: nat, iface: string)
    requires ' ' !in addrText && ' ' !in iface
    ensures Split(AddAddressCommand(addrText, prefixLen, iface), ' ')
      == ["ip", "addr", "add", addrText + "/" + Decimal(prefixLen), "dev", iface]
  {
    var arg := addrText + "/" + Decimal(prefixLen);
    var words := ["ip", "addr", "add", arg, "dev", iface];
    assert ' ' !in arg by {
      DecimalDigits(prefixLen);
    }
    AddAddressJoin(arg, iface);
    assert AddAddressCommand(addrText, prefixLen, iface) == "ip addr add " + arg + " dev " + iface;
    assert forall i :: 0 <= i < |words| ==> ' ' !in words[i];
    SplitJoin(words, ' ');
  }

  lemma AddAddressJoin(arg: string, iface: string)
    ensures Join(["ip", "addr", "add", arg, "dev", iface], ' ') == "ip addr add " + arg + " dev " + iface
  {
    JoinCons("dev", [iface], ' ');
    JoinCons(arg, ["dev", iface], ' ');
    var tail := arg + " dev " + iface;
    assert Join([arg, "dev", iface], ' ') == tail;
    JoinCons("add", [arg, "dev", iface], ' ');
    JoinCons("addr", ["add", arg, "dev", iface], ' ');
    JoinCons("ip", ["addr", "add", arg, "dev", iface], ' ');
    assert ["ip", "addr", "add", arg, "dev", iface] == ["ip"] + ["addr", "add", arg, "dev", iface];
    assert "ip addr add " + tail == "ip" + [' '] + ("addr" + [' '] + ("add" + [' '] + tail));
  }

  /** Likewise the traceroute command. */
  lemma TracerouteCommandWords(addrText: string, gateway: string)
    requires ' ' !in addrText && ' ' !in gateway
    ensures Split(TracerouteCommand(addrText, gateway), ' ') == ["traceroute", "-s", addrText, gateway]
  {
    var words := ["traceroute", "-s", addrText, gateway];
    JoinCons("traceroute", ["-s", addrText, gateway], ' ');
    JoinCons("-s", [addrText, gateway], ' ');
    JoinCons(addrText, [gateway], ' ');
    assert Join(words, ' ') == TracerouteCommand(addrText, gateway);
    SplitJoin(words, ' ');
  }

  lemma DecimalDigits(n: nat)
    ensures ' ' !in Decimal(n)
  {
    var d := Decimal(n);
    forall i | 0 <= i < |d| ensures d[i] != ' ' {
      assert IsDigit(d[i]);
    }
  }
}
