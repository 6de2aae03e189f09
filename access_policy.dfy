/**
  `is_allowed_ip`, the admission check both forward relays run on every
  accepted connection. Subnet membership (`Ipv4Cidr::contains`,
  `Ipv6Cidr::contains`) is a parameter of the model, as are the subnet types.
 */
module AccessPolicy {
  import opened Wrappers

  /** `IpAddr`: an IPv4 address as 32 bits or an IPv6 address as 128 bits. */
  datatype IpAddr = V4(v4: bv32) | V6(v6: bv128)

  /** `subnets.iter().any(|subnet| subnet.contains(a))`. */
  function AnyContains<C, T>(subnets: seq<C>, a: T, contains: (C, T) -> bool): (r: bool)
    ensures r <==> exists i :: 0 <= i < |subnets| && contains(subnets[i], a)
    decreases |subnets|
  {
    if subnets == [] then false
    else contains(subnets[0], a) || AnyContains(subnets[1..], a, contains)
  }

  /** `is_allowed_ip`: the explicit allow-list first, then the subnets of the
      address's own family. */
  function IsAllowedIp<C4, C6>(ip: IpAddr, ipv6Subnets: seq<C6>, ipv4Subnets: seq<C4>,
                               allowedIps: Option<seq<IpAddr>>,
                               contains4: (C4, bv32) -> bool, contains6: (C6, bv128) -> bool): (r: bool)
    ensures allowedIps.Some? && ip in allowedIps.value ==> r
    ensures r && ip.V4? && !(allowedIps.Some? && ip in allowedIps.value) ==>
      exists i :: 0 <= i < |ipv4Subnets| && contains4(ipv4Subnets[i], ip.v4)
    ensures r && ip.V6? && !(allowedIps.Some? && ip in allowedIps.value) ==>
      exists i :: 0 <= i < |ipv6Subnets| && contains6(ipv6Subnets[i], ip.v6)
    ensures ip.V4? && (exists i :: 0 <= i < |ipv4Subnets| && contains4(ipv4Subnets[i], ip.v4)) ==> r
    ensures ip.V6? && (exists i :: 0 <= i < |ipv6Subnets| && contains6(ipv6Subnets[i], ip.v6)) ==> r
  {
    if allowedIps.Some? && ip in allowedIps.value then true
    else match ip
      case V4(a) => AnyContains(ipv4Subnets, a, contains4)
      case V6(a) => AnyContains(ipv6Subnets, a, contains6)
  }

  /** The check never looks at the other family's subnets. */
  lemma OtherFamilyIgnored<C4, C6>(ip: IpAddr, ipv6Subnets: seq<C6>, otherV6: seq<C6>,
                                   ipv4Subnets: seq<C4>, otherV4: seq<C4>,
                                   allowedIps: Option<seq<IpAddr>>,
                                   contains4: (C4, bv32) -> bool, contains6: (C6, bv128) -> bool)
    ensures ip.V4? ==>
      (IsAllowedIp(ip, ipv6Subnets, ipv4Subnets, allowedIps, contains4, contains6) <==>
       IsAllowedIp(ip, otherV6, ipv4Subnets, allowedIps, contains4, contains6))
    ensures ip.V6? ==>
      (IsAllowedIp(ip, ipv6Subnets, ipv4Subnets, allowedIps, contains4, contains6) <==>
       IsAllowedIp(ip, ipv6Subnets, otherV4, allowedIps, contains4, contains6))
  {
  }

  /** With no allow-list and no subnets nothing is admitted. */
  lemma NothingConfigured<C4, C6>(ip: IpAddr, contains4: (C4, bv32) -> bool, contains6: (C6, bv128) -> bool)
    ensures !IsAllowedIp(ip, [], [], None, contains4, contains6)
  {
  }
}
