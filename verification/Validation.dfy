/** Configuration checks (daemon/src/validation.rs) and the partial operations that rely on them
    (daemon/src/session.rs, daemon/src/ip_util.rs, platform/mod.rs). */
module Validation {
  import opened Results
  import opened Sequences
  import opened Cidr
  import opened Domains
  import opened Hostnames
  import InterfaceName

  const MIN_MTU := 576
  const MIN_IPV6_MTU := 1280
  const MAX_MTU := 65535
  const MAX_DNS_SERVERS := 64
  const MAX_ADDRESSES := 64
  const MAX_ROUTES := 256

  newtype U8 = n: int | 0 <= n < 0x100
  newtype U16 = n: int | 0 <= n < 0x1_0000

  /** A block as it arrives: the address may be missing and the prefix is any `u32`. */
  datatype ProtoCidr = ProtoCidr(ip: Option<Ip>, prefix: nat)

  datatype Dns = Dns(servers: seq<Ip>, searchDomains: seq<string>)

  datatype Config = Config(
    interfaceName: string,
    addresses: seq<ProtoCidr>,
    allowedIps: seq<ProtoCidr>,
    mtu: int,
    dns: Option<Dns>)

  /** `parse_proto_ip`: an address of the wrong length, or none, does not parse. */
  function ParseIp(ip: Ip): Option<Ip>
  {
    if ValidIp(ip) then Some(ip) else None
  }

  function ParseCidr(c: ProtoCidr): Option<Cidr>
  {
    if c.ip.None? || ParseIp(c.ip.value).None? then None else Some(Cidr(c.ip.value, c.prefix))
  }

  // ----------------------------------------------------------------- checks

  /** `validate_cidr_list` */
  predicate CidrsPass(values: seq<ProtoCidr>)
  {
    forall i :: 0 <= i < |values| ==>
      var c := ParseCidr(values[i]);
      c.Some? && c.value.prefix <= if c.value.ip.V4? then 32 else 128
  }

  /** The list check accepts exactly the lists of well-formed blocks. */
  lemma CidrsPassIff(values: seq<ProtoCidr>)
    ensures CidrsPass(values)
            <==> forall i :: 0 <= i < |values| ==> values[i].ip.Some? && ValidCidr(Cidr(values[i].ip.value, values[i].prefix))
  {
    if CidrsPass(values) {
      forall i | 0 <= i < |values|
        ensures values[i].ip.Some? && ValidCidr(Cidr(values[i].ip.value, values[i].prefix))
      {
        assert ParseCidr(values[i]).Some?;
      }
    }
  }

  predicate HasIpv6(addresses: seq<ProtoCidr>)
  {
    exists i :: 0 <= i < |addresses| && ParseCidr(addresses[i]).Some? && ParseCidr(addresses[i]).value.ip.V6?
  }

  predicate MtuPasses(mtu: int, addresses: seq<ProtoCidr>)
  {
    MIN_MTU <= mtu <= MAX_MTU && !(HasIpv6(addresses) && mtu < MIN_IPV6_MTU)
  }

  predicate DnsPasses(dns: Dns)
  {
    && |dns.servers| <= MAX_DNS_SERVERS && |dns.searchDomains| <= MAX_DNS_DOMAINS
    && !((dns.searchDomains == [] && dns.servers != []) || (dns.searchDomains != [] && dns.servers == []))
    && (forall i :: 0 <= i < |dns.searchDomains| ==> AcceptedDomain(dns.searchDomains[i]))
    && (forall i :: 0 <= i < |dns.servers| ==> ParseIp(dns.servers[i]).Some?)
  }

  /** The settings in force: none given means none of either. */
  function DnsOf(config: Config): Dns
  {
    if config.dns.Some? then config.dns.value else Dns([], [])
  }

  /** `validate_config` succeeds. */
  predicate Accepted(config: Config, macos: bool)
  {
    && InterfaceName.Passes(config.interfaceName, macos)
    && config.addresses != [] && CidrsPass(config.addresses) && |config.addresses| <= MAX_ADDRESSES
    && CidrsPass(config.allowedIps) && |config.allowedIps| <= MAX_ROUTES
    && (config.mtu != 0 ==> MtuPasses(config.mtu, config.addresses))
    && DnsPasses(DnsOf(config))
  }

  // ---------------------------------------------------------- later stages

  /** An address as the device builder takes it. */
  datatype DeviceAddress = DeviceAddress(ip: Ip, prefix: U8)

  /** The builder loop of `SessionManager::start`: for an accepted configuration every unwrap succeeds, no prefix or MTU is
      cut, and every address reaches the device in order. */
  method DeviceSettings(config: Config, macos: bool) returns (addresses: seq<DeviceAddress>, mtu: Option<U16>)
    requires Accepted(config, macos)
    ensures |addresses| == |config.addresses| > 0
    ensures forall i :: 0 <= i < |addresses| ==>
              && ValidCidr(Cidr(addresses[i].ip, addresses[i].prefix as int))
              && config.addresses[i] == ProtoCidr(Some(addresses[i].ip), addresses[i].prefix as int)
    ensures mtu.None? <==> config.mtu == 0
    ensures mtu.Some? ==> mtu.value as int == config.mtu >= MIN_MTU
    ensures mtu.Some? && (exists i :: 0 <= i < |addresses| && addresses[i].ip.V6?) ==> config.mtu >= MIN_IPV6_MTU
  {
    hide DnsPasses, InterfaceName.Passes;
    addresses := [];
    for i := 0 to |config.addresses|
      invariant |addresses| == i
      invariant forall k :: 0 <= k < i ==>
                  && ValidCidr(Cidr(addresses[k].ip, addresses[k].prefix as int))
                  && config.addresses[k] == ProtoCidr(Some(addresses[k].ip), addresses[k].prefix as int)
    {
      var c := ParseCidr(config.addresses[i]).value;
      addresses := addresses + [DeviceAddress(c.ip, c.prefix as U8)];
    }
    mtu := None;
    if config.mtu > 0 {
      mtu := Some(config.mtu as U16);
    }
    forall i | 0 <= i < |addresses| && addresses[i].ip.V6?
      ensures HasIpv6(config.addresses)
    {
      assert ParseCidr(config.addresses[i]).Some?;
    }
  }

  /** The routes of `build_and_filter_routes` before filtering; an entry that does not parse or fit is skipped. */
  function ParsedRoutes(values: seq<ProtoCidr>): seq<Cidr>
  {
    if values == [] then []
    else
      var before, c := ParsedRoutes(values[..|values| - 1]), ParseCidr(values[|values| - 1]);
      if c.Some? && c.value.prefix < 0x100 then before + [c.value] else before
  }

  /** For an accepted configuration no allowed IP is skipped, and all routes are well formed. */
  lemma {:induction false} NoRouteSkipped(values: seq<ProtoCidr>)
    requires CidrsPass(values)
    ensures |ParsedRoutes(values)| == |values| && ValidCidrs(ParsedRoutes(values))
    ensures forall i :: 0 <= i < |values| ==> ParseCidr(values[i]) == Some(ParsedRoutes(values)[i])
  {
    if values != [] {
      var front := values[..|values| - 1];
      assert forall i :: 0 <= i < |front| ==> front[i] == values[i];
      NoRouteSkipped(front);
      var c := ParseCidr(values[|values| - 1]);
      assert ValidCidr(c.value);
    }
  }

  function Printed(values: seq<Ip>, show: Ip -> string): seq<string>
  {
    seq(|values|, i requires 0 <= i < |values| => show(values[i]))
  }

  /** `ips_to_args`: servers printed without repetition. On accepted servers printing never fails. */
  method IpsToArgs(values: seq<Ip>, show: Ip -> string) returns (seen: seq<string>)
    requires forall i :: 0 <= i < |values| ==> ParseIp(values[i]).Some?
    ensures seen == FirstOccurrences(Printed(values, show))
  {
    ghost var printed := Printed(values, show);
    seen := [];
    for i := 0 to |values|
      invariant seen == FirstOccurrences(printed[..i])
    {
      assert printed[..i + 1][..i] == printed[..i];
      var ip := show(ParseIp(values[i]).value);
      if ip !in seen {
        seen := seen + [ip];
      }
    }
    assert printed[..|values|] == printed;
  }

  /** DNS of an accepted configuration: servers and domains are both present after normalisation or both absent, so the
      guard of `configure_session` is true exactly when DNS was requested. */
  method DnsSettings(config: Config, macos: bool, show: Ip -> string) returns (servers: seq<string>, domains: seq<string>)
    requires Accepted(config, macos)
    ensures (servers != [] && domains != []) <==> DnsOf(config).servers != []
    ensures (servers == [] && domains == []) <==> DnsOf(config).servers == []
    ensures |servers| <= MAX_DNS_SERVERS && |domains| <= MAX_DNS_DOMAINS
    ensures NoDuplicates(servers) && NoDuplicates(domains)
    ensures domains == Normalised(DnsOf(config).searchDomains) == Normalised(domains)
    ensures forall i :: 0 <= i < |domains| ==> IsHostname(domains[i])
  {
    hide InterfaceName.Passes, CidrsPass, MtuPasses, AcceptedDomain, Normalised, FirstOccurrences, NoDuplicates, IsHostname;
    var dns := DnsOf(config);
    servers := IpsToArgs(dns.servers, show);
    domains := NormalizeDomains(dns.searchDomains);
    AcceptedDomainsNormalise(dns.searchDomains);
    NormalFormIsShorter(dns.searchDomains);
    ghost var printed := Printed(dns.servers, show);
    NothingDropped(printed);
    OccurrencesAreDistinct(printed);
    if dns.servers != [] {
      SameElements(printed, printed[0]);
      assert dns.searchDomains != [] && Clean(dns.searchDomains[0]) in domains;
    }
  }
}
