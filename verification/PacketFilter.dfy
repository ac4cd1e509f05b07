/** The packet filter: header parsing, ordered rules, the name blocklist and the counters. */
module PacketFilter {
  import opened Wrappers
  import opened Bytes
  import opened Text
  import opened DnsName
  import opened DnsBlocklist

  const PROTO_ICMP: byte := 1
  const PROTO_TCP: byte := 6
  const PROTO_UDP: byte := 17
  const DNS_PORT: nat := 53

  datatype Direction = In | Out

  datatype Protocol = Tcp | Udp | Icmp | AnyProtocol

  datatype Action = Allow | Deny | LogAndAllow | LogAndDeny {
    predicate IsAllow() { Allow? || LogAndAllow? }
    predicate IsLogged() { LogAndAllow? || LogAndDeny? }
  }

  // ---- Addresses: 32-bit words, most significant bit first ----

  const ZERO_WORD: seq<bool> := [false, false, false, false, false, false, false, false,
                                 false, false, false, false, false, false, false, false,
                                 false, false, false, false, false, false, false, false,
                                 false, false, false, false, false, false, false, false]

  type Word = w: seq<bool> | |w| == 32 witness ZERO_WORD

  function And(a: Word, b: Word): Word {
    seq(32, k requires 0 <= k < 32 => a[k] && b[k])
  }

  function ShiftLeft(a: Word, n: nat): Word
    requires n <= 32
  {
    a[n..] + seq(n, _ => false)
  }

  function AllOnes(): Word {
    seq(32, _ => true)
  }

  /** Four octets in network order. */
  function Address(a: byte, b: byte, c: byte, d: byte): Word {
    MsbFirst(a) + MsbFirst(b) + MsbFirst(c) + MsbFirst(d)
  }

  function MsbFirst(b: byte): (r: seq<bool>)
    ensures |r| == 8
  {
    var o := ToOctet(b);
    [o[7], o[6], o[5], o[4], o[3], o[2], o[1], o[0]]
  }

  datatype AddressMatch = AddressMatch(addr: Word, mask: Word) {
    predicate Matches(a: Word) {
      And(a, mask) == And(addr, mask)
    }
  }

  function AnyAddress(): AddressMatch {
    AddressMatch(ZERO_WORD, ZERO_WORD)
  }

  function Host(addr: Word): AddressMatch {
    AddressMatch(addr, AllOnes())
  }

  function Subnet(addr: Word, prefixLen: nat): AddressMatch
    requires prefixLen <= 32
  {
    AddressMatch(addr, if prefixLen == 0 then ZERO_WORD else ShiftLeft(AllOnes(), 32 - prefixLen))
  }

  /** A subnet holds exactly the addresses that agree on its prefix; a host is the /32 of
      its address and "any" the /0 of whichever. */
  lemma SubnetExactly(addr: Word, prefixLen: nat, a: Word)
    requires prefixLen <= 32
    ensures Subnet(addr, prefixLen).Matches(a) <==> a[..prefixLen] == addr[..prefixLen]
    ensures Host(addr).Matches(a) <==> a == addr
    ensures AnyAddress().Matches(a)
  {
    MaskedPrefix(addr, a, Subnet(addr, prefixLen).mask, prefixLen);
    MaskedPrefix(addr, a, AllOnes(), 32);
    assert a[..32] == a && addr[..32] == addr;
    MaskedPrefix(ZERO_WORD, a, ZERO_WORD, 0);
  }

  lemma MaskedPrefix(x: Word, y: Word, mask: Word, n: nat)
    requires n <= 32 && forall k :: 0 <= k < 32 ==> mask[k] == (k < n)
    ensures And(y, mask) == And(x, mask) <==> y[..n] == x[..n]
  {
    if And(y, mask) == And(x, mask) {
      forall k | 0 <= k < n ensures y[k] == x[k] {
        assert And(y, mask)[k] == And(x, mask)[k];
      }
    }
    if y[..n] == x[..n] {
      forall k | 0 <= k < 32 ensures And(y, mask)[k] == And(x, mask)[k] {
        if k < n {
          assert y[..n][k] == x[..n][k];
        }
      }
    }
  }

  // ---- Rules ----

  datatype PortMatch = AnyPort | Single(port: nat) | Range(start: nat, end: nat) {
    predicate Matches(p: nat) {
      match this
      case AnyPort => true
      case Single(q) => p == q
      case Range(lo, hi) => lo <= p <= hi
    }
  }

  datatype Rule = Rule(
    direction: Direction, protocol: Protocol, srcAddr: AddressMatch, dstAddr: AddressMatch,
    srcPort: PortMatch, dstPort: PortMatch, action: Action)

  datatype PacketInfo = PacketInfo(
    direction: Direction, protocol: Protocol, srcAddr: Word, dstAddr: Word,
    srcPort: Option<nat>, dstPort: Option<nat>)

  // A packet without ports satisfies only the unconstrained selector.
  predicate PortOk(m: PortMatch, p: Option<nat>) {
    if p.Some? then m.Matches(p.value) else m.AnyPort?
  }

  predicate RuleMatches(r: Rule, info: PacketInfo) {
    && r.direction == info.direction
    && (r.protocol.AnyProtocol? || r.protocol == info.protocol)
    && r.srcAddr.Matches(info.srcAddr) && r.dstAddr.Matches(info.dstAddr)
    && PortOk(r.srcPort, info.srcPort) && PortOk(r.dstPort, info.dstPort)
  }

  /** The index of the first rule that matches, or the number of rules. */
  ghost function FirstMatch(rules: seq<Rule>, info: PacketInfo): (k: nat)
    ensures k <= |rules|
    ensures forall j :: 0 <= j < k ==> !RuleMatches(rules[j], info)
    ensures k < |rules| ==> RuleMatches(rules[k], info)
  {
    if rules == [] || RuleMatches(rules[0], info) then 0 else 1 + FirstMatch(rules[1..], info)
  }

  /** The action the ordered list prescribes: that of the first match, else deny. */
  ghost function Verdict(rules: seq<Rule>, info: PacketInfo): Action {
    var k := FirstMatch(rules, info);
    if k < |rules| then rules[k].action else Deny
  }

  method EvaluateRules(rules: seq<Rule>, info: PacketInfo) returns (r: Action)
    ensures r == Verdict(rules, info)
  {
    for i := 0 to |rules|
      invariant forall j :: 0 <= j < i ==> !RuleMatches(rules[j], info)
    {
      if RuleMatches(rules[i], info) {
        return rules[i].action;
      }
    }
    r := Deny;
  }

  // ---- Headers ----

  datatype Ipv4 = Ipv4(headerLen: nat, protocol: byte, srcAddr: Word, dstAddr: Word)

  datatype ParseError = TooShort(needed: nat, got: nat) | InvalidVersion(version: nat) | InvalidIhl(ihl: nat)

  function ParseIpv4(data: seq<byte>): (r: Result<Ipv4, ParseError>)
    ensures r.Ok? ==> 20 <= r.value.headerLen <= |data|
  {
    if |data| < 20 then Err(TooShort(20, |data|))
    else
      var version, ihl := data[0] as nat / 16, data[0] as nat % 16;
      if version != 4 then Err(InvalidVersion(version))
      else if ihl < 5 then Err(InvalidIhl(ihl))
      else if |data| < 4 * ihl then Err(TooShort(4 * ihl, |data|))
      else Ok(Ipv4(4 * ihl, data[9], Address(data[12], data[13], data[14], data[15]),
                   Address(data[16], data[17], data[18], data[19])))
  }

  /** The fields of a header in wire order: eight octets of service type, lengths and
      fragmentation, the protocol, the checksum, two addresses and options in whole words. */
  datatype Ipv4Fields = Ipv4Fields(
    middle: seq<byte>, protocol: byte, checksum: seq<byte>, src: seq<byte>, dst: seq<byte>, options: seq<byte>)

  ghost predicate WellSized(f: Ipv4Fields) {
    && |f.middle| == 8 && |f.checksum| == 2 && |f.src| == 4 && |f.dst| == 4
    && |f.options| % 4 == 0 && |f.options| <= 40
  }

  ghost function Ipv4Octets(f: Ipv4Fields): seq<byte>
    requires WellSized(f)
  {
    var first: byte := 0x45 + |f.options| / 4;
    [first] + f.middle + [f.protocol] + f.checksum + f.src + f.dst + f.options
  }

  ghost function Ipv4Of(f: Ipv4Fields): Ipv4
    requires WellSized(f)
  {
    Ipv4(20 + |f.options|, f.protocol, Address(f.src[0], f.src[1], f.src[2], f.src[3]),
         Address(f.dst[0], f.dst[1], f.dst[2], f.dst[3]))
  }

  /** A laid-out header in front of anything parses to its own fields. */
  lemma Ipv4RoundTrip(f: Ipv4Fields, payload: seq<byte>)
    requires WellSized(f)
    ensures ParseIpv4(Ipv4Octets(f) + payload) == Ok(Ipv4Of(f))
    ensures (Ipv4Octets(f) + payload)[20 + |f.options|..] == payload
  {
    var w := Ipv4Octets(f);
    Ipv4Layout(f, w);
    var all := w + payload;
    assert all[..|w|] == w;
    assert forall i :: 0 <= i < |w| ==> all[i] == w[i];
  }

  lemma Ipv4Layout(f: Ipv4Fields, w: seq<byte>)
    requires WellSized(f) && w == Ipv4Octets(f)
    ensures |w| == 20 + |f.options| && w[0] == 0x45 + |f.options| / 4 && w[9] == f.protocol
    ensures w[12] == f.src[0] && w[13] == f.src[1] && w[14] == f.src[2] && w[15] == f.src[3]
    ensures w[16] == f.dst[0] && w[17] == f.dst[1] && w[18] == f.dst[2] && w[19] == f.dst[3]
  {
  }

  /** And whatever parses is a laid-out header in front of its payload. */
  lemma ParsedIsLaidOut(data: seq<byte>) returns (f: Ipv4Fields)
    requires ParseIpv4(data).Ok?
    ensures WellSized(f) && ParseIpv4(data) == Ok(Ipv4Of(f)) && Ipv4Octets(f) == data[..20 + |f.options|]
  {
    var n := ParseIpv4(data).value.headerLen;
    f := Ipv4Fields(data[1..9], data[9], data[10..12], data[12..16], data[16..20], data[20..n]);
    assert data[0] == 0x45 + |f.options| / 4;
    assert data[..n] == [data[0]] + data[1..9] + [data[9]] + data[10..12] + data[12..16] + data[16..20] + data[20..n];
  }

  /** What does not parse is refused for its length, its version or its header length, in
      that order. */
  lemma Ipv4Faults(data: seq<byte>)
    ensures var r := ParseIpv4(data);
            if |data| < 20 then r == Err(TooShort(20, |data|))
            else if data[0] / 16 != 4 then r == Err(InvalidVersion(data[0] as nat / 16))
            else if data[0] % 16 < 5 then r == Err(InvalidIhl(data[0] as nat % 16))
            else if |data| < 4 * (data[0] % 16) as nat then r == Err(TooShort(4 * (data[0] % 16) as nat, |data|))
            else r.Ok?
  {
  }

  function Port(hi: byte, lo: byte): nat {
    256 * hi as nat + lo as nat
  }

  // Source and destination port of a transport header of at least `least` octets.
  function ParsePorts(data: seq<byte>, least: nat): Result<(nat, nat), ParseError>
    requires least >= 4
  {
    if |data| < least then Err(TooShort(least, |data|))
    else Ok((Port(data[0], data[1]), Port(data[2], data[3])))
  }

  // ---- The filter ----

  ghost function Classification(rules: seq<Rule>, blocklist: Option<seq<seq<byte>>>, packet: seq<byte>, d: Direction): Action {
    var ip := ParseIpv4(packet);
    if ip.Err? then Deny
    else
      var payload := packet[ip.value.headerLen..];
      var tcp, udp := ParsePorts(payload, 20), ParsePorts(payload, 8);
      if ip.value.protocol == PROTO_ICMP then
        Verdict(rules, PacketInfo(d, Icmp, ip.value.srcAddr, ip.value.dstAddr, None, None))
      else if ip.value.protocol == PROTO_TCP && tcp.Ok? then
        Verdict(rules, PacketInfo(d, Tcp, ip.value.srcAddr, ip.value.dstAddr, Some(tcp.value.0), Some(tcp.value.1)))
      else if ip.value.protocol == PROTO_UDP && udp.Ok?
        && !(udp.value.1 == DNS_PORT && blocklist.Some? && PayloadBlocked(blocklist.value, payload[8..])) then
        Verdict(rules, PacketInfo(d, Udp, ip.value.srcAddr, ip.value.dstAddr, Some(udp.value.0), Some(udp.value.1)))
      else Deny
  }

  /** What a filter has counted. */
  datatype Counts = Counts(allowed: nat, denied: nat, logged: nat)

  ghost function Recorded(c: Counts, a: Action): Counts {
    Counts(c.allowed + if a.IsAllow() then 1 else 0, c.denied + if a.IsAllow() then 0 else 1,
           c.logged + if a.IsLogged() then 1 else 0)
  }

  class Filter {
    var rules: seq<Rule>
    var blocklist: Option<seq<seq<byte>>>
    var packetsAllowed: nat
    var packetsDenied: nat
    var packetsLogged: nat

    constructor (ruleset: seq<Rule>)
      ensures rules == ruleset && blocklist == None && View() == Counts(0, 0, 0)
    {
      rules, blocklist := ruleset, None;
      packetsAllowed, packetsDenied, packetsLogged := 0, 0, 0;
    }

    ghost function View(): Counts
      reads this
    {
      Counts(packetsAllowed, packetsDenied, packetsLogged)
    }

    method SetBlocklist(b: Blocklist)
      modifies this
      ensures blocklist == Some(b.patterns) && rules == old(rules) && View() == old(View())
    {
      blocklist := Some(b.patterns);
    }

    method AddRule(r: Rule)
      modifies this`rules
      ensures rules == old(rules) + [r]
    {
      rules := rules + [r];
    }

    method Evaluate(packet: seq<byte>, direction: Direction) returns (a: Action)
      modifies this`packetsAllowed, this`packetsDenied, this`packetsLogged
      ensures a == Classification(rules, blocklist, packet, direction)
      ensures View() == Recorded(old(View()), a)
    {
      a := Classify(packet, direction);
      Record(a);
    }

    method Classify(packet: seq<byte>, direction: Direction) returns (a: Action)
      ensures a == Classification(rules, blocklist, packet, direction)
    {
      var parsed := ParseIpv4(packet);
      if parsed.Err? {
        return Deny;
      }
      var ip := parsed.value;
      var payload := packet[ip.headerLen..];
      var info: PacketInfo;
      if ip.protocol == PROTO_TCP {
        var tcp := ParsePorts(payload, 20);
        if tcp.Err? {
          return Deny;
        }
        info := PacketInfo(direction, Tcp, ip.srcAddr, ip.dstAddr, Some(tcp.value.0), Some(tcp.value.1));
      } else if ip.protocol == PROTO_UDP {
        var udp := ParsePorts(payload, 8);
        if udp.Err? {
          return Deny;
        }
        if udp.value.1 == DNS_PORT && blocklist.Some? {
          var blocked := BlocksDnsPayload(blocklist.value, payload[8..]);
          if blocked {
            return Deny;
          }
        }
        info := PacketInfo(direction, Udp, ip.srcAddr, ip.dstAddr, Some(udp.value.0), Some(udp.value.1));
      } else if ip.protocol == PROTO_ICMP {
        info := PacketInfo(direction, Icmp, ip.srcAddr, ip.dstAddr, None, None);
      } else {
        return Deny;
      }
      a := EvaluateRules(rules, info);
    }

    method Record(a: Action)
      modifies this`packetsAllowed, this`packetsDenied, this`packetsLogged
      ensures View() == Recorded(old(View()), a)
    {
      if a.IsAllow() {
        packetsAllowed := packetsAllowed + 1;
      } else {
        packetsDenied := packetsDenied + 1;
      }
      if a.IsLogged() {
        packetsLogged := packetsLogged + 1;
      }
    }
  }

  // ---- Name queries ----

  /** A UDP packet to the name port whose first question asks for `labels`. */
  ghost predicate Asks(packet: seq<byte>, labels: Name)
    requires GoodName(labels)
  {
    var ip := ParseIpv4(packet);
    && ip.Ok? && ip.value.protocol == PROTO_UDP
    && var payload := packet[ip.value.headerLen..];
    && |payload| >= 8 + DNS_HEADER_LEN && Port(payload[2], payload[3]) == DNS_PORT
    && (payload[12] != 0 || payload[13] != 0)
    && Wire(labels) <= payload[8 + DNS_HEADER_LEN..]
  }

  /** The packet as the rules see it. */
  ghost function UdpInfo(packet: seq<byte>, d: Direction): PacketInfo
    requires ParseIpv4(packet).Ok? && |packet| >= ParseIpv4(packet).value.headerLen + 8
  {
    var ip := ParseIpv4(packet).value;
    var payload := packet[ip.headerLen..];
    PacketInfo(d, Udp, ip.srcAddr, ip.dstAddr, Some(Port(payload[0], payload[1])), Some(Port(payload[2], payload[3])))
  }

  lemma UdpClassification(rules: seq<Rule>, patterns: seq<seq<byte>>, packet: seq<byte>, d: Direction)
    requires ParseIpv4(packet).Ok? && ParseIpv4(packet).value.protocol == PROTO_UDP
    requires |packet| >= ParseIpv4(packet).value.headerLen + 8
    ensures var payload := packet[ParseIpv4(packet).value.headerLen..];
            Classification(rules, Some(patterns), packet, d)
            == if Port(payload[2], payload[3]) == DNS_PORT && PayloadBlocked(patterns, payload[8..]) then Deny
               else Verdict(rules, UdpInfo(packet, d))
  {
  }

  /** A query is denied when an entry covers the pieces of its name, and in particular
      when one covers its labels; otherwise it gets the verdict of the rules. For names
      without dots inside labels the pieces are the labels. */
  lemma QueryVerdict(rules: seq<Rule>, entries: seq<seq<byte>>, packet: seq<byte>, d: Direction, labels: Name)
    requires labels != [] && |labels| <= 128 && GoodName(labels) && Asks(packet, labels)
    ensures Classification(rules, Some(PatternsOf(entries)), packet, d)
            == if Covered(entries, Pieces(labels)) then Deny else Verdict(rules, UdpInfo(packet, d))
    ensures Covered(entries, labels) ==> Covered(entries, Pieces(labels))
    ensures (forall k :: 0 <= k < |labels| ==> DotFree(labels[k])) ==> Pieces(labels) == labels
  {
    BlockedExactly(entries, labels);
    UdpClassification(rules, PatternsOf(entries), packet, d);
    var payload := packet[ParseIpv4(packet).value.headerLen..];
    assert payload[8..][DNS_HEADER_LEN..] == payload[8 + DNS_HEADER_LEN..];
    QueryBlockedExactly(entries, payload[8..], labels);
  }

  // What the rules see of a packet that gets as far as them.
  ghost function Seen(packet: seq<byte>, d: Direction): Option<PacketInfo> {
    var ip := ParseIpv4(packet);
    if ip.Err? then None
    else
      var h := ip.value;
      var ports := ParsePorts(packet[h.headerLen..], if h.protocol == PROTO_TCP then 20 else 8);
      if h.protocol == PROTO_ICMP then Some(PacketInfo(d, Icmp, h.srcAddr, h.dstAddr, None, None))
      else if (h.protocol != PROTO_TCP && h.protocol != PROTO_UDP) || ports.Err? then None
      else Some(PacketInfo(d, if h.protocol == PROTO_TCP then Tcp else Udp, h.srcAddr, h.dstAddr,
                           Some(ports.value.0), Some(ports.value.1)))
  }

  /** Fail closed: a packet passes only if it parses as one of the three protocols and
      the first rule that matches it allows it, and a blocklist can only turn verdicts
      into denials. */
  lemma FailsClosed(rules: seq<Rule>, blocklist: Option<seq<seq<byte>>>, packet: seq<byte>, d: Direction)
    ensures var a := Classification(rules, blocklist, packet, d);
            && (a == Deny || a == Classification(rules, None, packet, d))
            && (a == Allow || a == LogAndAllow ==>
                  && Seen(packet, d).Some?
                  && var k := FirstMatch(rules, Seen(packet, d).value);
                  k < |rules| && rules[k].action == a)
  {
  }

  /** A rule appended to the list decides exactly the packets no earlier rule matches. */
  lemma {:induction false} AppendedRule(rules: seq<Rule>, r: Rule, info: PacketInfo)
    ensures Verdict(rules + [r], info)
            == if FirstMatch(rules, info) < |rules| then Verdict(rules, info)
               else if RuleMatches(r, info) then r.action else Deny
  {
    var k, m := FirstMatch(rules, info), FirstMatch(rules + [r], info);
    assert forall j :: 0 <= j < |rules| ==> (rules + [r])[j] == rules[j];
    assert (rules + [r])[|rules|] == r;
    assert k < |rules| ==> m == k;
  }

  /** ASCII names are among those exactly when each label has 1 to 191 octets, which the 63
      of section 2.3.4 of RFC 1035 fall within. */
  lemma AsciiNames(labels: Name)
    requires forall k, m :: 0 <= k < |labels| && 0 <= m < |labels[k]| ==> labels[k][m] < 0x80
    ensures GoodName(labels) <==> forall k :: 0 <= k < |labels| ==> 1 <= |labels[k]| <= 191
  {
    forall k | 0 <= k < |labels| ensures IsUtf8(labels[k]) {
      AsciiIsUtf8(labels[k]);
    }
  }

  // ---- Counters over runs ----

  ghost function CountsAfter(actions: seq<Action>): Counts {
    if actions == [] then Counts(0, 0, 0)
    else Recorded(CountsAfter(actions[..|actions| - 1]), actions[|actions| - 1])
  }

  ghost function Logged(actions: seq<Action>): set<nat> {
    set k: nat | k < |actions| && (actions[k] == LogAndAllow || actions[k] == LogAndDeny)
  }

  ghost function Allowed(actions: seq<Action>): set<nat> {
    set k: nat | k < |actions| && (actions[k] == Allow || actions[k] == LogAndAllow)
  }

  /** Every evaluated packet is counted once: allowed and denied add up to their number,
      and each counter is the number of packets with such an action. */
  lemma {:induction false} PacketsAreCounted(actions: seq<Action>)
    ensures var c := CountsAfter(actions);
            && c.allowed + c.denied == |actions| && c.allowed == |Allowed(actions)| && c.logged == |Logged(actions)|
    decreases |actions|
  {
    if actions == [] {
      assert Allowed(actions) == {} && Logged(actions) == {};
    } else {
      var n := |actions| - 1;
      PacketsAreCounted(actions[..n]);
      OneMoreAllowed(actions, n);
      OneMoreLogged(actions, n);
    }
  }

  lemma OneMoreAllowed(actions: seq<Action>, n: nat)
    requires |actions| == n + 1
    ensures |Allowed(actions)| == |Allowed(actions[..n])| + if actions[n].IsAllow() then 1 else 0
  {
    assert Allowed(actions) == Allowed(actions[..n]) + if actions[n].IsAllow() then {n} else {};
  }

  lemma OneMoreLogged(actions: seq<Action>, n: nat)
    requires |actions| == n + 1
    ensures |Logged(actions)| == |Logged(actions[..n])| + if actions[n].IsLogged() then 1 else 0
  {
    assert Logged(actions) == Logged(actions[..n]) + if actions[n].IsLogged() then {n} else {};
  }
}
