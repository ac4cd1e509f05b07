/** The verdict on a packet, read off its octets. */
module PacketRules {
  import opened Wrappers
  import opened Bytes
  import opened DnsName
  import opened DnsBlocklist
  import opened PacketFilter

  // ---- Octets ----

  /** An IPv4 header, complete by its own length field. */
  ghost predicate IsIpv4(packet: seq<byte>) {
    |packet| >= 20 && packet[0] / 16 == 4 && packet[0] % 16 >= 5 && |packet| >= 4 * (packet[0] % 16) as nat
  }

  // Where the payload begins.
  ghost function PayloadAt(packet: seq<byte>): nat
    requires IsIpv4(packet)
  {
    4 * (packet[0] % 16) as nat
  }

  /** Behind it ICMP, a whole TCP header or a whole UDP header. */
  ghost predicate Readable(packet: seq<byte>) {
    && IsIpv4(packet)
    && var at := PayloadAt(packet);
    (packet[9] == 1 || (packet[9] == 6 && |packet| >= at + 20) || (packet[9] == 17 && |packet| >= at + 8))
  }

  // Bit k of some octets in network order, the most significant bit first.
  ghost predicate BitAt(octets: seq<byte>, k: nat)
    requires k / 8 < |octets|
  {
    ToOctet(octets[k / 8])[7 - k % 8]
  }

  ghost function NumberAt(packet: seq<byte>, at: nat): nat
    requires at + 1 < |packet|
  {
    256 * packet[at] as nat + packet[at + 1] as nat
  }

  // ---- What a rule selects ----

  ghost predicate SelectsProtocol(p: Protocol, octet: byte) {
    match p
    case AnyProtocol => true
    case Tcp => octet == 6
    case Udp => octet == 17
    case Icmp => octet == 1
  }

  ghost predicate SelectsAddress(m: AddressMatch, octets: seq<byte>)
    requires |octets| == 4
  {
    forall k :: 0 <= k < 32 && m.mask[k] ==> BitAt(octets, k) == m.addr[k]
  }

  ghost predicate SelectsPort(m: PortMatch, packet: seq<byte>, at: nat)
    requires Readable(packet) && (packet[9] != 1 ==> at + 1 < |packet|)
  {
    match m
    case AnyPort => true
    case Single(port) => packet[9] != 1 && NumberAt(packet, at) == port
    case Range(start, end) => packet[9] != 1 && start <= NumberAt(packet, at) <= end
  }

  /** The rule's direction is the packet's; its protocol is that of octet 9; its source
      addresses hold octets 12 to 15 and its destination addresses octets 16 to 19; its
      source port is in the first two octets of the payload and its destination port in
      the next two. */
  ghost predicate Selects(r: Rule, packet: seq<byte>, d: Direction)
    requires Readable(packet)
  {
    && r.direction == d && SelectsProtocol(r.protocol, packet[9])
    && SelectsAddress(r.srcAddr, packet[12..16]) && SelectsAddress(r.dstAddr, packet[16..20])
    && SelectsPort(r.srcPort, packet, PayloadAt(packet)) && SelectsPort(r.dstPort, packet, PayloadAt(packet) + 2)
  }

  lemma AddressBits(octets: seq<byte>, k: nat)
    requires |octets| == 4 && k < 32
    ensures Address(octets[0], octets[1], octets[2], octets[3])[k] == BitAt(octets, k)
  {
    var q, x := k / 8, k % 8;
    assert k == 8 * q + x;
    FirstBit(octets[q], x);
    assert Address(octets[0], octets[1], octets[2], octets[3])[8 * q + x] == MsbFirst(octets[q])[x];
  }

  lemma FirstBit(b: byte, x: nat)
    requires x < 8
    ensures MsbFirst(b)[x] == ToOctet(b)[7 - x]
  {
  }

  lemma AddressSelected(m: AddressMatch, octets: seq<byte>)
    requires |octets| == 4
    ensures m.Matches(Address(octets[0], octets[1], octets[2], octets[3])) <==> SelectsAddress(m, octets)
  {
    var a := Address(octets[0], octets[1], octets[2], octets[3]);
    forall k | 0 <= k < 32 ensures a[k] == BitAt(octets, k) {
      AddressBits(octets, k);
    }
    MaskedBits(m.addr, a, m.mask);
  }

  lemma MaskedBits(x: Word, y: Word, mask: Word)
    ensures And(y, mask) == And(x, mask) <==> forall k :: 0 <= k < 32 && mask[k] ==> y[k] == x[k]
  {
    if And(y, mask) == And(x, mask) {
      forall k | 0 <= k < 32 && mask[k] ensures y[k] == x[k] {
        assert And(y, mask)[k] == And(x, mask)[k];
      }
    }
  }

  /** A subnet selects the addresses that agree with it on its prefix, a host one address,
      and "any" all of them. */
  lemma SubnetSelects(addr: Word, prefixLen: nat, octets: seq<byte>)
    requires prefixLen <= 32 && |octets| == 4
    ensures SelectsAddress(Subnet(addr, prefixLen), octets) <==> forall k :: 0 <= k < prefixLen ==> BitAt(octets, k) == addr[k]
    ensures SelectsAddress(Host(addr), octets) <==> forall k :: 0 <= k < 32 ==> BitAt(octets, k) == addr[k]
    ensures SelectsAddress(AnyAddress(), octets)
  {
    SelectsPrefix(Subnet(addr, prefixLen), prefixLen, octets);
    SelectsPrefix(Host(addr), 32, octets);
    SelectsPrefix(AnyAddress(), 0, octets);
  }

  lemma SelectsPrefix(m: AddressMatch, n: nat, octets: seq<byte>)
    requires n <= 32 && |octets| == 4 && forall k :: 0 <= k < 32 ==> m.mask[k] == (k < n)
    ensures SelectsAddress(m, octets) <==> forall k :: 0 <= k < n ==> BitAt(octets, k) == m.addr[k]
  {
  }

  // What the rules are shown, in octets.
  lemma SeenInOctets(packet: seq<byte>, d: Direction)
    ensures Seen(packet, d).Some? <==> Readable(packet)
    ensures Readable(packet) ==>
              var at := PayloadAt(packet);
              Seen(packet, d).value == PacketInfo(
                d, if packet[9] == 6 then Tcp else if packet[9] == 17 then Udp else Icmp,
                Address(packet[12], packet[13], packet[14], packet[15]), Address(packet[16], packet[17], packet[18], packet[19]),
                if packet[9] == 1 then None else Some(NumberAt(packet, at)),
                if packet[9] == 1 then None else Some(NumberAt(packet, at + 2)))
  {
  }

  /** A rule matches what is seen of a packet exactly when it selects the packet's octets. */
  lemma MatchesExactly(r: Rule, packet: seq<byte>, d: Direction)
    requires Readable(packet)
    ensures Seen(packet, d).Some? && (RuleMatches(r, Seen(packet, d).value) <==> Selects(r, packet, d))
  {
    SeenInOctets(packet, d);
    AddressSelected(r.srcAddr, packet[12..16]);
    AddressSelected(r.dstAddr, packet[16..20]);
  }

  // ---- One selector at a time ----

  ghost function Wildcard(d: Direction, a: Action): Rule {
    Rule(d, AnyProtocol, AnyAddress(), AnyAddress(), AnyPort, AnyPort, a)
  }

  /** A rule selects a packet exactly when each of the rules that keep one of its selectors
      and leave the others open does. */
  lemma SelectorsAreIndependent(r: Rule, packet: seq<byte>, d: Direction)
    requires Readable(packet)
    ensures var any := Wildcard(r.direction, r.action);
            Selects(r, packet, d)
            <==> && Selects(any, packet, d) && Selects(any.(protocol := r.protocol), packet, d)
                 && Selects(any.(srcAddr := r.srcAddr), packet, d) && Selects(any.(dstAddr := r.dstAddr), packet, d)
                 && Selects(any.(srcPort := r.srcPort), packet, d) && Selects(any.(dstPort := r.dstPort), packet, d)
    ensures Selects(Wildcard(r.direction, r.action), packet, d) <==> r.direction == d
  {
  }

  // ---- The verdict ----

  /** A query to the name port that the blocklist stops. */
  ghost predicate StoppedQuery(blocklist: Option<seq<seq<byte>>>, packet: seq<byte>)
    requires Readable(packet)
  {
    var at := PayloadAt(packet);
    && blocklist.Some? && packet[9] == 17 && NumberAt(packet, at + 2) == 53
    && PayloadBlocked(blocklist.value, packet[at + 8..])
  }

  lemma ClassifiedAsSeen(rules: seq<Rule>, blocklist: Option<seq<seq<byte>>>, packet: seq<byte>, d: Direction)
    ensures Classification(rules, blocklist, packet, d)
            == if Readable(packet) && !StoppedQuery(blocklist, packet) && Seen(packet, d).Some?
               then Verdict(rules, Seen(packet, d).value) else Deny
  {
    SeenInOctets(packet, d);
    if Readable(packet) {
      var at := PayloadAt(packet);
      assert ParseIpv4(packet).value.headerLen == at;
      if packet[9] == 17 {
        assert packet[at..][8..] == packet[at + 8..];
      }
    }
  }

  // Rule k is the first that selects the packet.
  ghost predicate FirstSelecting(rules: seq<Rule>, packet: seq<byte>, d: Direction, k: nat)
    requires Readable(packet)
  {
    k < |rules| && Selects(rules[k], packet, d) && forall j :: 0 <= j < k ==> !Selects(rules[j], packet, d)
  }

  /** The whole verdict, on octets: a packet that cannot be read or is a stopped query is
      denied; any other gets the action of the first rule that selects it, and is denied
      if none does. */
  lemma VerdictOnOctets(rules: seq<Rule>, blocklist: Option<seq<seq<byte>>>, packet: seq<byte>, d: Direction)
    ensures var a := Classification(rules, blocklist, packet, d);
            if !Readable(packet) || StoppedQuery(blocklist, packet) then a == Deny
            else
              && (forall k: nat :: FirstSelecting(rules, packet, d, k) ==> a == rules[k].action)
              && ((forall k: nat :: !FirstSelecting(rules, packet, d, k)) ==> a == Deny)
  {
    ClassifiedAsSeen(rules, blocklist, packet, d);
    if Readable(packet) && !StoppedQuery(blocklist, packet) {
      SeenInOctets(packet, d);
      forall j | 0 <= j < |rules|
        ensures RuleMatches(rules[j], Seen(packet, d).value) <==> Selects(rules[j], packet, d)
      {
        MatchesExactly(rules[j], packet, d);
      }
      var k := FirstMatch(rules, Seen(packet, d).value);
      if k < |rules| {
        assert FirstSelecting(rules, packet, d, k);
      }
    }
  }

  /** A query the blocklist cannot read is stopped, whatever the list holds. */
  lemma UnreadableQueryIsStopped(patterns: seq<seq<byte>>, packet: seq<byte>, query: seq<byte>)
    requires Readable(packet) && packet[9] == 17 && NumberAt(packet, PayloadAt(packet) + 2) == 53
    requires query == packet[PayloadAt(packet) + 8..] && forall labels: Name :: !AsksFor(query, labels)
    ensures StoppedQuery(Some(patterns), packet)
  {
    AskedExactly(query);
  }
}
