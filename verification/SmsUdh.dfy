/** User Data Headers and the classification of covert messages. */
module SmsUdh {
  import opened Wrappers
  import opened Bytes

  const PID_TYPE_0_SMS: byte := 0x40
  const PID_SIM_TOOLKIT_UPPER: byte := 0x48
  const WAP_PUSH_PORT_OMA_CP: nat := 2948
  const WAP_PUSH_PORT_ALT: nat := 49999
  const IEI_APP_PORT_16BIT: byte := 0x05

  datatype Ports = Ports(destination: nat, source: nat)

  datatype MessageClass =
    | Normal
    | Silent(pid: byte)
    | WapPush(destinationPort: nat, sourcePort: nat)

  predicate IsSilentPid(pid: byte) {
    PID_TYPE_0_SMS <= pid < PID_SIM_TOOLKIT_UPPER
  }

  predicate IsWapPushPort(port: nat) {
    port == WAP_PUSH_PORT_OMA_CP || port == WAP_PUSH_PORT_ALT
  }

  // Bit 6 of the first octet.
  predicate HasUdh(firstOctet: byte) {
    firstOctet / 64 % 2 == 1
  }

  // Octets the header occupies, its length octet included, clamped to the buffer.
  function UdhOctetLen(ud: seq<byte>): nat {
    var udhl := if ud == [] then 0 else ud[0] as nat;
    if udhl + 1 <= |ud| then udhl + 1 else |ud|
  }

  // Septets the header consumes once fill bits pad it to a septet boundary.
  function UdhSeptets(octets: nat): nat {
    (octets * 8 + 6) / 7
  }

  /** The least septet boundary at or after the end of the header. */
  lemma UdhSeptetsIsLeastBoundary(octets: nat)
    ensures 7 * UdhSeptets(octets) >= 8 * octets
    ensures octets > 0 ==> 7 * (UdhSeptets(octets) - 1) < 8 * octets
  {
  }

  // ---- Information elements ----

  /** An information element: its identifier and its data. */
  datatype Element = Element(iei: byte, data: seq<byte>)

  // The elements a header's content holds, up to the first that does not fit.
  ghost function Elements(udh: seq<byte>): seq<Element> {
    if |udh| < 2 || 2 + udh[1] as nat > |udh| then []
    else [Element(udh[0], udh[2..2 + udh[1] as nat])] + Elements(udh[2 + udh[1] as nat..])
  }

  function PortsOf(data: seq<byte>): Ports
    requires |data| == 4
  {
    Ports(256 * (data[0] as nat) + data[1], 256 * (data[2] as nat) + data[3])
  }

  /** The first four-octet port element. */
  ghost function FirstPorts(elements: seq<Element>): Option<Ports> {
    if elements == [] then None
    else if elements[0].iei == IEI_APP_PORT_16BIT && |elements[0].data| == 4 then Some(PortsOf(elements[0].data))
    else FirstPorts(elements[1..])
  }

  ghost function PortsSpec(ud: seq<byte>): Option<Ports> {
    if ud == [] || |ud| < ud[0] as nat + 1 then None else FirstPorts(Elements(ud[1..ud[0] as nat + 1]))
  }

  // The scan from `pos` on.
  ghost function PortsFrom(udh: seq<byte>, pos: nat): Option<Ports>
    decreases |udh| - pos
  {
    if pos + 1 >= |udh| then None
    else
      var end := pos + 2 + udh[pos + 1] as nat;
      if end > |udh| then None
      else if udh[pos] == IEI_APP_PORT_16BIT && udh[pos + 1] == 4 then Some(PortsOf(udh[pos + 2..end]))
      else PortsFrom(udh, end)
  }

  lemma {:induction false} ScanFindsFirst(udh: seq<byte>, pos: nat)
    requires pos <= |udh|
    ensures PortsFrom(udh, pos) == FirstPorts(Elements(udh[pos..]))
    decreases |udh| - pos
  {
    if pos + 1 < |udh| {
      var end := pos + 2 + udh[pos + 1] as nat;
      if end <= |udh| {
        OneElement(udh, pos);
        ScanFindsFirst(udh, end);
      }
    }
  }

  /** Scans the header at the head of the user data for its application ports. */
  method ParseUdhPorts(ud: seq<byte>) returns (r: Option<Ports>)
    ensures r == PortsSpec(ud)
  {
    if ud == [] {
      return None;
    }
    var udhl := ud[0] as nat;
    if |ud| < udhl + 1 {
      return None;
    }
    var udh := ud[1..udhl + 1];
    r := ScanPorts(udh);
    assert udh[0..] == udh;
    ScanFindsFirst(udh, 0);
  }

  // The loop over the elements.
  method ScanPorts(udh: seq<byte>) returns (r: Option<Ports>)
    ensures r == PortsFrom(udh, 0)
  {
    var pos := 0;
    while pos < |udh|
      invariant 0 <= pos <= |udh| && PortsFrom(udh, 0) == PortsFrom(udh, pos)
    {
      if pos + 1 >= |udh| {
        return None;
      }
      var iei, len := udh[pos], udh[pos + 1] as nat;
      var start, end := pos + 2, pos + 2 + len;
      if end > |udh| {
        break;
      }
      if iei == IEI_APP_PORT_16BIT && len == 4 {
        return Some(PortsOf(udh[start..end]));
      }
      pos := end;
    }
    r := None;
  }

  // The element at `pos` decides, or those after it do.
  lemma OneElement(udh: seq<byte>, pos: nat)
    requires pos + 1 < |udh| && pos + 2 + udh[pos + 1] as nat <= |udh|
    ensures var end := pos + 2 + udh[pos + 1] as nat;
            FirstPorts(Elements(udh[pos..]))
            == if udh[pos] == IEI_APP_PORT_16BIT && udh[pos + 1] == 4 then Some(PortsOf(udh[pos + 2..end]))
               else FirstPorts(Elements(udh[end..]))
  {
    var len := udh[pos + 1] as nat;
    var rest := udh[pos..];
    assert rest[0] == udh[pos] && rest[1] == udh[pos + 1];
    assert rest[2..2 + len] == udh[pos + 2..pos + 2 + len] && rest[2 + len..] == udh[pos + 2 + len..];
    FirstPortsCons(Element(udh[pos], rest[2..2 + len]), Elements(rest[2 + len..]));
  }

  lemma FirstPortsCons(e: Element, rest: seq<Element>)
    ensures FirstPorts([e] + rest)
            == if e.iei == IEI_APP_PORT_16BIT && |e.data| == 4 then Some(PortsOf(e.data)) else FirstPorts(rest)
  {
    assert ([e] + rest)[1..] == rest;
  }

  /** The header as 3GPP TS 23.040, section 9.2.3.24, lays its elements out. */
  ghost function HeaderContent(elements: seq<Element>): seq<byte>
    requires forall e :: e in elements ==> |e.data| < 256
  {
    if elements == [] then []
    else [elements[0].iei, |elements[0].data|] + elements[0].data + HeaderContent(elements[1..])
  }

  lemma {:induction false} ElementsRoundTrip(elements: seq<Element>)
    requires forall e :: e in elements ==> |e.data| < 256
    ensures Elements(HeaderContent(elements)) == elements
  {
    if elements != [] {
      var e := elements[0];
      var tail := HeaderContent(elements[1..]);
      var udh := [e.iei, |e.data|] + e.data + tail;
      assert udh[2..2 + |e.data|] == e.data && udh[2 + |e.data|..] == tail;
      ElementsRoundTrip(elements[1..]);
    }
  }

  /** On any laid-out header the scan returns the first four-octet port element,
      whatever follows the header. */
  lemma PortsOfLaidOutHeader(elements: seq<Element>, body: seq<byte>)
    requires forall e :: e in elements ==> |e.data| < 256
    requires |HeaderContent(elements)| < 256
    ensures PortsSpec([|HeaderContent(elements)|] + HeaderContent(elements) + body) == FirstPorts(elements)
  {
    var content := HeaderContent(elements);
    var ud := [|content|] + content + body;
    assert ud[1..ud[0] as nat + 1] == content;
    ElementsRoundTrip(elements);
  }

  /** The scan never looks past the declared header. */
  lemma PortsIgnoreTheBody(ud: seq<byte>, other: seq<byte>)
    requires ud != [] && other != [] && |ud| >= ud[0] as nat + 1 && |other| >= ud[0] as nat + 1
    requires ud[..ud[0] as nat + 1] == other[..ud[0] as nat + 1]
    ensures PortsSpec(ud) == PortsSpec(other)
  {
    assert ud[0] == ud[..ud[0] as nat + 1][0] == other[0];
    assert ud[1..ud[0] as nat + 1] == ud[..ud[0] as nat + 1][1..];
    assert other[1..ud[0] as nat + 1] == other[..ud[0] as nat + 1][1..];
  }

  /** What an incoming message is; a silent protocol identifier takes precedence. */
  ghost function Classify(firstOctet: byte, pid: byte, ud: seq<byte>): MessageClass {
    if IsSilentPid(pid) then Silent(pid)
    else if HasUdh(firstOctet) && PortsSpec(ud).Some? && IsWapPushPort(PortsSpec(ud).value.destination) then
      WapPush(PortsSpec(ud).value.destination, PortsSpec(ud).value.source)
    else Normal
  }
}
