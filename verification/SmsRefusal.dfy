/** Which messages the SMS-DELIVER decoder refuses, and as what. */
module SmsRefusal {
  import opened Wrappers
  import opened Bytes
  import opened SmsUdh
  import opened SmsPdu
  import opened SmsRoundTrip

  /** Anything but an SMS-DELIVER, by the two low bits of its first octet. */
  lemma OtherTypesAreRefused(a: Gsm7.Alphabet, t: Tpdu, tail: seq<byte>)
    requires Gsm7.Valid(a) && Encodable(t) && t.first % 4 != 0
    ensures DeliverSpec(a, TpduOctets(t) + tail) == Err(PduDecode(1 + |t.smsc|))
  {
    var raw := TpduOctets(t) + tail;
    assert raw[..|Prefix(t)|] == Prefix(t);
    PrefixInPlace(t, raw);
  }

  /** The silent-message alert is raised exactly on the identifiers 0x40 to 0x47, whatever
      else the PDU holds. */
  lemma SilentIsRefusedExactly(a: Gsm7.Alphabet, t: Tpdu, tail: seq<byte>)
    requires Gsm7.Valid(a) && Encodable(t) && t.first % 4 == 0
    ensures t.pid / 8 == 8 ==> DeliverSpec(a, TpduOctets(t) + tail) == Err(SilentSmsAlert(t.pid))
    ensures t.pid / 8 != 8 ==> !Alerts(DeliverSpec(a, TpduOctets(t) + tail))
  {
    ReachesPid(t, tail);
    var h := HeaderSpec(TpduOctets(t) + tail);
    if h.Ok? {
      BodyRaisesNoAlert(a, TpduOctets(t) + tail, h.value.at, h.value.udl, HasUdh(h.value.first), h.value.encoding);
    }
  }

  ghost predicate Alerts<T>(r: Result<T, Error>) {
    r.Err? && r.error.SilentSmsAlert?
  }

  ghost predicate Rejects<T>(r: Result<T, Error>) {
    r.Err? && r.error.WapPushRejected?
  }

  lemma TextRaisesNoAlert(a: Gsm7.Alphabet, raw: seq<byte>, at: nat, udl: nat, udhSeptets: nat, encoding: DataEncoding)
    requires Gsm7.Valid(a)
    ensures var r := UserDataSpec(a, raw, at, udl, udhSeptets, encoding); !Alerts(r) && !Rejects(r)
  {
    var ud := SliceAt(raw, at, udl);
    if encoding.Ucs2? && ud.Ok? && |ud.value| % 2 == 0 {
      UnitsDecodeExactly(ud.value, 0, at + udl);
    }
  }

  lemma BodyRaisesNoAlert(a: Gsm7.Alphabet, raw: seq<byte>, at: nat, udl: nat, udhi: bool, encoding: DataEncoding)
    requires Gsm7.Valid(a) && at <= |raw|
    ensures var r := BodySpec(a, raw, at, udl, udhi, encoding);
            var ports := PortsSpec(Preview(raw, at, udl, encoding));
            && !Alerts(r)
            && (Rejects(r) <==> udhi && ports.Some? && IsWapPushPort(ports.value.destination))
            && (Rejects(r) ==> r == Err(WapPushRejected(ports.value.destination, ports.value.source)))
  {
    var octets := UdhOctetLen(Preview(raw, at, udl, encoding));
    TextRaisesNoAlert(a, raw, at, udl, 0, encoding);
    TextRaisesNoAlert(a, raw, at, udl, UdhSeptets(octets), encoding);
    TextRaisesNoAlert(a, raw, at + octets, SatSub(udl, octets), 0, encoding);
  }

  /** Compressed text, eight-bit data and the reserved class, by the data coding octet. */
  lemma OtherCodingsAreRefused(a: Gsm7.Alphabet, t: Tpdu, tail: seq<byte>)
    requires Gsm7.Valid(a) && Encodable(t) && t.first % 4 == 0 && t.pid / 8 != 8
    requires t.dcs / 32 % 2 == 1 || t.dcs / 4 % 4 == 1 || t.dcs / 4 % 4 == 3
    ensures DeliverSpec(a, TpduOctets(t) + tail) == Err(PduDecode(PidAt(t) + 1))
  {
    ReachesPid(t, tail);
  }

  // ---- Push ports ----

  /** The field is as long as its length octet says, or cut short by the end of the octets. */
  ghost predicate HasField(t: Tpdu, encoding: DataEncoding, tail: seq<byte>) {
    var n := FieldOctets(t.udl, encoding);
    |t.ud| == n || (tail == [] && |t.ud| < n)
  }

  lemma PreviewIsTheField(raw: seq<byte>, at: nat, t: Tpdu, encoding: DataEncoding, tail: seq<byte>)
    requires HasField(t, encoding, tail) && at <= |raw| && raw[at..] == t.ud + tail
    ensures Preview(raw, at, t.udl, encoding) == t.ud
  {
    if |t.ud| == FieldOctets(t.udl, encoding) {
      FieldAt(raw, at, t.ud, tail);
    } else {
      assert t.ud + tail == t.ud;
    }
  }

  ghost predicate IsPortElement(e: Element) {
    e.iei == 0x05 && |e.data| == 4
  }

  // Element k is the first port element, and addresses port 2948 or 49999.
  ghost predicate PushesAt(elements: seq<Element>, k: nat) {
    && k < |elements| && IsPortElement(elements[k]) && (forall j :: 0 <= j < k ==> !IsPortElement(elements[j]))
    && (elements[k].data[..2] == [0x0B, 0x84] || elements[k].data[..2] == [0xC3, 0x4F])
  }

  lemma {:induction false} FirstPortsExactly(elements: seq<Element>, k: nat)
    requires k <= |elements| && forall j :: 0 <= j < k ==> !IsPortElement(elements[j])
    ensures k == |elements| ==> FirstPorts(elements) == None
    ensures k < |elements| && IsPortElement(elements[k]) ==>
              var d := elements[k].data;
              FirstPorts(elements) == Some(Ports(256 * d[0] as nat + d[1] as nat, 256 * d[2] as nat + d[3] as nat))
    decreases k
  {
    if k > 0 {
      assert !IsPortElement(elements[0]);
      FirstPortsExactly(elements[1..], k - 1);
    }
  }

  // The ports are those of the first port element, if there is one.
  lemma FirstPortElement(elements: seq<Element>) returns (k: nat)
    ensures k <= |elements| && forall j :: 0 <= j < k ==> !IsPortElement(elements[j])
    ensures k < |elements| ==> IsPortElement(elements[k])
  {
    k := 0;
    while k < |elements| && !IsPortElement(elements[k])
      invariant k <= |elements| && forall j :: 0 <= j < k ==> !IsPortElement(elements[j])
    {
      k := k + 1;
    }
  }

  lemma PushPortsExactly(elements: seq<Element>)
    ensures PushPorts(FirstPorts(elements)) <==> exists k: nat :: PushesAt(elements, k)
  {
    var k := FirstPortElement(elements);
    FirstPortsExactly(elements, k);
    if k < |elements| {
      var d := elements[k].data;
      assert d[..2] == [d[0], d[1]];
      assert PushesAt(elements, k) <==> IsWapPushPort(256 * d[0] as nat + d[1] as nat);
    }
  }

  ghost predicate PushPorts(ports: Option<Ports>) {
    ports.Some? && IsWapPushPort(ports.value.destination)
  }

  // The rejection as the octets of the element say it.
  ghost function Rejection(e: Element): Error
    requires |e.data| == 4
  {
    WapPushRejected(if e.data[..2] == [0x0B, 0x84] then 2948 else 49999, 256 * e.data[2] as nat + e.data[3] as nat)
  }

  lemma RejectionNamesThePorts(elements: seq<Element>, k: nat)
    requires PushesAt(elements, k)
    ensures var ports := FirstPorts(elements);
            ports.Some? && Rejection(elements[k]) == WapPushRejected(ports.value.destination, ports.value.source)
  {
    FirstPortsExactly(elements, k);
    assert elements[k].data[..2] == [elements[k].data[0], elements[k].data[1]];
  }

  // The verdict by the ports found in the field.
  lemma PushVerdict(a: Gsm7.Alphabet, t: Tpdu, encoding: DataEncoding, tail: seq<byte>)
    requires Gsm7.Valid(a) && Supported(t, encoding) && HasField(t, encoding, tail)
    ensures var r, ports := DeliverSpec(a, TpduOctets(t) + tail), PortsSpec(t.ud);
            && !Alerts(r)
            && (Rejects(r) <==> t.first / 64 % 2 == 1 && PushPorts(ports))
            && (Rejects(r) ==> r == Err(WapPushRejected(ports.value.destination, ports.value.source)))
  {
    var raw, at := TpduOctets(t) + tail, PidAt(t) + 10;
    ReachesUserData(a, t, tail, encoding);
    PreviewIsTheField(raw, at, t, encoding, tail);
    BodyRaisesNoAlert(a, raw, at, t.udl, t.first / 64 % 2 == 1, encoding);
  }

  /** User data that begins with a header of these elements. */
  ghost predicate BeginsWithHeader(ud: seq<byte>, elements: seq<Element>) {
    && (forall e :: e in elements ==> |e.data| < 256) && |HeaderContent(elements)| < 256
    && [|HeaderContent(elements)|] + HeaderContent(elements) <= ud
  }

  lemma PortsOfUserData(ud: seq<byte>, elements: seq<Element>)
    requires BeginsWithHeader(ud, elements)
    ensures PortsSpec(ud) == FirstPorts(elements)
  {
    var header := [|HeaderContent(elements)|] + HeaderContent(elements);
    assert ud == header + ud[|header|..];
    PortsOfLaidOutHeader(elements, ud[|header|..]);
  }

  /** A message that announces a header is rejected as a push exactly when the header's
      first port element addresses port 2948 or 49999, and the rejection names both its
      ports; one that announces none never is, whatever its octets look like. */
  lemma PushIsRejectedExactly(a: Gsm7.Alphabet, t: Tpdu, encoding: DataEncoding, elements: seq<Element>, tail: seq<byte>)
    requires Gsm7.Valid(a) && Supported(t, encoding) && HasField(t, encoding, tail) && BeginsWithHeader(t.ud, elements)
    ensures Rejects(DeliverSpec(a, TpduOctets(t) + tail))
            <==> t.first / 64 % 2 == 1 && exists k: nat :: PushesAt(elements, k)
    ensures forall k: nat :: t.first / 64 % 2 == 1 && PushesAt(elements, k) ==>
              DeliverSpec(a, TpduOctets(t) + tail) == Err(Rejection(elements[k]))
  {
    PushVerdict(a, t, encoding, tail);
    PortsOfUserData(t.ud, elements);
    PushPortsExactly(elements);
    forall k: nat | PushesAt(elements, k)
      ensures var ports := FirstPorts(elements);
              ports.Some? && Rejection(elements[k]) == WapPushRejected(ports.value.destination, ports.value.source)
    {
      RejectionNamesThePorts(elements, k);
    }
  }

  /** The classification is the decoder's verdict: what is silent or a push is refused as
      that, and nothing else is. */
  lemma RefusedAsClassified(a: Gsm7.Alphabet, t: Tpdu, encoding: DataEncoding, tail: seq<byte>)
    requires Gsm7.Valid(a) && Supported(t.(pid := 0), encoding) && HasField(t, encoding, tail)
    ensures var r := DeliverSpec(a, TpduOctets(t) + tail);
            match Classify(t.first, t.pid, t.ud)
            case Silent(pid) => r == Err(SilentSmsAlert(pid)) && pid == t.pid && pid / 8 == 8
            case WapPush(destination, source) => r == Err(WapPushRejected(destination, source)) && t.pid / 8 != 8
            case Normal => !Alerts(r) && !Rejects(r) && t.pid / 8 != 8
  {
    SilentIsRefusedExactly(a, t, tail);
    if t.pid / 8 != 8 {
      PushVerdict(a, t, encoding, tail);
    }
  }

  // ---- Code units ----

  ghost predicate IsSurrogate(ud: seq<byte>, i: nat)
    requires i + 1 < |ud|
  {
    0xD8 <= ud[i] < 0xE0
  }

  ghost predicate NoSurrogates(ud: seq<byte>, i: nat)
    requires |ud| % 2 == 0
  {
    forall k :: i <= k < |ud| && k % 2 == 0 ==> !IsSurrogate(ud, k)
  }

  lemma OneUnit(ud: seq<byte>, i: nat)
    requires |ud| % 2 == 0 && i % 2 == 0 && i < |ud|
    ensures NoSurrogates(ud, i) <==> !IsSurrogate(ud, i) && NoSurrogates(ud, i + 2)
    ensures IsSurrogate(ud, i) <==> 0xD800 <= 256 * (ud[i] as nat) + ud[i + 1] < 0xE000
  {
    if NoSurrogates(ud, i + 2) && !IsSurrogate(ud, i) {
      forall k | i <= k < |ud| && k % 2 == 0 ensures !IsSurrogate(ud, k) {
        assert k == i || i + 2 <= k;
      }
    }
  }

  lemma {:induction false} UnitsDecodeExactly(ud: seq<byte>, i: nat, offset: nat)
    requires |ud| % 2 == 0 && i % 2 == 0 && i <= |ud|
    ensures var r := Utf16Spec(ud, i, offset); (r.Ok? <==> NoSurrogates(ud, i)) && (r.Err? ==> r.error == PduDecode(offset))
    decreases |ud| - i
  {
    if i < |ud| {
      UnitsDecodeExactly(ud, i + 2, offset);
      OneUnit(ud, i);
    }
  }

  /** UCS-2 without a header decodes exactly when it is whole code units and none is a
      surrogate; the error names the end of the field. */
  lemma Ucs2IsRefusedExactly(a: Gsm7.Alphabet, t: Tpdu, tail: seq<byte>)
    requires Gsm7.Valid(a) && Supported(t, Ucs2) && t.first / 64 % 2 == 0 && |t.ud| == t.udl as nat
    ensures var r := DeliverSpec(a, TpduOctets(t) + tail);
            && (r.Ok? <==> |t.ud| % 2 == 0 && NoSurrogates(t.ud, 0))
            && (r.Err? ==> r.error == PduDecode(PidAt(t) + 10 + |t.ud|))
  {
    var raw, at := TpduOctets(t) + tail, PidAt(t) + 10;
    ReachesUserData(a, t, tail, Ucs2);
    FieldAt(raw, at, t.ud, tail);
    Ucs2Verdict(a, raw, at, t.ud);
  }

  lemma Ucs2Verdict(a: Gsm7.Alphabet, raw: seq<byte>, at: nat, ud: seq<byte>)
    requires Gsm7.Valid(a) && at + |ud| <= |raw| && raw[at..at + |ud|] == ud
    ensures var r := BodySpec(a, raw, at, |ud|, false, Ucs2);
            (r.Ok? <==> |ud| % 2 == 0 && NoSurrogates(ud, 0)) && (r.Err? ==> r.error == PduDecode(at + |ud|))
  {
    if |ud| % 2 == 0 {
      UnitsDecodeExactly(ud, 0, at + |ud|);
    }
    Ucs2Outcome(a, raw, at, ud);
  }

  lemma Ucs2Outcome(a: Gsm7.Alphabet, raw: seq<byte>, at: nat, ud: seq<byte>)
    requires Gsm7.Valid(a) && at + |ud| <= |raw| && raw[at..at + |ud|] == ud
    ensures var r := BodySpec(a, raw, at, |ud|, false, Ucs2);
            if |ud| % 2 != 0 then r == Err(PduDecode(at + |ud|))
            else var text := Utf16Spec(ud, 0, at + |ud|);
                 if text.Ok? then r == Ok(UserData(Ucs2, text.value)) else r == Err(text.error)
  {
  }

  // ---- Headers that claim too much ----

  /** A header that claims more octets than the field holds takes all of it: nothing of
      the field is shown as text. */
  lemma OverlongHeaderShowsNothing(a: Gsm7.Alphabet, t: Tpdu, encoding: DataEncoding, tail: seq<byte>)
    requires Gsm7.Valid(a) && Supported(t, encoding) && |t.ud| == FieldOctets(t.udl, encoding)
    requires t.first / 64 % 2 == 1 && (t.ud == [] || t.ud[0] as nat + 1 > |t.ud|)
    ensures DeliverSpec(a, TpduOctets(t) + tail) == Ok(SmsDeliver(Sender(t), t.scts, UserData(encoding, [])))
  {
    var raw, at := TpduOctets(t) + tail, PidAt(t) + 10;
    ReachesUserData(a, t, tail, encoding);
    FieldAt(raw, at, t.ud, tail);
    SkipsHeader(a, raw, at, t.udl, encoding, t.ud, |t.ud|);
    NothingIsLeft(a, raw, at, t.udl, encoding);
  }

  lemma NothingIsLeft(a: Gsm7.Alphabet, raw: seq<byte>, at: nat, udl: nat, encoding: DataEncoding)
    requires Gsm7.Valid(a) && at + FieldOctets(udl, encoding) <= |raw|
    ensures var n := FieldOctets(udl, encoding);
            (if encoding.Gsm7Bit? then UserDataSpec(a, raw, at, udl, UdhSeptets(n), encoding)
             else UserDataSpec(a, raw, at + n, SatSub(udl, n), 0, encoding)) == Ok(UserData(encoding, []))
  {
  }
}
