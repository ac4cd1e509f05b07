/** What the SMS-DELIVER decoder makes of PDUs laid out by the standard, and of any others. */
module SmsRoundTrip {
  import opened Wrappers
  import opened Bytes
  import opened SmsUdh
  import opened SmsPdu

  /** The fields of an SMS-DELIVER TPDU behind its service-centre prefix, in order. */
  datatype Tpdu = Tpdu(
    smsc: seq<byte>,
    first: byte,
    digits: seq<char>,
    typeByte: byte,
    pid: byte,
    dcs: byte,
    scts: seq<byte>,
    udl: byte,
    ud: seq<byte>)

  ghost predicate Encodable(t: Tpdu) {
    && |t.smsc| < 256 && |t.scts| == 7
    && |t.digits| <= Bcd.MAX_ADDRESS_DIGITS && (forall i :: 0 <= i < |t.digits| ==> Bcd.IsDigit(t.digits[i]))
  }

  ghost function Prefix(t: Tpdu): seq<byte>
    requires Encodable(t)
  {
    [|t.smsc|] + t.smsc + [t.first, |t.digits|, t.typeByte] + Bcd.PackedDigits(t.digits)
  }

  ghost function TpduOctets(t: Tpdu): seq<byte>
    requires Encodable(t)
  {
    Prefix(t) + ([t.pid, t.dcs] + t.scts + [t.udl]) + t.ud
  }

  ghost function Sender(t: Tpdu): Address {
    if t.typeByte == 0x91 then Address(['+'] + t.digits, International)
    else Address(t.digits, if t.typeByte == 0x81 then National else Unknown)
  }

  // Where the fields lie in an encoding followed by `tail`.
  ghost predicate FieldsAt(t: Tpdu, raw: seq<byte>, q: nat, tail: seq<byte>) {
    && q + 10 <= |raw|
    && raw[q] == t.pid && raw[q + 1] == t.dcs && raw[q + 2..q + 9] == t.scts && raw[q + 9] == t.udl
    && raw[q + 10..] == t.ud + tail
  }

  lemma FieldsInPlace(t: Tpdu, tail: seq<byte>)
    requires Encodable(t)
    ensures FieldsAt(t, TpduOctets(t) + tail, |Prefix(t)|, tail)
  {
    var raw, q := TpduOctets(t) + tail, |Prefix(t)|;
    var middle := [t.pid, t.dcs] + t.scts + [t.udl];
    assert raw == Prefix(t) + (middle + (t.ud + tail));
    assert raw[q..] == middle + (t.ud + tail);
    assert middle[2..9] == t.scts;
    assert raw[q + 2..q + 9] == raw[q..][2..9] == middle[2..9];
  }

  // The offset of the protocol identifier.
  ghost function PidAt(t: Tpdu): nat {
    4 + |t.smsc| + (|t.digits| + 1) / 2
  }

  ghost predicate PrefixAt(t: Tpdu, raw: seq<byte>)
    requires Encodable(t)
  {
    var p, n := 1 + |t.smsc|, (|t.digits| + 1) / 2;
    && PidAt(t) <= |raw|
    && raw[0] == |t.smsc| && raw[p] == t.first && raw[p + 1] == |t.digits| && raw[p + 2] == t.typeByte
    && raw[p + 3..p + 3 + n] == Bcd.PackedDigits(t.digits)
  }

  lemma PrefixInPlace(t: Tpdu, raw: seq<byte>)
    requires Encodable(t) && |raw| >= |Prefix(t)| && raw[..|Prefix(t)|] == Prefix(t)
    ensures |Prefix(t)| == PidAt(t) && PrefixAt(t, raw)
  {
    var p, bcd, head := 1 + |t.smsc|, Bcd.PackedDigits(t.digits), Prefix(t);
    assert |head| == p + 3 + |bcd|;
    assert head[0] == |t.smsc| && head[p] == t.first && head[p + 1] == |t.digits| && head[p + 2] == t.typeByte;
    assert forall i :: 0 <= i < |head| ==> raw[i] == raw[..|head|][i];
    assert head[p + 3..] == bcd;
    assert raw[p + 3..p + 3 + |bcd|] == raw[..|head|][p + 3..];
  }

  // The decoder reads the address and arrives at the protocol identifier.
  lemma ReachesTail(t: Tpdu, raw: seq<byte>)
    requires Encodable(t) && t.first % 4 == 0 && PrefixAt(t, raw)
    ensures HeaderSpec(raw) == TailSpec(raw, PidAt(t), t.first, Sender(t))
  {
    FirstDecodes(raw, |t.smsc|, t.first);
    AddressDecodes(t, raw, 2 + |t.smsc|);
  }

  lemma FirstDecodes(raw: seq<byte>, n: byte, first: byte)
    requires n as nat + 1 < |raw| && raw[0] == n && raw[n as nat + 1] == first && first % 4 == 0
    ensures HeaderSpec(raw) == AddressSpec(raw, n as nat + 2, first)
  {
  }

  lemma AddressDecodes(t: Tpdu, raw: seq<byte>, q: nat)
    requires Encodable(t)
    requires var n := (|t.digits| + 1) / 2;
             && q + 2 + n <= |raw| && raw[q] == |t.digits| && raw[q + 1] == t.typeByte
             && raw[q + 2..q + 2 + n] == Bcd.PackedDigits(t.digits)
    ensures AddressSpec(raw, q, t.first) == TailSpec(raw, q + 2 + (|t.digits| + 1) / 2, t.first, Sender(t))
  {
    SenderDecodes(t);
    AddressRead(raw, q, t.first, |t.digits|, t.typeByte, Bcd.PackedDigits(t.digits), Sender(t));
  }

  lemma AddressRead(raw: seq<byte>, q: nat, first: byte, digits: byte, typeByte: byte, bcd: seq<byte>, sender: Address)
    requires |bcd| == (digits as nat + 1) / 2 && q + 2 + |bcd| <= |raw|
    requires raw[q] == digits && raw[q + 1] == typeByte && raw[q + 2..q + 2 + |bcd|] == bcd
    requires SenderSpec(digits, typeByte, bcd) == Ok(sender)
    ensures AddressSpec(raw, q, first) == TailSpec(raw, q + 2 + |bcd|, first, sender)
  {
  }

  lemma SenderDecodes(t: Tpdu)
    requires Encodable(t)
    ensures SenderSpec(|t.digits|, t.typeByte, Bcd.PackedDigits(t.digits)) == Ok(Sender(t))
  {
    Bcd.AddressRoundTrip(t.digits, t.typeByte);
  }

  // It then reads the fixed fields and arrives at the user data.
  lemma ReachesBody(t: Tpdu, raw: seq<byte>, q: nat, tail: seq<byte>, encoding: DataEncoding)
    requires FieldsAt(t, raw, q, tail) && !IsSilentPid(t.pid) && DcsToEncoding(t.dcs, q + 1) == Ok(encoding)
    ensures TailSpec(raw, q, t.first, Sender(t))
            == Ok(Header(t.first, Sender(t), t.pid, encoding, t.scts, t.udl, q + 10))
  {
  }

  /** A PDU of the right type, with a protocol identifier outside 0x40 to 0x47 and a
      supported data coding. */
  ghost predicate Supported(t: Tpdu, encoding: DataEncoding) {
    && Encodable(t) && t.first % 4 == 0 && t.pid / 8 != 8
    && t.dcs / 32 % 2 == 0 && t.dcs / 4 % 4 == if encoding.Gsm7Bit? then 0 else 2
  }

  // The message, if the user data reads as `body`.
  ghost function Delivered(t: Tpdu, body: Result<UserData, Error>): Result<SmsDeliver, Error> {
    match body
    case Ok(userData) => Ok(SmsDeliver(Sender(t), t.scts, userData))
    case Err(e) => Err(e)
  }

  // Everything before the user data reads as it was laid out.
  lemma ReachesUserData(a: Gsm7.Alphabet, t: Tpdu, tail: seq<byte>, encoding: DataEncoding)
    requires Gsm7.Valid(a) && Supported(t, encoding)
    ensures var raw, at := TpduOctets(t) + tail, PidAt(t) + 10;
            && at <= |raw| && raw[at..] == t.ud + tail
            && DeliverSpec(a, raw) == Delivered(t, BodySpec(a, raw, at, t.udl, t.first / 64 % 2 == 1, encoding))
  {
    var raw, q := TpduOctets(t) + tail, PidAt(t);
    ReachesPid(t, tail);
    ReachesBody(t, raw, q, tail, encoding);
    DeliveredFrom(a, raw, Header(t.first, Sender(t), t.pid, encoding, t.scts, t.udl, q + 10), t);
  }

  // A laid-out PDU is read as far as its protocol identifier.
  lemma ReachesPid(t: Tpdu, tail: seq<byte>)
    requires Encodable(t) && t.first % 4 == 0
    ensures var raw := TpduOctets(t) + tail;
            FieldsAt(t, raw, PidAt(t), tail) && HeaderSpec(raw) == TailSpec(raw, PidAt(t), t.first, Sender(t))
  {
    var raw := TpduOctets(t) + tail;
    FieldsInPlace(t, tail);
    assert raw[..|Prefix(t)|] == Prefix(t);
    PrefixInPlace(t, raw);
    ReachesTail(t, raw);
  }

  lemma DeliveredFrom(a: Gsm7.Alphabet, raw: seq<byte>, h: Header, t: Tpdu)
    requires Gsm7.Valid(a) && HeaderSpec(raw) == Ok(h) && h.sender == Sender(t) && h.scts == t.scts
    ensures DeliverSpec(a, raw) == Delivered(t, BodySpec(a, raw, h.at, h.udl, h.first / 64 % 2 == 1, h.encoding))
  {
  }

  /** The user-data field of section 9.2.3.24 of 3GPP TS 23.040 in GSM-7: a header in
      whole octets (or none), fill bits of any value, then the text's septets. */
  ghost predicate LaidOutGsm7(a: Gsm7.Alphabet, t: Tpdu, header: seq<byte>, text: seq<char>) {
    && Gsm7.Valid(a) && Gsm7.TextSeptets(a, text).Ok?
    && HeaderFits(t, header)
    && t.udl == UdhSeptets(|header|) + |Gsm7.TextSeptets(a, text).value|
    && |t.ud| == Gsm7.PackedLength(t.udl)
    && Gsm7.Carries(t.ud, UdhSeptets(|header|), Gsm7.TextSeptets(a, text).value)
  }

  /** A header announced by the first octet, as long as it says, naming no WAP-push port. */
  ghost predicate HeaderFits(t: Tpdu, header: seq<byte>) {
    && (t.first / 64 % 2 == 1 <==> header != [])
    && (header != [] ==>
          && |header| == header[0] as nat + 1
          && (PortsSpec(header).Some? ==> PortsSpec(header).value.destination !in {2948, 49999}))
    && |header| <= |t.ud| && t.ud[..|header|] == header
  }

  lemma HeaderOfPreview(header: seq<byte>, ud: seq<byte>)
    requires header != [] && |header| == header[0] as nat + 1 && |header| <= |ud| && ud[..|header|] == header
    ensures UdhOctetLen(ud) == |header| && PortsSpec(ud) == PortsSpec(header)
  {
    assert ud[0] == ud[..|header|][0];
    assert header[..|header|] == header;
    PortsIgnoreTheBody(header, ud);
  }

  // The decoder leaves the header out: by septets in GSM-7, by octets in UCS-2.
  lemma TextBehindHeader(a: Gsm7.Alphabet, t: Tpdu, header: seq<byte>, raw: seq<byte>, at: nat, encoding: DataEncoding)
    requires Gsm7.Valid(a) && HeaderFits(t, header) && |t.ud| == FieldOctets(t.udl, encoding)
    requires at + |t.ud| <= |raw| && raw[at..at + |t.ud|] == t.ud
    ensures BodySpec(a, raw, at, t.udl, t.first / 64 % 2 == 1, encoding)
            == if encoding.Gsm7Bit? then UserDataSpec(a, raw, at, t.udl, UdhSeptets(|header|), encoding)
               else UserDataSpec(a, raw, at + |header|, SatSub(t.udl, |header|), 0, encoding)
  {
    if HasUdh(t.first) {
      HeaderOfPreview(header, t.ud);
      SkipsHeader(a, raw, at, t.udl, encoding, t.ud, |header|);
    } else {
      SkipsNothing(a, raw, at, t.udl, encoding);
    }
  }

  lemma SkipsNothing(a: Gsm7.Alphabet, raw: seq<byte>, at: nat, udl: nat, encoding: DataEncoding)
    requires Gsm7.Valid(a) && at <= |raw|
    ensures BodySpec(a, raw, at, udl, false, encoding)
            == if encoding.Gsm7Bit? then UserDataSpec(a, raw, at, udl, UdhSeptets(0), encoding)
               else UserDataSpec(a, raw, at + 0, SatSub(udl, 0), 0, encoding)
  {
  }

  lemma SkipsHeader(a: Gsm7.Alphabet, raw: seq<byte>, at: nat, udl: nat, encoding: DataEncoding, ud: seq<byte>, n: nat)
    requires Gsm7.Valid(a) && |ud| == FieldOctets(udl, encoding) && at + |ud| <= |raw| && raw[at..at + |ud|] == ud
    requires n == UdhOctetLen(ud)
    requires var ports := PortsSpec(ud); !(ports.Some? && IsWapPushPort(ports.value.destination))
    ensures BodySpec(a, raw, at, udl, true, encoding)
            == if encoding.Gsm7Bit? then UserDataSpec(a, raw, at, udl, UdhSeptets(n), encoding)
               else UserDataSpec(a, raw, at + n, SatSub(udl, n), 0, encoding)
  {
    assert Preview(raw, at, udl, encoding) == ud;
    assert encoding.Ucs2? ==> SliceAt(raw, at, n).Ok?;
  }

  /** Every such PDU, with a protocol identifier outside 0x40 to 0x47, an uncompressed
      GSM-7 data coding and any octets after it, decodes to exactly its sender and text. */
  lemma Gsm7DeliverRoundTrip(a: Gsm7.Alphabet, t: Tpdu, header: seq<byte>, text: seq<char>, tail: seq<byte>)
    requires Supported(t, Gsm7Bit) && LaidOutGsm7(a, t, header, text)
    ensures DeliverSpec(a, TpduOctets(t) + tail) == Ok(SmsDeliver(Sender(t), t.scts, UserData(Gsm7Bit, text)))
  {
    var raw, at := TpduOctets(t) + tail, PidAt(t) + 10;
    ReachesUserData(a, t, tail, Gsm7Bit);
    FieldAt(raw, at, t.ud, tail);
    Gsm7BodyDecodes(a, t, header, text, raw, at);
  }

  lemma FieldAt(raw: seq<byte>, at: nat, ud: seq<byte>, tail: seq<byte>)
    requires at <= |raw| && raw[at..] == ud + tail
    ensures at + |ud| <= |raw| && raw[at..at + |ud|] == ud
  {
    assert raw[at..at + |ud|] == raw[at..][..|ud|];
  }

  lemma Gsm7BodyDecodes(a: Gsm7.Alphabet, t: Tpdu, header: seq<byte>, text: seq<char>, raw: seq<byte>, at: nat)
    requires LaidOutGsm7(a, t, header, text)
    requires at + |t.ud| <= |raw| && raw[at..at + |t.ud|] == t.ud
    ensures BodySpec(a, raw, at, t.udl, t.first / 64 % 2 == 1, Gsm7Bit) == Ok(UserData(Gsm7Bit, text))
  {
    var skip := UdhSeptets(|header|);
    assert BodySpec(a, raw, at, t.udl, t.first / 64 % 2 == 1, Gsm7Bit) == UserDataSpec(a, raw, at, t.udl, skip, Gsm7Bit) by {
      TextBehindHeader(a, t, header, raw, at, Gsm7Bit);
    }
    assert UserDataSpec(a, raw, at, t.udl, skip, Gsm7Bit) == Ok(UserData(Gsm7Bit, text)) by {
      Gsm7.CarriedTextDecodes(a, text, t.ud, skip);
      Gsm7Field(a, raw, at, t.ud, t.udl, skip, text);
    }
  }

  lemma Gsm7Field(a: Gsm7.Alphabet, raw: seq<byte>, at: nat, ud: seq<byte>, udl: nat, skip: nat, text: seq<char>)
    requires Gsm7.Valid(a) && skip <= udl && |ud| == Gsm7.PackedLength(udl)
    requires at + |ud| <= |raw| && raw[at..at + |ud|] == ud
    requires Gsm7.DecodeSpec(a, ud, skip, udl - skip, false) == Ok(text)
    ensures UserDataSpec(a, raw, at, udl, skip, Gsm7Bit) == Ok(UserData(Gsm7Bit, text))
  {
  }

  /** Such a PDU always fits the decoder's limit on the hex string. */
  lemma LaidOutPduFits(a: Gsm7.Alphabet, t: Tpdu, header: seq<byte>, text: seq<char>)
    requires Encodable(t) && LaidOutGsm7(a, t, header, text)
    ensures 2 * |TpduOctets(t)| <= MAX_PDU_HEX_LEN
  {
  }

  // The septets that spell a header in whole octets, zero fill bits included.
  ghost function HeaderSeptets(header: seq<byte>): seq<nat> {
    seq(UdhSeptets(|header|), i requires 0 <= i < UdhSeptets(|header|) => Gsm7.SeptetAt(header, i))
  }

  /** The layout exists for every header and text that fit the length octet. */
  lemma LayoutExists(a: Gsm7.Alphabet, header: seq<byte>, text: seq<char>)
    requires Gsm7.Valid(a) && Gsm7.TextSeptets(a, text).Ok?
    ensures var septets := Gsm7.TextSeptets(a, text).value;
            var ud := Gsm7.Packed(HeaderSeptets(header) + septets);
            && |ud| == Gsm7.PackedLength(UdhSeptets(|header|) + |septets|)
            && |header| <= |ud| && ud[..|header|] == header
            && Gsm7.Carries(ud, UdhSeptets(|header|), septets)
  {
    var septets := Gsm7.TextSeptets(a, text).value;
    Gsm7.SeptetsInRange(a, text);
    HeaderKept(header, septets);
    PackedBehind(HeaderSeptets(header), septets);
  }

  lemma HeaderKept(header: seq<byte>, septets: seq<nat>)
    ensures var ud := Gsm7.Packed(HeaderSeptets(header) + septets); |header| <= |ud| && ud[..|header|] == header
  {
    var ud := Gsm7.Packed(HeaderSeptets(header) + septets);
    forall j | 0 <= j < |header| ensures j < |ud| && ud[j] == header[j] {
      HeaderOctetKept(header, septets, j);
    }
    if header != [] {
      HeaderOctetKept(header, septets, |header| - 1);
    }
  }

  lemma PackedBehind(head: seq<nat>, septets: seq<nat>)
    requires forall k :: 0 <= k < |septets| ==> septets[k] < 128
    ensures Gsm7.Carries(Gsm7.Packed(head + septets), |head|, septets)
  {
    var ud := Gsm7.Packed(head + septets);
    forall k | 0 <= k < |septets| ensures Gsm7.CarriesAt(ud, |head| + k, septets[k]) {
      assert (head + septets)[|head| + k] == septets[k];
      Gsm7.PackedSeptet(head + septets, |head| + k);
    }
  }

  lemma HeaderOctetKept(header: seq<byte>, septets: seq<nat>, j: nat)
    requires j < |header|
    ensures |Gsm7.Packed(HeaderSeptets(header) + septets)| > j
    ensures Gsm7.Packed(HeaderSeptets(header) + septets)[j] == header[j]
  {
    var all := HeaderSeptets(header) + septets;
    var ud := Gsm7.Packed(all);
    forall x | 0 <= x < 8 ensures ToOctet(ud[j])[x] == ToOctet(header[j])[x] {
      var k := 8 * j + x;
      assert k / 8 == j && k % 8 == x;
      Gsm7.PackedStreamBit(all, k);
      HeaderBitKept(header, k);
      assert all[k / 7] == HeaderSeptets(header)[k / 7];
    }
    assert ToOctet(ud[j]) == ToOctet(header[j]);
    ToOctetInjective(ud[j], header[j]);
  }

  lemma HeaderBitKept(header: seq<byte>, k: nat)
    requires k < 8 * |header|
    ensures k / 7 < UdhSeptets(|header|)
    ensures BitsFrom(Gsm7.SeptetAt(header, k / 7), 7)[k % 7] == Gsm7.StreamBit(header, k)
  {
    var i := k / 7;
    var bits := seq(7, j requires 0 <= j < 7 => Gsm7.StreamBit(header, 7 * i + j));
    BitsOfValue(bits);
    assert 7 * i + k % 7 == k;
  }

  // ---- UCS-2 ----

  ghost function Utf16(text: seq<char>): seq<byte>
    requires Bmp(text)
  {
    if text == [] then []
    else CodeUnit(text[0]) + Utf16(text[1..])
  }

  /** Every character fits one 16-bit code unit. */
  ghost predicate Bmp(text: seq<char>) {
    forall i :: 0 <= i < |text| ==> text[i] as nat < 0x10000
  }

  ghost function CodeUnit(c: char): (r: seq<byte>)
    requires c as nat < 0x10000
    ensures |r| == 2
  {
    var unit := c as nat;
    [unit / 256, unit % 256]
  }

  lemma {:induction false} Utf16RoundTrip(text: seq<char>, before: seq<byte>, offset: nat)
    requires Bmp(text) && |before| % 2 == 0
    ensures |Utf16(text)| == 2 * |text|
    ensures Utf16Spec(before + Utf16(text), |before|, offset) == Ok(text)
    decreases |text|
  {
    if text != [] {
      var pair := CodeUnit(text[0]);
      var rest := Utf16(text[1..]);
      Utf16RoundTrip(text[1..], before + pair, offset);
      assert before + (pair + rest) == (before + pair) + rest;
      assert text == [text[0]] + text[1..];
    }
  }

  /** With UCS-2 the octets after the header are the text's code units: any text of the
      Basic Multilingual Plane comes back. */
  lemma Ucs2DeliverRoundTrip(a: Gsm7.Alphabet, t: Tpdu, header: seq<byte>, text: seq<char>, tail: seq<byte>)
    requires Gsm7.Valid(a) && Supported(t, Ucs2) && HeaderFits(t, header)
    requires Bmp(text)
    requires t.ud == header + Utf16(text) && t.udl == |t.ud|
    ensures DeliverSpec(a, TpduOctets(t) + tail) == Ok(SmsDeliver(Sender(t), t.scts, UserData(Ucs2, text)))
  {
    var raw, at := TpduOctets(t) + tail, PidAt(t) + 10;
    ReachesUserData(a, t, tail, Ucs2);
    FieldAt(raw, at, t.ud, tail);
    Ucs2BodyDecodes(a, t, header, text, raw, at);
  }

  lemma Ucs2BodyDecodes(a: Gsm7.Alphabet, t: Tpdu, header: seq<byte>, text: seq<char>, raw: seq<byte>, at: nat)
    requires Gsm7.Valid(a) && HeaderFits(t, header) && Bmp(text)
    requires t.ud == header + Utf16(text) && t.udl == |t.ud|
    requires at + |t.ud| <= |raw| && raw[at..at + |t.ud|] == t.ud
    ensures BodySpec(a, raw, at, t.udl, t.first / 64 % 2 == 1, Ucs2) == Ok(UserData(Ucs2, text))
  {
    TextBehindHeader(a, t, header, raw, at, Ucs2);
    Ucs2FieldDecodes(a, header, text, raw, at, t.udl);
  }

  lemma Ucs2FieldDecodes(a: Gsm7.Alphabet, header: seq<byte>, text: seq<char>, raw: seq<byte>, at: nat, udl: nat)
    requires Gsm7.Valid(a) && Bmp(text) && udl == |header + Utf16(text)|
    requires at + udl <= |raw| && raw[at..at + udl] == header + Utf16(text)
    ensures UserDataSpec(a, raw, at + |header|, SatSub(udl, |header|), 0, Ucs2) == Ok(UserData(Ucs2, text))
  {
    BehindHeader(raw, at, header, Utf16(text));
    Ucs2TextDecodes(a, text, raw, at + |header|);
  }

  lemma BehindHeader(raw: seq<byte>, at: nat, header: seq<byte>, rest: seq<byte>)
    requires at + |header| + |rest| <= |raw| && raw[at..at + |header + rest|] == header + rest
    ensures raw[at + |header|..at + |header| + |rest|] == rest
  {
    forall k | 0 <= k < |rest| ensures raw[at + |header| + k] == rest[k] {
      assert raw[at..at + |header + rest|][|header| + k] == (header + rest)[|header| + k];
    }
  }

  lemma Ucs2TextDecodes(a: Gsm7.Alphabet, text: seq<char>, raw: seq<byte>, from: nat)
    requires Gsm7.Valid(a) && Bmp(text)
    requires from + |Utf16(text)| <= |raw| && raw[from..from + |Utf16(text)|] == Utf16(text)
    ensures UserDataSpec(a, raw, from, |Utf16(text)|, 0, Ucs2) == Ok(UserData(Ucs2, text))
  {
    var units := Utf16(text);
    Utf16RoundTrip(text, [], from + |units|);
    assert [] + units == units;
    Ucs2Field(a, raw, from, units, text);
  }

  lemma Ucs2Field(a: Gsm7.Alphabet, raw: seq<byte>, from: nat, ud: seq<byte>, text: seq<char>)
    requires Gsm7.Valid(a) && |ud| % 2 == 0 && from + |ud| <= |raw| && raw[from..from + |ud|] == ud
    requires Utf16Spec(ud, 0, from + |ud|) == Ok(text)
    ensures UserDataSpec(a, raw, from, |ud|, 0, Ucs2) == Ok(UserData(Ucs2, text))
  {
  }

  // ---- Whatever decodes is normal ----

  // Offset of the protocol identifier when the first octet is at p.
  ghost function PidOffset(raw: seq<byte>, p: nat): nat
    requires p + 1 < |raw|
  {
    p + 3 + (raw[p + 1] as nat + 1) / 2
  }

  // A header that was read comes from where its fields lie.
  lemma HeaderFields(raw: seq<byte>)
    requires HeaderSpec(raw).Ok?
    ensures var h := HeaderSpec(raw).value;
            && !IsSilentPid(h.pid) && |raw| > 0
            && var p := 1 + raw[0] as nat;
            && p + 1 < |raw| && h.first == raw[p] && h.at == PidOffset(raw, p) + 10
            && h.pid == raw[h.at - 10] && DcsToEncoding(raw[h.at - 9], h.at - 9) == Ok(h.encoding) && h.udl == raw[h.at - 1]
  {
  }

  /** Any PDU that decodes at all has every field it declares, on its first octet, protocol
      identifier and user data the classification is Normal, and that identifier is not
      one of 0x40 to 0x47. */
  lemma DeliveredIsNormal(a: Gsm7.Alphabet, raw: seq<byte>)
    requires Gsm7.Valid(a) && DeliverSpec(a, raw).Ok?
    ensures HeaderSpec(raw).Ok?
    ensures var h := HeaderSpec(raw).value;
            var n := FieldOctets(h.udl, h.encoding);
            && h.at + n <= |raw| && Classify(h.first, h.pid, raw[h.at..h.at + n]) == Normal
            && h.first == raw[1 + raw[0] as nat] && h.pid == raw[h.at - 10] && h.pid / 8 != 8
  {
    var h := HeaderSpec(raw).value;
    HeaderFields(raw);
    BodyIsWhole(a, raw, h.at, h.udl, HasUdh(h.first), h.encoding);
  }

  lemma BodyIsWhole(a: Gsm7.Alphabet, raw: seq<byte>, at: nat, udl: nat, udhi: bool, encoding: DataEncoding)
    requires Gsm7.Valid(a) && at <= |raw| && BodySpec(a, raw, at, udl, udhi, encoding).Ok?
    ensures at + FieldOctets(udl, encoding) <= |raw|
    ensures udhi ==> var ports := PortsSpec(raw[at..at + FieldOctets(udl, encoding)]);
                     !(ports.Some? && IsWapPushPort(ports.value.destination))
  {
    var octets := UdhOctetLen(Preview(raw, at, udl, encoding));
    assert SatSub(udl, octets) >= udl - octets;
  }
}
