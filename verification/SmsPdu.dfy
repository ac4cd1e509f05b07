/** SMS-DELIVER decoding. */
module SmsPdu {
  import opened Wrappers
  import opened Bytes
  import Gsm7
  import Bcd = SmsAddress
  import opened SmsUdh

  const MAX_PDU_HEX_LEN: nat := 1024

  datatype AddressType = International | National | Unknown

  datatype Address = Address(number: seq<char>, typeOfAddress: AddressType)

  datatype DataEncoding = Gsm7Bit | Ucs2

  datatype UserData = UserData(encoding: DataEncoding, text: seq<char>)

  /** A decoded message; the timestamp is kept as its seven octets. */
  datatype SmsDeliver = SmsDeliver(sender: Address, timestamp: seq<byte>, userData: UserData)

  datatype Error =
    | InvalidHex
    | PduDecode(offset: nat)
    | PduEncode
    | Gsm7Encode(codepoint: nat)
    | SilentSmsAlert(pid: byte)
    | WapPushRejected(destinationPort: nat, sourcePort: nat)

  function FromGsm7(e: Gsm7.Error): Error {
    match e
    case Unencodable(c) => Gsm7Encode(c)
    case Truncated(septet) => PduDecode(septet)
    case DanglingEscape => PduDecode(0)
  }

  function FromBcd(e: Bcd.Error): Error {
    match e
    case AddressTooLong(_) => PduDecode(0)
    case InvalidDigit(_) => PduDecode(0)
    case Truncated(offset) => PduDecode(offset)
  }

  function Lift<T>(r: Result<T, Gsm7.Error>): Result<T, Error> {
    match r
    case Ok(v) => Ok(v)
    case Err(e) => Err(FromGsm7(e))
  }

  function TypeOfAddress(typeByte: byte): AddressType {
    if typeByte == 0x91 then International else if typeByte == 0x81 then National else Unknown
  }

  function SatSub(a: nat, b: nat): nat {
    if a >= b then a - b else 0
  }

  function DcsToEncoding(dcs: byte, offset: nat): Result<DataEncoding, Error> {
    if dcs / 32 % 2 == 1 then Err(PduDecode(offset))
    else if dcs / 4 % 4 == 0 then Ok(Gsm7Bit)
    else if dcs / 4 % 4 == 2 then Ok(Ucs2)
    else Err(PduDecode(offset))
  }

  // ---- Reading ----

  function ByteAt(raw: seq<byte>, p: nat): Result<byte, Error> {
    if p < |raw| then Ok(raw[p]) else Err(PduDecode(p))
  }

  function SliceAt(raw: seq<byte>, p: nat, n: nat): Result<seq<byte>, Error> {
    if p + n <= |raw| then Ok(raw[p..p + n]) else Err(PduDecode(p))
  }

  /** A read cursor over the octets of a PDU. */
  class Cursor {
    const data: seq<byte>
    var pos: nat

    constructor (d: seq<byte>)
      ensures data == d && pos == 0
    {
      data, pos := d, 0;
    }

    method ReadByte() returns (r: Result<byte, Error>)
      modifies this
      ensures r == ByteAt(data, old(pos))
      ensures pos == if r.Ok? then old(pos) + 1 else old(pos)
    {
      if pos >= |data| {
        return Err(PduDecode(pos));
      }
      r := Ok(data[pos]);
      pos := pos + 1;
    }

    method ReadSlice(n: nat) returns (r: Result<seq<byte>, Error>)
      modifies this
      ensures r == SliceAt(data, old(pos), n)
      ensures pos == if r.Ok? then old(pos) + n else old(pos)
    {
      var end := pos + n;
      if end > |data| {
        return Err(PduDecode(pos));
      }
      r := Ok(data[pos..end]);
      pos := end;
    }
  }

  // ---- Specification ----

  ghost function SenderSpec(lenDigits: byte, typeByte: byte, bcd: seq<byte>): Result<Address, Error> {
    match Bcd.DecodeSpec(lenDigits, typeByte, bcd)
    case Ok(number) => Ok(Address(number, TypeOfAddress(typeByte)))
    case Err(e) => Err(FromBcd(e))
  }

  // Code units from `i` on, all outside the surrogate range.
  ghost function Utf16Spec(ud: seq<byte>, i: nat, offset: nat): Result<seq<char>, Error>
    requires |ud| % 2 == 0 && i % 2 == 0 && i <= |ud|
    decreases |ud| - i
  {
    if i == |ud| then Ok([])
    else
      var unit := 256 * (ud[i] as nat) + ud[i + 1];
      if 0xD800 <= unit < 0xE000 then Err(PduDecode(offset))
      else
        var rest :- Utf16Spec(ud, i + 2, offset);
        Ok([unit as char] + rest)
  }

  ghost function UserDataSpec(a: Gsm7.Alphabet, raw: seq<byte>, at: nat, udl: nat, udhSeptets: nat, encoding: DataEncoding)
    : Result<UserData, Error>
    requires Gsm7.Valid(a)
  {
    match encoding
    case Gsm7Bit =>
      var ud :- SliceAt(raw, at, Gsm7.PackedLength(udl));
      var text :- Lift(Gsm7.DecodeSpec(a, ud, udhSeptets, SatSub(udl, udhSeptets), false));
      Ok(UserData(Gsm7Bit, text))
    case Ucs2 =>
      var ud :- SliceAt(raw, at, udl);
      if |ud| % 2 != 0 then Err(PduDecode(at + udl))
      else
        var text :- Utf16Spec(ud, 0, at + udl);
        Ok(UserData(Ucs2, text))
  }

  // Octets of the user-data field by its length octet.
  function FieldOctets(udl: nat, encoding: DataEncoding): nat {
    if encoding.Gsm7Bit? then Gsm7.PackedLength(udl) else udl
  }

  // What there is of the user-data field.
  function Preview(raw: seq<byte>, at: nat, udl: nat, encoding: DataEncoding): seq<byte>
    requires at <= |raw|
  {
    var n := FieldOctets(udl, encoding);
    if at + n <= |raw| then raw[at..at + n] else raw[at..]
  }

  ghost function BodySpec(a: Gsm7.Alphabet, raw: seq<byte>, at: nat, udl: nat, udhi: bool, encoding: DataEncoding)
    : Result<UserData, Error>
    requires Gsm7.Valid(a) && at <= |raw|
  {
    if !udhi then UserDataSpec(a, raw, at, udl, 0, encoding)
    else
      var preview := Preview(raw, at, udl, encoding);
      var ports := PortsSpec(preview);
      if ports.Some? && IsWapPushPort(ports.value.destination) then
        Err(WapPushRejected(ports.value.destination, ports.value.source))
      else
        var octets := UdhOctetLen(preview);
        match encoding
        case Gsm7Bit => UserDataSpec(a, raw, at, udl, UdhSeptets(octets), encoding)
        case Ucs2 =>
          var _ :- SliceAt(raw, at, octets);
          UserDataSpec(a, raw, at + octets, SatSub(udl, octets), 0, encoding)
  }

  /** Everything before the user data, and where that begins. */
  datatype Header = Header(
    first: byte, sender: Address, pid: byte, encoding: DataEncoding, scts: seq<byte>, udl: byte, at: nat)

  // From the protocol identifier, at offset q, to the user data length.
  ghost function TailSpec(raw: seq<byte>, q: nat, first: byte, sender: Address): (r: Result<Header, Error>)
    ensures r.Ok? ==> r.value.at <= |raw|
  {
    var pid :- ByteAt(raw, q);
    if IsSilentPid(pid) then Err(SilentSmsAlert(pid))
    else
      var dcs :- ByteAt(raw, q + 1);
      var encoding :- DcsToEncoding(dcs, q + 1);
      var scts :- SliceAt(raw, q + 2, 7);
      var udl :- ByteAt(raw, q + 9);
      Ok(Header(first, sender, pid, encoding, scts, udl, q + 10))
  }

  // From the originating address, at offset q.
  ghost function AddressSpec(raw: seq<byte>, q: nat, first: byte): (r: Result<Header, Error>)
    ensures r.Ok? ==> r.value.at <= |raw|
  {
    var oaLen :- ByteAt(raw, q);
    var oaType :- ByteAt(raw, q + 1);
    var n := (oaLen as nat + 1) / 2;
    var bcd :- SliceAt(raw, q + 2, n);
    var sender :- SenderSpec(oaLen, oaType, bcd);
    TailSpec(raw, q + 2 + n, first, sender)
  }

  ghost function HeaderSpec(raw: seq<byte>): (r: Result<Header, Error>)
    ensures r.Ok? ==> r.value.at <= |raw|
  {
    var smscLen :- ByteAt(raw, 0);
    var _ :- SliceAt(raw, 1, smscLen);
    var p := 1 + smscLen as nat;
    var first :- ByteAt(raw, p);
    if first % 4 != 0 then Err(PduDecode(p)) else AddressSpec(raw, p + 1, first)
  }

  ghost function DeliverSpec(a: Gsm7.Alphabet, raw: seq<byte>): Result<SmsDeliver, Error>
    requires Gsm7.Valid(a)
  {
    var h :- HeaderSpec(raw);
    var userData :- BodySpec(a, raw, h.at, h.udl, HasUdh(h.first), h.encoding);
    Ok(SmsDeliver(h.sender, h.scts, userData))
  }

  /** Decodes an SMS-DELIVER PDU from its hex form. */
  method DecodeDeliver(a: Gsm7.Alphabet, pduHex: seq<char>) returns (r: Result<SmsDeliver, Error>)
    requires Gsm7.Valid(a)
    ensures |pduHex| > 1024 || (forall raw :: !Bcd.Spells(pduHex, raw)) ==> r == Err(InvalidHex)
    ensures forall raw :: |pduHex| <= 1024 && Bcd.Spells(pduHex, raw) ==> r == DeliverSpec(a, raw)
  {
    if |pduHex| > MAX_PDU_HEX_LEN {
      return Err(InvalidHex);
    }
    var decoded := Bcd.HexDecode(pduHex);
    if decoded.None? {
      return Err(InvalidHex);
    }
    r := DecodeRaw(a, decoded.value);
    forall raw | Bcd.Spells(pduHex, raw) ensures raw == decoded.value {
      Bcd.SpellingIsUnique(pduHex, raw, decoded.value);
    }
  }

  method DecodeRaw(a: Gsm7.Alphabet, raw: seq<byte>) returns (r: Result<SmsDeliver, Error>)
    requires Gsm7.Valid(a)
    ensures r == DeliverSpec(a, raw)
  {
    var cur := new Cursor(raw);
    var h :- DecodeHeader(cur);
    var userData :- DecodeBody(a, cur, h.udl, HasUdh(h.first), h.encoding);
    r := Ok(SmsDeliver(h.sender, h.scts, userData));
  }

  method DecodeHeader(cur: Cursor) returns (r: Result<Header, Error>)
    requires cur.pos == 0
    modifies cur
    ensures r == HeaderSpec(cur.data) && (r.Ok? ==> cur.pos == r.value.at)
  {
    var smscLen :- cur.ReadByte();
    var _ :- cur.ReadSlice(smscLen);
    var first :- cur.ReadByte();
    if first % 4 != 0 {
      return Err(PduDecode(cur.pos - 1));
    }
    r := DecodeAddress(cur, first);
  }

  method DecodeAddress(cur: Cursor, first: byte) returns (r: Result<Header, Error>)
    modifies cur
    ensures r == AddressSpec(cur.data, old(cur.pos), first) && (r.Ok? ==> cur.pos == r.value.at)
  {
    var oaLen :- cur.ReadByte();
    var oaType :- cur.ReadByte();
    var bcd :- cur.ReadSlice((oaLen as nat + 1) / 2);
    var number := Bcd.DecodeBcdAddress(oaLen, oaType, bcd);
    if number.Err? {
      return Err(FromBcd(number.error));
    }
    r := DecodeTail(cur, first, Address(number.value, TypeOfAddress(oaType)));
  }

  method DecodeTail(cur: Cursor, first: byte, sender: Address) returns (r: Result<Header, Error>)
    modifies cur
    ensures r == TailSpec(cur.data, old(cur.pos), first, sender) && (r.Ok? ==> cur.pos == r.value.at)
  {
    var pid :- cur.ReadByte();
    if IsSilentPid(pid) {
      return Err(SilentSmsAlert(pid));
    }
    var dcs :- cur.ReadByte();
    var encoding :- DcsToEncoding(dcs, cur.pos - 1);
    var scts :- cur.ReadSlice(7);
    var udl :- cur.ReadByte();
    r := Ok(Header(first, sender, pid, encoding, scts, udl, cur.pos));
  }

  method DecodeBody(a: Gsm7.Alphabet, cur: Cursor, declared: nat, udhi: bool, encoding: DataEncoding)
    returns (r: Result<UserData, Error>)
    requires Gsm7.Valid(a) && cur.pos <= |cur.data|
    modifies cur
    ensures r == BodySpec(a, cur.data, old(cur.pos), declared, udhi, encoding)
  {
    var udl, udhSeptets := declared, 0;
    if udhi {
      var preview := Preview(cur.data, cur.pos, udl, encoding);
      var ports := ParseUdhPorts(preview);
      if ports.Some? && IsWapPushPort(ports.value.destination) {
        return Err(WapPushRejected(ports.value.destination, ports.value.source));
      }
      var octets := UdhOctetLen(preview);
      match encoding
      case Gsm7Bit => udhSeptets := UdhSeptets(octets);
      case Ucs2 =>
        var _ :- cur.ReadSlice(octets);
        udl := SatSub(udl, octets);
    }
    r := DecodeUserData(a, cur, udl, udhSeptets, encoding);
  }

  method DecodeUserData(a: Gsm7.Alphabet, cur: Cursor, udl: nat, udhSeptets: nat, encoding: DataEncoding)
    returns (r: Result<UserData, Error>)
    requires Gsm7.Valid(a)
    modifies cur
    ensures r == UserDataSpec(a, cur.data, old(cur.pos), udl, udhSeptets, encoding)
  {
    match encoding
    case Gsm7Bit =>
      var ud :- cur.ReadSlice(Gsm7.PackedLength(udl));
      var text := Gsm7.DecodeFrom(a, ud, udhSeptets, SatSub(udl, udhSeptets));
      if text.Err? {
        return Err(FromGsm7(text.error));
      }
      r := Ok(UserData(Gsm7Bit, text.value));
    case Ucs2 =>
      var ud :- cur.ReadSlice(udl);
      if |ud| % 2 != 0 {
        return Err(PduDecode(cur.pos));
      }
      var text :- DecodeUtf16(ud, cur.pos);
      r := Ok(UserData(Ucs2, text));
  }

  method DecodeUtf16(ud: seq<byte>, offset: nat) returns (r: Result<seq<char>, Error>)
    requires |ud| % 2 == 0
    ensures r == Utf16Spec(ud, 0, offset)
  {
    var s: seq<char> := [];
    var i := 0;
    assert Utf16Spec(ud, 0, offset).Ok? ==> [] + Utf16Spec(ud, 0, offset).value == Utf16Spec(ud, 0, offset).value;
    while i < |ud|
      invariant i % 2 == 0 && 0 <= i <= |ud|
      invariant Utf16Spec(ud, 0, offset) == Prefixed(s, Utf16Spec(ud, i, offset))
    {
      var unit := 256 * (ud[i] as nat) + ud[i + 1];
      if 0xD800 <= unit < 0xE000 {
        return Err(PduDecode(offset));
      }
      ghost var rest := Utf16Spec(ud, i + 2, offset);
      assert rest.Ok? ==> s + ([unit as char] + rest.value) == (s + [unit as char]) + rest.value;
      s := s + [unit as char];
      i := i + 2;
    }
    assert s + [] == s;
    r := Ok(s);
  }
}
