/** EAPOL and EAPOL-Key framing: sections 11.3 of IEEE 802.1X-2020 and 12.7.2 of IEEE 802.11-2020. */
module Eapol {
  import opened Wrappers
  import opened Bytes

  const HEADER_LEN: nat := 4
  const KEY_FIXED_LEN: nat := 95
  const DESCRIPTOR_TYPE_RSN: byte := 0x02
  const MAX_U16: nat := 0xFFFF
  const ZEROS_8: seq<byte> := [0, 0, 0, 0, 0, 0, 0, 0]
  const ZEROS_16: seq<byte> := [0, 0, 0, 0, 0, 0, 0, 0, 0, 0, 0, 0, 0, 0, 0, 0]
  const ZEROS_32: seq<byte> := [0, 0, 0, 0, 0, 0, 0, 0, 0, 0, 0, 0, 0, 0, 0, 0,
                                0, 0, 0, 0, 0, 0, 0, 0, 0, 0, 0, 0, 0, 0, 0, 0]

  type u16 = x: nat | x < 0x1_0000
  type u64 = x: nat | x < 0x1_0000_0000_0000_0000
  type Nonce = s: seq<byte> | |s| == 32 witness ZEROS_32
  type Block = s: seq<byte> | |s| == 16 witness ZEROS_16

  datatype PacketType = EapPacket | Start | Logoff | Key

  datatype KeyFrame = KeyFrame(
    descriptorType: byte, keyInfo: u16, keyLength: u16, replayCounter: u64,
    nonce: Nonce, iv: Block, rsc: u64, mic: Block, keyData: seq<byte>)

  datatype Frame = Frame(version: byte, packetType: PacketType, keyFrame: Option<KeyFrame>, rawBody: seq<byte>)

  datatype Error =
    | TooShort(need: nat, have: nat)
    | UnknownEapolType(value: byte)
    | UnknownKeyDescriptorType(value: byte)

  // ---- Numbers, most significant octet first ----

  function BigEndian(n: nat, x: nat): (s: seq<byte>)
    ensures |s| == n
  {
    if n == 0 then [] else BigEndian(n - 1, x / 256) + [x % 256]
  }

  function FromBigEndian(s: seq<byte>): (x: nat)
    ensures x < Pow256(|s|)
  {
    if s == [] then 0 else 256 * FromBigEndian(s[..|s| - 1]) + s[|s| - 1] as nat
  }

  lemma Widths()
    ensures Pow256(2) == 0x1_0000 && Pow256(8) == 0x1_0000_0000_0000_0000
  {
    assert Pow256(1) == 256 && Pow256(2) == 256 * Pow256(1) && Pow256(3) == 256 * Pow256(2);
    assert Pow256(4) == 256 * Pow256(3) && Pow256(5) == 256 * Pow256(4) && Pow256(6) == 256 * Pow256(5);
    assert Pow256(7) == 256 * Pow256(6) && Pow256(8) == 256 * Pow256(7);
  }

  lemma {:induction false} ReadWritten(n: nat, x: nat)
    requires x < Pow256(n)
    ensures FromBigEndian(BigEndian(n, x)) == x
  {
    if n > 0 {
      ReadWritten(n - 1, x / 256);
      var s := BigEndian(n, x);
      assert s[..|s| - 1] == BigEndian(n - 1, x / 256);
    }
  }

  lemma {:induction false} WriteRead(s: seq<byte>)
    ensures BigEndian(|s|, FromBigEndian(s)) == s
  {
    if s != [] {
      var n := |s| - 1;
      WriteRead(s[..n]);
      assert FromBigEndian(s) / 256 == FromBigEndian(s[..n]) && FromBigEndian(s) % 256 == s[n];
      assert s == s[..n] + [s[n]];
    }
  }

  function ReadU16(s: seq<byte>): u16
    requires |s| == 2
  {
    Widths();
    FromBigEndian(s)
  }

  function ReadU64(s: seq<byte>): u64
    requires |s| == 8
  {
    Widths();
    FromBigEndian(s)
  }

  // ---- Parsing ----

  function TypeFromByte(b: byte): Result<PacketType, Error> {
    if b == 0 then Ok(EapPacket)
    else if b == 1 then Ok(Start)
    else if b == 2 then Ok(Logoff)
    else if b == 3 then Ok(Key)
    else Err(UnknownEapolType(b))
  }

  function TypeToByte(t: PacketType): byte {
    match t
    case EapPacket => 0
    case Start => 1
    case Logoff => 2
    case Key => 3
  }

  function Parse(data: seq<byte>): Result<Frame, Error> {
    if |data| < HEADER_LEN then Err(TooShort(HEADER_LEN, |data|))
    else
      var packetType :- TypeFromByte(data[1]);
      var total := HEADER_LEN + ReadU16(data[2..4]);
      if |data| < total then Err(TooShort(total, |data|))
      else
        var body := data[HEADER_LEN..total];
        if packetType.Key? then
          var keyFrame :- ParseKeyFrame(body);
          Ok(Frame(data[0], packetType, Some(keyFrame), []))
        else
          Ok(Frame(data[0], packetType, None, body))
  }

  function ParseKeyFrame(body: seq<byte>): Result<KeyFrame, Error> {
    if |body| < KEY_FIXED_LEN then Err(TooShort(KEY_FIXED_LEN, |body|))
    else if body[0] != DESCRIPTOR_TYPE_RSN then Err(UnknownKeyDescriptorType(body[0]))
    else
      var end := KEY_FIXED_LEN + ReadU16(body[93..95]);
      if |body| < end then Err(TooShort(end, |body|))
      else Ok(KeyFrame(
                body[0], ReadU16(body[1..3]), ReadU16(body[3..5]), ReadU64(body[5..13]), body[13..45],
                body[45..61], ReadU64(body[61..69]), body[77..93], body[KEY_FIXED_LEN..end]))
  }

  // ---- Encoding ----

  /** At most what a 16-bit length can say. */
  function Capped(s: seq<byte>): seq<byte> {
    if |s| <= MAX_U16 then s else s[..MAX_U16]
  }

  // The 95 octets before the key data, which they declare to be n octets long.
  ghost function Fixed(kf: KeyFrame, n: u16): seq<byte> {
    [kf.descriptorType] + BigEndian(2, kf.keyInfo) + BigEndian(2, kf.keyLength) + BigEndian(8, kf.replayCounter)
    + kf.nonce + kf.iv + BigEndian(8, kf.rsc) + ZEROS_8 + kf.mic + BigEndian(2, n)
  }

  ghost function KeyOctets(kf: KeyFrame): seq<byte> {
    var keyData := Capped(kf.keyData);
    Fixed(kf, |keyData|) + keyData
  }

  ghost function Encoded(f: Frame): seq<byte> {
    var body := Capped(if f.keyFrame.Some? then KeyOctets(f.keyFrame.value) else f.rawBody);
    [f.version, TypeToByte(f.packetType)] + BigEndian(2, |body|) + body
  }

  method EncodeKeyFrame(kf: KeyFrame) returns (out: seq<byte>)
    ensures out == KeyOctets(kf)
  {
    var keyDataLen := if |kf.keyData| <= MAX_U16 then |kf.keyData| else MAX_U16;
    out := [kf.descriptorType];
    out := out + BigEndian(2, kf.keyInfo);
    out := out + BigEndian(2, kf.keyLength);
    out := out + BigEndian(8, kf.replayCounter);
    out := out + kf.nonce;
    out := out + kf.iv;
    out := out + BigEndian(8, kf.rsc);
    out := out + ZEROS_8;
    out := out + kf.mic;
    out := out + BigEndian(2, keyDataLen);
    out := out + kf.keyData[..keyDataLen];
    assert kf.keyData[..keyDataLen] == Capped(kf.keyData);
  }

  method Encode(f: Frame) returns (out: seq<byte>)
    ensures out == Encoded(f)
  {
    var body := f.rawBody;
    if f.keyFrame.Some? {
      body := EncodeKeyFrame(f.keyFrame.value);
    }
    var bodyLen := if |body| <= MAX_U16 then |body| else MAX_U16;
    assert body[..bodyLen] == Capped(body);
    out := [f.version];
    out := out + [TypeToByte(f.packetType)];
    out := out + BigEndian(2, bodyLen);
    out := out + body[..bodyLen];
  }

  // ---- Round trips ----

  /** The frames that survive the wire. */
  predicate WellFormed(f: Frame) {
    match f.packetType
    case Key =>
      && f.keyFrame.Some? && f.rawBody == []
      && f.keyFrame.value.descriptorType == DESCRIPTOR_TYPE_RSN
      && KEY_FIXED_LEN + |f.keyFrame.value.keyData| <= MAX_U16
    case _ => f.keyFrame.None? && |f.rawBody| <= MAX_U16
  }

  lemma NumberRead(x: u16, y: u64)
    ensures ReadU16(BigEndian(2, x)) == x && ReadU64(BigEndian(8, y)) == y
  {
    Widths();
    ReadWritten(2, x);
    ReadWritten(8, y);
  }

  /** Every field lies where the parser looks for it. */
  lemma FixedLayout(kf: KeyFrame, n: u16)
    ensures var b := Fixed(kf, n);
            && |b| == KEY_FIXED_LEN && b[0] == kf.descriptorType
            && b[1..3] == BigEndian(2, kf.keyInfo) && b[3..5] == BigEndian(2, kf.keyLength)
            && b[5..13] == BigEndian(8, kf.replayCounter) && b[13..45] == kf.nonce && b[45..61] == kf.iv
            && b[61..69] == BigEndian(8, kf.rsc) && b[69..77] == ZEROS_8 && b[77..93] == kf.mic
            && b[93..95] == BigEndian(2, n)
  {
  }

  // Each field of octets that begin with the fixed part reads as it was written.
  lemma FixedRead(kf: KeyFrame, n: u16, b: seq<byte>)
    requires |b| >= KEY_FIXED_LEN && b[..KEY_FIXED_LEN] == Fixed(kf, n)
    ensures b[0] == kf.descriptorType && ReadU16(b[1..3]) == kf.keyInfo && ReadU16(b[3..5]) == kf.keyLength
    ensures ReadU64(b[5..13]) == kf.replayCounter && b[13..45] == kf.nonce && b[45..61] == kf.iv
    ensures ReadU64(b[61..69]) == kf.rsc && b[77..93] == kf.mic && ReadU16(b[93..95]) == n
  {
    FixedLayout(kf, n);
    var fixed := b[..KEY_FIXED_LEN];
    assert b[0] == fixed[0] && b[1..3] == fixed[1..3] && b[3..5] == fixed[3..5] && b[5..13] == fixed[5..13];
    assert b[13..45] == fixed[13..45] && b[45..61] == fixed[45..61] && b[61..69] == fixed[61..69];
    assert b[77..93] == fixed[77..93] && b[93..95] == fixed[93..95];
    NumberRead(n, kf.replayCounter);
    NumberRead(kf.keyInfo, kf.rsc);
    NumberRead(kf.keyLength, 0);
  }

  lemma KeyOctetsParse(kf: KeyFrame)
    requires kf.descriptorType == DESCRIPTOR_TYPE_RSN
    ensures KEY_FIXED_LEN + |kf.keyData| <= MAX_U16 ==> ParseKeyFrame(Capped(KeyOctets(kf))) == Ok(kf)
    ensures KEY_FIXED_LEN + |kf.keyData| > MAX_U16 ==> ParseKeyFrame(Capped(KeyOctets(kf))).Err?
  {
    var keyData := Capped(kf.keyData);
    FixedLayout(kf, |keyData|);
    var b := Capped(KeyOctets(kf));
    assert b[..KEY_FIXED_LEN] == Fixed(kf, |keyData|);
    ParseFixed(kf, |keyData|, b);
    if KEY_FIXED_LEN + |kf.keyData| <= MAX_U16 {
      assert b[KEY_FIXED_LEN..KEY_FIXED_LEN + |keyData|] == kf.keyData;
    }
  }

  // Octets that begin with the fixed part parse to it and to the key data it declares.
  lemma ParseFixed(kf: KeyFrame, n: u16, b: seq<byte>)
    requires kf.descriptorType == DESCRIPTOR_TYPE_RSN && |b| >= KEY_FIXED_LEN && b[..KEY_FIXED_LEN] == Fixed(kf, n)
    ensures |b| >= KEY_FIXED_LEN + n ==>
              ParseKeyFrame(b) == Ok(kf.(keyData := b[KEY_FIXED_LEN..KEY_FIXED_LEN + n]))
    ensures |b| < KEY_FIXED_LEN + n ==> ParseKeyFrame(b).Err?
  {
    FixedRead(kf, n, b);
  }

  lemma HeaderParse(f: Frame)
    ensures var b := Encoded(f);
            var body := Capped(if f.keyFrame.Some? then KeyOctets(f.keyFrame.value) else f.rawBody);
            && |b| == HEADER_LEN + |body| && b[0] == f.version && TypeFromByte(b[1]) == Ok(f.packetType)
            && ReadU16(b[2..4]) == |body| && b[HEADER_LEN..HEADER_LEN + |body|] == body
  {
    var body := Capped(if f.keyFrame.Some? then KeyOctets(f.keyFrame.value) else f.rawBody);
    NumberRead(|body|, 0);
    assert Encoded(f)[2..4] == BigEndian(2, |body|);
  }

  /** Parsing undoes encoding on exactly the well-formed frames: an oversized key frame
      comes back as an error and any other ill-formed frame as an error or another frame. */
  lemma ParseOfEncode(f: Frame)
    ensures Parse(Encoded(f)) == Ok(f) <==> WellFormed(f)
    ensures f.packetType.Key? && f.keyFrame.Some? ==>
              (KEY_FIXED_LEN + |f.keyFrame.value.keyData| > MAX_U16 ==> Parse(Encoded(f)).Err?)
  {
    HeaderParse(f);
    if f.packetType.Key? && f.keyFrame.Some? {
      var kf := f.keyFrame.value;
      if kf.descriptorType == DESCRIPTOR_TYPE_RSN {
        KeyOctetsParse(kf);
      }
    }
  }

  /** Every parsed frame is one that survives being sent on. */
  lemma ParseIsWellFormed(data: seq<byte>)
    requires Parse(data).Ok?
    ensures WellFormed(Parse(data).value)
  {
  }

  /** Parsing what was parsed and encoded again changes nothing, for every input. */
  lemma Reparse(data: seq<byte>)
    requires Parse(data).Ok?
    ensures Parse(Encoded(Parse(data).value)) == Parse(data)
  {
    ParseIsWellFormed(data);
    ParseOfEncode(Parse(data).value);
  }

  // ---- The wire image ----

  ghost predicate CanonicalBody(body: seq<byte>)
    requires |body| >= KEY_FIXED_LEN
  {
    body[69..77] == ZEROS_8 && |body| == KEY_FIXED_LEN + ReadU16(body[93..95])
  }

  /** No octets beyond the declared lengths, and zeros in the reserved field. */
  ghost predicate Canonical(data: seq<byte>)
    requires Parse(data).Ok?
  {
    && |data| == HEADER_LEN + ReadU16(data[2..4])
    && (data[1] == 3 ==> CanonicalBody(data[HEADER_LEN..]))
  }

  lemma KeyOctetsOfParse(body: seq<byte>)
    requires ParseKeyFrame(body).Ok? && |body| <= MAX_U16
    ensures KeyOctets(ParseKeyFrame(body).value) == body <==> CanonicalBody(body)
  {
    var kf := ParseKeyFrame(body).value;
    if KeyOctets(kf) == body {
      EncodedBodyIsCanonical(body, kf);
    }
    if CanonicalBody(body) {
      CanonicalBodyIsEncoded(body, kf);
    }
  }

  lemma EncodedBodyIsCanonical(body: seq<byte>, kf: KeyFrame)
    requires ParseKeyFrame(body) == Ok(kf) && KeyOctets(kf) == body && |body| <= MAX_U16
    ensures CanonicalBody(body)
  {
    var n := |kf.keyData|;
    FixedLayout(kf, n);
    assert body[..KEY_FIXED_LEN] == Fixed(kf, n);
    assert body[69..77] == body[..KEY_FIXED_LEN][69..77];
  }

  lemma CanonicalBodyIsEncoded(body: seq<byte>, kf: KeyFrame)
    requires ParseKeyFrame(body) == Ok(kf) && CanonicalBody(body) && |body| <= MAX_U16
    ensures KeyOctets(kf) == body
  {
    WriteRead(body[1..3]);
    WriteRead(body[3..5]);
    WriteRead(body[5..13]);
    WriteRead(body[61..69]);
    WriteRead(body[93..95]);
    FixedFromSlices(kf, |kf.keyData|, body);
    assert body == body[..KEY_FIXED_LEN] + body[KEY_FIXED_LEN..];
  }

  lemma FixedFromSlices(kf: KeyFrame, n: u16, body: seq<byte>)
    requires |body| >= KEY_FIXED_LEN && body[0] == kf.descriptorType
    requires body[1..3] == BigEndian(2, kf.keyInfo) && body[3..5] == BigEndian(2, kf.keyLength)
    requires body[5..13] == BigEndian(8, kf.replayCounter) && body[13..45] == kf.nonce && body[45..61] == kf.iv
    requires body[61..69] == BigEndian(8, kf.rsc) && body[69..77] == ZEROS_8 && body[77..93] == kf.mic
    requires body[93..95] == BigEndian(2, n)
    ensures Fixed(kf, n) == body[..KEY_FIXED_LEN]
  {
    assert body[..1] == [kf.descriptorType];
    Glue(body, 1, 3);
    Glue(body, 3, 5);
    Glue(body, 5, 13);
    Glue(body, 13, 45);
    Glue(body, 45, 61);
    Glue(body, 61, 69);
    Glue(body, 69, 77);
    Glue(body, 77, 93);
    Glue(body, 93, 95);
  }

  lemma Glue(s: seq<byte>, i: nat, j: nat)
    requires i <= j <= |s|
    ensures s[..i] + s[i..j] == s[..j]
  {
  }

  // The octets encode f's header and body exactly when nothing follows the declared body.
  lemma EncodedSplit(f: Frame, data: seq<byte>, body: seq<byte>)
    requires |data| >= HEADER_LEN && body == Capped(if f.keyFrame.Some? then KeyOctets(f.keyFrame.value) else f.rawBody)
    ensures Encoded(f) == data <==> data[0] == f.version && data[1] == TypeToByte(f.packetType)
                                    && ReadU16(data[2..4]) == |body| && data[HEADER_LEN..] == body
  {
    HeaderParse(f);
    if Encoded(f) == data {
      assert data[HEADER_LEN..] == data[HEADER_LEN..HEADER_LEN + |body|];
      assert data[1] == TypeToByte(f.packetType);
    }
    if data[0] == f.version && data[1] == TypeToByte(f.packetType) && ReadU16(data[2..4]) == |body| && data[HEADER_LEN..] == body {
      Reassembled(data, body);
    }
  }

  lemma Reassembled(data: seq<byte>, body: seq<byte>)
    requires |data| >= HEADER_LEN && ReadU16(data[2..4]) == |body| && data[HEADER_LEN..] == body
    ensures data == [data[0], data[1]] + BigEndian(2, |body|) + body
  {
    WriteRead(data[2..4]);
    assert data == [data[0], data[1]] + data[2..4] + data[HEADER_LEN..];
  }

  /** Encoding undoes parsing on exactly the canonical octets. */
  lemma EncodeOfParse(data: seq<byte>)
    requires Parse(data).Ok?
    ensures Encoded(Parse(data).value) == data <==> Canonical(data)
  {
    var f := Parse(data).value;
    var n := ReadU16(data[2..4]);
    var body := data[HEADER_LEN..HEADER_LEN + n];
    ParseIsWellFormed(data);
    if f.packetType.Key? {
      KeyOctetsOfParse(body);
      KeyOctetsNoLonger(body);
      EncodedSplit(f, data, KeyOctets(f.keyFrame.value));
    } else {
      EncodedSplit(f, data, body);
    }
    if |data| == HEADER_LEN + n {
      assert data[HEADER_LEN..] == body;
    }
  }

  lemma KeyOctetsNoLonger(body: seq<byte>)
    requires ParseKeyFrame(body).Ok? && |body| <= MAX_U16
    ensures |KeyOctets(ParseKeyFrame(body).value)| <= |body|
  {
  }

  /** Octets behind the declared ones are ignored by the parser and lost by the encoder:
      what they make is not canonical. */
  lemma SlackIsNotCanonical(data: seq<byte>, slack: seq<byte>)
    requires Parse(data).Ok? && Canonical(data) && slack != []
    ensures Parse(data + slack) == Parse(data) && !Canonical(data + slack)
    ensures Encoded(Parse(data + slack).value) == data
  {
    var all, total := data + slack, |data|;
    assert all[2..4] == data[2..4];
    assert all[HEADER_LEN..total] == data[HEADER_LEN..total];
    EncodeOfParse(data);
  }

  /** The first octet of a number is the more significant one. */
  lemma ReadU16Octets(hi: byte, lo: byte)
    ensures ReadU16([hi, lo]) == 256 * hi as nat + lo as nat
  {
    assert [hi, lo][..1] == [hi];
    assert FromBigEndian([hi]) == 256 * FromBigEndian([]) + hi as nat;
  }

  /** Every header octet lies where section 11.3 of IEEE 802.1X-2020 puts it: version, type,
      length of the body. */
  lemma HeaderOctets(f: Frame)
    ensures var b := Encoded(f);
            && |b| >= HEADER_LEN && b[0] == f.version && |b| == HEADER_LEN + 256 * b[2] as nat + b[3] as nat
            && (f.packetType == EapPacket <==> b[1] == 0) && (f.packetType == Start <==> b[1] == 1)
            && (f.packetType == Logoff <==> b[1] == 2) && (f.packetType == Key <==> b[1] == 3)
  {
    HeaderParse(f);
    var b := Encoded(f);
    assert b[2..4] == [b[2], b[3]];
    ReadU16Octets(b[2], b[3]);
  }

  // A length that octets i and i + 1 declare.
  ghost function Declared(s: seq<byte>, i: nat): nat
    requires i + 1 < |s|
  {
    256 * s[i] as nat + s[i + 1] as nat
  }

  /** The error of whatever does not parse, in the order the octets are looked at. */
  ghost function Fault(data: seq<byte>): Option<Error> {
    if |data| < 4 then Some(TooShort(4, |data|))
    else if data[1] > 3 then Some(UnknownEapolType(data[1]))
    else
      var n := Declared(data, 2);
      if |data| < 4 + n then Some(TooShort(4 + n, |data|))
      else if data[1] != 3 then None
      else if n < 95 then Some(TooShort(95, n))
      else if data[4] != 2 then Some(UnknownKeyDescriptorType(data[4]))
      else if n < 95 + Declared(data, 97) then Some(TooShort(95 + Declared(data, 97), n))
      else None
  }

  lemma FaultsAreNamed(data: seq<byte>)
    ensures var r := Parse(data); if Fault(data).Some? then r == Err(Fault(data).value) else r.Ok?
  {
    if |data| >= 4 && data[1] <= 3 {
      assert data[2..4] == [data[2], data[3]];
      ReadU16Octets(data[2], data[3]);
      var n := Declared(data, 2);
      if data[1] == 3 && |data| >= 4 + n && n >= 95 {
        SliceOfSlice(data, 4, 4 + n, 93, 95);
        assert data[97..99] == [data[97], data[98]];
        ReadU16Octets(data[97], data[98]);
      }
    }
  }

  lemma KeyInfoOnTheWire(data: seq<byte>)
    requires Parse(data).Ok? && Parse(data).value.packetType.Key?
    ensures |data| >= HEADER_LEN + KEY_FIXED_LEN && Parse(data).value.keyFrame.Some?
    ensures Parse(data).value.keyFrame.value.keyInfo == 256 * data[5] as nat + data[6] as nat
  {
    var total := HEADER_LEN + ReadU16(data[2..4]);
    SliceOfSlice(data, HEADER_LEN, total, 1, 3);
    assert data[5..7] == [data[5], data[6]];
    ReadU16Octets(data[5], data[6]);
  }

  /** Where the integrity code lies in an encoded key frame. */
  const MIC_AT: nat := 81

  ghost function Spliced(s: seq<byte>, at: nat, mic: Block): (r: seq<byte>)
    requires at + 16 <= |s|
    ensures |r| == |s|
  {
    s[..at] + mic + s[at + 16..]
  }

  ghost function MicZeroed(data: seq<byte>): seq<byte>
    requires |data| >= HEADER_LEN + KEY_FIXED_LEN
  {
    Spliced(data, MIC_AT, ZEROS_16)
  }

  lemma SplicedInside(p: seq<byte>, s: seq<byte>, t: seq<byte>, at: nat, mic: Block)
    requires at + 16 <= |s|
    ensures p + Spliced(s, at, mic) + t == Spliced(p + s + t, |p| + at, mic)
  {
    var all := p + s + t;
    assert all[..|p| + at] == p + s[..at];
    assert all[|p| + at + 16..] == s[at + 16..] + t;
  }

  lemma SplicedCapped(s: seq<byte>, at: nat, mic: Block)
    requires at + 16 <= |s| && at + 16 <= MAX_U16
    ensures Capped(Spliced(s, at, mic)) == Spliced(Capped(s), at, mic)
  {
    if |s| > MAX_U16 {
      assert s[..MAX_U16][..at] == s[..at] && s[..MAX_U16][at + 16..] == s[at + 16..MAX_U16];
      assert Spliced(s, at, mic) == Spliced(s[..MAX_U16], at, mic) + s[MAX_U16..];
    }
  }

  function WithMic(f: Frame, mic: Block): Frame
    requires f.keyFrame.Some?
  {
    f.(keyFrame := Some(f.keyFrame.value.(mic := mic)))
  }

  lemma FixedWithMic(kf: KeyFrame, n: u16, mic: Block)
    ensures |Fixed(kf, n)| == KEY_FIXED_LEN
    ensures Fixed(kf.(mic := mic), n) == Spliced(Fixed(kf, n), 77, mic)
  {
  }

  /** Changing the integrity code changes those sixteen octets and no others. */
  lemma EncodedWithMic(f: Frame, mic: Block)
    requires f.keyFrame.Some?
    ensures |Encoded(f)| >= HEADER_LEN + KEY_FIXED_LEN
    ensures Encoded(WithMic(f, mic)) == Spliced(Encoded(f), MIC_AT, mic)
  {
    var kf := f.keyFrame.value;
    var keyData := Capped(kf.keyData);
    var body := KeyOctets(kf);
    FixedWithMic(kf, |keyData|, mic);
    assert KeyOctets(kf.(mic := mic)) == Spliced(body, 77, mic) by {
      SplicedInside([], Fixed(kf, |keyData|), keyData, 77, mic);
      assert [] + Fixed(kf, |keyData|) == Fixed(kf, |keyData|);
      assert [] + Spliced(Fixed(kf, |keyData|), 77, mic) == Spliced(Fixed(kf, |keyData|), 77, mic);
    }
    SplicedCapped(body, 77, mic);
    var header := [f.version, TypeToByte(f.packetType)] + BigEndian(2, |Capped(body)|);
    SplicedInside(header, Capped(body), [], 77, mic);
    assert header + Capped(body) + [] == Encoded(f);
    assert header + Spliced(Capped(body), 77, mic) + [] == header + Spliced(Capped(body), 77, mic);
  }

  /** Re-encoding a received key frame under version v with its integrity code zeroed is
      zeroing that field on the wire, exactly when the frame was canonical and v its version. */
  lemma MicCoversTheWire(data: seq<byte>, v: byte)
    requires Parse(data).Ok? && Parse(data).value.packetType.Key?
    ensures |data| >= HEADER_LEN + KEY_FIXED_LEN && Parse(data).value.keyFrame.Some?
    ensures Encoded(WithMic(Parse(data).value, ZEROS_16).(version := v)) == MicZeroed(data)
            <==> Canonical(data) && v == data[0]
  {
    var f := Parse(data).value;
    EncodeOfParse(data);
    MicField(data, Encoded(f), f);
    EncodedWithMic(f, ZEROS_16);
    EncodedWithVersion(WithMic(f, ZEROS_16), v);
    HeaderParse(f);
    ZeroedAgree(data, Encoded(f), v);
  }

  lemma ZeroedAgree(a: seq<byte>, b: seq<byte>, v: byte)
    requires |a| >= HEADER_LEN + KEY_FIXED_LEN && |b| >= HEADER_LEN + KEY_FIXED_LEN
    requires a[0] == b[0] && a[MIC_AT..MIC_AT + 16] == b[MIC_AT..MIC_AT + 16]
    ensures MicZeroed(b)[0 := v] == MicZeroed(a) <==> b == a && v == a[0]
  {
    assert MicZeroed(a)[0] == a[0] == MicZeroed(b)[0];
    if MicZeroed(b)[0 := v] == MicZeroed(a) {
      forall k | 0 <= k < |a| ensures a[k] == b[k] {
        if MIC_AT <= k < MIC_AT + 16 {
          assert a[k] == a[MIC_AT..MIC_AT + 16][k - MIC_AT];
        } else {
          assert MicZeroed(a)[k] == a[k] && MicZeroed(b)[k] == b[k];
        }
      }
    }
  }

  lemma EncodedWithVersion(f: Frame, v: byte)
    ensures |Encoded(f)| > 0 && Encoded(f.(version := v)) == Encoded(f)[0 := v]
  {
  }

  lemma MicField(data: seq<byte>, e: seq<byte>, f: Frame)
    requires Parse(data) == Ok(f) && f.packetType.Key? && e == Encoded(f)
    ensures |data| >= HEADER_LEN + KEY_FIXED_LEN && |e| >= HEADER_LEN + KEY_FIXED_LEN
    ensures data[MIC_AT..MIC_AT + 16] == e[MIC_AT..MIC_AT + 16] == f.keyFrame.value.mic
  {
    Reparse(data);
    MicParsed(data, f);
    MicParsed(e, f);
  }

  lemma MicParsed(data: seq<byte>, f: Frame)
    requires Parse(data) == Ok(f) && f.packetType.Key?
    ensures |data| >= HEADER_LEN + KEY_FIXED_LEN && f.keyFrame.Some?
    ensures data[MIC_AT..MIC_AT + 16] == f.keyFrame.value.mic
  {
    var total := HEADER_LEN + ReadU16(data[2..4]);
    SliceOfSlice(data, HEADER_LEN, total, 77, 93);
  }

  lemma SliceOfSlice(s: seq<byte>, i: nat, j: nat, k: nat, l: nat)
    requires i <= j <= |s| && k <= l <= j - i
    ensures s[i..j][k..l] == s[i + k..i + l]
  {
    forall x | 0 <= x < l - k ensures s[i..j][k..l][x] == s[i + k..i + l][x] {
      assert s[i..j][k + x] == s[i + k + x];
    }
  }
}
