/** STP frames and their encoding. */
module StpFrame {
  import opened Bytes
  import opened StpCrc
  import opened StpDetection

  const SOF: byte := 0x80
  const MAX_PAYLOAD: nat := 4095
  const MAX_ENCODED: nat := 1 + 4 + MAX_PAYLOAD + 2

  // ---- Frames ----

  datatype FrameType = Data | Mgmt | Ack | FwDownload | Unknown

  function TypeCode(t: FrameType): nat {
    match t
    case Data => 0
    case Mgmt => 1
    case Ack => 2
    case FwDownload => 3
    case Unknown => 15
  }

  datatype Header = Header(frameType: FrameType, ack: bool, sequence: byte, length: nat, checksum: byte)

  datatype Frame = Frame(header: Header, payload: seq<byte>, crc: Word)

  // The three header octets the CRC covers. The fields joined by the bitwise or
  // occupy disjoint bits, so their or is their sum.
  function HeaderOctets(h: Header): (r: seq<byte>)
    ensures |r| == 3
  {
    [ TypeCode(h.frameType) * 16 + (if h.ack then 8 else 0) + h.sequence % 8 / 2,
      h.sequence % 2 * 128 + h.length / 32 % 128,
      h.length % 32 * 8 ]
  }

  // The exclusive or of the three header octets.
  function HeaderChecksum(h: Header): byte {
    var o := Octets(HeaderOctets(h));
    FromOctet(seq(8, i requires 0 <= i < 8 => (o[0][i] != o[1][i]) != o[2][i]))
  }

  /** The octets on the wire tell type, acknowledgement flag, sequence number and length
      apart, and nothing else. */
  lemma HeaderOctetsExactly(g: Header, h: Header)
    requires g.length <= MAX_PAYLOAD && h.length <= MAX_PAYLOAD
    ensures HeaderOctets(g) == HeaderOctets(h)
            <==> g.frameType == h.frameType && g.ack == h.ack && g.sequence % 8 == h.sequence % 8 && g.length == h.length
  {
    HeaderFields(g);
    HeaderFields(h);
    if HeaderOctets(g) == HeaderOctets(h) {
      assert g.sequence % 8 == h.sequence % 8;
      assert g.length == h.length;
    }
  }

  /** The five frame types have the codes 0, 1, 2, 3 and 15 in the upper half of the first
      header octet. */
  lemma TypesOnTheWire(h: Header)
    requires h.length <= MAX_PAYLOAD
    ensures var code := HeaderOctets(h)[0] / 16;
            && (h.frameType == Data <==> code == 0) && (h.frameType == Mgmt <==> code == 1)
            && (h.frameType == Ack <==> code == 2) && (h.frameType == FwDownload <==> code == 3)
            && (h.frameType == Unknown <==> code == 15)
  {
    HeaderFields(h);
  }

  // Each field can be read back from the octets.
  lemma HeaderFields(h: Header)
    requires h.length <= MAX_PAYLOAD
    ensures var o := HeaderOctets(h);
            && o[0] / 16 == TypeCode(h.frameType) && (o[0] / 8 % 2 == 1 <==> h.ack)
            && 2 * (o[0] % 4) as nat + (o[1] / 128) as nat == h.sequence % 8
            && 32 * (o[1] % 128) as nat + (o[2] / 8) as nat == h.length
  {
    var o := HeaderOctets(h);
    TopNibble(TypeCode(h.frameType), h.ack, h.sequence % 8 / 2);
    SplitFields(h.sequence, h.length);
  }

  lemma TopNibble(code: nat, ack: bool, low: nat)
    requires low < 4
    ensures var b := code * 16 + (if ack then 8 else 0) + low;
            b / 16 == code && (b / 8 % 2 == 1 <==> ack) && b % 4 == low
  {
    var bit := if ack then 1 else 0;
    var b := code * 16 + 8 * bit + low;
    Quotient16(b, code);
    Quotient8(b, 2 * code + bit);
    Remainder4(b, 4 * code + 2 * bit, low);
  }

  lemma Quotient16(b: nat, q: nat)
    requires 16 * q <= b < 16 * q + 16
    ensures b / 16 == q
  {
  }

  lemma Quotient8(b: nat, q: nat)
    requires 8 * q <= b < 8 * q + 8
    ensures b / 8 == q
  {
  }

  lemma Remainder4(b: nat, q: nat, r: nat)
    requires b == 4 * q + r && r < 4
    ensures b % 4 == r
  {
  }

  lemma SplitFields(sequence: byte, length: nat)
    requires length <= MAX_PAYLOAD
    ensures var b := sequence % 2 * 128 + length / 32 % 128;
            b / 128 == sequence % 2 && b % 128 == length / 32
    ensures length % 32 * 8 / 8 == length % 32
  {
  }

  /** In every bit position the three header octets and the checksum hold an even number
      of ones. */
  lemma ChecksumIsEven(h: Header, i: nat)
    requires i < 8
    ensures var o := Octets(HeaderOctets(h));
            ((o[0][i] != o[1][i]) != (o[2][i] != ToOctet(HeaderChecksum(h))[i])) == false
  {
    var o := Octets(HeaderOctets(h));
    var sum := seq(8, k requires 0 <= k < 8 => (o[0][k] != o[1][k]) != o[2][k]);
    ToFromOctet(sum);
  }

  function FrameCrc(h: Header, payload: seq<byte>): Word {
    Crc(CRC_INIT, Octets(HeaderOctets(h) + payload))
  }

  function Finish(h: Header, payload: seq<byte>): Frame {
    Frame(h.(checksum := HeaderChecksum(h)), payload, FrameCrc(h, payload))
  }

  // A data frame; a payload beyond the maximum is cut off.
  function DataFrame(sequence: byte, payload: seq<byte>): Frame {
    var cut := if |payload| <= MAX_PAYLOAD then payload else payload[..MAX_PAYLOAD];
    Finish(Header(Data, false, sequence % 8, |cut|, 0), cut)
  }

  function AckFrame(sequence: byte): Frame {
    Finish(Header(Ack, true, sequence % 8, 0, 0), [])
  }

  /** What `DataFrame` and `AckFrame` establish: the length and the CRC are the payload's own. */
  predicate WellFormed(f: Frame) {
    && |f.payload| <= MAX_PAYLOAD
    && f.header.length == |f.payload|
    && f.crc == FrameCrc(f.header, f.payload)
  }

  lemma FinishedIsWellFormed(h: Header, payload: seq<byte>)
    requires h.length == |payload| <= MAX_PAYLOAD
    ensures WellFormed(Finish(h, payload))
  {
    var f := Finish(h, payload);
    assert HeaderOctets(f.header) == HeaderOctets(h);
  }

  lemma BuiltFramesAreWellFormed(sequence: byte, payload: seq<byte>)
    ensures WellFormed(DataFrame(sequence, payload)) && WellFormed(AckFrame(sequence))
  {
    var cut := if |payload| <= MAX_PAYLOAD then payload else payload[..MAX_PAYLOAD];
    FinishedIsWellFormed(Header(Data, false, sequence % 8, |cut|, 0), cut);
    FinishedIsWellFormed(Header(Ack, true, sequence % 8, 0, 0), []);
  }

  function CrcOctets(crc: Word): (r: seq<byte>)
    ensures |r| == 2
  {
    [FromOctet(crc[8..]), FromOctet(crc[..8])]
  }

  ghost function Encoded(f: Frame): seq<byte> {
    [SOF] + HeaderOctets(f.header) + [f.header.checksum] + f.payload + CrcOctets(f.crc)
  }

  method Encode(f: Frame, buf: array<byte>) returns (written: nat)
    modifies buf
    ensures buf.Length < |Encoded(f)| ==> written == 0 && buf[..] == old(buf[..])
    ensures buf.Length >= |Encoded(f)| ==>
              && written == |Encoded(f)|
              && buf[..written] == Encoded(f)
              && buf[written..] == old(buf[written..])
  {
    var total := 1 + 4 + |f.payload| + 2;
    if buf.Length < total {
      return 0;
    }
    var h := HeaderOctets(f.header);
    var c := CrcOctets(f.crc);
    var n := 5 + |f.payload|;
    buf[0], buf[1], buf[2], buf[3], buf[4] := SOF, h[0], h[1], h[2], f.header.checksum;
    forall i | 0 <= i < |f.payload| {
      buf[5 + i] := f.payload[i];
    }
    buf[n], buf[n + 1] := c[0], c[1];
    written := total;
  }

  // ---- Frames on the wire ----

  // The 12-bit length field of the second and third header octets.
  function DeclaredLength(h1: byte, h2: byte): (r: nat)
    ensures r <= MAX_PAYLOAD
  {
    h1 % 128 * 32 + h2 / 8
  }

  lemma LengthRoundTrip(h: Header)
    requires h.length <= MAX_PAYLOAD
    ensures DeclaredLength(HeaderOctets(h)[1], HeaderOctets(h)[2]) == h.length
  {
  }

  /** Start octet, header, as many payload octets as declared, two CRC octets. */
  ghost predicate Framed(w: seq<byte>) {
    |w| >= 7 && w[0] == SOF && |w| == 7 + DeclaredLength(w[2], w[3])
  }

  // What the receiver's integrity check compares.
  ghost predicate CrcMatches(w: seq<byte>)
    requires |w| >= 7
  {
    ToOctet(w[|w| - 1]) + ToOctet(w[|w| - 2]) == Crc(CRC_INIT, Octets(w[1..4] + w[5..|w| - 2]))
  }

  // The octets the CRC protects, its own two included: all but the start and checksum octets.
  ghost function Protected(w: seq<byte>): (r: seq<byte>)
    requires |w| >= 7
    ensures |r| == |w| - 2
  {
    w[1..4] + w[5..]
  }

  lemma CrcMatchesExactly(w: seq<byte>)
    requires |w| >= 7
    ensures CrcMatches(w) <==> Codeword(Octets(Protected(w)))
  {
    var message := Octets(w[1..4] + w[5..|w| - 2]);
    var hi, lo := ToOctet(w[|w| - 2]), ToOctet(w[|w| - 1]);
    assert Octets(Protected(w)) == message + [hi, lo];
    CodewordCarriesItsCrc(message, hi, lo);
  }

  /** A well-formed frame's encoding is framed and passes the integrity check. */
  lemma EncodedIsIntact(f: Frame)
    requires WellFormed(f)
    ensures Framed(Encoded(f)) && CrcMatches(Encoded(f))
  {
    var w := Encoded(f);
    var h := HeaderOctets(f.header);
    assert w[1] == h[0] && w[2] == h[1] && w[3] == h[2];
    assert w[1..4] == h && w[5..|w| - 2] == f.payload;
    LengthRoundTrip(f.header);
    BitsOfValue(f.crc[8..]);
    BitsOfValue(f.crc[..8]);
    assert f.crc[..8] + f.crc[8..] == f.crc;
  }

  /** Three header octets with this type code, acknowledgement flag, sequence number and
      payload length; the remaining bits are zero. */
  ghost predicate HeaderSpells(o: seq<byte>, code: nat, flag: nat, sequence: nat, length: nat) {
    && |o| == 3 && o[0] / 16 == code && o[0] / 8 % 2 == flag
    && 2 * (o[0] % 8) as nat + (o[1] / 128) as nat == sequence
    && 32 * (o[1] % 128) as nat + (o[2] / 8) as nat == length && o[2] % 8 == 0
  }

  /** The octets of a frame: start octet, three header octets, their exclusive or, the
      payload, and two octets that complete a codeword. */
  ghost predicate FrameSpells(w: seq<byte>, payload: seq<byte>) {
    && |w| == 7 + |payload| && w[0] == 0x80 && w[5..|w| - 2] == payload
    && (forall i :: 0 <= i < 8 ==> ToOctet(w[4])[i] == ((ToOctet(w[1])[i] != ToOctet(w[2])[i]) != ToOctet(w[3])[i]))
    && Codeword(Octets(Protected(w)))
  }

  lemma FinishedSpells(h: Header, payload: seq<byte>)
    requires h.length == |payload| <= MAX_PAYLOAD
    ensures FrameSpells(Encoded(Finish(h, payload)), payload) && Encoded(Finish(h, payload))[1..4] == HeaderOctets(h)
  {
    var f := Finish(h, payload);
    var w, o := Encoded(f), HeaderOctets(h);
    assert HeaderOctets(f.header) == o;
    assert w[1] == o[0] && w[2] == o[1] && w[3] == o[2] && w[4] == HeaderChecksum(h) && w[5..|w| - 2] == payload;
    forall i | 0 <= i < 8 ensures ToOctet(w[4])[i] == ((ToOctet(w[1])[i] != ToOctet(w[2])[i]) != ToOctet(w[3])[i]) {
      ChecksumIsEven(h, i);
    }
    FinishedIsWellFormed(h, payload);
    EncodedIsIntact(f);
    CrcMatchesExactly(w);
  }

  lemma DataHeaderSpells(sequence: nat, n: nat)
    requires sequence < 8 && n <= MAX_PAYLOAD
    ensures HeaderSpells(HeaderOctets(Header(Data, false, sequence, n, 0)), 0, 0, sequence, n)
  {
    FieldsSpell(HeaderOctets(Header(Data, false, sequence, n, 0)), 0, 0, sequence, n);
  }

  lemma AckHeaderSpells(sequence: nat)
    requires sequence < 8
    ensures HeaderSpells(HeaderOctets(Header(Ack, true, sequence, 0, 0)), 2, 1, sequence, 0)
  {
    FieldsSpell(HeaderOctets(Header(Ack, true, sequence, 0, 0)), 2, 1, sequence, 0);
  }

  lemma FieldsSpell(o: seq<byte>, code: nat, flag: nat, sequence: nat, n: nat)
    requires flag <= 1 && sequence < 8 && n <= MAX_PAYLOAD && |o| == 3
    requires o[0] as nat == 16 * code + 8 * flag + sequence / 2
    requires o[1] as nat == sequence % 2 * 128 + n / 32 && o[2] as nat == n % 32 * 8
    ensures HeaderSpells(o, code, flag, sequence, n)
  {
    Quotient16(o[0], code);
    Quotient8(o[0], 2 * code + flag);
    assert o[0] % 8 == sequence / 2;
    assert o[1] / 128 == sequence % 2;
  }

  /** What is built: a data frame carries its payload, cut at 4095 octets, as type 0 without
      the flag; an acknowledgement carries nothing, as type 2 with the flag; both carry the
      sequence number modulo 8. */
  lemma BuiltFramesSpell(sequence: byte, payload: seq<byte>)
    ensures var w, cut := Encoded(DataFrame(sequence, payload)), if |payload| <= 4095 then payload else payload[..4095];
            FrameSpells(w, cut) && HeaderSpells(w[1..4], 0, 0, sequence % 8, |cut|)
    ensures var w := Encoded(AckFrame(sequence));
            FrameSpells(w, []) && HeaderSpells(w[1..4], 2, 1, sequence % 8, 0)
  {
    var cut := if |payload| <= MAX_PAYLOAD then payload else payload[..MAX_PAYLOAD];
    FinishedSpells(Header(Data, false, sequence % 8, |cut|, 0), cut);
    DataHeaderSpells(sequence % 8, |cut|);
    FinishedSpells(Header(Ack, true, sequence % 8, 0, 0), []);
    AckHeaderSpells(sequence % 8);
  }
}
