/**
  The table-free CRC-16 of STP frames: what it computes and what it detects.
  Words and octets are their bits, least significant first.
  */
module StpCrc {
  import opened Bytes

  const ZERO_WORD: seq<bool> :=
    [false, false, false, false, false, false, false, false, false, false, false, false, false, false, false, false]
  type Word = w: seq<bool> | |w| == 16 witness ZERO_WORD

  // 0x1021: x^12 + x^5 + 1, the divisor without its leading x^16.
  const POLYNOMIAL: Word :=
    [true, false, false, false, false, true, false, false, false, false, false, false, true, false, false, false]

  // 0xFFFF
  const CRC_INIT: Word :=
    [true, true, true, true, true, true, true, true, true, true, true, true, true, true, true, true]

  function Xor(a: Word, b: Word): Word {
    seq(16, i requires 0 <= i < 16 => a[i] != b[i])
  }

  function Shl(a: Word, n: nat): Word {
    seq(16, i requires 0 <= i < 16 => i >= n && a[i - n])
  }

  function Shr(a: Word, n: nat): Word {
    seq(16, i requires 0 <= i < 16 => i + n < 16 && a[i + n])
  }

  // a & 0xFF
  function LowByte(a: Word): Word {
    seq(16, i requires 0 <= i < 16 => i < 8 && a[i])
  }

  function RotateRight8(a: Word): Word {
    a[8..] + a[..8]
  }

  function Widen(b: Octet): Word {
    b + ZERO_OCTET
  }

  // The straight-line update of one byte.
  function CrcByte(crc: Word, b: Octet): Word {
    var c1 := Xor(RotateRight8(crc), Widen(b));
    var c2 := Xor(c1, Shr(LowByte(c1), 4));
    var c3 := Xor(c2, Shl(c2, 12));
    Xor(c3, Shl(LowByte(c3), 5))
  }

  // The CRC register after absorbing `data`.
  function Crc(crc: Word, data: seq<Octet>): Word
    decreases |data|
  {
    if data == [] then crc else Crc(CrcByte(crc, data[0]), data[1..])
  }

  method ComputeCrcOver(header: seq<Octet>, payload: seq<Octet>) returns (crc: Word)
    ensures crc == Crc(CRC_INIT, header + payload)
  {
    crc := CRC_INIT;
    for i := 0 to |header|
      invariant Crc(crc, header[i..] + payload) == Crc(CRC_INIT, header + payload)
    {
      assert (header[i..] + payload)[1..] == header[i + 1..] + payload;
      crc := CrcByte(crc, header[i]);
    }
    assert header[|header|..] + payload == payload[0..];
    for i := 0 to |payload|
      invariant Crc(crc, payload[i..]) == Crc(CRC_INIT, header + payload)
    {
      assert payload[i..][1..] == payload[i + 1..];
      crc := CrcByte(crc, payload[i]);
    }
  }

  // ---- Long division ----

  // Shift in the next message bit and subtract the divisor when the bit that
  // falls out differs from it.
  function DivideBit(register: Word, bit: bool): Word {
    if register[15] == bit then Shl(register, 1) else Xor(Shl(register, 1), POLYNOMIAL)
  }

  ghost function Divide(register: Word, bits: seq<bool>): Word
    decreases |bits|
  {
    if bits == [] then register else Divide(DivideBit(register, bits[0]), bits[1..])
  }

  // Most significant bit first.
  ghost function BitsOf(b: Octet): seq<bool> {
    [b[7], b[6], b[5], b[4], b[3], b[2], b[1], b[0]]
  }

  ghost function MessageBits(data: seq<Octet>): seq<bool> {
    if data == [] then [] else BitsOf(data[0]) + MessageBits(data[1..])
  }

  // Which of the eight steps for `b` subtract the divisor: bit m belongs to step 7 - m.
  // A subtraction reaches the top bit again four steps later, through x^12.
  ghost predicate Subtractions(r: Word, b: Octet, d: Octet) {
    && (forall m :: 4 <= m < 8 ==> d[m] == (r[8 + m] != b[m]))
    && (forall m :: 0 <= m < 4 ==> d[m] == ((r[8 + m] != b[m]) != d[m + 4]))
  }

  // The subtractions of the first k steps, moved up to where step k leaves them.
  ghost predicate Trace(d: Octet, k: nat, x: int)
    requires k <= 8
  {
    0 <= x < k && d[8 - k + x]
  }

  // The register after k of the eight steps: r shifted up, plus one copy of the
  // trace for each term of the divisor.
  ghost predicate AfterSteps(r: Word, d: Octet, k: nat, rk: Word)
    requires k <= 8
  {
    forall i :: 0 <= i < 16 ==>
      rk[i] == ((((i >= k && r[i - k]) != Trace(d, k, i)) != Trace(d, k, i - 5)) != Trace(d, k, i - 12))
  }

  lemma TraceMovesUp(d: Octet, k: nat, x: int)
    requires k < 8
    ensures Trace(d, k + 1, x) == if x == 0 then d[7 - k] else Trace(d, k, x - 1)
  {
  }

  lemma DivideBitBits(r: Word, bit: bool, i: nat)
    requires i < 16
    ensures DivideBit(r, bit)[i] == ((i >= 1 && r[i - 1]) != (r[15] != bit && (i == 0 || i == 5 || i == 12)))
  {
  }

  // The bit that falls out in step k differs from the message exactly when d says so.
  lemma StepSubtracts(r: Word, b: Octet, d: Octet, k: nat, rk: Word)
    requires k < 8 && Subtractions(r, b, d) && AfterSteps(r, d, k, rk)
    ensures (rk[15] != b[7 - k]) == d[7 - k]
  {
    assert !Trace(d, k, 15) && !Trace(d, k, 15 - 5) && Trace(d, k, 15 - 12) == (3 < k && d[11 - k]);
    assert rk[15] == (r[15 - k] != Trace(d, k, 15 - 12));
  }

  lemma OneStep(r: Word, b: Octet, d: Octet, k: nat, rk: Word)
    requires k < 8 && Subtractions(r, b, d) && AfterSteps(r, d, k, rk)
    ensures AfterSteps(r, d, k + 1, DivideBit(rk, b[7 - k]))
  {
    StepSubtracts(r, b, d, k, rk);
    var next := DivideBit(rk, b[7 - k]);
    forall i | 0 <= i < 16
      ensures next[i] == ((((i >= k + 1 && r[i - (k + 1)]) != Trace(d, k + 1, i))
                           != Trace(d, k + 1, i - 5)) != Trace(d, k + 1, i - 12))
    {
      DivideBitBits(rk, b[7 - k], i);
      TraceMovesUp(d, k, i);
      TraceMovesUp(d, k, i - 5);
      TraceMovesUp(d, k, i - 12);
      if i >= 1 {
        var j := i - 1;
        assert rk[j] == ((((j >= k && r[j - k]) != Trace(d, k, j)) != Trace(d, k, j - 5)) != Trace(d, k, j - 12));
      }
    }
  }

  lemma {:induction false} RemainingSteps(r: Word, b: Octet, d: Octet, k: nat, rk: Word)
    requires k <= 8 && Subtractions(r, b, d) && AfterSteps(r, d, k, rk)
    ensures AfterSteps(r, d, 8, Divide(rk, BitsOf(b)[k..]))
    decreases 8 - k
  {
    if k < 8 {
      var rest := BitsOf(b)[k..];
      assert rest[0] == b[7 - k] && rest[1..] == BitsOf(b)[k + 1..];
      OneStep(r, b, d, k, rk);
      RemainingSteps(r, b, d, k + 1, DivideBit(rk, b[7 - k]));
    }
  }

  // The four assignments of the table-free update, bit by bit.
  lemma CrcByteBits(r: Word, b: Octet, d: Octet, i: nat)
    requires Subtractions(r, b, d) && i < 16
    ensures CrcByte(r, b)[i]
            == ((((i >= 8 && r[i - 8]) != (i < 8 && d[i])) != (5 <= i < 13 && d[i - 5])) != (i >= 12 && d[i - 12]))
  {
    var c1 := Xor(RotateRight8(r), Widen(b));
    assert forall j :: 0 <= j < 16 ==> c1[j] == if j < 8 then r[8 + j] != b[j] else r[j - 8];
    var c2 := Xor(c1, Shr(LowByte(c1), 4));
    assert forall j :: 0 <= j < 16 ==> c2[j] == if j < 8 then d[j] else r[j - 8];
    var c3 := Xor(c2, Shl(c2, 12));
    assert forall j :: 0 <= j < 16 ==> c3[j] == (c2[j] != (j >= 12 && d[j - 12]));
    assert CrcByte(r, b) == Xor(c3, Shl(LowByte(c3), 5));
  }

  /** One byte of the table-free update is eight steps of the division. */
  lemma CrcByteIsEightSteps(r: Word, b: Octet)
    ensures CrcByte(r, b) == Divide(r, BitsOf(b))
  {
    var hi := seq(8, m requires 0 <= m < 8 => r[8 + m] != b[m]);
    var d := seq(8, m requires 0 <= m < 8 => hi[m] != (m < 4 && hi[m + 4]));
    RemainingSteps(r, b, d, 0, r);
    assert BitsOf(b)[0..] == BitsOf(b);
    var out, r8 := CrcByte(r, b), Divide(r, BitsOf(b));
    forall i | 0 <= i < 16 ensures out[i] == r8[i] {
      CrcByteBits(r, b, d, i);
      assert Trace(d, 8, i) == (i < 8 && d[i]);
      assert Trace(d, 8, i - 5) == (5 <= i < 13 && d[i - 5]);
      assert Trace(d, 8, i - 12) == (i >= 12 && d[i - 12]);
    }
  }

  lemma {:induction false} DivideConcat(r: Word, s: seq<bool>, t: seq<bool>)
    ensures Divide(r, s + t) == Divide(Divide(r, s), t)
    decreases |s|
  {
    if s == [] {
      assert s + t == t;
    } else {
      assert (s + t)[0] == s[0] && (s + t)[1..] == s[1..] + t;
      DivideConcat(DivideBit(r, s[0]), s[1..], t);
    }
  }

  /** The CRC of any byte sequence is the bit-serial division of its bits. */
  lemma {:induction false} CrcIsDivision(r: Word, data: seq<Octet>)
    ensures Crc(r, data) == Divide(r, MessageBits(data))
    decreases |data|
  {
    if data != [] {
      CrcByteIsEightSteps(r, data[0]);
      CrcIsDivision(CrcByte(r, data[0]), data[1..]);
      DivideConcat(r, BitsOf(data[0]), MessageBits(data[1..]));
    }
  }
}
