/** Which corruptions of a CRC-protected codeword go unnoticed. */
module StpDetection {
  import opened Bytes
  import opened StpCrc

  ghost function XorBits(s: seq<bool>, t: seq<bool>): seq<bool>
    requires |s| == |t|
  {
    seq(|s|, i requires 0 <= i < |s| => s[i] != t[i])
  }

  ghost function Zeros(n: nat): seq<bool> {
    seq(n, i requires 0 <= i < n => false)
  }

  // ---- Division is linear ----

  lemma DivideBitLinear(r: Word, q: Word, a: bool, b: bool)
    ensures DivideBit(Xor(r, q), a != b) == Xor(DivideBit(r, a), DivideBit(q, b))
  {
    var lhs, rhs := DivideBit(Xor(r, q), a != b), Xor(DivideBit(r, a), DivideBit(q, b));
    forall i | 0 <= i < 16 ensures lhs[i] == rhs[i] {
      DivideBitBits(Xor(r, q), a != b, i);
      DivideBitBits(r, a, i);
      DivideBitBits(q, b, i);
    }
  }

  lemma {:induction false} DivideLinear(r: Word, q: Word, s: seq<bool>, t: seq<bool>)
    requires |s| == |t|
    ensures Divide(Xor(r, q), XorBits(s, t)) == Xor(Divide(r, s), Divide(q, t))
    decreases |s|
  {
    if s != [] {
      assert XorBits(s, t)[1..] == XorBits(s[1..], t[1..]);
      DivideBitLinear(r, q, s[0], t[0]);
      DivideLinear(DivideBit(r, s[0]), DivideBit(q, t[0]), s[1..], t[1..]);
    }
  }

  // ---- The last sixteen bits ----

  // `bits` written from the top of the register down.
  ghost predicate TopIs(r: Word, bits: seq<bool>)
    requires |bits| <= 16
  {
    forall i :: 0 <= i < 16 ==> r[i] == (15 - i < |bits| && bits[15 - i])
  }

  lemma DivideBitToTop(r: Word, bits: seq<bool>)
    requires 1 <= |bits| <= 16
    ensures TopIs(DivideBit(r, bits[0]), bits[1..]) <==> TopIs(r, bits)
  {
    var next := DivideBit(r, bits[0]);
    forall i | 0 <= i < 16
      ensures next[i] == ((i >= 1 && r[i - 1]) != (r[15] != bits[0] && (i == 0 || i == 5 || i == 12)))
    {
      DivideBitBits(r, bits[0], i);
    }
    if TopIs(next, bits[1..]) {
      assert !next[0];
      assert r[15] == bits[0];
      forall i | 0 <= i < 16 ensures r[i] == (15 - i < |bits| && bits[15 - i]) {
        if i < 15 {
          assert next[i + 1] == r[i];
        }
      }
    }
    if TopIs(r, bits) {
      assert r[15] == bits[0];
    }
  }

  /** At most sixteen more bits clear the register exactly when they spell it. */
  lemma {:induction false} ClearsExactly(r: Word, bits: seq<bool>)
    requires |bits| <= 16
    ensures Divide(r, bits) == ZERO_WORD <==> TopIs(r, bits)
    decreases |bits|
  {
    if bits == [] {
      assert TopIs(r, bits) <==> r == ZERO_WORD;
    } else {
      DivideBitToTop(r, bits);
      ClearsExactly(DivideBit(r, bits[0]), bits[1..]);
    }
  }

  lemma {:induction false} ZerosKeepTheVerdict(r: Word, n: nat)
    ensures Divide(r, Zeros(n)) == ZERO_WORD <==> r == ZERO_WORD
    decreases n
  {
    if n > 0 {
      ClearsExactly(r, [false]);
      assert [false][1..] == [];
      assert Zeros(n)[1..] == Zeros(n - 1);
      assert Divide(r, [false]) == DivideBit(r, false);
      assert TopIs(r, [false]) <==> r == ZERO_WORD;
      ZerosKeepTheVerdict(DivideBit(r, false), n - 1);
    }
  }

  /** The register starts as all ones: two octets of ones, and no other two, clear it. */
  lemma StartsAsAllOnes(first: Octet, second: Octet)
    ensures Crc(CRC_INIT, [first, second]) == ZERO_WORD <==> first == ONES_OCTET && second == ONES_OCTET
  {
    CrcIsDivision(CRC_INIT, [first, second]);
    var bits := BitsOf(first) + BitsOf(second);
    assert [first, second][1..] == [second] && [second][1..] == [];
    assert MessageBits([second]) == BitsOf(second) + [] == BitsOf(second);
    assert MessageBits([first, second]) == bits;
    ClearsExactly(CRC_INIT, bits);
    TopOfOnes(bits);
    AllOnesOctets(first, second);
  }

  const ONES_OCTET: Octet := [true, true, true, true, true, true, true, true]

  lemma TopOfOnes(bits: seq<bool>)
    requires |bits| == 16
    ensures TopIs(CRC_INIT, bits) <==> forall k :: 0 <= k < 16 ==> bits[k]
  {
    if TopIs(CRC_INIT, bits) {
      forall k | 0 <= k < 16 ensures bits[k] {
        assert CRC_INIT[15 - k] == (15 - (15 - k) < |bits| && bits[15 - (15 - k)]);
      }
    }
  }

  lemma AllOnesOctets(first: Octet, second: Octet)
    ensures var bits := BitsOf(first) + BitsOf(second);
            (forall k :: 0 <= k < 16 ==> bits[k]) <==> first == ONES_OCTET && second == ONES_OCTET
  {
    var bits := BitsOf(first) + BitsOf(second);
    if forall k :: 0 <= k < 16 ==> bits[k] {
      forall m | 0 <= m < 8 ensures first[m] && second[m] {
        assert bits[7 - m] == first[m] && bits[15 - m] == second[m];
      }
    }
  }

  // ---- Error patterns ----

  /** A non-empty error confined to sixteen consecutive bits. */
  ghost predicate Burst(error: seq<bool>, at: nat, length: nat) {
    && at + length <= |error| && length <= 16
    && (forall i :: 0 <= i < |error| && !(at <= i < at + length) ==> !error[i])
    && (exists i :: at <= i < at + length && error[i])
  }

  ghost function Parity(bits: seq<bool>): bool {
    if bits == [] then false else bits[0] != Parity(bits[1..])
  }

  lemma BurstDetected(error: seq<bool>, at: nat, length: nat)
    requires Burst(error, at, length)
    ensures Divide(ZERO_WORD, error) != ZERO_WORD
  {
    var middle := error[at..at + length];
    var tail := |error| - at - length;
    assert error == Zeros(at) + (middle + Zeros(tail));
    var k :| at <= k < at + length && error[k];
    MiddleRemains(ZERO_WORD, middle, k - at);
    Padded(at, middle, tail);
  }

  // Zeros around a pattern do not change the verdict on it.
  lemma Padded(before: nat, middle: seq<bool>, after: nat)
    ensures Divide(ZERO_WORD, Zeros(before) + (middle + Zeros(after))) == ZERO_WORD
            <==> Divide(ZERO_WORD, middle) == ZERO_WORD
  {
    DivideConcat(ZERO_WORD, Zeros(before), middle + Zeros(after));
    ZerosKeepTheVerdict(ZERO_WORD, before);
    DivideConcat(ZERO_WORD, middle, Zeros(after));
    ZerosKeepTheVerdict(Divide(ZERO_WORD, middle), after);
  }

  lemma MiddleRemains(zero: Word, middle: seq<bool>, k: nat)
    requires (forall i :: 0 <= i < 16 ==> !zero[i]) && k < |middle| <= 16 && middle[k]
    ensures Divide(zero, middle) != ZERO_WORD
  {
    ClearsExactly(zero, middle);
    assert zero[15 - k] != middle[k];
  }

  lemma {:induction false} ParityConcat(s: seq<bool>, t: seq<bool>)
    ensures Parity(s + t) == (Parity(s) != Parity(t))
  {
    if s == [] {
      assert s + t == t;
    } else {
      assert (s + t)[1..] == s[1..] + t;
      ParityConcat(s[1..], t);
    }
  }

  lemma {:induction false} ParityXor(s: seq<bool>, t: seq<bool>)
    requires |s| == |t|
    ensures Parity(XorBits(s, t)) == (Parity(s) != Parity(t))
  {
    if s != [] {
      assert XorBits(s, t)[1..] == XorBits(s[1..], t[1..]);
      ParityXor(s[1..], t[1..]);
    }
  }

  lemma {:induction false} NoParity(s: seq<bool>)
    requires forall i :: 0 <= i < |s| ==> !s[i]
    ensures !Parity(s)
  {
    if s != [] {
      NoParity(s[1..]);
    }
  }

  lemma ParitySkipsZeros(s: seq<bool>, n: nat)
    requires n <= |s| && forall i :: 0 <= i < n ==> !s[i]
    ensures Parity(s) == Parity(s[n..])
  {
    assert s == s[..n] + s[n..];
    ParityConcat(s[..n], s[n..]);
    NoParity(s[..n]);
  }

  // Three terms, an odd number.
  lemma ParityOfDivisor(p: Word)
    requires forall i :: 0 <= i < 16 ==> p[i] == (i == 0 || i == 5 || i == 12)
    ensures Parity(p)
  {
    assert Parity(p) == !Parity(p[1..]);
    ParitySkipsZeros(p[1..], 4);
    assert p[1..][4..] == p[5..] && p[5..][1..] == p[6..];
    assert Parity(p[5..]) == !Parity(p[6..]);
    ParitySkipsZeros(p[6..], 6);
    assert p[6..][6..] == p[12..] && p[12..][1..] == p[13..];
    assert Parity(p[12..]) == !Parity(p[13..]);
    NoParity(p[13..]);
  }

  lemma SubtractingFlipsParity(r: Word, p: Word, difference: Word)
    requires forall i :: 0 <= i < 16 ==> p[i] == (i == 0 || i == 5 || i == 12)
    requires forall i :: 0 <= i < 16 ==> difference[i] == (r[i] != p[i])
    ensures Parity(difference) == !Parity(r)
  {
    assert difference == XorBits(r, p);
    ParityXor(r, p);
    ParityOfDivisor(p);
  }

  lemma DivideBitParity(r: Word, bit: bool)
    ensures Parity(DivideBit(r, bit)) == (Parity(r) != bit)
  {
    var shifted := Shl(r, 1);
    assert shifted == [false] + r[..15];
    assert r == r[..15] + [r[15]];
    ParityConcat([false], r[..15]);
    ParityConcat(r[..15], [r[15]]);
    assert [false][1..] == [] && [r[15]][1..] == [];
    if r[15] != bit {
      SubtractingFlipsParity(shifted, POLYNOMIAL, DivideBit(r, bit));
    }
  }

  /** The divisor has x + 1 as a factor: the register's parity is the message's. */
  lemma {:induction false} DivideParity(r: Word, bits: seq<bool>)
    ensures Parity(Divide(r, bits)) == (Parity(r) != Parity(bits))
    decreases |bits|
  {
    if bits != [] {
      DivideBitParity(r, bits[0]);
      DivideParity(DivideBit(r, bits[0]), bits[1..]);
    }
  }

  lemma OddErrorRemains(zero: Word, error: seq<bool>)
    requires (forall i :: 0 <= i < 16 ==> !zero[i]) && Parity(error)
    ensures Divide(zero, error) != zero
  {
    DivideParity(zero, error);
    NoParity(zero);
  }

  // ---- Codewords ----

  /** A message followed by its own CRC. */
  ghost predicate Codeword(data: seq<Octet>) {
    Crc(CRC_INIT, data) == ZERO_WORD
  }

  ghost function ErrorBits(sent: seq<Octet>, received: seq<Octet>): seq<bool>
    requires |sent| == |received|
  {
    MessageBitsLength(sent);
    MessageBitsLength(received);
    XorBits(MessageBits(sent), MessageBits(received))
  }

  lemma {:induction false} MessageBitsLength(data: seq<Octet>)
    ensures |MessageBits(data)| == 8 * |data|
  {
    if data != [] {
      MessageBitsLength(data[1..]);
    }
  }

  lemma {:induction false} MessageBitsAt(data: seq<Octet>, i: nat)
    requires i < 8 * |data|
    ensures |MessageBits(data)| == 8 * |data| && MessageBits(data)[i] == data[i / 8][7 - i % 8]
  {
    MessageBitsLength(data);
    if i >= 8 {
      MessageBitsAt(data[1..], i - 8);
      assert (i - 8) / 8 == i / 8 - 1 && (i - 8) % 8 == i % 8;
    }
  }

  lemma {:induction false} CrcConcat(r: Word, s: seq<Octet>, t: seq<Octet>)
    ensures Crc(r, s + t) == Crc(Crc(r, s), t)
    decreases |s|
  {
    if s == [] {
      assert s + t == t;
    } else {
      assert (s + t)[1..] == s[1..] + t;
      CrcConcat(CrcByte(r, s[0]), s[1..], t);
    }
  }

  /** The two octets that complete a message to a codeword are its CRC, high octet first. */
  lemma CodewordCarriesItsCrc(message: seq<Octet>, hi: Octet, lo: Octet)
    ensures Codeword(message + [hi, lo]) <==> Crc(CRC_INIT, message) == lo + hi
  {
    CrcConcat(CRC_INIT, message, [hi, lo]);
    ClearedByItself(Crc(CRC_INIT, message), hi, lo);
  }

  lemma ClearedByItself(r: Word, hi: Octet, lo: Octet)
    ensures Crc(r, [hi, lo]) == ZERO_WORD <==> r == lo + hi
  {
    var pair := [hi, lo];
    CrcIsDivision(r, pair);
    MessageBitsLength(pair);
    var bits := MessageBits(pair);
    ClearsExactly(r, bits);
    forall i | 0 <= i < 16 ensures bits[15 - i] == (lo + hi)[i] {
      MessageBitsAt(pair, 15 - i);
    }
    SpeltFromTheTop(r, lo + hi, bits);
  }

  lemma SpeltFromTheTop(r: Word, w: Word, bits: seq<bool>)
    requires |bits| == 16 && forall i :: 0 <= i < 16 ==> bits[15 - i] == w[i]
    ensures TopIs(r, bits) <==> r == w
  {
  }

  /** A corruption of a codeword is again a codeword exactly when the divisor
      divides the error. */
  lemma UndetectedExactly(sent: seq<Octet>, received: seq<Octet>)
    requires |sent| == |received| && Codeword(sent)
    ensures Codeword(received) <==> Divide(ZERO_WORD, ErrorBits(sent, received)) == ZERO_WORD
  {
    MessageBitsLength(sent);
    MessageBitsLength(received);
    var s, t := MessageBits(sent), MessageBits(received);
    CrcIsDivision(CRC_INIT, sent);
    CrcIsDivision(CRC_INIT, received);
    DivideLinear(CRC_INIT, CRC_INIT, s, t);
    assert Xor(CRC_INIT, CRC_INIT) == ZERO_WORD;
    var q := Divide(CRC_INIT, t);
    assert Xor(ZERO_WORD, q) == q;
  }

  /** Every burst of at most sixteen bits is detected, whatever the codeword's length. */
  lemma BurstsDetected(sent: seq<Octet>, received: seq<Octet>, at: nat, length: nat)
    requires |sent| == |received| && Codeword(sent)
    requires Burst(ErrorBits(sent, received), at, length)
    ensures !Codeword(received)
  {
    UndetectedExactly(sent, received);
    BurstDetected(ErrorBits(sent, received), at, length);
  }

  /** Every odd number of flipped bits is detected. */
  lemma OddErrorsDetected(sent: seq<Octet>, received: seq<Octet>)
    requires |sent| == |received| && Codeword(sent)
    requires Parity(ErrorBits(sent, received))
    ensures !Codeword(received)
  {
    var error := ErrorBits(sent, received);
    UndetectedExactly(sent, received);
    OddErrorRemains(ZERO_WORD, error);
  }

  lemma ErrorBitsAt(sent: seq<Octet>, received: seq<Octet>, i: nat)
    requires |sent| == |received| && i < 8 * |sent|
    ensures |ErrorBits(sent, received)| == 8 * |sent|
    ensures ErrorBits(sent, received)[i] == (sent[i / 8][7 - i % 8] != received[i / 8][7 - i % 8])
  {
    MessageBitsAt(sent, i);
    MessageBitsAt(received, i);
  }

  /** In particular any change confined to one octet or to two adjacent ones. */
  lemma AdjacentOctetsDetected(sent: seq<Octet>, received: seq<Octet>, k: nat)
    requires |sent| == |received| && Codeword(sent) && sent != received
    requires forall j :: 0 <= j < |sent| && j != k && j != k + 1 ==> sent[j] == received[j]
    ensures !Codeword(received)
  {
    var j :| 0 <= j < |sent| && sent[j] != received[j];
    var b :| 0 <= b < 8 && sent[j][b] != received[j][b];
    var i := 8 * j + (7 - b);
    assert i / 8 == j && i % 8 == 7 - b;
    ErrorBitsAt(sent, received, i);
    var error := ErrorBits(sent, received);
    var length := if k + 1 < |sent| then 16 else 8;
    forall m | 0 <= m < |error| && !(8 * k <= m < 8 * k + length) ensures !error[m] {
      ErrorBitsAt(sent, received, m);
    }
    assert error[i];
    BurstsDetected(sent, received, 8 * k, length);
  }
}
