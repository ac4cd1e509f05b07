/** Packing as arithmetic: the same number, written in base 128 and in base 256. */
module Gsm7Value {
  import opened Bytes
  import opened Gsm7

  /** The number septets write in base 128, the least significant first. */
  ghost function SeptetValue(septets: seq<nat>): nat {
    if septets == [] then 0 else septets[0] + 128 * SeptetValue(septets[1..])
  }

  /** The number octets write in base 256, the least significant first. */
  ghost function OctetValue(data: seq<byte>): nat {
    if data == [] then 0 else data[0] as nat + 256 * OctetValue(data[1..])
  }

  ghost function SeptetBits(septets: seq<nat>): (r: seq<bool>)
    ensures |r| == 7 * |septets|
  {
    if septets == [] then [] else BitsFrom(septets[0], 7) + SeptetBits(septets[1..])
  }

  ghost function OctetBits(data: seq<byte>): (r: seq<bool>)
    ensures |r| == 8 * |data|
  {
    if data == [] then [] else BitsFrom(data[0], 8) + OctetBits(data[1..])
  }

  lemma {:induction false} ValueOfConcat(a: seq<bool>, b: seq<bool>)
    ensures ValueOf(a + b) == ValueOf(a) + Pow2(|a|) * ValueOf(b)
  {
    if a == [] {
      assert a + b == b;
    } else {
      ValueOfConcat(a[1..], b);
      assert (a + b)[1..] == a[1..] + b;
      Doubled(Pow2(|a| - 1), ValueOf(b));
    }
  }

  lemma Doubled(p: nat, v: nat)
    ensures 2 * (p * v) == (2 * p) * v
  {
  }

  lemma {:induction false} SeptetBitsValue(septets: seq<nat>)
    requires forall k :: 0 <= k < |septets| ==> septets[k] < 128
    ensures ValueOf(SeptetBits(septets)) == SeptetValue(septets)
  {
    if septets != [] {
      SeptetBitsValue(septets[1..]);
      assert Pow2(7) == 128;
      ValueOfBits(septets[0], 7);
      ValueOfConcat(BitsFrom(septets[0], 7), SeptetBits(septets[1..]));
    }
  }

  lemma {:induction false} OctetBitsValue(data: seq<byte>)
    ensures ValueOf(OctetBits(data)) == OctetValue(data)
  {
    if data != [] {
      OctetBitsValue(data[1..]);
      assert Pow2(8) == 256;
      ValueOfBits(data[0], 8);
      ValueOfConcat(BitsFrom(data[0], 8), OctetBits(data[1..]));
    }
  }

  lemma {:induction false} SeptetBitAt(septets: seq<nat>, k: nat)
    requires k < 7 * |septets|
    ensures SeptetBits(septets)[k] == BitsFrom(septets[k / 7], 7)[k % 7]
  {
    if k >= 7 {
      SeptetBitAt(septets[1..], k - 7);
      OneSeptetOn(k);
    }
  }

  lemma OneSeptetOn(k: nat)
    requires k >= 7
    ensures (k - 7) / 7 == k / 7 - 1 && (k - 7) % 7 == k % 7
  {
  }

  lemma {:induction false} OctetBitAt(data: seq<byte>, k: nat)
    requires k < 8 * |data|
    ensures OctetBits(data)[k] == ToOctet(data[k / 8])[k % 8]
  {
    if k >= 8 {
      OctetBitAt(data[1..], k - 8);
      assert (k - 8) / 8 == k / 8 - 1 && (k - 8) % 8 == k % 8;
    }
  }

  lemma {:induction false} NothingAdded(a: seq<bool>, zeros: seq<bool>)
    requires forall k :: 0 <= k < |zeros| ==> !zeros[k]
    ensures ValueOf(a + zeros) == ValueOf(a)
    decreases |zeros|
  {
    ValueOfConcat(a, zeros);
    ZerosAreZero(zeros);
  }

  lemma {:induction false} ZerosAreZero(zeros: seq<bool>)
    requires forall k :: 0 <= k < |zeros| ==> !zeros[k]
    ensures ValueOf(zeros) == 0
  {
    if zeros != [] {
      ZerosAreZero(zeros[1..]);
    }
  }

  // Bit k of the packed octets.
  lemma PackedBitAt(septets: seq<nat>, k: nat)
    requires k < 8 * |Packed(septets)|
    ensures OctetBits(Packed(septets))[k] == (k < 7 * |septets| && SeptetBits(septets)[k])
  {
    OctetBitAt(Packed(septets), k);
    PackedOctetBit(septets, k / 8, k % 8);
    if k < 7 * |septets| {
      SeptetBitAt(septets, k);
    }
  }

  lemma PackedOctetBit(septets: seq<nat>, j: nat, x: nat)
    requires j < |Packed(septets)| && x < 8
    ensures ToOctet(Packed(septets)[j])[x] == PackedBit(septets, 8 * j + x)
  {
    ToFromOctet(PackedOctet(septets, j));
  }

  /** Packing is a change of base: the octets are the least number of them that write, in
      base 256, the number the septets write in base 128. */
  lemma PackingChangesBase(septets: seq<nat>)
    requires forall k :: 0 <= k < |septets| ==> septets[k] < 128
    ensures OctetValue(Packed(septets)) == SeptetValue(septets)
    ensures 8 * (|Packed(septets)| - 1) < 7 * |septets| <= 8 * |Packed(septets)|
  {
    var b, s := OctetBits(Packed(septets)), SeptetBits(septets);
    forall k | 0 <= k < |b| ensures b[k] == (k < |s| && s[k]) {
      PackedBitAt(septets, k);
    }
    assert b == s + b[|s|..];
    NothingAdded(s, b[|s|..]);
    SeptetBitsValue(septets);
    OctetBitsValue(Packed(septets));
  }
}
