/** Octets as numbers and as bits, least significant bit first. */
module Bytes {

  type byte = b: nat | b < 256

  const ZERO_OCTET: seq<bool> := [false, false, false, false, false, false, false, false]

  type Octet = b: seq<bool> | |b| == 8 witness ZERO_OCTET

  ghost function Pow2(k: nat): nat {
    if k == 0 then 1 else 2 * Pow2(k - 1)
  }

  ghost function Pow256(k: nat): nat {
    if k == 0 then 1 else 256 * Pow256(k - 1)
  }

  // The k low bits of n, least significant first.
  function BitsFrom(n: nat, k: nat): (r: seq<bool>)
    ensures |r| == k
  {
    if k == 0 then [] else [n % 2 == 1] + BitsFrom(n / 2, k - 1)
  }

  function ValueOf(bits: seq<bool>): nat {
    if bits == [] then 0 else (if bits[0] then 1 else 0) + 2 * ValueOf(bits[1..])
  }

  lemma {:induction false} ValueBound(bits: seq<bool>)
    ensures ValueOf(bits) < Pow2(|bits|)
  {
    if bits != [] {
      ValueBound(bits[1..]);
    }
  }

  lemma {:induction false} BitsOfValue(bits: seq<bool>)
    ensures BitsFrom(ValueOf(bits), |bits|) == bits
  {
    if bits != [] {
      BitsOfValue(bits[1..]);
    }
  }

  lemma {:induction false} ValueOfBits(n: nat, k: nat)
    requires n < Pow2(k)
    ensures ValueOf(BitsFrom(n, k)) == n
  {
    if k > 0 {
      ValueOfBits(n / 2, k - 1);
    }
  }

  function ToOctet(b: byte): Octet {
    BitsFrom(b, 8)
  }

  function FromOctet(o: Octet): byte {
    ValueBound(o);
    assert Pow2(8) == 256;
    ValueOf(o)
  }

  function OrOctet(a: Octet, b: Octet): Octet {
    seq(8, x requires 0 <= x < 8 => a[x] || b[x])
  }

  lemma ToFromOctet(o: Octet)
    ensures ToOctet(FromOctet(o)) == o
  {
    BitsOfValue(o);
  }

  lemma {:induction false} BitsFromInjective(m: nat, n: nat, k: nat)
    requires m < Pow2(k) && n < Pow2(k) && BitsFrom(m, k) == BitsFrom(n, k)
    ensures m == n
  {
    if k > 0 {
      var a, b := BitsFrom(m, k), BitsFrom(n, k);
      assert a[0] == b[0] && a[1..] == b[1..];
      BitsFromInjective(m / 2, n / 2, k - 1);
    }
  }

  lemma ToOctetInjective(a: byte, b: byte)
    requires ToOctet(a) == ToOctet(b)
    ensures a == b
  {
    assert Pow2(8) == 256;
    BitsFromInjective(a, b, 8);
  }

  function Octets(data: seq<byte>): seq<Octet> {
    seq(|data|, i requires 0 <= i < |data| => ToOctet(data[i]))
  }
}
