/** BCD-packed addresses and the hex form of a PDU. */
module SmsAddress {
  import opened Wrappers
  import opened Bytes

  const MAX_ADDRESS_DIGITS: nat := 20
  const TOA_INTERNATIONAL: byte := 0x91
  const BCD_FILLER: nat := 0x0F

  datatype Error = AddressTooLong(digits: nat) | InvalidDigit(nibble: nat) | Truncated(offset: nat)

  function DigitChar(n: nat): char
    requires n <= 9
  {
    '0' + n as char
  }

  predicate IsDigit(c: char) {
    '0' <= c <= '9'
  }

  // ---- Decoding ----

  function Nibble(bcd: seq<byte>, i: nat): nat
    requires i / 2 < |bcd|
  {
    if i % 2 == 0 then bcd[i / 2] % 16 else bcd[i / 2] / 16
  }

  // Digits i to n, or the first fault.
  ghost function DigitsFrom(bcd: seq<byte>, i: nat, n: nat): Result<seq<char>, Error>
    requires i <= n
    decreases n - i
  {
    if i == n then Ok([])
    else if i / 2 >= |bcd| then Err(Truncated(i / 2))
    else if Nibble(bcd, i) > 9 then Err(InvalidDigit(Nibble(bcd, i)))
    else
      var rest :- DigitsFrom(bcd, i + 1, n);
      Ok([DigitChar(Nibble(bcd, i))] + rest)
  }

  ghost function DecodeSpec(lenDigits: nat, typeByte: byte, bcd: seq<byte>): Result<seq<char>, Error> {
    if lenDigits > MAX_ADDRESS_DIGITS then Err(AddressTooLong(lenDigits))
    else
      var digits :- DigitsFrom(bcd, 0, lenDigits);
      Ok(if typeByte == TOA_INTERNATIONAL then ['+'] + digits else digits)
  }

  method DecodeBcdAddress(lenDigits: nat, typeByte: byte, bcd: seq<byte>) returns (r: Result<seq<char>, Error>)
    ensures r == DecodeSpec(lenDigits, typeByte, bcd)
  {
    if lenDigits > MAX_ADDRESS_DIGITS {
      return Err(AddressTooLong(lenDigits));
    }
    var out: seq<char> := if typeByte == TOA_INTERNATIONAL then ['+'] else [];
    ghost var all := DecodeSpec(lenDigits, typeByte, bcd);
    assert all == Prefixed(out, DigitsFrom(bcd, 0, lenDigits)) by {
      assert forall s: seq<char> :: [] + s == s;
    }
    for i := 0 to lenDigits
      invariant all == Prefixed(out, DigitsFrom(bcd, i, lenDigits))
    {
      if i / 2 >= |bcd| {
        return Err(Truncated(i / 2));
      }
      var nibble := Nibble(bcd, i);
      if nibble > 9 {
        return Err(InvalidDigit(nibble));
      }
      OneMoreDigit(out, bcd, i, lenDigits);
      out := out + [DigitChar(nibble)];
    }
    assert out + [] == out;
    r := Ok(out);
  }

  lemma OneMoreDigit(out: seq<char>, bcd: seq<byte>, i: nat, n: nat)
    requires i < n && i / 2 < |bcd| && Nibble(bcd, i) <= 9
    ensures Prefixed(out, DigitsFrom(bcd, i, n)) == Prefixed(out + [DigitChar(Nibble(bcd, i))], DigitsFrom(bcd, i + 1, n))
  {
    var rest, d := DigitsFrom(bcd, i + 1, n), DigitChar(Nibble(bcd, i));
    assert rest.Ok? ==> out + ([d] + rest.value) == (out + [d]) + rest.value;
  }

  // ---- Packing ----

  function DigitValue(c: char): (v: nat)
    requires IsDigit(c)
    ensures v <= 9
  {
    (c - '0') as nat
  }

  /** Two digits an octet, the earlier in the low nibble, an odd last one filled up. */
  ghost function PackedDigits(digits: seq<char>): seq<byte>
    requires forall i :: 0 <= i < |digits| ==> IsDigit(digits[i])
  {
    seq((|digits| + 1) / 2, j requires 0 <= j < (|digits| + 1) / 2 => PackedPair(digits, j))
  }

  ghost function PackedPair(digits: seq<char>, j: nat): byte
    requires 2 * j < |digits| && forall i :: 0 <= i < |digits| ==> IsDigit(digits[i])
  {
    (if 2 * j + 1 < |digits| then DigitValue(digits[2 * j + 1]) else BCD_FILLER) * 16 + DigitValue(digits[2 * j])
  }

  method PackBcdDigits(digits: seq<char>) returns (r: Result<seq<byte>, Error>)
    ensures r.Ok? <==> |digits| <= MAX_ADDRESS_DIGITS && forall i :: 0 <= i < |digits| ==> IsDigit(digits[i])
    ensures r.Ok? ==> r.value == PackedDigits(digits)
    ensures (forall i :: 0 <= i < |digits| ==> IsDigit(digits[i])) && r.Err? ==> r.error == AddressTooLong(|digits|)
    ensures forall i :: 0 <= i < |digits| && !IsDigit(digits[i]) && (forall j :: 0 <= j < i ==> IsDigit(digits[j]))
                        ==> r == Err(InvalidDigit(digits[i] as nat))
  {
    var nibbles: seq<nat> := [];
    for i := 0 to |digits|
      invariant |nibbles| == i
      invariant forall k :: 0 <= k < i ==> IsDigit(digits[k]) && nibbles[k] == DigitValue(digits[k])
    {
      if !IsDigit(digits[i]) {
        return Err(InvalidDigit(digits[i] as nat));
      }
      nibbles := nibbles + [DigitValue(digits[i])];
    }
    if |nibbles| > MAX_ADDRESS_DIGITS {
      return Err(AddressTooLong(|nibbles|));
    }
    var packed: seq<byte> := [];
    var i := 0;
    while i < |nibbles|
      invariant i % 2 == 0 && 0 <= i <= |nibbles| + 1
      invariant |packed| == i / 2
      invariant packed == PackedDigits(digits)[..i / 2]
    {
      var lo := nibbles[i];
      var hi := if i + 1 < |nibbles| then nibbles[i + 1] else BCD_FILLER;
      packed := packed + [hi * 16 + lo];
      i := i + 2;
    }
    r := Ok(packed);
  }

  /** Every number of at most twenty digits survives packing and unpacking, with a
      leading '+' exactly for the international type of address. */
  lemma AddressRoundTrip(digits: seq<char>, typeByte: byte)
    requires |digits| <= MAX_ADDRESS_DIGITS && forall i :: 0 <= i < |digits| ==> IsDigit(digits[i])
    ensures DecodeSpec(|digits|, typeByte, PackedDigits(digits))
            == Ok(if typeByte == TOA_INTERNATIONAL then ['+'] + digits else digits)
  {
    UnpackFrom(digits, 0);
    assert digits[0..] == digits;
  }

  /** Octet j holds digit 2j in its lower half and digit 2j + 1, or all ones, in its upper. */
  lemma PackedNibbles(digits: seq<char>, j: nat)
    requires (forall i :: 0 <= i < |digits| ==> IsDigit(digits[i])) && 2 * j < |digits|
    ensures j < |PackedDigits(digits)| && PackedDigits(digits)[j] % 16 == digits[2 * j] as nat - 48
    ensures PackedDigits(digits)[j] / 16 == if 2 * j + 1 < |digits| then digits[2 * j + 1] as nat - 48 else 15
  {
    assert PackedDigits(digits)[j] == PackedPair(digits, j);
  }

  lemma NibbleIsDigit(digits: seq<char>, i: nat)
    requires i < |digits| && forall k :: 0 <= k < |digits| ==> IsDigit(digits[k])
    ensures i / 2 < |PackedDigits(digits)|
    ensures Nibble(PackedDigits(digits), i) == DigitValue(digits[i]) && DigitChar(DigitValue(digits[i])) == digits[i]
  {
    assert PackedDigits(digits)[i / 2] == PackedPair(digits, i / 2);
  }

  lemma {:induction false} UnpackFrom(digits: seq<char>, i: nat)
    requires i <= |digits| && forall k :: 0 <= k < |digits| ==> IsDigit(digits[k])
    ensures DigitsFrom(PackedDigits(digits), i, |digits|) == Ok(digits[i..])
    decreases |digits| - i
  {
    if i < |digits| {
      UnpackFrom(digits, i + 1);
      NibbleIsDigit(digits, i);
      assert digits[i..] == [digits[i]] + digits[i + 1..];
    }
  }

  // ---- Hex ----

  // The value of an ASCII hex digit, of either case.
  function HexNibble(c: char): (r: Option<nat>)
    ensures r.Some? ==> r.value < 16
  {
    if '0' <= c <= '9' then Some((c - '0') as nat)
    else if 'a' <= c <= 'f' then Some((c - 'a') as nat + 10)
    else if 'A' <= c <= 'F' then Some((c - 'A') as nat + 10)
    else None
  }

  /** The digits of the two cases, and nothing else. */
  lemma HexNibbleExactly(c: char, v: nat)
    ensures HexNibble(c) == Some(v) <==> v < 16 && (c == "0123456789abcdef"[v] || c == "0123456789ABCDEF"[v])
  {
  }

  /** `s` spells `raw` in hex, in any mixture of cases. */
  ghost predicate Spells(s: seq<char>, raw: seq<byte>) {
    && |s| == 2 * |raw|
    && forall j :: 0 <= j < |raw| ==> SpellsAt(s, raw, j)
  }

  ghost predicate SpellsAt(s: seq<char>, raw: seq<byte>, j: nat)
    requires j < |raw| && |s| == 2 * |raw|
  {
    && HexNibble(s[2 * j]).Some? && HexNibble(s[2 * j + 1]).Some?
    && raw[j] == 16 * HexNibble(s[2 * j]).value + HexNibble(s[2 * j + 1]).value
  }

  /** Decodes exactly the strings that spell some octets. */
  method HexDecode(s: seq<char>) returns (r: Option<seq<byte>>)
    ensures r.Some? ==> Spells(s, r.value)
    ensures r.None? ==> forall raw :: !Spells(s, raw)
  {
    if |s| % 2 != 0 {
      return None;
    }
    var out: seq<byte> := [];
    var i := 0;
    while i < |s|
      invariant i % 2 == 0 && 0 <= i <= |s| && |out| == i / 2
      invariant Spells(s[..i], out)
    {
      var hi, lo := HexNibble(s[i]), HexNibble(s[i + 1]);
      if hi.None? || lo.None? {
        forall raw | |s| == 2 * |raw| ensures !Spells(s, raw) {
          assert !SpellsAt(s, raw, i / 2);
        }
        return None;
      }
      ghost var before, was := s[..i], out;
      out := out + [hi.value * 16 + lo.value];
      i := i + 2;
      ghost var now := s[..i];
      forall j | 0 <= j < |out| ensures SpellsAt(now, out, j) {
        assert j < |was| ==> SpellsAt(before, was, j);
      }
    }
    assert s[..i] == s;
    r := Some(out);
  }

  /** A string spells at most one octet sequence. */
  lemma SpellingIsUnique(s: seq<char>, a: seq<byte>, b: seq<byte>)
    requires Spells(s, a) && Spells(s, b)
    ensures a == b
  {
    forall j | 0 <= j < |a| ensures a[j] == b[j] {
      assert SpellsAt(s, a, j) && SpellsAt(s, b, j);
    }
  }
}
