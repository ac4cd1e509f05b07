/** The GSM 7-bit alphabet codec: septets, their packing into octets, and text. */
module Gsm7 {
  import opened Wrappers
  import opened Bytes

  /** The escape septet that introduces an extension character. */
  const ESC: nat := 0x1B

  type Septet = s: nat | s < 128

  datatype Extension = Extension(code: Septet, symbol: char)

  /** The base table, indexed by septet, and the extension table. */
  datatype Alphabet = Alphabet(base: seq<char>, ext: seq<Extension>)

  ghost predicate Valid(a: Alphabet) {
    && |a.base| == 128
    && forall i, j :: 0 <= i < j < |a.ext| ==> a.ext[i].code != a.ext[j].code
  }

  datatype Error = Unencodable(codepoint: nat) | Truncated(septet: nat) | DanglingEscape

  // ---- Characters ----

  // The code of the first extension entry for `c`.
  function ExtensionCode(ext: seq<Extension>, c: char): (r: Option<Septet>)
    ensures r.Some? ==> exists i :: 0 <= i < |ext| && ext[i] == Extension(r.value, c)
    ensures r.None? ==> forall i :: 0 <= i < |ext| ==> ext[i].symbol != c
  {
    if ext == [] then None
    else if ext[0].symbol == c then
      assert ext[0] == Extension(ext[0].code, c);
      Some(ext[0].code)
    else
      var r := ExtensionCode(ext[1..], c);
      assert r.Some? ==> exists i :: 0 <= i < |ext[1..]| && ext[1..][i] == ext[i + 1] == Extension(r.value, c);
      r
  }

  // The first septet at or after `from` that stands for `c`; the escape stands for nothing.
  function BaseCode(base: seq<char>, c: char, from: nat): (r: Option<nat>)
    requires from <= |base|
    ensures r.Some? ==> from <= r.value < |base| && base[r.value] == c && r.value != ESC
    ensures r.None? ==> forall i :: from <= i < |base| && i != ESC ==> base[i] != c
    decreases |base| - from
  {
    if from == |base| then None
    else if base[from] == c && from != ESC then Some(from)
    else BaseCode(base, c, from + 1)
  }

  /** Whether `c` is an extension character, and its septet. */
  function CharToSeptet(a: Alphabet, c: char): Option<(bool, nat)> {
    match ExtensionCode(a.ext, c)
    case Some(code) => Some((true, code))
    case None =>
      match BaseCode(a.base, c, 0)
      case Some(code) => Some((false, code))
      case None => None
  }

  // The character of an extension code; a reserved code shows as a space.
  function ExtensionSymbol(ext: seq<Extension>, code: nat): (c: char)
    ensures (forall i :: 0 <= i < |ext| ==> ext[i].code != code) ==> c == ' '
    ensures forall i {:trigger ext[i]} :: 0 <= i < |ext| && ext[i].code == code && (forall j :: 0 <= j < i ==> ext[j].code != code)
                                          ==> c == ext[i].symbol
  {
    if ext == [] then ' '
    else if ext[0].code == code then ext[0].symbol
    else ExtensionSymbol(ext[1..], code)
  }

  // ---- Text as septets ----

  ghost function CharSeptets(code: (bool, nat)): seq<nat> {
    if code.0 then [ESC, code.1] else [code.1]
  }

  ghost function TextSeptets(a: Alphabet, text: seq<char>): Result<seq<nat>, Error> {
    if text == [] then Ok([])
    else match CharToSeptet(a, text[0])
      case None => Err(Unencodable(text[0] as nat))
      case Some(code) =>
        var rest :- TextSeptets(a, text[1..]);
        Ok(CharSeptets(code) + rest)
  }

  /** Counts as many septets as the text takes. */
  method CountSeptets(a: Alphabet, text: seq<char>) returns (r: Result<nat, Error>)
    ensures TextSeptets(a, text).Ok? ==> r == Ok(|TextSeptets(a, text).value|)
    ensures TextSeptets(a, text).Err? ==> r == Err(TextSeptets(a, text).error)
  {
    var count := 0;
    for i := 0 to |text|
      invariant Continued(a, text, i, count)
    {
      assert text[i..][1..] == text[i + 1..];
      var code := CharToSeptet(a, text[i]);
      if code.None? {
        return Err(Unencodable(text[i] as nat));
      }
      count := count + if code.value.0 then 2 else 1;
    }
    r := Ok(count);
  }

  // The septets of the whole text are `count` so far and those of text[i..].
  ghost predicate Continued(a: Alphabet, text: seq<char>, i: nat, count: nat)
    requires i <= |text|
  {
    match TextSeptets(a, text[i..])
    case Err(e) => TextSeptets(a, text) == Err(e)
    case Ok(rest) => TextSeptets(a, text).Ok? && |TextSeptets(a, text).value| == count + |rest|
  }

  // ---- Septets as octets ----

  /** Bit k of an octet stream, zero beyond its end. */
  ghost predicate StreamBit(data: seq<byte>, k: nat) {
    k / 8 < |data| && ToOctet(data[k / 8])[k % 8]
  }

  /** Septet i of an octet stream: bits 7i to 7i + 6. */
  ghost function SeptetAt(data: seq<byte>, i: nat): (s: Septet)
  {
    var bits := seq(7, j requires 0 <= j < 7 => StreamBit(data, 7 * i + j));
    ValueBound(bits);
    assert Pow2(7) == 128;
    ValueOf(bits)
  }

  /** Bit k of a run of septets laid end to end, zero beyond its end. */
  ghost predicate PackedBit(septets: seq<nat>, k: nat) {
    k < 7 * |septets| && BitsFrom(septets[k / 7], 7)[k % 7]
  }

  ghost function PackedOctet(septets: seq<nat>, j: nat): Octet {
    seq(8, x requires 0 <= x < 8 => PackedBit(septets, 8 * j + x))
  }

  // Octets that n septets take.
  function PackedLength(septets: nat): nat {
    (7 * septets + 7) / 8
  }

  ghost function Packed(septets: seq<nat>): seq<byte> {
    seq(PackedLength(|septets|), j requires 0 <= j < PackedLength(|septets|) => FromOctet(PackedOctet(septets, j)))
  }

  /** Packing then reading a septet gives it back. */
  lemma PackedSeptet(septets: seq<nat>, i: nat)
    requires i < |septets| && septets[i] < 128
    ensures SeptetAt(Packed(septets), i) == septets[i]
  {
    var data := Packed(septets);
    var bits := seq(7, j requires 0 <= j < 7 => StreamBit(data, 7 * i + j));
    forall j | 0 <= j < 7 ensures bits[j] == BitsFrom(septets[i], 7)[j] {
      PackedStreamBit(septets, 7 * i + j);
      assert (7 * i + j) / 7 == i && (7 * i + j) % 7 == j;
    }
    assert bits == BitsFrom(septets[i], 7);
    assert Pow2(7) == 128;
    ValueOfBits(septets[i], 7);
  }

  lemma PackedStreamBit(septets: seq<nat>, k: nat)
    requires k < 7 * |septets|
    ensures StreamBit(Packed(septets), k) == PackedBit(septets, k)
  {
    assert k / 8 < PackedLength(|septets|);
    ToFromOctet(PackedOctet(septets, k / 8));
    assert PackedOctet(septets, k / 8)[k % 8] == PackedBit(septets, 8 * (k / 8) + k % 8);
  }

  // ---- Encoding ----

  // The first loop of the encoder: text to septets.
  method ToSeptets(a: Alphabet, text: seq<char>) returns (r: Result<seq<nat>, Error>)
    ensures r == TextSeptets(a, text)
  {
    var septets: seq<nat> := [];
    assert text[0..] == text;
    PrefixedTwice([], [], TextSeptets(a, text));
    for i := 0 to |text|
      invariant TextSeptets(a, text) == Prefixed(septets, TextSeptets(a, text[i..]))
    {
      assert text[i..][1..] == text[i + 1..];
      var code := CharToSeptet(a, text[i]);
      if code.None? {
        return Err(Unencodable(text[i] as nat));
      }
      var (isExt, value) := code.value;
      ghost var before := septets;
      if isExt {
        septets := septets + [ESC];
      }
      septets := septets + [value];
      assert septets == before + CharSeptets(code.value);
      PrefixedTwice(before, CharSeptets(code.value), TextSeptets(a, text[i + 1..]));
    }
    assert septets + [] == septets;
    r := Ok(septets);
  }

  // A septet shifted left by less than eight inside a 16-bit value.
  function Shifted(septet: nat, shift: nat): (r: seq<bool>)
    requires shift < 8
    ensures |r| == 16
  {
    var bits := BitsFrom(septet, 7);
    seq(16, m requires 0 <= m < 16 => shift <= m < shift + 7 && bits[m - shift])
  }

  // Ors septet i in at its bit offset, across two octets where it straddles them.
  method OrSeptet(result: array<Octet>, i: nat, septet: nat)
    requires 7 * i + 7 <= 8 * result.Length
    modifies result
    ensures forall j: nat, x: nat {:trigger result[j][x]} :: j < result.Length && x < 8 ==>
              result[j][x] == (old(result[j][x]) || SetsBit(septet, i, 8 * j + x))
  {
    var byteIndex, shift := 7 * i / 8, 7 * i % 8;
    var value := Shifted(septet, shift);
    var low, high := value[..8], value[8..];
    if byteIndex < result.Length {
      result[byteIndex] := OrOctet(result[byteIndex], low);
    }
    if high != ZERO_OCTET && byteIndex + 1 < result.Length {
      result[byteIndex + 1] := OrOctet(result[byteIndex + 1], high);
    }
    forall j: nat, x: nat | j < result.Length && x < 8
      ensures result[j][x] == (old(result[j][x]) || SetsBit(septet, i, 8 * j + x))
    {
      ShiftedBit(septet, i, j, x, low, high);
    }
  }

  // Septet i of a packed run has bits 7i to 7i + 6.
  ghost predicate SetsBit(septet: nat, i: nat, k: nat) {
    7 * i <= k < 7 * i + 7 && BitsFrom(septet, 7)[k - 7 * i]
  }

  lemma ShiftedBit(septet: nat, i: nat, j: nat, x: nat, low: Octet, high: Octet)
    requires x < 8 && low == Shifted(septet, 7 * i % 8)[..8] && high == Shifted(septet, 7 * i % 8)[8..]
    ensures SetsBit(septet, i, 8 * j + x)
            <==> (j == 7 * i / 8 && low[x]) || (j == 7 * i / 8 + 1 && high[x])
  {
    var shift, at := 7 * i % 8, 7 * i / 8;
    assert 8 * j + x - 7 * i == 8 * (j - at) + x - shift;
  }

  // The second loop of the encoder: septets to octets.
  method Pack(septets: seq<nat>) returns (r: seq<byte>)
    ensures r == Packed(septets)
  {
    var n := |septets|;
    var byteLen := (7 * n + 7) / 8;
    var result := new Octet[byteLen](i => ZERO_OCTET);
    for i := 0 to n
      invariant forall j, x {:trigger result[j][x]} :: 0 <= j < byteLen && 0 <= x < 8 ==>
                  result[j][x] == PackedBit(septets[..i], 8 * j + x)
    {
      forall k: nat {:trigger PackedBit(septets[..i + 1], k)}
        ensures PackedBit(septets[..i + 1], k) == (PackedBit(septets[..i], k) || SetsBit(septets[i], i, k))
      {
        OneSeptetPacked(septets, i, k);
      }
      OrSeptet(result, i, septets[i]);
    }
    assert septets[..n] == septets;
    r := seq(byteLen, j requires 0 <= j < byteLen reads result => FromOctet(result[j]));
    forall j | 0 <= j < byteLen ensures r[j] == Packed(septets)[j] {
      assert result[j] == PackedOctet(septets, j);
    }
  }

  // Adding septet i sets exactly its own bits, 7i to 7i + 6.
  lemma OneSeptetPacked(septets: seq<nat>, i: nat, k: nat)
    requires i < |septets|
    ensures PackedBit(septets[..i + 1], k) == (PackedBit(septets[..i], k) || SetsBit(septets[i], i, k))
  {
    if 7 * i <= k < 7 * i + 7 {
      assert k / 7 == i && k % 7 == k - 7 * i;
    }
  }

  method Encode(a: Alphabet, text: seq<char>) returns (r: Result<seq<byte>, Error>)
    ensures TextSeptets(a, text).Err? ==> r == Err(TextSeptets(a, text).error)
    ensures TextSeptets(a, text).Ok? ==> r == Ok(Packed(TextSeptets(a, text).value))
  {
    var septets :- ToSeptets(a, text);
    var bytes := Pack(septets);
    r := Ok(bytes);
  }

  // ---- Decoding ----

  // The text of n septets from septet i on; `pending` when the last one was the escape.
  ghost function DecodeSpec(a: Alphabet, data: seq<byte>, i: nat, n: nat, pending: bool): Result<seq<char>, Error>
    requires Valid(a)
    decreases n
  {
    if n == 0 then
      if pending then Err(DanglingEscape) else Ok([])
    else if 7 * i / 8 >= |data| then
      Err(Truncated(i))
    else
      var s := SeptetAt(data, i);
      if pending then Prefixed([ExtensionSymbol(a.ext, s)], DecodeSpec(a, data, i + 1, n - 1, false))
      else if s == ESC then DecodeSpec(a, data, i + 1, n - 1, true)
      else Prefixed([a.base[s]], DecodeSpec(a, data, i + 1, n - 1, false))
  }

  // Bit j of septet i lies in the octet the septet starts in, or in the next one.
  lemma BitPosition(i: nat, j: nat)
    requires j < 7
    ensures var byteIndex, shift, k := 7 * i / 8, 7 * i % 8, 7 * i + j;
            if j + shift < 8 then k / 8 == byteIndex && k % 8 == j + shift
            else k / 8 == byteIndex + 1 && k % 8 == j + shift - 8
  {
  }

  lemma StraddledBit(data: seq<byte>, i: nat, b0: Octet, b1: Octet, j: nat)
    requires j < 7 && 7 * i / 8 < |data| && b0 == ToOctet(data[7 * i / 8])
    requires b1 == if 7 * i / 8 + 1 < |data| then ToOctet(data[7 * i / 8 + 1]) else ZERO_OCTET
    ensures var shift := 7 * i % 8;
            StreamBit(data, 7 * i + j) == ((j + shift < 8 && b0[j + shift]) || (j >= 8 - shift && b1[j - (8 - shift)]))
  {
    BitPosition(i, j);
  }

  // One septet, from the two octets it may straddle.
  method ReadSeptet(data: seq<byte>, i: nat) returns (s: Septet)
    requires 7 * i / 8 < |data|
    ensures s == SeptetAt(data, i)
  {
    var byteIndex, shift := 7 * i / 8, 7 * i % 8;
    var b0 := ToOctet(data[byteIndex]);
    var b1 := if byteIndex + 1 < |data| then ToOctet(data[byteIndex + 1]) else ZERO_OCTET;
    var bits := seq(7, j requires 0 <= j < 7 =>
                       (j + shift < 8 && b0[j + shift]) || (j >= 8 - shift && b1[j - (8 - shift)]));
    forall j | 0 <= j < 7 ensures bits[j] == StreamBit(data, 7 * i + j) {
      StraddledBit(data, i, b0, b1, j);
    }
    SeptetOfBits(data, i, bits);
    s := ValueOf(bits);
  }

  lemma SeptetOfBits(data: seq<byte>, i: nat, bits: seq<bool>)
    requires |bits| == 7 && forall j :: 0 <= j < 7 ==> bits[j] == StreamBit(data, 7 * i + j)
    ensures ValueOf(bits) == SeptetAt(data, i)
  {
    assert bits == seq(7, j requires 0 <= j < 7 => StreamBit(data, 7 * i + j));
  }

  /** Decodes `num` septets beginning at septet index `start`. */
  method DecodeFrom(a: Alphabet, data: seq<byte>, start: nat, num: nat) returns (r: Result<seq<char>, Error>)
    requires Valid(a)
    ensures r == DecodeSpec(a, data, start, num, false)
  {
    var out: seq<char> := [];
    var i, consumed, pending := start, 0, false;
    PrefixedTwice([], [], DecodeSpec(a, data, start, num, false));
    while consumed < num
      invariant 0 <= consumed <= num && i == start + consumed
      invariant DecodeSpec(a, data, start, num, false) == Prefixed(out, DecodeSpec(a, data, i, num - consumed, pending))
    {
      if 7 * i / 8 >= |data| {
        return Err(Truncated(i));
      }
      var septet := ReadSeptet(data, i);
      ghost var rest := DecodeSpec(a, data, i + 1, num - consumed - 1, false);
      if pending {
        pending := false;
        PrefixedTwice(out, [ExtensionSymbol(a.ext, septet)], rest);
        out := out + [ExtensionSymbol(a.ext, septet)];
      } else if septet == ESC {
        pending := true;
      } else {
        PrefixedTwice(out, [a.base[septet]], rest);
        out := out + [a.base[septet]];
      }
      i, consumed := i + 1, consumed + 1;
    }
    if pending {
      return Err(DanglingEscape);
    }
    assert out + [] == out;
    r := Ok(out);
  }

  // How many escapes the n septets from i on end with.
  ghost function Trailing(data: seq<byte>, i: nat, n: nat): (t: nat)
    ensures t <= n
  {
    if n == 0 || SeptetAt(data, i + n - 1) != ESC then 0 else 1 + Trailing(data, i, n - 1)
  }

  lemma {:induction false} TrailingFromFront(data: seq<byte>, i: nat, n: nat)
    requires n > 0
    ensures var t := Trailing(data, i + 1, n - 1);
            Trailing(data, i, n) == if t == n - 1 && SeptetAt(data, i) == ESC then n else t
    decreases n
  {
    if n > 1 {
      TrailingFromFront(data, i, n - 1);
    }
  }

  // Whether an escape is left over at the end.
  ghost predicate Dangles(data: seq<byte>, i: nat, n: nat, pending: bool) {
    var t := Trailing(data, i, n);
    (t % 2 == 1) != (t == n && pending)
  }

  /** Septets that are all there decode unless they end in an odd number of escapes, and
      otherwise the error names the first septet that is missing. */
  lemma {:induction false} DecodesExactly(a: Alphabet, data: seq<byte>, i: nat, n: nat, pending: bool)
    requires Valid(a)
    ensures var r := DecodeSpec(a, data, i, n, pending);
            if n > 0 && 7 * (i + n - 1) / 8 >= |data| then
              r.Err? && r.error.Truncated? && FirstMissing(data, i, r.error.septet)
            else if Dangles(data, i, n, pending) then r == Err(DanglingEscape) else r.Ok?
    decreases n
  {
    if n > 0 && 7 * i / 8 < |data| {
      var next := !pending && SeptetAt(data, i) == ESC;
      DecodesExactly(a, data, i + 1, n - 1, next);
      DanglesStep(data, i, n, pending, next);
      DecodeStep(a, data, i, n, pending, next);
    }
  }

  lemma DanglesStep(data: seq<byte>, i: nat, n: nat, pending: bool, next: bool)
    requires n > 0 && next == (!pending && SeptetAt(data, i) == ESC)
    ensures Dangles(data, i, n, pending) <==> Dangles(data, i + 1, n - 1, next)
  {
    TrailingFromFront(data, i, n);
  }

  // A septet that is there leaves the outcome to the rest.
  lemma DecodeStep(a: Alphabet, data: seq<byte>, i: nat, n: nat, pending: bool, next: bool)
    requires Valid(a) && n > 0 && 7 * i / 8 < |data| && next == (!pending && SeptetAt(data, i) == ESC)
    ensures var r, rest := DecodeSpec(a, data, i, n, pending), DecodeSpec(a, data, i + 1, n - 1, next);
            (r.Ok? <==> rest.Ok?) && (r.Err? ==> rest == Err(r.error))
  {
  }

  // Septet k begins beyond the octets, and none from i to k does.
  ghost predicate FirstMissing(data: seq<byte>, i: nat, k: nat) {
    i <= k && 7 * k / 8 >= |data| && (k > i ==> 7 * (k - 1) / 8 < |data|)
  }

  // ---- Round trip ----

  /** `data` holds `septets` from septet index `start` on; its other bits are free. */
  ghost predicate Carries(data: seq<byte>, start: nat, septets: seq<nat>) {
    forall k :: 0 <= k < |septets| ==> CarriesAt(data, start + k, septets[k])
  }

  ghost predicate CarriesAt(data: seq<byte>, i: nat, septet: nat) {
    7 * i / 8 < |data| && SeptetAt(data, i) == septet
  }

  lemma CarriesTail(data: seq<byte>, start: nat, s: seq<nat>, t: seq<nat>)
    requires Carries(data, start, s + t)
    ensures Carries(data, start, s) && Carries(data, start + |s|, t)
  {
    forall k | 0 <= k < |s| ensures CarriesAt(data, start + k, s[k]) {
      assert (s + t)[k] == s[k];
    }
    forall k | 0 <= k < |t| ensures CarriesAt(data, start + |s| + k, t[k]) {
      assert (s + t)[|s| + k] == t[k];
      assert start + (|s| + k) == start + |s| + k;
    }
  }

  lemma ExtensionRoundTrip(a: Alphabet, c: char)
    requires Valid(a) && ExtensionCode(a.ext, c).Some?
    ensures ExtensionSymbol(a.ext, ExtensionCode(a.ext, c).value) == c
  {
    var code := ExtensionCode(a.ext, c).value;
    var i :| 0 <= i < |a.ext| && a.ext[i] == Extension(code, c);
    assert forall j :: 0 <= j < i ==> a.ext[j].code != a.ext[i].code;
  }

  lemma CarriedCharDecodes(a: Alphabet, c: char, data: seq<byte>, start: nat, n: nat)
    requires Valid(a) && CharToSeptet(a, c).Some?
    requires Carries(data, start, CharSeptets(CharToSeptet(a, c).value))
    ensures var width := |CharSeptets(CharToSeptet(a, c).value)|;
            DecodeSpec(a, data, start, width + n, false) == Prefixed([c], DecodeSpec(a, data, start + width, n, false))
  {
    var code := CharToSeptet(a, c).value;
    assert CarriesAt(data, start + 0, CharSeptets(code)[0]);
    if code.0 {
      assert CarriesAt(data, start + 1, CharSeptets(code)[1]);
      ExtensionRoundTrip(a, c);
    }
  }

  /** Wherever the septets of a text lie in an octet stream, decoding there gives the
      text back. */
  lemma {:induction false} CarriedTextDecodes(a: Alphabet, text: seq<char>, data: seq<byte>, start: nat)
    requires Valid(a) && TextSeptets(a, text).Ok? && Carries(data, start, TextSeptets(a, text).value)
    ensures DecodeSpec(a, data, start, |TextSeptets(a, text).value|, false) == Ok(text)
    decreases |text|
  {
    if text != [] {
      var head, rest := CharSeptets(CharToSeptet(a, text[0]).value), TextSeptets(a, text[1..]).value;
      assert TextSeptets(a, text).value == head + rest;
      CarriesTail(data, start, head, rest);
      CarriedTextDecodes(a, text[1..], data, start + |head|);
      FirstCharDecodes(a, text, data, start, head, |rest|);
    }
  }

  lemma FirstCharDecodes(a: Alphabet, text: seq<char>, data: seq<byte>, start: nat, head: seq<nat>, n: nat)
    requires Valid(a) && text != [] && CharToSeptet(a, text[0]).Some? && head == CharSeptets(CharToSeptet(a, text[0]).value)
    requires Carries(data, start, head) && DecodeSpec(a, data, start + |head|, n, false) == Ok(text[1..])
    ensures DecodeSpec(a, data, start, |head| + n, false) == Ok(text)
  {
    CarriedCharDecodes(a, text[0], data, start, n);
    FirstDecoded(text, DecodeSpec(a, data, start + |head|, n, false));
  }

  lemma FirstDecoded(text: seq<char>, rest: Result<seq<char>, Error>)
    requires text != [] && rest == Ok(text[1..])
    ensures Prefixed([text[0]], rest) == Ok(text)
  {
    assert text == [text[0]] + text[1..];
  }

  /** Round trip: every text the encoder accepts comes back from its packed octets,
      of which there are ceil(7n/8) for n septets. */
  lemma RoundTrip(a: Alphabet, text: seq<char>)
    requires Valid(a) && TextSeptets(a, text).Ok?
    ensures var septets := TextSeptets(a, text).value;
            && DecodeSpec(a, Packed(septets), 0, |septets|, false) == Ok(text)
            && 8 * (|Packed(septets)| - 1) < 7 * |septets| <= 8 * |Packed(septets)|
  {
    var septets := TextSeptets(a, text).value;
    SeptetsInRange(a, text);
    forall k | 0 <= k < |septets|
      ensures CarriesAt(Packed(septets), 0 + k, septets[k])
    {
      PackedSeptet(septets, k);
    }
    CarriedTextDecodes(a, text, Packed(septets), 0);
  }

  lemma {:induction false} SeptetsInRange(a: Alphabet, text: seq<char>)
    requires Valid(a) && TextSeptets(a, text).Ok?
    ensures forall k :: 0 <= k < |TextSeptets(a, text).value| ==> TextSeptets(a, text).value[k] < 128
  {
    if text != [] {
      SeptetsInRange(a, text[1..]);
    }
  }
}
