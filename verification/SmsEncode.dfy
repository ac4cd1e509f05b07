/** User-data encoding: the length octet and the text behind it. */
module SmsEncode {
  import opened Wrappers
  import opened Bytes
  import opened SmsPdu
  import opened SmsRoundTrip

  /** The encoder's own septet counter, which consults the two tables separately. */
  method CountGsm7Septets(a: Gsm7.Alphabet, text: seq<char>) returns (r: Result<nat, Error>)
    requires Gsm7.Valid(a)
    ensures Gsm7.TextSeptets(a, text).Ok? ==> r == Ok(|Gsm7.TextSeptets(a, text).value|)
    ensures Gsm7.TextSeptets(a, text).Err? ==> r == Err(FromGsm7(Gsm7.TextSeptets(a, text).error))
  {
    var count := 0;
    for i := 0 to |text|
      invariant Gsm7.Continued(a, text, i, count)
    {
      assert text[i..][1..] == text[i + 1..];
      var c := text[i];
      var isExt := exists k :: 0 <= k < |a.ext| && a.ext[k].symbol == c;
      if isExt {
        count := count + 2;
      } else {
        var found := exists k :: 0 <= k < |a.base| && a.base[k] == c && k != 0x1B;
        if !found {
          return Err(Gsm7Encode(c as nat));
        }
        count := count + 1;
      }
    }
    r := Ok(count);
  }

  /** A text that its encoding can express within the one-octet length. */
  ghost predicate Fits(a: Gsm7.Alphabet, ud: UserData) {
    match ud.encoding
    case Gsm7Bit => Gsm7.TextSeptets(a, ud.text).Ok? && |Gsm7.TextSeptets(a, ud.text).value| < 256
    case Ucs2 => Bmp(ud.text) && 2 * |ud.text| < 256
  }

  /** Encodes exactly the texts that fit, and the decoder reads them back. */
  method EncodeUserData(a: Gsm7.Alphabet, ud: UserData) returns (r: Result<seq<byte>, Error>)
    requires Gsm7.Valid(a)
    ensures r.Ok? <==> Fits(a, ud)
    ensures r.Ok? ==> |r.value| > 0 && |r.value| == 1 + FieldOctets(r.value[0], ud.encoding)
    ensures r.Ok? ==> UserDataSpec(a, r.value, 1, r.value[0], 0, ud.encoding) == Ok(ud)
    ensures r.Err? ==> r.error == if ud.encoding.Gsm7Bit? && Gsm7.TextSeptets(a, ud.text).Err?
                                  then FromGsm7(Gsm7.TextSeptets(a, ud.text).error) else PduEncode
  {
    match ud.encoding
    case Gsm7Bit =>
      var packed := Gsm7.Encode(a, ud.text);
      if packed.Err? {
        return Err(FromGsm7(packed.error));
      }
      var counted := CountGsm7Septets(a, ud.text);
      if counted.Err? {
        assert false;  // the two counters agree
      }
      var count := counted.value;
      if count > 255 {
        return Err(PduEncode);
      }
      Gsm7FieldDecodes(a, ud.text, count, packed.value);
      r := Ok([count] + packed.value);
    case Ucs2 =>
      var units :- EncodeUcs2(ud.text);
      if |units| > 255 {
        return Err(PduEncode);
      }
      r := Ok([|units|] + units);
      assert r.value[1..1 + |units|] == units;
      Ucs2TextDecodes(a, ud.text, r.value, 1);
  }

  lemma Gsm7FieldDecodes(a: Gsm7.Alphabet, text: seq<char>, count: byte, packed: seq<byte>)
    requires Gsm7.Valid(a) && Gsm7.TextSeptets(a, text).Ok?
    requires count == |Gsm7.TextSeptets(a, text).value| && packed == Gsm7.Packed(Gsm7.TextSeptets(a, text).value)
    ensures |packed| == Gsm7.PackedLength(count)
    ensures UserDataSpec(a, [count] + packed, 1, count, 0, Gsm7Bit) == Ok(UserData(Gsm7Bit, text))
  {
    Gsm7.RoundTrip(a, text);
    assert ([count] + packed)[1..1 + |packed|] == packed;
  }

  // Big-endian code units, refusing a character beyond the Basic Multilingual Plane.
  method EncodeUcs2(text: seq<char>) returns (r: Result<seq<byte>, Error>)
    ensures Bmp(text) ==> r == Ok(Utf16(text)) && |Utf16(text)| == 2 * |text|
    ensures !Bmp(text) ==> r == Err(PduEncode)
  {
    var units: seq<byte> := [];
    assert text[..0] == [];
    for i := 0 to |text|
      invariant Bmp(text[..i]) && units == Utf16(text[..i]) && |units| == 2 * i
    {
      if text[i] as nat >= 0x10000 {
        return Err(PduEncode);
      }
      Utf16Snoc(text[..i], text[i]);
      assert text[..i + 1] == text[..i] + [text[i]];
      units := units + [text[i] as nat / 256, text[i] as nat % 256];
    }
    assert text[..|text|] == text;
    r := Ok(units);
  }

  lemma {:induction false} Utf16Snoc(text: seq<char>, c: char)
    requires Bmp(text) && c as nat < 0x10000
    ensures Bmp(text + [c]) && Utf16(text + [c]) == Utf16(text) + CodeUnit(c)
    decreases |text|
  {
    if text != [] {
      Utf16Snoc(text[1..], c);
      assert (text + [c])[1..] == text[1..] + [c];
    } else {
      assert (text + [c])[1..] == [];
    }
  }
}
