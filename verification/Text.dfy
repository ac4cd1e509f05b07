/** Byte strings as the Rust sources hold them: UTF-8, and ASCII case. */
module Text {
  import opened Bytes

  const DOT: byte := 0x2E

  ghost function Ascii(s: string): (r: seq<byte>)
    requires forall k :: 0 <= k < |s| ==> s[k] as nat < 0x80
    ensures |r| == |s| && forall k :: 0 <= k < |s| ==> r[k] as nat == s[k] as nat
  {
    seq(|s|, k requires 0 <= k < |s| => s[k] as nat)
  }

  predicate Continuation(b: byte) {
    0x80 <= b <= 0xBF
  }

  // The admissible first two octets of a three-octet sequence, table 3-7 of Unicode 15.
  predicate LeadsThree(a: byte, b: byte) {
    || (a == 0xE0 && 0xA0 <= b <= 0xBF)
    || (a == 0xED && 0x80 <= b <= 0x9F)
    || ((0xE1 <= a <= 0xEC || 0xEE <= a <= 0xEF) && Continuation(b))
  }

  predicate LeadsFour(a: byte, b: byte) {
    || (a == 0xF0 && 0x90 <= b <= 0xBF)
    || (0xF1 <= a <= 0xF3 && Continuation(b))
    || (a == 0xF4 && 0x80 <= b <= 0x8F)
  }

  // The length of the well-formed character at the front, 0 if there is none.
  function CharLength(s: seq<byte>): (n: nat)
    ensures n <= |s|
  {
    if s == [] then 0
    else if s[0] < 0x80 then 1
    else if 0xC2 <= s[0] <= 0xDF && |s| >= 2 && Continuation(s[1]) then 2
    else if |s| >= 3 && LeadsThree(s[0], s[1]) && Continuation(s[2]) then 3
    else if |s| >= 4 && LeadsFour(s[0], s[1]) && Continuation(s[2]) && Continuation(s[3]) then 4
    else 0
  }

  /** The octets of a Unicode scalar value, table 3-6 of Unicode 15. */
  ghost function Utf8(c: nat): (r: seq<byte>)
    requires IsScalar(c)
  {
    if c < 0x80 then [c]
    else if c < 0x800 then [0xC0 + c / 64, 0x80 + c % 64]
    else if c < 0x10000 then [0xE0 + c / 4096, 0x80 + c / 64 % 64, 0x80 + c % 64]
    else [0xF0 + c / 262144, 0x80 + c / 4096 % 64, 0x80 + c / 64 % 64, 0x80 + c % 64]
  }

  ghost predicate IsScalar(c: nat) {
    c < 0xD800 || 0xE000 <= c < 0x110000
  }

  ghost predicate BeginsWith(s: seq<byte>, c: nat, n: nat) {
    IsScalar(c) && |Utf8(c)| == n && Utf8(c) <= s
  }

  /** A well-formed character at the front is the octets of one scalar value, and the other
      way round. */
  lemma CharacterExactly(s: seq<byte>, n: nat)
    requires n > 0
    ensures CharLength(s) == n <==> exists c :: BeginsWith(s, c, n)
  {
    if CharLength(s) == n {
      var c := ScalarAt(s);
      assert BeginsWith(s, c, n);
    }
    if c :| BeginsWith(s, c, n) {
      ScalarHasLength(s, c);
    }
  }

  lemma ScalarHasLength(s: seq<byte>, c: nat)
    requires IsScalar(c) && Utf8(c) <= s
    ensures CharLength(s) == |Utf8(c)|
  {
    var u := Utf8(c);
    assert forall k :: 0 <= k < |u| ==> s[k] == u[k];
    if 0x800 <= c < 0x10000 {
      LeadsThreeOf(c);
    } else if 0x10000 <= c {
      LeadsFourOf(c);
    }
  }

  lemma LeadsThreeOf(c: nat)
    requires 0x800 <= c < 0x10000 && IsScalar(c)
    ensures LeadsThree(0xE0 + c / 4096, 0x80 + c / 64 % 64)
  {
    assert c / 64 == 64 * (c / 4096) + c / 64 % 64;
  }

  lemma LeadsFourOf(c: nat)
    requires 0x10000 <= c < 0x110000
    ensures LeadsFour(0xF0 + c / 262144, 0x80 + c / 4096 % 64)
  {
    assert c / 4096 == 64 * (c / 262144) + c / 4096 % 64;
  }

  lemma ScalarAt(s: seq<byte>) returns (c: nat)
    requires CharLength(s) > 0
    ensures IsScalar(c) && |Utf8(c)| == CharLength(s) && Utf8(c) <= s
  {
    var n := CharLength(s);
    if n == 1 {
      c := s[0];
      assert s[..1] == Utf8(c);
    } else if n == 2 {
      c := TwoOctets(s[0], s[1]);
      assert s[..2] == [s[0], s[1]];
    } else if n == 3 {
      c := ThreeOctets(s[0], s[1], s[2]);
      assert s[..3] == [s[0], s[1], s[2]];
    } else {
      c := FourOctets(s[0], s[1], s[2], s[3]);
      assert s[..4] == [s[0], s[1], s[2], s[3]];
    }
  }

  lemma TwoOctets(a: byte, b: byte) returns (c: nat)
    requires 0xC2 <= a <= 0xDF && Continuation(b)
    ensures IsScalar(c) && Utf8(c) == [a, b]
  {
    c := 64 * (a - 0xC0) as nat + (b - 0x80) as nat;
  }

  lemma ThreeOctets(a: byte, b: byte, d: byte) returns (c: nat)
    requires LeadsThree(a, b) && Continuation(d)
    ensures IsScalar(c) && Utf8(c) == [a, b, d]
  {
    var p, q, r := (a - 0xE0) as nat, (b - 0x80) as nat, (d - 0x80) as nat;
    c := 64 * (64 * p + q) + r;
    Digits64(64 * p + q, r);
    Digits64(p, q);
    assert c / 4096 == c / 64 / 64;
  }

  lemma FourOctets(a: byte, b: byte, d: byte, e: byte) returns (c: nat)
    requires LeadsFour(a, b) && Continuation(d) && Continuation(e)
    ensures IsScalar(c) && Utf8(c) == [a, b, d, e]
  {
    var p, q, r, t := (a - 0xF0) as nat, (b - 0x80) as nat, (d - 0x80) as nat, (e - 0x80) as nat;
    c := 64 * (64 * (64 * p + q) + r) + t;
    Digits64(64 * (64 * p + q) + r, t);
    Digits64(64 * p + q, r);
    Digits64(p, q);
    assert c / 4096 == c / 64 / 64 && c / 262144 == c / 64 / 64 / 64;
  }

  lemma Digits64(q: nat, r: nat)
    requires r < 64
    ensures (64 * q + r) / 64 == q && (64 * q + r) % 64 == r
  {
  }

  // Offsets at which the characters of s begin, and its end.
  ghost predicate Characters(s: seq<byte>, marks: seq<nat>) {
    && |marks| > 0 && marks[0] == 0 && marks[|marks| - 1] == |s|
    && forall i :: 0 < i < |marks| ==> OneCharacter(s, marks[i - 1], marks[i])
  }

  ghost predicate OneCharacter(s: seq<byte>, from: nat, to: nat) {
    from < to <= |s| && CharLength(s[from..]) == to - from
  }

  /** The octets divide into well-formed characters. */
  ghost predicate IsUtf8(s: seq<byte>) {
    exists marks :: Characters(s, marks)
  }

  /** Decides it, one character after the other. */
  method CheckUtf8(s: seq<byte>) returns (ok: bool)
    ensures ok == IsUtf8(s)
  {
    var pos := 0;
    ghost var marks: seq<nat> := [0];
    while pos < |s|
      invariant pos <= |s| && |marks| > 0 && marks[0] == 0 && marks[|marks| - 1] == pos
      invariant forall i :: 0 < i < |marks| ==> OneCharacter(s, marks[i - 1], marks[i])
    {
      var n := CharLength(s[pos..]);
      if n == 0 {
        forall other | Characters(s, other) ensures CharLength(s[pos..]) > 0 {
          SameMarks(s, marks, other, |marks| - 1);
        }
        return false;
      }
      marks := marks + [pos + n];
      pos := pos + n;
    }
    assert Characters(s, marks);
    ok := true;
  }

  // Division into characters leaves no choice.
  lemma {:induction false} SameMarks(s: seq<byte>, marks: seq<nat>, other: seq<nat>, i: nat)
    requires Characters(s, other) && i < |marks| && marks[0] == 0 && marks[|marks| - 1] < |s|
    requires forall k :: 0 < k < |marks| ==> OneCharacter(s, marks[k - 1], marks[k])
    ensures i < |other| - 1 && other[i] == marks[i] < |s| && CharLength(s[marks[i]..]) > 0
  {
    Below(s, marks, i);
    if i > 0 {
      SameMarks(s, marks, other, i - 1);
      assert OneCharacter(s, other[i - 1], other[i]) && OneCharacter(s, marks[i - 1], marks[i]);
    }
    assert OneCharacter(s, other[i + 1 - 1], other[i + 1]);
  }

  lemma {:induction false} Below(s: seq<byte>, marks: seq<nat>, i: nat)
    requires i < |marks| && marks[|marks| - 1] < |s|
    requires forall k :: 0 < k < |marks| ==> OneCharacter(s, marks[k - 1], marks[k])
    ensures marks[i] < |s|
    decreases |marks| - i
  {
    if i + 1 < |marks| {
      Below(s, marks, i + 1);
      assert OneCharacter(s, marks[i + 1 - 1], marks[i + 1]);
    }
  }

  lemma AsciiIsUtf8(s: seq<byte>)
    requires forall k :: 0 <= k < |s| ==> s[k] < 0x80
    ensures IsUtf8(s)
  {
    var marks := seq(|s| + 1, k requires 0 <= k <= |s| => k);
    forall i | 0 < i < |marks| ensures OneCharacter(s, marks[i - 1], marks[i]) {
      assert s[i - 1..][0] == s[i - 1];
    }
    assert Characters(s, marks);
  }

  // ---- ASCII case ----

  function LowerByte(b: byte): byte {
    if 0x41 <= b <= 0x5A then b + 32 else b
  }

  function Lower(s: seq<byte>): (r: seq<byte>)
    ensures |r| == |s| && forall k :: 0 <= k < |s| ==> r[k] == LowerByte(s[k])
  {
    seq(|s|, k requires 0 <= k < |s| => LowerByte(s[k]))
  }

  /** A letter and its counterpart of the other case. */
  ghost predicate CasePair(a: byte, b: byte) {
    (0x41 <= a <= 0x5A && b == a + 32) || (0x41 <= b <= 0x5A && a == b + 32)
  }

  ghost predicate SameButCase(s: seq<byte>, t: seq<byte>) {
    |s| == |t| && forall k :: 0 <= k < |s| ==> s[k] == t[k] || CasePair(s[k], t[k])
  }

  /** Lowering forgets the case of letters and nothing else. */
  lemma LowerExactly(s: seq<byte>, t: seq<byte>)
    ensures Lower(s) == Lower(t) <==> SameButCase(s, t)
  {
    if Lower(s) == Lower(t) {
      forall k | 0 <= k < |s| ensures s[k] == t[k] || CasePair(s[k], t[k]) {
        assert Lower(s)[k] == Lower(t)[k];
      }
    }
  }

  lemma LowerConcat(s: seq<byte>, t: seq<byte>)
    ensures Lower(s + t) == Lower(s) + Lower(t)
  {
  }
}
