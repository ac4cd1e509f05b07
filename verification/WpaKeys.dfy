/** WPA2 key derivation and integrity codes over an uninterpreted HMAC-SHA1. */
module WpaKeys {
  import opened Bytes
  import opened Eapol
  import opened Text

  const ZERO_TAG: seq<byte> := [0, 0, 0, 0, 0, 0, 0, 0, 0, 0, 0, 0, 0, 0, 0, 0, 0, 0, 0, 0]
  const ZERO_MAC: seq<byte> := [0, 0, 0, 0, 0, 0]
  // "Pairwise key expansion"
  const LABEL: seq<byte> := [80, 97, 105, 114, 119, 105, 115, 101, 32, 107, 101, 121, 32, 101, 120, 112, 97, 110, 115, 105, 111, 110]

  type Tag = s: seq<byte> | |s| == 20 witness ZERO_TAG
  type Hmac = (seq<byte>, seq<byte>) -> Tag
  function Mac(hmac: Hmac, key: seq<byte>, message: seq<byte>): Tag {
    hmac(key, message)
  }

  type Pmk = s: seq<byte> | |s| == 32 witness ZEROS_32
  type MacAddress = s: seq<byte> | |s| == 6 witness ZERO_MAC

  /** The pairwise transient key: confirmation, encryption and temporal parts. */
  datatype Ptk = Ptk(kck: Block, kek: Block, tk: Block)

  // ---- Pseudo-random function ----

  // The tags for counters 0, 1, ..., n - 1 laid end to end; the counter is one octet.
  ghost function Tags(hmac: Hmac, key: seq<byte>, input: seq<byte>, n: nat): (r: seq<byte>)
    ensures |r| == 20 * n
  {
    if n == 0 then [] else Tags(hmac, key, input, n - 1) + Mac(hmac, key, input + [(n - 1) % 256])
  }

  /** The first `len` octets of the unending run of tags. */
  ghost function Stream(hmac: Hmac, key: seq<byte>, input: seq<byte>, len: nat): (r: seq<byte>)
    ensures |r| == len
  {
    Tags(hmac, key, input, (len + 19) / 20)[..len]
  }

  // The inner copy loop: the first n octets of a tag, from `pos` on.
  method CopyTag(output: array<byte>, pos: nat, tag: Tag, n: nat)
    requires n <= 20 && pos + n <= output.Length
    modifies output
    ensures output[..pos + n] == old(output[..pos]) + tag[..n]
  {
    for j := 0 to n
      invariant output[..pos + j] == old(output[..pos]) + tag[..j]
    {
      output[pos + j] := tag[j];
    }
  }

  function Min(a: nat, b: nat): nat {
    if a <= b then a else b
  }

  // The output holds the first n tags, or as much of them as there is room for.
  ghost predicate Filled(hmac: Hmac, key: seq<byte>, input: seq<byte>, n: nat, output: seq<byte>) {
    var m := Min(20 * n, |output|);
    output[..m] == Tags(hmac, key, input, n)[..m]
  }

  lemma OneMoreTag(hmac: Hmac, key: seq<byte>, input: seq<byte>, n: nat, before: seq<byte>, after: seq<byte>)
    requires |before| == |after| && 20 * n < |before| && Filled(hmac, key, input, n, before)
    requires var m := Min(20, |before| - 20 * n);
             after[..20 * n + m] == before[..20 * n] + Mac(hmac, key, input + [n % 256])[..m]
    ensures Filled(hmac, key, input, n + 1, after)
  {
    var tag, m := Mac(hmac, key, input + [n % 256]), Min(20, |before| - 20 * n);
    var tags := Tags(hmac, key, input, n);
    assert tags[..20 * n] == tags;
    assert (tags + tag)[..20 * n + m] == tags + tag[..m];
  }

  lemma FilledToTheEnd(hmac: Hmac, key: seq<byte>, input: seq<byte>, n: nat, output: seq<byte>)
    requires Filled(hmac, key, input, n, output) && 20 * n - 20 < |output| <= 20 * n
    ensures output == Stream(hmac, key, input, |output|)
  {
    assert (|output| + 19) / 20 == n;
    assert output[..|output|] == output;
  }

  // One round of the loop: the tag for this counter, or as much of it as there is room for.
  method FillTag(
    hmac: Hmac, key: seq<byte>, input: seq<byte>, output: array<byte>, pos: nat, counter: nat, ghost round: nat)
    returns (copyLen: nat)
    requires counter == round % 256 && pos == 20 * round < output.Length && Filled(hmac, key, input, round, output[..])
    modifies output
    ensures copyLen == Min(output.Length - pos, 20) && Filled(hmac, key, input, round + 1, output[..])
  {
    ghost var before := output[..];
    var tag := Mac(hmac, key, input + [counter]);
    copyLen := Min(output.Length - pos, |tag|);
    CopyTag(output, pos, tag, copyLen);
    assert before[..pos] == before[..20 * round];
    OneMoreTag(hmac, key, input, round, before, output[..]);
  }

  method Prf(hmac: Hmac, key: seq<byte>, input: seq<byte>, output: array<byte>)
    modifies output
    ensures output[..] == Stream(hmac, key, input, output.Length)
  {
    var outLen := output.Length;
    var pos, counter: nat := 0, 0;
    ghost var round := 0;
    while pos < outLen
      invariant counter == round % 256
      invariant pos == Min(20 * round, outLen) && 20 * round - 20 < outLen
      invariant Filled(hmac, key, input, round, output[..])
    {
      var copyLen := FillTag(hmac, key, input, output, pos, counter, round);
      pos := pos + copyLen;
      counter := (counter + 1) % 256;
      round := round + 1;
    }
    FilledToTheEnd(hmac, key, input, round, output[..]);
  }

  // The construction as section 12.7.1.2 of IEEE 802.11-2020 writes it.
  ghost function Prf384Spec(hmac: Hmac, key: seq<byte>, purpose: seq<byte>, data: seq<byte>): (r: seq<byte>)
    ensures |r| == 48
  {
    var input := purpose + [0] + data;
    (Mac(hmac, key, input + [0]) + Mac(hmac, key, input + [1]) + Mac(hmac, key, input + [2]))[..48]
  }

  method Prf384(hmac: Hmac, key: seq<byte>, purpose: seq<byte>, data: seq<byte>) returns (r: seq<byte>)
    ensures r == Prf384Spec(hmac, key, purpose, data)
  {
    var output := new byte[48];
    var input := purpose + [0] + data;
    Prf(hmac, key, input, output);
    r := output[..];
    ThreeTags(hmac, key, input, 3);
  }

  lemma ThreeTags(hmac: Hmac, key: seq<byte>, input: seq<byte>, n: nat)
    requires n == 3
    ensures Tags(hmac, key, input, n) == Mac(hmac, key, input + [0]) + Mac(hmac, key, input + [1]) + Mac(hmac, key, input + [2])
  {
    assert Tags(hmac, key, input, n - 3) == [];
    var first := Mac(hmac, key, input + [0]);
    assert Tags(hmac, key, input, n - 2) == [] + first == first;
  }

  // ---- Pairwise transient key ----

  /** Octet strings in dictionary order. */
  predicate LexLe(a: seq<byte>, b: seq<byte>) {
    if a == [] then true
    else if b == [] then false
    else a[0] < b[0] || (a[0] == b[0] && LexLe(a[1..], b[1..]))
  }

  lemma {:induction false} LexTotal(a: seq<byte>, b: seq<byte>)
    ensures LexLe(a, b) || LexLe(b, a)
  {
    if a != [] && b != [] {
      LexTotal(a[1..], b[1..]);
    }
  }

  lemma {:induction false} LexAntisymmetric(a: seq<byte>, b: seq<byte>)
    requires LexLe(a, b) && LexLe(b, a)
    ensures a == b
  {
    if a != [] {
      LexAntisymmetric(a[1..], b[1..]);
      assert a == [a[0]] + a[1..] && b == [b[0]] + b[1..];
    }
  }

  ghost function Ordered(x: seq<byte>, y: seq<byte>): seq<byte> {
    if LexLe(x, y) then x + y else y + x
  }

  ghost function PtkData(anonce: Nonce, snonce: Nonce, aa: MacAddress, spa: MacAddress): seq<byte> {
    Ordered(aa, spa) + Ordered(anonce, snonce)
  }

  ghost function PtkSpec(hmac: Hmac, pmk: Pmk, anonce: Nonce, snonce: Nonce, aa: MacAddress, spa: MacAddress): Ptk {
    var r := Prf384Spec(hmac, pmk, LABEL, PtkData(anonce, snonce, aa, spa));
    Ptk(r[..16], r[16..32], r[32..])
  }

  method DerivePtk(hmac: Hmac, pmk: Pmk, anonce: Nonce, snonce: Nonce, aa: MacAddress, spa: MacAddress) returns (r: Ptk)
    ensures r == PtkSpec(hmac, pmk, anonce, snonce, aa, spa)
  {
    var data: seq<byte>;
    if LexLe(aa, spa) {
      data := aa + spa;
    } else {
      data := spa + aa;
    }
    if LexLe(anonce, snonce) {
      data := data + (anonce + snonce);
    } else {
      data := data + (snonce + anonce);
    }
    var bytes := Prf384(hmac, pmk, LABEL, data);
    r := Ptk(bytes[0..16], bytes[16..32], bytes[32..48]);
  }

  /** Ordering forgets which of two equally long strings came first, and nothing else. */
  lemma OrderedExactly(x: seq<byte>, y: seq<byte>, u: seq<byte>, v: seq<byte>)
    requires |x| == |y| == |u| == |v|
    ensures Ordered(x, y) == Ordered(u, v) <==> (x == u && y == v) || (x == v && y == u)
  {
    LexTotal(x, y);
    if LexLe(x, y) && LexLe(y, x) {
      LexAntisymmetric(x, y);
    }
    if Ordered(x, y) == Ordered(u, v) {
      var n := |x|;
      assert Ordered(x, y)[..n] == Ordered(u, v)[..n] && Ordered(x, y)[n..] == Ordered(u, v)[n..];
      assert (x + y)[..n] == x && (x + y)[n..] == y && (y + x)[..n] == y && (y + x)[n..] == x;
      assert (u + v)[..n] == u && (u + v)[n..] == v && (v + u)[..n] == v && (v + u)[n..] == u;
    }
  }

  /** Both sides hash the same input whichever of them calls the other what, and the
      input determines the two addresses and the two nonces up to that. */
  lemma PtkDataExactly(a: Nonce, s: Nonce, aa: MacAddress, spa: MacAddress, a': Nonce, s': Nonce, aa': MacAddress, spa': MacAddress)
    ensures PtkData(a, s, aa, spa) == PtkData(a', s', aa', spa')
            <==> ((aa == aa' && spa == spa') || (aa == spa' && spa == aa'))
                 && ((a == a' && s == s') || (a == s' && s == a'))
  {
    OrderedExactly(aa, spa, aa', spa');
    OrderedExactly(a, s, a', s');
    var p, q := PtkData(a, s, aa, spa), PtkData(a', s', aa', spa');
    if p == q {
      assert Ordered(aa, spa) == p[..12] == q[..12] == Ordered(aa', spa');
      assert Ordered(a, s) == p[12..] == q[12..] == Ordered(a', s');
    }
  }

  lemma PtkAgreement(hmac: Hmac, pmk: Pmk, anonce: Nonce, snonce: Nonce, aa: MacAddress, spa: MacAddress)
    ensures PtkSpec(hmac, pmk, anonce, snonce, aa, spa) == PtkSpec(hmac, pmk, snonce, anonce, spa, aa)
  {
    PtkDataExactly(anonce, snonce, aa, spa, snonce, anonce, spa, aa);
  }

  // ---- What the key depends on ----

  /** Octet strings of one length in dictionary order are in order as numbers. */
  lemma {:induction false} LexLeIsNumeric(a: seq<byte>, b: seq<byte>)
    requires |a| == |b|
    ensures LexLe(a, b) <==> FromBigEndian(a) <= FromBigEndian(b)
  {
    if a != [] {
      LexLeIsNumeric(a[1..], b[1..]);
      LeadingOctet(a);
      LeadingOctet(b);
      LeadingDecides(a[0], FromBigEndian(a[1..]), b[0], FromBigEndian(b[1..]), Pow256(|a| - 1));
    }
  }

  lemma {:induction false} LeadingOctet(s: seq<byte>)
    requires s != []
    ensures FromBigEndian(s) == s[0] as nat * Pow256(|s| - 1) + FromBigEndian(s[1..])
  {
    var n := |s| - 1;
    if n > 0 {
      LeadingOctet(s[..n]);
      assert s[..n][1..] == s[1..][..n - 1];
      Distribute(s[0], Pow256(n - 1));
    }
  }

  lemma Distribute(x: nat, p: nat)
    ensures 256 * (x * p) == x * (256 * p)
  {
  }

  lemma LeadingDecides(x: nat, u: nat, y: nat, v: nat, p: nat)
    requires u < p && v < p
    ensures x * p + u <= y * p + v <==> x < y || (x == y && u <= v)
  {
    if x < y {
      AtLeastOneMore(x, y, p);
    } else if y < x {
      AtLeastOneMore(y, x, p);
    }
  }

  lemma {:induction false} AtLeastOneMore(x: nat, y: nat, p: nat)
    requires x < y
    ensures x * p + p <= y * p
    decreases y
  {
    if x + 1 < y {
      AtLeastOneMore(x, y - 1, p);
    }
  }

  // The pair in numeric order, the lesser first.
  ghost predicate Sorted(a: seq<byte>, b: seq<byte>, lesser: seq<byte>, greater: seq<byte>) {
    ((lesser == a && greater == b) || (lesser == b && greater == a)) && FromBigEndian(lesser) <= FromBigEndian(greater)
  }

  /** The key in full, on the code function alone: forty-eight octets of three codes, keyed
      with the pairwise master key, over the label, a zero octet, both addresses and both
      nonces with the lesser first, and the octets 0, 1 and 2. */
  lemma PtkInFull(
    hmac: Hmac, pmk: Pmk, anonce: Nonce, snonce: Nonce, aa: MacAddress, spa: MacAddress,
    x: MacAddress, y: MacAddress, u: Nonce, v: Nonce)
    requires Sorted(aa, spa, x, y) && Sorted(anonce, snonce, u, v)
    ensures var k := PtkSpec(hmac, pmk, anonce, snonce, aa, spa);
            var input := Ascii("Pairwise key expansion") + [0] + (x + y + (u + v));
            k.kck + k.kek + k.tk
            == (hmac(pmk, input + [0]) + hmac(pmk, input + [1]) + hmac(pmk, input + [2]))[..48]
  {
    OrderedBy(aa, spa, x, y);
    OrderedBy(anonce, snonce, u, v);
    var r := Prf384Spec(hmac, pmk, LABEL, PtkData(anonce, snonce, aa, spa));
    assert r[..16] + r[16..32] + r[32..] == r;
    LabelIsSpelt();
  }

  lemma LabelIsSpelt()
    ensures LABEL == Ascii("Pairwise key expansion")
  {
  }

  lemma OrderedBy(a: seq<byte>, b: seq<byte>, lesser: seq<byte>, greater: seq<byte>)
    requires |a| == |b| && Sorted(a, b, lesser, greater)
    ensures Ordered(a, b) == lesser + greater
  {
    LexLeIsNumeric(a, b);
    LexLeIsNumeric(b, a);
    if LexLe(a, b) && LexLe(b, a) {
      LexAntisymmetric(a, b);
    }
  }

  /** Everything a key is made from. */
  datatype PtkInputs = PtkInputs(pmk: Pmk, anonce: Nonce, snonce: Nonce, aa: MacAddress, spa: MacAddress)

  ghost function PtkOf(hmac: Hmac, i: PtkInputs): Ptk {
    PtkSpec(hmac, i.pmk, i.anonce, i.snonce, i.aa, i.spa)
  }

  ghost predicate SamePair<T>(a: T, b: T, c: T, d: T) {
    (a == c && b == d) || (a == d && b == c)
  }

  /** The same master key, and the same two addresses and two nonces, whoever they belong to. */
  ghost predicate SameInputs(i: PtkInputs, j: PtkInputs) {
    i.pmk == j.pmk && SamePair(i.aa, i.spa, j.aa, j.spa) && SamePair(i.anonce, i.snonce, j.anonce, j.snonce)
  }

  ghost function Repeated(b: byte): Tag {
    seq(20, _ => b)
  }

  // A code function that tells one key and message from all others.
  ghost function Marking(key: seq<byte>, message: seq<byte>): Hmac {
    (k: seq<byte>, m: seq<byte>) => Repeated(if k == key && m == message then 1 else 0)
  }

  /** Exactly these inputs decide the key: two of them give the same key under every code
      function if and only if they are the same up to the roles of the two sides. */
  lemma PtkDependsExactly(i: PtkInputs, j: PtkInputs)
    ensures (forall hmac: Hmac :: PtkOf(hmac, i) == PtkOf(hmac, j)) <==> SameInputs(i, j)
  {
    PtkDataExactly(i.anonce, i.snonce, i.aa, i.spa, j.anonce, j.snonce, j.aa, j.spa);
    if !SameInputs(i, j) {
      var hmac := PtkTellsApart(i, j);
      assert PtkOf(hmac, i) != PtkOf(hmac, j);
    }
  }

  ghost function FirstInput(i: PtkInputs): seq<byte> {
    LABEL + [0] + PtkData(i.anonce, i.snonce, i.aa, i.spa) + [0]
  }

  lemma PtkTellsApart(i: PtkInputs, j: PtkInputs) returns (hmac: Hmac)
    requires !SameInputs(i, j)
    ensures PtkOf(hmac, i) != PtkOf(hmac, j)
  {
    PtkDataExactly(i.anonce, i.snonce, i.aa, i.spa, j.anonce, j.snonce, j.aa, j.spa);
    hmac := Marking(i.pmk, FirstInput(i));
    var p, q := PtkData(i.anonce, i.snonce, i.aa, i.spa), PtkData(j.anonce, j.snonce, j.aa, j.spa);
    if FirstInput(i) == FirstInput(j) {
      BetweenEnds(LABEL + [0], p, [0]);
      BetweenEnds(LABEL + [0], q, [0]);
      assert p == q;
    }
    KckOf(hmac, i);
    KckOf(hmac, j);
    assert PtkOf(hmac, i).kck[0] == 1 && PtkOf(hmac, j).kck[0] == 0;
  }

  lemma BetweenEnds(a: seq<byte>, s: seq<byte>, b: seq<byte>)
    ensures (a + s + b)[|a|..|a + s + b| - |b|] == s
  {
  }

  lemma KckOf(hmac: Hmac, i: PtkInputs)
    ensures PtkOf(hmac, i).kck[0] == Mac(hmac, i.pmk, FirstInput(i))[0]
  {
  }

  /** Nor are the three parts the same octets: some code function keeps them pairwise apart. */
  lemma PartsDiffer(i: PtkInputs) returns (hmac: Hmac)
    ensures var k := PtkOf(hmac, i); k.kck != k.kek && k.kck != k.tk && k.kek != k.tk
  {
    hmac := (k: seq<byte>, m: seq<byte>) => Repeated(if m == [] then 0 else m[|m| - 1]);
    var input := LABEL + [0] + PtkData(i.anonce, i.snonce, i.aa, i.spa);
    var k := PtkOf(hmac, i);
    assert k.kck[15] == 0 && k.kek[15] == 1 && k.tk[15] == 2;
  }

  // ---- Integrity codes ----

  function ComputeMic(hmac: Hmac, kck: Block, data: seq<byte>): Block {
    Mac(hmac, kck, data)[..16]
  }

  function XorOctet(a: Octet, b: Octet): Octet {
    seq(8, x requires 0 <= x < 8 => a[x] != b[x])
  }

  lemma OrIsZero(a: Octet, b: Octet)
    ensures OrOctet(a, b) == ZERO_OCTET <==> a == ZERO_OCTET && b == ZERO_OCTET
  {
    if OrOctet(a, b) == ZERO_OCTET {
      forall x | 0 <= x < 8 ensures a[x] == ZERO_OCTET[x] && b[x] == ZERO_OCTET[x] {
        assert OrOctet(a, b)[x] == ZERO_OCTET[x];
      }
    }
  }

  lemma XorIsZero(x: byte, y: byte)
    ensures XorOctet(ToOctet(x), ToOctet(y)) == ZERO_OCTET <==> x == y
  {
    if XorOctet(ToOctet(x), ToOctet(y)) == ZERO_OCTET {
      forall i | 0 <= i < 8 ensures ToOctet(x)[i] == ToOctet(y)[i] {
        assert XorOctet(ToOctet(x), ToOctet(y))[i] == ZERO_OCTET[i];
      }
      assert ToOctet(x) == ToOctet(y);
      ToOctetInjective(x, y);
    }
  }

  /** Accumulates every difference before deciding, and decides equality. */
  method ConstantTimeEq(a: seq<byte>, b: seq<byte>) returns (same: bool)
    ensures same <==> a == b
  {
    if |a| != |b| {
      return false;
    }
    var diff: Octet := ZERO_OCTET;
    for i := 0 to |a|
      invariant diff == ZERO_OCTET <==> a[..i] == b[..i]
    {
      XorIsZero(a[i], b[i]);
      OrIsZero(diff, XorOctet(ToOctet(a[i]), ToOctet(b[i])));
      assert a[..i + 1] == a[..i] + [a[i]] && b[..i + 1] == b[..i] + [b[i]];
      diff := OrOctet(diff, XorOctet(ToOctet(a[i]), ToOctet(b[i])));
    }
    assert a[..|a|] == a && b[..|b|] == b;
    same := diff == ZERO_OCTET;
  }

  method VerifyMic(hmac: Hmac, kck: Block, data: seq<byte>, expected: Block) returns (valid: bool)
    ensures valid <==> expected == Mac(hmac, kck, data)[..16]
  {
    var computed := ComputeMic(hmac, kck, data);
    valid := ConstantTimeEq(computed, expected);
  }
}
