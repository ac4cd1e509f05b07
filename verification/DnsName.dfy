/** Query names: their labels, their wire form and their dotted form. */
module DnsName {
  import opened Wrappers
  import opened Bytes
  import opened Text

  const DNS_HEADER_LEN: nat := 12
  const MAX_LABELS: nat := 128

  type Name = seq<seq<byte>>

  // ---- Dotted form ----

  function Join(labels: Name): seq<byte> {
    if labels == [] then []
    else if |labels| == 1 then labels[0]
    else labels[0] + [DOT] + Join(labels[1..])
  }

  function LowerName(labels: Name): (r: Name)
    ensures |r| == |labels| && forall k :: 0 <= k < |labels| ==> r[k] == Lower(labels[k])
  {
    seq(|labels|, k requires 0 <= k < |labels| => Lower(labels[k]))
  }

  lemma {:induction false} LowerJoin(labels: Name)
    ensures Lower(Join(labels)) == Join(LowerName(labels))
    decreases |labels|
  {
    if |labels| > 1 {
      LowerJoin(labels[1..]);
      assert LowerName(labels)[1..] == LowerName(labels[1..]);
      LowerConcat(labels[0] + [DOT], Join(labels[1..]));
      LowerConcat(labels[0], [DOT]);
      assert Lower([DOT]) == [DOT];
    }
  }

  lemma {:induction false} JoinSnoc(labels: Name, last: seq<byte>)
    requires labels != []
    ensures Join(labels + [last]) == Join(labels) + [DOT] + last
    decreases |labels|
  {
    assert (labels + [last])[1..] == labels[1..] + [last];
    if |labels| > 1 {
      JoinSnoc(labels[1..], last);
    }
  }

  // ---- Wire form ----

  ghost predicate GoodLabel(l: seq<byte>) {
    0 < |l| < 192 && IsUtf8(l)
  }

  datatype Piece = Root | Bad | Label(octets: seq<byte>)

  /** What the octets at `pos` are, when `budget` more labels are allowed. */
  ghost function PieceAt(data: seq<byte>, pos: nat, budget: nat): (r: Piece)
    ensures r.Label? ==> r.octets != [] && pos + 1 + |r.octets| <= |data|
  {
    if pos >= |data| then Bad
    else
      var len := data[pos] as nat;
      if len == 0 then Root
      else if len >= 192 || budget == 0 || pos + 1 + len > |data| then Bad
      else
        var l := data[pos + 1..pos + 1 + len];
        if IsUtf8(l) then Label(l) else Bad
  }

  /** The labels from `pos` up to the root label, if there are at most `budget`. */
  ghost function Labels(data: seq<byte>, pos: nat, budget: nat): Option<Name>
    decreases |data| - pos
  {
    match PieceAt(data, pos, budget)
    case Root => Some([])
    case Bad => None
    case Label(l) =>
      if budget == 0 then None
      else Prefixed([l], Labels(data, pos + 1 + |l|, budget - 1))
  }

  ghost function Prefixed(labels: Name, r: Option<Name>): Option<Name> {
    match r
    case None => None
    case Some(rest) => Some(labels + rest)
  }

  ghost predicate GoodName(labels: Name) {
    forall k :: 0 <= k < |labels| ==> GoodLabel(labels[k])
  }

  // A label behind its length octet.
  ghost function WireLabel(l: seq<byte>): (r: seq<byte>)
    requires GoodLabel(l)
    ensures |r| == 1 + |l|
  {
    var len: byte := |l|;
    [len] + l
  }

  // A name laid out label by label and closed by the root label: section 4.1.2 of RFC 1035.
  ghost function Wire(labels: Name): seq<byte>
    requires GoodName(labels)
  {
    if labels == [] then [0] else WireLabel(labels[0]) + Wire(labels[1..])
  }

  // The same, read off the octets.
  ghost predicate LaidOut(data: seq<byte>, pos: nat, ls: Name)
    decreases |ls|
  {
    if ls == [] then pos < |data| && data[pos] == 0
    else WireLabelAt(data, pos, ls[0]) && LaidOut(data, pos + 1 + |ls[0]|, ls[1..])
  }

  // The octets at `pos` begin with the wire form of ls.
  ghost predicate OnWire(data: seq<byte>, pos: nat, ls: Name)
    requires pos <= |data|
  {
    GoodName(ls) && Wire(ls) <= data[pos..]
  }

  lemma {:induction false} LaidOutIsWire(data: seq<byte>, pos: nat, ls: Name)
    requires pos <= |data|
    ensures LaidOut(data, pos, ls) <==> OnWire(data, pos, ls)
    decreases |ls|
  {
    if ls == [] {
      RootOnWire(data, pos, ls);
    } else {
      WireCons(data, pos, ls);
      if WireLabelAt(data, pos, ls[0]) {
        LaidOutIsWire(data, pos + 1 + |ls[0]|, ls[1..]);
      }
    }
  }

  lemma RootOnWire(data: seq<byte>, pos: nat, ls: Name)
    requires pos <= |data| && ls == []
    ensures OnWire(data, pos, ls) <==> pos < |data| && data[pos] == 0
  {
    if pos < |data| {
      assert data[pos..][0] == data[pos];
    }
  }

  lemma {:induction false} LabelsAreLaidOut(data: seq<byte>, pos: nat, budget: nat, ls: Name)
    ensures Labels(data, pos, budget) == Some(ls) <==> LaidOut(data, pos, ls) && |ls| <= budget
    decreases |ls|
  {
    if ls != [] && pos < |data| {
      LabelsCons(data, pos, budget, ls);
      if WireLabelAt(data, pos, ls[0]) && budget > 0 {
        LabelsAreLaidOut(data, pos + 1 + |ls[0]|, budget - 1, ls[1..]);
      }
    }
  }

  /** Reading recovers exactly what was laid out: the labels found are ls exactly when
      the octets begin with the wire form of ls and ls is within the budget. */
  lemma LabelsExactly(data: seq<byte>, pos: nat, budget: nat, ls: Name)
    requires pos <= |data|
    ensures Labels(data, pos, budget) == Some(ls) <==> GoodName(ls) && |ls| <= budget && Wire(ls) <= data[pos..]
  {
    LaidOutIsWire(data, pos, ls);
    LabelsAreLaidOut(data, pos, budget, ls);
  }

  lemma LabelsCons(data: seq<byte>, pos: nat, budget: nat, ls: Name)
    requires pos < |data| && ls != []
    ensures Labels(data, pos, budget) == Some(ls)
            <==> budget > 0 && WireLabelAt(data, pos, ls[0]) && Labels(data, pos + 1 + |ls[0]|, budget - 1) == Some(ls[1..])
  {
    ConsName(ls);
  }

  lemma WireCons(data: seq<byte>, pos: nat, ls: Name)
    requires pos <= |data| && ls != []
    ensures OnWire(data, pos, ls)
            <==> WireLabelAt(data, pos, ls[0]) && OnWire(data, pos + 1 + |ls[0]|, ls[1..])
  {
    ConsName(ls);
    if GoodName(ls) {
      LabelInPlace(data, pos, ls[0]);
      PrefixSplit(WireLabel(ls[0]), Wire(ls[1..]), data[pos..]);
      if WireLabelAt(data, pos, ls[0]) {
        assert data[pos..][1 + |ls[0]|..] == data[pos + 1 + |ls[0]|..];
      }
    }
  }

  lemma ConsName(ls: Name)
    requires ls != []
    ensures GoodName(ls) <==> GoodLabel(ls[0]) && GoodName(ls[1..])
    ensures ls == [ls[0]] + ls[1..]
  {
    assert forall k :: 1 <= k < |ls| ==> ls[k] == ls[1..][k - 1];
  }

  ghost predicate WireLabelAt(data: seq<byte>, pos: nat, l: seq<byte>) {
    GoodLabel(l) && pos + 1 + |l| <= |data| && data[pos] == |l| && data[pos + 1..pos + 1 + |l|] == l
  }

  lemma LabelInPlace(data: seq<byte>, pos: nat, l: seq<byte>)
    requires pos <= |data| && GoodLabel(l)
    ensures WireLabel(l) <= data[pos..] <==> WireLabelAt(data, pos, l)
  {
    var s, n := data[pos..], 1 + |l|;
    if WireLabel(l) <= s {
      assert data[pos] == s[0] == WireLabel(l)[0];
      forall k | 0 <= k < |l| ensures data[pos + 1 + k] == l[k] {
        assert s[1 + k] == WireLabel(l)[1 + k];
      }
    }
    if WireLabelAt(data, pos, l) {
      forall k | 0 <= k < n ensures s[k] == WireLabel(l)[k] {
        assert k > 0 ==> data[pos + 1..pos + n][k - 1] == data[pos + k];
      }
      assert s[..n] == WireLabel(l);
    }
  }

  lemma PrefixSplit(h: seq<byte>, t: seq<byte>, s: seq<byte>)
    ensures h + t <= s <==> h <= s && t <= s[|h|..]
  {
    if h + t <= s {
      assert s[..|h|] == (h + t)[..|h|] == h;
      assert s[|h|..][..|t|] == s[..|h + t|][|h|..] == t;
    }
    if h <= s && t <= s[|h|..] {
      assert s == s[..|h|] + s[|h|..] == h + s[|h|..];
      assert s[..|h + t|] == h + s[|h|..][..|t|];
    }
  }

  // ---- Extraction ----

  ghost function QueryName(data: seq<byte>): Option<seq<byte>> {
    if |data| < DNS_HEADER_LEN || (data[4] == 0 && data[5] == 0) then None
    else match Labels(data, DNS_HEADER_LEN, MAX_LABELS)
      case None => None
      case Some(ls) => if ls == [] then None else Some(Lower(Join(ls)))
  }

  // What has been decoded so far: the domain text of these labels.
  ghost predicate Spells(labels: Name, domain: seq<byte>) {
    domain == Lower(Join(labels)) && (domain == [] <==> labels == [])
  }

  lemma ReadLabel(labels: Name, data: seq<byte>, pos: nat, budget: nat, l: seq<byte>)
    requires PieceAt(data, pos, budget) == Label(l)
    ensures budget > 0
    ensures Prefixed(labels, Labels(data, pos, budget)) == Prefixed(labels + [l], Labels(data, pos + 1 + |l|, budget - 1))
  {
    var rest := Labels(data, pos + 1 + |l|, budget - 1);
    assert Labels(data, pos, budget) == Prefixed([l], rest);
    assert rest.Some? ==> labels + ([l] + rest.value) == (labels + [l]) + rest.value;
  }

  method Append(domain: seq<byte>, l: seq<byte>, ghost labels: Name) returns (r: seq<byte>)
    requires Spells(labels, domain) && l != []
    ensures Spells(labels + [l], r)
  {
    r := domain;
    if r != [] {
      r := r + [DOT];
    }
    r := r + Lower(l);
    DomainGrows(labels, l);
  }

  /** The first question's name in lower case, or none if it cannot be decoded. */
  method ExtractQueryDomain(data: seq<byte>) returns (r: Option<seq<byte>>)
    ensures r == QueryName(data)
  {
    if |data| < DNS_HEADER_LEN {
      return None;
    }
    if 256 * data[4] as nat + data[5] as nat == 0 {
      return None;
    }
    var domain := ReadName(data);
    if domain.None? || domain.value == [] {
      return None;
    }
    r := domain;
  }

  // One pass of the label loop: the label at `pos`, the root, or a fault.
  method ReadPiece(data: seq<byte>, pos: nat, budget: nat) returns (r: Piece)
    ensures r == PieceAt(data, pos, budget)
  {
    if pos >= |data| {
      return Bad;
    }
    var len := data[pos] as nat;
    if len == 0 {
      return Root;
    }
    if len >= 192 || budget == 0 || pos + 1 + len > |data| {
      return Bad;
    }
    var l := data[pos + 1..pos + 1 + len];
    var valid := CheckUtf8(l);
    r := if valid then Label(l) else Bad;
  }

  // The label loop.
  method ReadName(data: seq<byte>) returns (r: Option<seq<byte>>)
    requires |data| >= DNS_HEADER_LEN
    ensures var ls := Labels(data, DNS_HEADER_LEN, MAX_LABELS);
            if ls.None? then r == None else r.Some? && Spells(ls.value, r.value)
  {
    var pos, domain, count := DNS_HEADER_LEN, [], 0;
    ghost var labels: Name := [];
    ghost var all := Labels(data, DNS_HEADER_LEN, MAX_LABELS);
    assert all.Some? ==> [] + all.value == all.value;
    while true
      invariant DNS_HEADER_LEN <= pos <= |data| && count == |labels| <= MAX_LABELS
      invariant all == Prefixed(labels, Labels(data, pos, MAX_LABELS - count))
      invariant Spells(labels, domain)
      decreases |data| - pos
    {
      var piece := ReadPiece(data, pos, MAX_LABELS - count);
      match piece {
        case Root =>
          assert labels + [] == labels;
          return Some(domain);
        case Bad => return None;
        case Label(l) =>
          ReadLabel(labels, data, pos, MAX_LABELS - count, l);
          domain := Append(domain, l, labels);
          labels := labels + [l];
          count := count + 1;
          pos := pos + 1 + |l|;
      }
    }
  }

  lemma DomainGrows(labels: Name, l: seq<byte>)
    ensures Lower(Join(labels + [l]))
            == if labels == [] then Lower(l) else Lower(Join(labels)) + [DOT] + Lower(l)
  {
    if labels == [] {
      assert labels + [l] == [l];
    } else {
      JoinSnoc(labels, l);
      LowerConcat(Join(labels) + [DOT], l);
      LowerConcat(Join(labels), [DOT]);
      assert Lower([DOT]) == [DOT];
    }
  }
}
