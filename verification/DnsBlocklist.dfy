/** Suffix matching on domain text, its meaning on labels, and the blocklist. */
module DnsBlocklist {
  import opened Bytes
  import opened Text
  import opened DnsName

  // ---- Suffix matching on text ----

  predicate EndsWith(s: seq<byte>, t: seq<byte>) {
    |t| <= |s| && s[|s| - |t|..] == t
  }

  lemma EndsWithDot(s: seq<byte>)
    ensures EndsWith(s, [DOT]) <==> s != [] && s[|s| - 1] == DOT
  {
    if s != [] {
      assert s[|s| - 1..] == [s[|s| - 1]];
    }
  }

  /** The domain is the suffix, or ends with it just behind a dot. */
  predicate Matches(domain: seq<byte>, suffix: seq<byte>) {
    || domain == suffix
    || (EndsWith(domain, suffix) && EndsWith(domain[..|domain| - |suffix|], [DOT]))
  }

  function Normalize(entry: seq<byte>): seq<byte> {
    if [0x2A, DOT] <= entry then entry[2..] else entry
  }

  // ---- Labels ----

  /** The pieces between the dots; empty pieces are kept. */
  ghost function Split(s: seq<byte>): (r: Name)
    ensures r != []
  {
    if s == [] then [[]] else SplitCons(s[0], Split(s[1..]))
  }

  // A dot begins a new piece; any other octet joins the first one.
  ghost function SplitCons(c: byte, rest: Name): (r: Name)
    requires rest != []
    ensures r != []
  {
    if c == DOT then [[]] + rest else [[c] + rest[0]] + rest[1..]
  }

  lemma SplitConsConcat(c: byte, r: Name, t: Name)
    requires r != []
    ensures SplitCons(c, r + t) == SplitCons(c, r) + t
  {
    assert (r + t)[1..] == r[1..] + t;
  }

  lemma {:induction false} SplitConcat(s: seq<byte>, t: seq<byte>)
    ensures Split(s + [DOT] + t) == Split(s) + Split(t)
  {
    var all := s + [DOT] + t;
    if s == [] {
      assert all[1..] == t;
    } else {
      SplitConcat(s[1..], t);
      assert all[1..] == s[1..] + [DOT] + t;
      SplitConsConcat(s[0], Split(s[1..]), Split(t));
    }
  }

  ghost predicate DotFree(l: seq<byte>) {
    DOT !in l
  }

  ghost predicate PlainName(labels: Name) {
    labels != [] && forall k :: 0 <= k < |labels| ==> labels[k] != [] && DotFree(labels[k])
  }

  lemma {:induction false} SplitHead(l: seq<byte>)
    requires DotFree(l)
    ensures Split(l) == [l]
  {
    if l != [] {
      assert l[0] in l && forall b :: b in l[1..] ==> b in l;
      SplitHead(l[1..]);
      assert [l[0]] + l[1..] == l;
    }
  }

  lemma {:induction false} SplitJoin(labels: Name)
    requires labels != [] && forall k :: 0 <= k < |labels| ==> DotFree(labels[k])
    ensures Split(Join(labels)) == labels
    decreases |labels|
  {
    if |labels| == 1 {
      SplitHead(labels[0]);
    } else {
      SplitJoin(labels[1..]);
      SplitHead(labels[0]);
      SplitConcat(labels[0], Join(labels[1..]));
    }
  }

  lemma {:induction false} JoinSplit(s: seq<byte>)
    ensures Join(Split(s)) == s
  {
    if s != [] {
      JoinSplit(s[1..]);
      var rest := Split(s[1..]);
      if s[0] == DOT {
        assert ([[]] + rest)[1..] == rest;
        assert [] + [DOT] + s[1..] == s;
      } else {
        var r := [[s[0]] + rest[0]] + rest[1..];
        assert r[1..] == rest[1..];
        if |rest| > 1 {
          assert [s[0]] + rest[0] + [DOT] + Join(rest[1..]) == [s[0]] + (rest[0] + [DOT] + Join(rest[1..]));
        }
        assert s == [s[0]] + s[1..];
      }
    }
  }

  // ---- What matching means ----

  ghost predicate LabelSuffix(labels: Name, of: Name) {
    |labels| <= |of| && of[|of| - |labels|..] == labels
  }

  lemma LabelSuffixCons(labels: Name, of: Name)
    requires of != []
    ensures LabelSuffix(labels, of) <==> labels == of || LabelSuffix(labels, of[1..])
  {
    if |labels| < |of| {
      assert of[1..][|of| - 1 - |labels|..] == of[|of| - |labels|..];
    }
  }

  // A match below the first label is a match of what follows it.
  lemma MatchesCons(l: seq<byte>, rest: seq<byte>, suffix: seq<byte>)
    requires DotFree(l)
    ensures var domain := l + [DOT] + rest;
            Matches(domain, suffix) <==> domain == suffix || Matches(rest, suffix)
  {
    var domain := l + [DOT] + rest;
    if Matches(rest, suffix) {
      MatchesBelow(l, rest, suffix);
    }
    if Matches(domain, suffix) && domain != suffix {
      MatchedBelow(l, rest, suffix);
    }
  }

  // A dot at the cut, seen from the whole.
  lemma DotAtCut(s: seq<byte>, cut: nat)
    requires 0 < cut <= |s|
    ensures EndsWith(s[..cut], [DOT]) <==> s[cut - 1] == DOT
  {
    EndsWithDot(s[..cut]);
  }

  lemma MatchesBelow(l: seq<byte>, rest: seq<byte>, suffix: seq<byte>)
    requires Matches(rest, suffix)
    ensures Matches(l + [DOT] + rest, suffix)
  {
    var domain := l + [DOT] + rest;
    var cut := |domain| - |suffix|;
    assert domain[cut..] == rest[|rest| - |suffix|..];
    if rest == suffix {
      assert domain[cut - 1] == DOT;
    } else {
      EndsWithDot(rest[..|rest| - |suffix|]);
      DotAtCut(rest, |rest| - |suffix|);
      assert domain[cut - 1] == rest[|rest| - |suffix| - 1];
    }
    DotAtCut(domain, cut);
  }

  lemma MatchedBelow(l: seq<byte>, rest: seq<byte>, suffix: seq<byte>)
    requires DotFree(l) && Matches(l + [DOT] + rest, suffix) && l + [DOT] + rest != suffix
    ensures Matches(rest, suffix)
  {
    var domain := l + [DOT] + rest;
    var cut := |domain| - |suffix|;
    assert forall i :: 0 <= i < |l| ==> domain[i] == l[i] && l[i] in l;
    EndsWithDot(domain[..cut]);
    DotAtCut(domain, cut);
    var c := cut - |l| - 1;
    assert rest[c..] == domain[cut..];
    if c > 0 {
      assert rest[c - 1] == domain[cut - 1];
      DotAtCut(rest, c);
    }
  }

  // The pieces of a text hold no dots.
  lemma {:induction false} PiecesAreDotFree(s: seq<byte>)
    ensures forall k :: 0 <= k < |Split(s)| ==> DotFree(Split(s)[k])
  {
    if s != [] {
      PiecesAreDotFree(s[1..]);
    }
  }

  /** Matching text is being in the subtree, for every text: a domain matches a pattern
      exactly when the pattern's pieces are the last pieces of the domain. */
  lemma MatchesExactly(domain: seq<byte>, pattern: seq<byte>)
    ensures Matches(domain, pattern) <==> LabelSuffix(Split(pattern), Split(domain))
  {
    PiecesAreDotFree(domain);
    JoinSplit(domain);
    LabelsMatchExactly(Split(domain), pattern);
  }

  lemma {:induction false} LabelsMatchExactly(labels: Name, pattern: seq<byte>)
    requires labels != [] && forall k :: 0 <= k < |labels| ==> DotFree(labels[k])
    ensures Matches(Join(labels), pattern) <==> LabelSuffix(Split(pattern), labels)
    decreases |labels|
  {
    SplitJoin(labels);
    JoinSplit(pattern);
    assert Join(labels) == pattern <==> labels == Split(pattern);
    LabelSuffixCons(Split(pattern), labels);
    if |labels| == 1 {
      MatchesOne(labels[0], pattern);
    } else {
      LabelsMatchExactly(labels[1..], pattern);
      MatchesCons(labels[0], Join(labels[1..]), pattern);
    }
  }

  lemma MatchesOne(l: seq<byte>, pattern: seq<byte>)
    requires DotFree(l)
    ensures Matches(l, pattern) <==> l == pattern
  {
    if |pattern| < |l| {
      var rest := l[..|l| - |pattern|];
      assert rest[|rest| - 1] == l[|rest| - 1];
      assert l[|rest| - 1] in l;
      EndsWithDot(rest);
    }
  }

  // ---- The blocklist ----

  function PatternOf(entry: seq<byte>): seq<byte> {
    Lower(Normalize(entry))
  }

  predicate Blocked(patterns: seq<seq<byte>>, lowered: seq<byte>) {
    exists k :: 0 <= k < |patterns| && Matches(lowered, patterns[k])
  }

  /** Suffixes in lower case. */
  class Blocklist {
    var patterns: seq<seq<byte>>

    constructor ()
      ensures patterns == []
    {
      patterns := [];
    }

    method Add(entry: seq<byte>)
      modifies this
      ensures patterns == old(patterns) + [PatternOf(entry)]
      ensures forall entries :: old(patterns) == PatternsOf(entries) ==> patterns == PatternsOf(entries + [entry])
    {
      patterns := patterns + [Lower(Normalize(entry))];
    }

    method IsBlocked(domain: seq<byte>) returns (r: bool)
      ensures r == Blocked(patterns, Lower(domain))
    {
      var lower := Lower(domain);
      r := IsBlockedLowercased(patterns, lower);
    }
  }

  method IsBlockedLowercased(patterns: seq<seq<byte>>, lowered: seq<byte>) returns (r: bool)
    ensures r == Blocked(patterns, lowered)
  {
    for i := 0 to |patterns|
      invariant forall k :: 0 <= k < i ==> !Matches(lowered, patterns[k])
    {
      if Matches(lowered, patterns[i]) {
        return true;
      }
    }
    r := false;
  }

  ghost predicate PayloadBlocked(patterns: seq<seq<byte>>, data: seq<byte>) {
    QueryName(data).None? || Blocked(patterns, QueryName(data).value)
  }

  /** An undecodable query is blocked. */
  method BlocksDnsPayload(patterns: seq<seq<byte>>, data: seq<byte>) returns (r: bool)
    ensures r == PayloadBlocked(patterns, data)
  {
    var domain := ExtractQueryDomain(data);
    if domain.None? {
      return true;
    }
    r := IsBlockedLowercased(patterns, domain.value);
  }

  /** The patterns of a list built by adding these entries in order. */
  ghost function PatternsOf(entries: seq<seq<byte>>): (r: seq<seq<byte>>)
    ensures |r| == |entries| && forall k :: 0 <= k < |r| ==> r[k] == PatternOf(entries[k])
  {
    seq(|entries|, k requires 0 <= k < |entries| => PatternOf(entries[k]))
  }

  /** Some entry, without a leading "*.", names the queried name or a parent of it,
      whatever the case of either. */
  ghost predicate Covered(entries: seq<seq<byte>>, labels: Name) {
    exists k :: 0 <= k < |entries| && Covers(entries[k], labels)
  }

  ghost predicate Covers(entry: seq<byte>, labels: Name) {
    LabelSuffix(LowerName(Split(Normalize(entry))), LowerName(labels))
  }

  lemma LowerSplitCons(c: byte, rest: Name)
    requires rest != []
    ensures LowerName(SplitCons(c, rest)) == SplitCons(LowerByte(c), LowerName(rest))
  {
    if c == DOT {
      assert LowerName([[]] + rest) == [[]] + LowerName(rest);
    } else {
      LowerConcat([c], rest[0]);
      assert Lower([c]) == [LowerByte(c)];
      assert LowerName([[c] + rest[0]] + rest[1..]) == [Lower([c] + rest[0])] + LowerName(rest)[1..];
    }
  }

  lemma {:induction false} SplitLower(s: seq<byte>)
    ensures Split(Lower(s)) == LowerName(Split(s))
  {
    if s == [] {
      assert Lower(s) == [];
      assert LowerName([[]]) == [[]];
    } else {
      SplitLower(s[1..]);
      assert Lower(s)[1..] == Lower(s[1..]);
      LowerSplitCons(s[0], Split(s[1..]));
    }
  }

  /** The labels as the dotted form shows them: cut again at any dots inside them. */
  ghost function Pieces(labels: Name): Name {
    Split(Join(labels))
  }

  lemma EntryMatchesExactly(entry: seq<byte>, domain: seq<byte>)
    ensures Matches(Lower(domain), PatternOf(entry)) <==> Covers(entry, Split(domain))
  {
    MatchesExactly(Lower(domain), PatternOf(entry));
    SplitLower(domain);
    SplitLower(Normalize(entry));
  }

  /** A name is blocked exactly when an entry covers its pieces, which are its labels if
      they hold no dots. */
  lemma BlockedExactly(entries: seq<seq<byte>>, labels: Name)
    ensures Blocked(PatternsOf(entries), Lower(Join(labels))) <==> Covered(entries, Pieces(labels))
    ensures labels != [] && (forall k :: 0 <= k < |labels| ==> DotFree(labels[k])) ==> Pieces(labels) == labels
  {
    var d := Join(labels);
    forall k | 0 <= k < |entries|
      ensures Matches(Lower(d), PatternsOf(entries)[k]) <==> Covers(entries[k], Pieces(labels))
    {
      EntryMatchesExactly(entries[k], d);
    }
    if Covered(entries, Pieces(labels)) {
      var k :| 0 <= k < |entries| && Covers(entries[k], Pieces(labels));
      assert Matches(Lower(d), PatternsOf(entries)[k]);
    }
    if labels != [] && forall k :: 0 <= k < |labels| ==> DotFree(labels[k]) {
      SplitJoin(labels);
    }
  }

  // ---- Case and the leading star ----

  lemma NormalizeKeepsCase(s: seq<byte>, t: seq<byte>)
    requires SameButCase(s, t)
    ensures SameButCase(Normalize(s), Normalize(t))
  {
    if |s| >= 2 {
      assert [0x2A, DOT] <= s <==> s[0] == 0x2A && s[1] == DOT;
      assert [0x2A, DOT] <= t <==> t[0] == 0x2A && t[1] == DOT;
    }
  }

  /** Exchanging letters for their counterparts, in the entries or in the name, changes no
      verdict. */
  lemma CaseDoesNotMatter(entries: seq<seq<byte>>, others: seq<seq<byte>>, name: seq<byte>, other: seq<byte>)
    requires |entries| == |others| && forall k :: 0 <= k < |entries| ==> SameButCase(entries[k], others[k])
    requires SameButCase(name, other)
    ensures Blocked(PatternsOf(entries), Lower(name)) <==> Blocked(PatternsOf(others), Lower(other))
  {
    forall k | 0 <= k < |entries| ensures PatternOf(entries[k]) == PatternOf(others[k]) {
      NormalizeKeepsCase(entries[k], others[k]);
      LowerExactly(Normalize(entries[k]), Normalize(others[k]));
    }
    assert PatternsOf(entries) == PatternsOf(others);
    LowerExactly(name, other);
  }

  /** "*." before an entry makes no difference, unless the entry already begins with it:
      one is taken off, no more. */
  lemma StarIsOptionalExactly(entry: seq<byte>)
    ensures PatternOf([0x2A, DOT] + entry) == PatternOf(entry) <==> !([0x2A, DOT] <= entry)
    ensures PatternOf([0x2A, DOT] + entry) == Lower(entry)
  {
    assert ([0x2A, DOT] + entry)[2..] == entry;
    assert |Lower(entry)| == |entry|;
  }

  // The pieces of a name end with those of its last labels.
  lemma {:induction false} PiecesOfSuffix(labels: Name, i: nat)
    requires i < |labels|
    ensures LabelSuffix(Pieces(labels[i..]), Pieces(labels))
    decreases i
  {
    if i == 0 {
      assert labels[0..] == labels;
    } else {
      PiecesOfSuffix(labels[1..], i - 1);
      assert labels[1..][i - 1..] == labels[i..];
      SplitConcat(labels[0], Join(labels[1..]));
      SuffixOfConcat(Pieces(labels[i..]), Split(labels[0]), Pieces(labels[1..]));
    }
  }

  lemma SuffixOfConcat(s: Name, p: Name, q: Name)
    requires LabelSuffix(s, q)
    ensures LabelSuffix(s, p + q)
  {
    assert (p + q)[|p + q| - |s|..] == q[|q| - |s|..];
  }

  /** Dots inside labels evade nothing: whenever an entry's pieces are the last labels of
      a name, whatever octets those labels hold, the name is blocked. */
  lemma CoveredIsBlocked(entries: seq<seq<byte>>, labels: Name)
    requires labels != [] && Covered(entries, labels)
    ensures Blocked(PatternsOf(entries), Lower(Join(labels)))
  {
    var k :| 0 <= k < |entries| && Covers(entries[k], labels);
    var pattern := PatternOf(entries[k]);
    SplitLower(Normalize(entries[k]));
    LowerJoin(labels);
    var low := LowerName(labels);
    var i := |low| - |Split(pattern)|;
    JoinSplit(pattern);
    PiecesOfSuffix(low, i);
    MatchesExactly(Join(low), pattern);
    assert Matches(Lower(Join(labels)), PatternsOf(entries)[k]);
  }

  /** A query laid out on the wire is blocked exactly when an entry covers its pieces, and
      whenever one covers its labels. */
  lemma QueryBlockedExactly(entries: seq<seq<byte>>, data: seq<byte>, labels: Name)
    requires labels != [] && |labels| <= 128 && GoodName(labels)
    requires |data| >= DNS_HEADER_LEN && (data[4] != 0 || data[5] != 0) && Wire(labels) <= data[DNS_HEADER_LEN..]
    ensures PayloadBlocked(PatternsOf(entries), data) <==> Covered(entries, Pieces(labels))
    ensures Covered(entries, labels) ==> PayloadBlocked(PatternsOf(entries), data)
  {
    LabelsExactly(data, DNS_HEADER_LEN, MAX_LABELS, labels);
    BlockedExactly(entries, labels);
    if Covered(entries, labels) {
      CoveredIsBlocked(entries, labels);
    }
  }

  /** A query message whose first question is for these labels. */
  ghost predicate AsksFor(data: seq<byte>, labels: Name) {
    && labels != [] && |labels| <= 128 && GoodName(labels)
    && |data| >= DNS_HEADER_LEN && (data[4] != 0 || data[5] != 0) && Wire(labels) <= data[DNS_HEADER_LEN..]
  }

  /** A query can be read exactly when it asks for some labels; one that cannot be read is
      blocked by every list. */
  lemma AskedExactly(data: seq<byte>)
    ensures QueryName(data).Some? <==> exists labels :: AsksFor(data, labels)
    ensures (forall labels :: !AsksFor(data, labels)) ==> forall patterns :: PayloadBlocked(patterns, data)
  {
    if |data| >= DNS_HEADER_LEN {
      var found := Labels(data, DNS_HEADER_LEN, MAX_LABELS);
      if found.Some? {
        LabelsExactly(data, DNS_HEADER_LEN, MAX_LABELS, found.value);
        assert found.value != [] && (data[4] != 0 || data[5] != 0) ==> AsksFor(data, found.value);
      }
      forall labels | AsksFor(data, labels) ensures found.Some? && found.value == labels {
        LabelsExactly(data, DNS_HEADER_LEN, MAX_LABELS, labels);
      }
    }
  }

  ghost predicate CoversPlain(entry: seq<byte>, labels: Name) {
    PlainName(labels) && Covers(entry, labels)
  }

  ghost predicate NoEmptyPiece(entry: seq<byte>) {
    forall k :: 0 <= k < |Split(Normalize(entry))| ==> Split(Normalize(entry))[k] != []
  }

  /** An entry can block a name of non-empty dot-free labels exactly when none of its own
      pieces is empty: one with a trailing dot, or with two dots in a row, blocks nothing. */
  lemma EntryIsEffectiveExactly(entry: seq<byte>)
    ensures (exists labels :: CoversPlain(entry, labels)) <==> NoEmptyPiece(entry)
  {
    var pieces := Split(Normalize(entry));
    if NoEmptyPiece(entry) {
      PiecesAreDotFree(Normalize(entry));
      assert CoversPlain(entry, pieces);
    }
    if labels :| CoversPlain(entry, labels) {
      CoveringPieces(pieces, labels);
      assert NoEmptyPiece(entry);
    }
  }

  // Pieces that end a name of non-empty labels, up to case, are not empty.
  lemma CoveringPieces(pieces: Name, labels: Name)
    requires PlainName(labels) && LabelSuffix(LowerName(pieces), LowerName(labels))
    ensures forall k :: 0 <= k < |pieces| ==> pieces[k] != []
  {
    var n, m := |labels|, |pieces|;
    forall k | 0 <= k < m ensures pieces[k] != [] {
      assert LowerName(pieces)[k] == LowerName(labels)[n - m..][k] == Lower(labels[n - m + k]);
      assert labels[n - m + k] != [];
    }
  }

  lemma TrailingDotBlocksNothing(entry: seq<byte>, labels: Name)
    requires PlainName(labels) && EndsWith(Normalize(entry), [DOT])
    ensures !Covers(entry, labels)
  {
    var e := Normalize(entry);
    EndsWithDot(e);
    assert e == e[..|e| - 1] + [DOT] + [];
    SplitConcat(e[..|e| - 1], []);
    assert Split(e)[|Split(e)| - 1] == [];
    if Covers(entry, labels) {
      CoveringPieces(Split(e), labels);
    }
  }
}
