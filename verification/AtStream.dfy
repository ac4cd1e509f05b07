/** What the line reader makes of a whole stream, however the octets trickle in. */
module AtStream {
  import opened Wrappers
  import opened Bytes
  import opened Text
  import opened AtSession

  type Line = Result<seq<byte>, Error>

  /** The octets among what is met. */
  ghost function Received(inbound: seq<Arrival>): seq<byte> {
    if inbound == [] then []
    else (if inbound[0].Octet? then [inbound[0].octet] else []) + Received(inbound[1..])
  }

  /** No read runs out of time. */
  ghost predicate InTime(l: Link) {
    forall k :: 0 <= k < |l.inbound| ==> !l.inbound[k].Expiry?
  }

  /** The octets still to be made into lines. */
  ghost function Stream(l: Link): seq<byte> {
    l.buf + Received(l.inbound)
  }

  /** The next line of a stream and what follows it: up to the first line feed, or the
      first 256 octets when they hold none; nothing while neither is there. */
  ghost function Next(s: seq<byte>): (r: Option<(Line, seq<byte>)>)
    ensures r.Some? ==> |r.value.1| < |s|
  {
    var k := FirstLf(s);
    if k < MAX_LINE_LEN && k < |s| then Some((Decode(s[..k]), s[k + 1..]))
    else if |s| >= MAX_LINE_LEN then Some((Err(LineTooLong), s[MAX_LINE_LEN..]))
    else None
  }

  /** All the lines of a stream. */
  ghost function Segments(s: seq<byte>): seq<Line>
    decreases |s|
  {
    match Next(s)
    case None => []
    case Some((line, rest)) => [line] + Segments(rest)
  }

  /** Results about lines, not about the channel. */
  ghost function Delivered(got: seq<Line>): seq<Line> {
    if got == [] then []
    else Delivered(got[..|got| - 1]) + Kept(got[|got| - 1])
  }

  ghost function Kept(r: Line): seq<Line> {
    if r == Err(NotReady) || r == Err(Transport) || r == Err(Timeout) then [] else [r]
  }

  // ---- Cutting ----

  lemma FirstLfIs(s: seq<byte>, k: nat)
    requires k <= |s| && LF !in s[..k] && (k < |s| ==> s[k] == LF)
    ensures FirstLf(s) == k
  {
    var n := FirstLf(s);
    forall i | 0 <= i < k ensures s[i] != LF {
      assert s[..k][i] == s[i];
    }
    forall i | 0 <= i < n ensures s[i] != LF {
      assert s[..n][i] == s[i];
    }
  }

  lemma CutAtLf(s: seq<byte>, line: seq<byte>, rest: seq<byte>)
    requires s == line + [LF] + rest && LF !in line && |line| < MAX_LINE_LEN
    ensures Next(s) == Some((Decode(line), rest))
  {
    assert s[..|line|] == line && s[|line| + 1..] == rest;
    FirstLfIs(s, |line|);
  }

  lemma CutAtLimit(s: seq<byte>, full: seq<byte>, rest: seq<byte>)
    requires s == full + rest && LF !in full && |full| == MAX_LINE_LEN
    ensures Next(s) == Some((Err(LineTooLong), rest))
  {
    assert s[MAX_LINE_LEN..] == rest;
    forall i | 0 <= i < MAX_LINE_LEN ensures s[i] != LF {
      assert full[i] in full;
    }
  }

  lemma NothingToCut(s: seq<byte>)
    requires LF !in s && |s| < MAX_LINE_LEN
    ensures Next(s) == None
  {
    assert s[..|s|] == s;
    FirstLfIs(s, |s|);
  }

  // ---- One read ----

  // A link without its first arrival, which is taken into the buffer if it is an octet.
  ghost function Taken(l: Link): Link
    requires l.inbound != []
  {
    Link(if l.inbound[0].Octet? then l.buf + [l.inbound[0].octet] else l.buf, l.inbound[1..])
  }

  lemma TakenKeepsStream(l: Link)
    requires l.inbound != []
    ensures Stream(Taken(l)) == Stream(l)
  {
  }

  lemma ReadGoesOn(l: Link)
    requires Ready(l) && l.inbound != [] && l.inbound[0].Octet?
    ensures ReadSpec(l) == ReadSpec(Taken(l))
  {
    FullLf(l);
  }

  lemma LineComplete(l: Link)
    requires Ready(l) && l.inbound != [] && l.inbound[0] == Octet(LF)
    ensures ReadSpec(l) == (Decode(l.buf), Link([], l.inbound[1..]))
  {
    ReadGoesOn(l);
    var next := Taken(l);
    assert next.buf[..|l.buf|] == l.buf;
    FullLf(next);
    assert next.buf[|l.buf| + 1..] == [];
  }

  lemma LineCut(l: Link)
    requires Ready(l) && l.inbound != [] && l.inbound[0] == Octet(LF)
    ensures Kept(Decode(l.buf)) == [Decode(l.buf)]
    ensures Next(Stream(l)) == Some((Decode(l.buf), Stream(Link([], l.inbound[1..]))))
  {
    var rest := Received(l.inbound[1..]);
    assert Stream(Link([], l.inbound[1..])) == rest;
    assert Stream(l) == l.buf + [LF] + rest;
    CutAtLf(Stream(l), l.buf, rest);
  }

  lemma LineOverflows(l: Link)
    requires Ready(l) && l.inbound != [] && l.inbound[0].Octet? && l.inbound[0].octet != LF && |l.buf| + 1 == MAX_LINE_LEN
    ensures ReadSpec(l) == (Err(LineTooLong), Link([], l.inbound[1..]))
    ensures Next(Stream(l)) == Some((Err(LineTooLong), Stream(Link([], l.inbound[1..]))))
  {
    ReadGoesOn(l);
    var next := Taken(l);
    assert next.buf[..|l.buf|] == l.buf;
    FullLf(next);
    TakenKeepsStream(l);
    var rest := Received(l.inbound[1..]);
    CutAtLimit(Stream(l), next.buf, rest);
    assert Stream(Link([], l.inbound[1..])) == rest;
  }

  // A fragment without a line feed, shorter than a line may be.
  ghost predicate Fragment(s: seq<byte>) {
    LF !in s && |s| < MAX_LINE_LEN
  }

  // How one read moves from link l to link next.
  ghost predicate Advances(l: Link, r: Line, next: Link) {
    && Ready(next) && (if l.inbound == [] then next == l else |next.inbound| < |l.inbound|)
    && if r == Err(Timeout) then exists lost :: Fragment(lost) && Stream(l) == lost + Stream(next)
       else if Kept(r) == [] then Stream(next) == Stream(l)
       else Next(Stream(l)) == Some((r, Stream(next)))
  }

  /** Every read takes exactly the next line off the stream, or nothing when there is
      nothing to take yet or the channel fails, and gets closer to the end of what will be
      met; running out of time loses one unfinished line and nothing else. */
  lemma {:induction false} OneRead(l: Link)
    requires Ready(l)
    ensures Advances(l, ReadSpec(l).0, ReadSpec(l).1)
    decreases |l.inbound|
  {
    if l.inbound == [] {
      FullLf(l);
    } else if !l.inbound[0].Octet? {
      FullLf(l);
      var rest := Received(l.inbound[1..]);
      assert Stream(l) == l.buf + rest && Stream(Link([], l.inbound[1..])) == rest;
      assert Fragment(l.buf);
    } else if l.inbound[0].octet == LF {
      LineComplete(l);
      LineCut(l);
    } else if |l.buf| + 1 == MAX_LINE_LEN {
      LineOverflows(l);
    } else {
      ReadGoesOn(l);
      TakenKeepsStream(l);
      OneRead(Taken(l));
    }
  }

  // The result when the octets before an obstacle hold no line.
  ghost function Stopped(l: Link, s: seq<byte>, k: nat): (Line, Link)
    requires k <= |l.inbound|
  {
    if k == |l.inbound| then (Err(NotReady), Link(s, []))
    else match l.inbound[k]
      case Expiry => (Err(Timeout), Link([], l.inbound[k + 1..]))
      case Broken => (Err(Transport), Link(s, l.inbound[k + 1..]))
      case _ => (Err(NotReady), Link(s, l.inbound[k + 1..]))
  }

  /** One read in full: it returns the line that is complete among the octets before the
      first obstacle; if there is none, the obstacle decides the error, and what had been
      collected is kept unless the time ran out. */
  lemma {:induction false} ReadExactly(l: Link, k: nat)
    requires Ready(l) && k <= |l.inbound| && (forall m :: 0 <= m < k ==> l.inbound[m].Octet?)
    requires k < |l.inbound| ==> !l.inbound[k].Octet?
    ensures var s := l.buf + Received(l.inbound[..k]);
            if Next(s).Some? then ReadSpec(l).0 == Next(s).value.0 else ReadSpec(l) == Stopped(l, s, k)
    decreases k
  {
    var s := l.buf + Received(l.inbound[..k]);
    if k == 0 {
      FullLf(l);
      assert s == l.buf;
      NothingToCut(l.buf);
    } else {
      OctetTaken(l, k);
      if l.inbound[0].octet == LF || |l.buf| + 1 == MAX_LINE_LEN {
        LineEnds(l, s, Received(l.inbound[1..][..k - 1]));
      } else {
        ReadGoesOn(l);
        ReadExactly(Taken(l), k - 1);
      }
    }
  }

  lemma LineEnds(l: Link, s: seq<byte>, rest: seq<byte>)
    requires Ready(l) && l.inbound != [] && l.inbound[0].Octet? && s == l.buf + [l.inbound[0].octet] + rest
    requires l.inbound[0].octet == LF || |l.buf| + 1 == MAX_LINE_LEN
    ensures Next(s).Some? && ReadSpec(l).0 == Next(s).value.0
  {
    if l.inbound[0].octet == LF {
      LineComplete(l);
      CutAtLf(s, l.buf, rest);
    } else {
      LineOverflows(l);
      CutAtLimit(s, Taken(l).buf, rest);
    }
  }

  lemma OctetTaken(l: Link, k: nat)
    requires 0 < k <= |l.inbound| && l.inbound[0].Octet?
    ensures l.buf + Received(l.inbound[..k]) == Taken(l).buf + Received(l.inbound[1..][..k - 1])
    ensures l.buf + Received(l.inbound[..k]) == l.buf + [l.inbound[0].octet] + Received(l.inbound[1..][..k - 1])
  {
    assert l.inbound[..k][1..] == l.inbound[1..][..k - 1];
  }

  /** While no read runs out of time, none does later. */
  lemma {:induction false} StaysInTime(l: Link)
    requires Ready(l) && InTime(l)
    ensures InTime(ReadSpec(l).1) && ReadSpec(l).0 != Err(Timeout)
    decreases |l.inbound|
  {
    RestInTime(l);
    if l.inbound == [] || !l.inbound[0].Octet? {
      FullLf(l);
    } else if l.inbound[0].octet == LF {
      LineComplete(l);
    } else if |l.buf| + 1 == MAX_LINE_LEN {
      LineOverflows(l);
    } else {
      ReadGoesOn(l);
      StaysInTime(Taken(l));
    }
  }

  lemma RestInTime(l: Link)
    requires InTime(l)
    ensures l.inbound != [] ==> !l.inbound[0].Expiry? && forall buf :: InTime(Link(buf, l.inbound[1..]))
  {
  }

  // ---- Whole runs ----

  /** After any number of reads, none of them out of time, the lines handed out and the
      segments of what is left make up the segments of the whole stream. */
  lemma {:induction false} NothingIsLost(l: Link, n: nat)
    requires Ready(l) && InTime(l)
    ensures Accounted(Segments(Stream(l)), Reads(l, n), After(l, n))
    decreases n
  {
    if n == 0 {
      assert [] + Segments(Stream(l)) == Segments(Stream(l));
    } else {
      NothingIsLost(l, n - 1);
      AnotherRead(Segments(Stream(l)), Reads(l, n - 1), After(l, n - 1));
      OneMoreRead(l, n - 1);
    }
  }

  ghost predicate Accounted(all: seq<Line>, got: seq<Line>, l: Link) {
    Ready(l) && InTime(l) && all == Delivered(got) + Segments(Stream(l))
  }

  lemma AnotherRead(all: seq<Line>, got: seq<Line>, l: Link)
    requires Accounted(all, got, l)
    ensures Accounted(all, got + [ReadSpec(l).0], ReadSpec(l).1)
  {
    OneRead(l);
    StaysInTime(l);
    var (r, next) := ReadSpec(l);
    assert Segments(Stream(l)) == Kept(r) + Segments(Stream(next));
    HandedOn(all, got, Segments(Stream(l)), r, Segments(Stream(next)));
  }

  // Between calls, with at most k arrivals to come.
  ghost predicate Within(l: Link, k: nat) {
    Ready(l) && |l.inbound| <= k
  }

  /** Every read uses up at least one arrival, while there are any. */
  lemma {:induction false} ArrivalsRunOut(l: Link, n: nat)
    requires Ready(l) && n <= |l.inbound|
    ensures Within(After(l, n), |l.inbound| - n)
    decreases n
  {
    if n > 0 {
      ArrivalsRunOut(l, n - 1);
      OneFewer(After(l, n - 1), |l.inbound| - n);
      OneMoreRead(l, n - 1);
    }
  }

  lemma OneFewer(l: Link, k: nat)
    requires Within(l, k + 1)
    ensures Within(ReadSpec(l).1, k)
  {
    OneRead(l);
  }

  lemma HandedOn(all: seq<Line>, got: seq<Line>, left: seq<Line>, r: Line, still: seq<Line>)
    requires all == Delivered(got) + left && left == Kept(r) + still
    ensures all == Delivered(got + [r]) + still
  {
    DeliveredSnoc(got, r);
  }

  lemma DeliveredSnoc(got: seq<Line>, r: Line)
    ensures Delivered(got + [r]) == Delivered(got) + Kept(r)
  {
    assert (got + [r])[..|got|] == got;
  }

  /** Reading until the arrivals are used up returns exactly the segments of the octets,
      wherever empty or failing reads fell between them. */
  lemma ReadsAreTheSegments(l: Link)
    requires Ready(l) && InTime(l)
    ensures Delivered(Reads(l, |l.inbound|)) == Segments(Stream(l))
  {
    NothingIsLost(l, |l.inbound|);
    ArrivalsRunOut(l, |l.inbound|);
    var end := After(l, |l.inbound|);
    assert Stream(end) == end.buf;
    NothingToCut(end.buf);
  }

  // ---- Lines ----

  ghost function Terminated(lines: seq<seq<byte>>): seq<byte> {
    if lines == [] then [] else lines[0] + [LF] + Terminated(lines[1..])
  }

  ghost function Decoded(lines: seq<seq<byte>>): (r: seq<Line>)
    ensures |r| == |lines| && forall k :: 0 <= k < |lines| ==> r[k] == Decode(lines[k])
  {
    seq(|lines|, k requires 0 <= k < |lines| => Decode(lines[k]))
  }

  ghost predicate Fit(lines: seq<seq<byte>>) {
    forall k :: 0 <= k < |lines| ==> |lines[k]| < 256
  }

  /** A stream of lines is read as those lines exactly when each fits the limit together
      with its line feed. */
  lemma {:induction false} LinesAreReadExactly(lines: seq<seq<byte>>, tail: seq<byte>)
    requires forall k :: 0 <= k < |lines| ==> LF !in lines[k]
    requires LF !in tail && |tail| < MAX_LINE_LEN
    ensures Segments(Terminated(lines) + tail) == Decoded(lines) <==> Fit(lines)
    decreases |lines|
  {
    var s := Terminated(lines) + tail;
    if lines == [] {
      assert s == tail;
      NothingToCut(tail);
    } else {
      var rest := Terminated(lines[1..]) + tail;
      assert s == lines[0] + [LF] + rest;
      OneLine(s, lines[0], rest, Decoded(lines[1..]));
      LinesAreReadExactly(lines[1..], tail);
      FirstOfLines(lines);
    }
  }

  lemma FirstOfLines(lines: seq<seq<byte>>)
    requires lines != []
    ensures Decoded(lines) == [Decode(lines[0])] + Decoded(lines[1..])
    ensures Fit(lines) <==> |lines[0]| < MAX_LINE_LEN && Fit(lines[1..])
  {
    assert forall k :: 1 <= k < |lines| ==> lines[k] == lines[1..][k - 1];
    var r := [Decode(lines[0])] + Decoded(lines[1..]);
    assert forall k :: 0 <= k < |lines| ==> r[k] == Decode(lines[k]);
  }

  lemma OneLine(s: seq<byte>, line: seq<byte>, rest: seq<byte>, want: seq<Line>)
    requires s == line + [LF] + rest && LF !in line
    ensures Segments(s) == [Decode(line)] + want <==> |line| < MAX_LINE_LEN && Segments(rest) == want
  {
    if |line| < MAX_LINE_LEN {
      CutAtLf(s, line, rest);
      HeadAndTail(Decode(line), Segments(rest), want);
    } else {
      var full, more := line[..MAX_LINE_LEN], line[MAX_LINE_LEN..] + [LF] + rest;
      assert forall b :: b in full ==> b in line;
      assert s == full + more;
      CutAtLimit(s, full, more);
      assert Segments(s)[0] == Err(LineTooLong);
    }
  }

  lemma HeadAndTail(r: Line, s: seq<Line>, t: seq<Line>)
    ensures [r] + s == [r] + t <==> s == t
  {
    assert ([r] + s)[1..] == s && ([r] + t)[1..] == t;
  }

  /** A line as a sender ends it. */
  datatype Ending = Bare | WithCr

  datatype Sent = Sent(line: seq<byte>, ending: Ending)

  ghost function Ended(s: Sent): seq<byte> {
    if s.ending.WithCr? then s.line + [CR] else s.line
  }

  // Text without a line feed that fits, and whose own last octet cannot pass for an ending.
  ghost predicate Sendable(s: Sent) {
    && LF !in s.line && IsUtf8(s.line) && |Ended(s)| < MAX_LINE_LEN
    && (s.ending.Bare? && s.line != [] ==> s.line[|s.line| - 1] != CR)
  }

  ghost function OnTheLine(sent: seq<Sent>): seq<byte> {
    if sent == [] then [] else Ended(sent[0]) + [LF] + OnTheLine(sent[1..])
  }

  /** Lines of text, each ended by a line feed with or without a carriage return, come back
      as the lines themselves. */
  lemma {:induction false} SentLinesComeBack(sent: seq<Sent>, tail: seq<byte>)
    requires forall k :: 0 <= k < |sent| ==> Sendable(sent[k])
    requires LF !in tail && |tail| < MAX_LINE_LEN
    ensures Segments(OnTheLine(sent) + tail) == AsSent(sent)
    decreases |sent|
  {
    if sent == [] {
      assert OnTheLine(sent) + tail == tail;
      NothingToCut(tail);
    } else {
      SentLinesComeBack(sent[1..], tail);
      FirstSent(sent, tail);
      FirstComesBack(sent[0], OnTheLine(sent) + tail, OnTheLine(sent[1..]) + tail);
    }
  }

  lemma FirstSent(sent: seq<Sent>, tail: seq<byte>)
    requires sent != []
    ensures OnTheLine(sent) + tail == Ended(sent[0]) + [LF] + (OnTheLine(sent[1..]) + tail)
    ensures AsSent(sent) == [Ok(sent[0].line)] + AsSent(sent[1..])
  {
    Associates(Ended(sent[0]) + [LF], OnTheLine(sent[1..]), tail);
  }

  lemma Associates(a: seq<byte>, b: seq<byte>, c: seq<byte>)
    ensures (a + b) + c == a + (b + c)
  {
  }

  ghost function AsSent(sent: seq<Sent>): (r: seq<Line>)
    ensures |r| == |sent| && forall k :: 0 <= k < |sent| ==> r[k] == Ok(sent[k].line)
  {
    seq(|sent|, k requires 0 <= k < |sent| => Ok(sent[k].line))
  }

  lemma FirstComesBack(first: Sent, s: seq<byte>, rest: seq<byte>)
    requires Sendable(first) && s == Ended(first) + [LF] + rest
    ensures Segments(s) == [Ok(first.line)] + Segments(rest)
  {
    EndingIsDropped(first);
    CutAtLf(s, Ended(first), rest);
  }

  lemma EndingIsDropped(s: Sent)
    requires Sendable(s)
    ensures Decode(Ended(s)) == Ok(s.line) && LF !in Ended(s)
  {
    if s.ending.WithCr? {
      assert (s.line + [CR])[..|s.line|] == s.line;
    }
  }

  // ---- Commands ----

  lemma {:induction false} AllDelivered(got: seq<Line>)
    requires forall m :: 0 <= m < |got| ==> got[m].Ok?
    ensures Delivered(got) == got
    decreases |got|
  {
    if got != [] {
      AllDelivered(got[..|got| - 1]);
    }
  }

  // Line n - 1 of the stream is its first final result, and the answer is made of it and
  // of the non-blank lines before it.
  ghost predicate Answered(all: seq<Line>, n: nat, r: CommandResponse) {
    && 0 < n <= |all| && Quiet(all[..n - 1]) && all[n - 1].Ok? && FinalSpec(all[n - 1].value) == Some(r.result)
    && r.info == Info(all[..n - 1]) && |r.info| < 16
  }

  /** A command that succeeds read the first lines of the stream, up to and including the
      first final result: its answer is that result and the fewer than sixteen non-blank
      lines before it, in order. */
  lemma CommandReadsTheStream(l: Link, n: nat, r: Result<CommandResponse, Error>)
    requires Ready(l) && InTime(l) && Concludes(Reads(l, n), r) && r.Ok?
    ensures Answered(Segments(Stream(l)), n, r.value)
  {
    NothingIsLost(l, n);
    var got := Reads(l, n);
    LinesOnly(got, r);
    AllDelivered(got);
    AnsweredLonger(got, Segments(Stream(After(l, n))), r.value);
  }

  /** Nothing but octets to come. */
  ghost predicate OctetsOnly(l: Link) {
    forall k :: 0 <= k < |l.inbound| ==> l.inbound[k].Octet?
  }

  /** Then a read takes the next line off the stream whenever there is one. */
  lemma {:induction false} ReadsWhatIsThere(l: Link)
    requires Ready(l) && OctetsOnly(l)
    ensures OctetsOnly(ReadSpec(l).1)
    ensures Next(Stream(l)).Some? ==> Next(Stream(l)) == Some((ReadSpec(l).0, Stream(ReadSpec(l).1)))
    decreases |l.inbound|
  {
    if l.inbound == [] {
      FullLf(l);
      assert Stream(l) == l.buf;
      NothingToCut(l.buf);
    } else if l.inbound[0].octet == LF {
      LineComplete(l);
      LineCut(l);
    } else if |l.buf| + 1 == MAX_LINE_LEN {
      LineOverflows(l);
    } else {
      ReadGoesOn(l);
      TakenKeepsStream(l);
      ReadsWhatIsThere(Taken(l));
    }
  }

  // After n reads the first n lines have been read, and the others are still to come.
  ghost predicate ReadSoFar(all: seq<Line>, got: seq<Line>, l: Link) {
    && Ready(l) && OctetsOnly(l) && |got| <= |all|
    && got == all[..|got|] && Segments(Stream(l)) == all[|got|..]
  }

  lemma {:induction false} FirstLinesAreRead(l: Link, n: nat)
    requires Ready(l) && OctetsOnly(l) && n <= |Segments(Stream(l))|
    ensures ReadSoFar(Segments(Stream(l)), Reads(l, n), After(l, n))
    decreases n
  {
    if n > 0 {
      FirstLinesAreRead(l, n - 1);
      OneMoreLine(Segments(Stream(l)), Reads(l, n - 1), After(l, n - 1));
      OneMoreRead(l, n - 1);
    }
  }

  lemma OneMoreLine(all: seq<Line>, got: seq<Line>, l: Link)
    requires ReadSoFar(all, got, l) && |got| < |all|
    ensures ReadSoFar(all, got + [ReadSpec(l).0], ReadSpec(l).1)
  {
    ReadsWhatIsThere(l);
    OneRead(l);
    var left := Segments(Stream(l));
    assert left == [ReadSpec(l).0] + Segments(Stream(ReadSpec(l).1));
    assert all[|got|] == left[0] && all[|got| + 1..] == left[1..];
  }

  /** Both ways, when only octets are to come: a command answers r after n reads exactly when
      line n of the stream is its first final result and r is made of it and of the fewer
      than sixteen non-blank lines before it. */
  lemma CommandAnswersExactly(l: Link, n: nat, r: CommandResponse)
    requires Ready(l) && OctetsOnly(l)
    ensures Concludes(Reads(l, n), Ok(r)) <==> Answered(Segments(Stream(l)), n, r)
  {
    if Answered(Segments(Stream(l)), n, r) {
      FirstLinesAreRead(l, n);
      AnswerConcludes(Segments(Stream(l)), Reads(l, n), r);
    }
    if Concludes(Reads(l, n), Ok(r)) {
      CommandReadsTheStream(l, n, Ok(r));
    }
  }

  lemma AnswerConcludes(all: seq<Line>, got: seq<Line>, r: CommandResponse)
    requires |got| <= |all| && got == all[..|got|] && Answered(all, |got|, r)
    ensures Concludes(got, Ok(r))
  {
    assert got[..|got| - 1] == all[..|got| - 1];
  }

  /** And a command ends once: no two numbers of reads, and no two answers. */
  lemma ConcludesOnce(l: Link, m: nat, r: Result<CommandResponse, Error>, n: nat, s: Result<CommandResponse, Error>)
    requires Concludes(Reads(l, m), r) && Concludes(Reads(l, n), s)
    ensures m == n && r == s
  {
    if m < n {
      ReadsGrow(l, m, n);
      EndsFirst(Reads(l, m), r, Reads(l, n), s);
    } else if n < m {
      ReadsGrow(l, n, m);
      EndsFirst(Reads(l, n), s, Reads(l, m), r);
    }
  }

  // Reads that ended a command are not the beginning of longer ones that do.
  lemma EndsFirst(got: seq<Line>, r: Result<CommandResponse, Error>, more: seq<Line>, s: Result<CommandResponse, Error>)
    requires |got| < |more| && more[..|got|] == got && Concludes(got, r)
    ensures !Concludes(more, s)
  {
    var before := more[..|more| - 1];
    assert before[..|got|] == got;
    EndsBefore(got, r, before);
  }

  lemma EndsBefore(got: seq<Line>, r: Result<CommandResponse, Error>, before: seq<Line>)
    requires Concludes(got, r) && |got| <= |before| && before[..|got|] == got
    ensures !(Quiet(before) && |Info(before)| < MAX_INFO_LINES)
  {
    if Quiet(before) {
      assert Undecided(before[|got| - 1]) && before[|got| - 1] == got[|got| - 1];
      InfoGrows(before, |got|);
    }
  }

  lemma {:induction false} ReadsGrow(l: Link, m: nat, n: nat)
    requires m <= n
    ensures Reads(l, n)[..m] == Reads(l, m)
    decreases n
  {
    if m < n {
      ReadsGrow(l, m, n - 1);
      OneMoreRead(l, n - 1);
      assert Reads(l, n)[..m] == Reads(l, n - 1)[..m];
    } else {
      assert Reads(l, n)[..n] == Reads(l, n);
    }
  }

  lemma {:induction false} InfoGrows(got: seq<Line>, m: nat)
    requires m <= |got|
    ensures |Info(got[..m])| <= |Info(got)|
    decreases |got|
  {
    if m < |got| {
      InfoGrows(got[..|got| - 1], m);
      assert got[..|got| - 1][..m] == got[..m];
    } else {
      assert got[..m] == got;
    }
  }

  lemma AnsweredLonger(got: seq<Line>, left: seq<Line>, r: CommandResponse)
    requires Answered(got, |got|, r)
    ensures Answered(got + left, |got|, r)
  {
    assert (got + left)[..|got| - 1] == got[..|got| - 1];
  }

  lemma LinesOnly(got: seq<Line>, r: Result<CommandResponse, Error>)
    requires Concludes(got, r) && r.Ok?
    ensures Answered(got, |got|, r.value)
    ensures forall m :: 0 <= m < |got| ==> got[m].Ok?
  {
    var n := |got| - 1;
    forall m | 0 <= m < n ensures got[m].Ok? {
      assert Undecided(got[..n][m]);
    }
  }
}
