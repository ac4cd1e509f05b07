/** The byte-at-a-time receive parser. */
module StpReceiver {
  import opened Bytes
  import opened StpCrc
  import opened StpDetection
  import opened StpFrame

  datatype RxState = WaitSof | InHeader(collected: nat) | InPayload(remaining: nat) | InCrc(collected: nat)

  /** The parser's abstract state; `data` is the filled part of its buffer. */
  datatype Parser = Parser(state: RxState, data: seq<byte>, payloadLen: nat, crcErrors: nat)

  /** The buffer position is a function of the state, so it never leaves the buffer. */
  ghost predicate RxInv(rx: Parser) {
    match rx.state
    case WaitSof => |rx.data| <= MAX_ENCODED
    case InHeader(collected) => collected < 4 && |rx.data| == 1 + collected && rx.data[0] == SOF
    case InPayload(remaining) =>
      && 1 <= remaining <= rx.payloadLen <= MAX_PAYLOAD
      && |rx.data| == 5 + rx.payloadLen - remaining
      && rx.data[0] == SOF && rx.payloadLen == DeclaredLength(rx.data[2], rx.data[3])
    case InCrc(collected) =>
      && collected < 2
      && |rx.data| == 5 + rx.payloadLen + collected
      && rx.data[0] == SOF && rx.payloadLen == DeclaredLength(rx.data[2], rx.data[3])
  }

  type Rx = p: Parser | RxInv(p) ghost witness Parser(WaitSof, [], 0, 0)

  // ---- Specification of one byte ----

  ghost function PushHeader(rx: Parser, b: byte): Parser
    requires RxInv(rx) && rx.state.InHeader?
  {
    if |rx.data| >= MAX_ENCODED then rx.(state := WaitSof, data := [])
    else
      var rx1 := rx.(data := rx.data + [b]);
      if rx.state.collected + 1 == 4 then
        var len := DeclaredLength(rx1.data[2], rx1.data[3]);
        rx1.(payloadLen := len, state := if len == 0 then InCrc(0) else InPayload(len))
      else
        rx1.(state := InHeader(rx.state.collected + 1))
  }

  ghost function PushPayload(rx: Parser, b: byte): Parser
    requires RxInv(rx) && rx.state.InPayload?
  {
    if |rx.data| >= MAX_ENCODED then rx.(state := WaitSof, data := [])
    else
      rx.(data := rx.data + [b],
          state := if rx.state.remaining == 1 then InCrc(0) else InPayload(rx.state.remaining - 1))
  }

  ghost function PushCrc(rx: Parser, b: byte): (Parser, bool)
    requires RxInv(rx) && rx.state.InCrc?
  {
    var rx1 := if |rx.data| < MAX_ENCODED then rx.(data := rx.data + [b]) else rx;
    if rx.state.collected == 1 then
      if CrcMatches(rx1.data) then (rx1.(state := WaitSof), true)
      else (rx1.(state := WaitSof, crcErrors := rx.crcErrors + 1), false)
    else
      (rx1.(state := InCrc(1)), false)
  }

  ghost function Push(rx: Rx, b: byte): (Rx, bool) {
    match rx.state
    case WaitSof => (if b == SOF then rx.(data := [b], state := InHeader(0)) else rx, false)
    case InHeader(_) => (PushHeader(rx, b), false)
    case InPayload(_) => (PushPayload(rx, b), false)
    case InCrc(_) => PushCrc(rx, b)
  }

  // ---- The mutable parser ----

  class RxParser {
    var state: RxState
    const buf: array<byte>
    var pos: nat
    var payloadLen: nat
    var crcErrors: nat

    ghost predicate Valid()
      reads this, buf
    {
      buf.Length == MAX_ENCODED && pos <= MAX_ENCODED && RxInv(View())
    }

    ghost function View(): Parser
      requires buf.Length == MAX_ENCODED && pos <= MAX_ENCODED
      reads this, buf
    {
      Parser(state, buf[..pos], payloadLen, crcErrors)
    }

    constructor ()
      ensures Valid() && View() == Parser(WaitSof, [], 0, 0) && fresh(buf)
    {
      state, pos, payloadLen, crcErrors := WaitSof, 0, 0, 0;
      buf := new byte[MAX_ENCODED](i => 0);
    }

    method PushByte(b: byte) returns (complete: bool)
      requires Valid()
      modifies this, buf
      ensures Valid() && (View(), complete) == Push(old(View()), b)
    {
      match state
      case WaitSof =>
        if b == SOF {
          pos := 0;
          Append(b);
          assert buf[..pos] == [b];
          state := InHeader(0);
        }
        complete := false;
      case InHeader(collected) =>
        PushHeaderByte(b, collected);
        complete := false;
      case InPayload(remaining) =>
        PushPayloadByte(b, remaining);
        complete := false;
      case InCrc(collected) =>
        complete := PushCrcByte(b, collected);
    }

    // Stores a byte at the buffer position and advances it.
    method Append(b: byte)
      requires buf.Length == MAX_ENCODED && pos < MAX_ENCODED
      modifies this`pos, buf
      ensures pos == old(pos) + 1 && buf[..pos] == old(buf[..pos]) + [b]
    {
      buf[pos] := b;
      pos := pos + 1;
    }

    method PushHeaderByte(b: byte, collected: nat)
      requires Valid() && state == InHeader(collected)
      modifies this, buf
      ensures Valid() && View() == PushHeader(old(View()), b)
    {
      if pos >= MAX_ENCODED {
        assert false; // the bail-out of a full buffer is never taken
      }
      Append(b);
      if collected + 1 == 4 {
        var len := DeclaredLength(buf[2], buf[3]);
        payloadLen := len;
        state := if len == 0 then InCrc(0) else InPayload(len);
      } else {
        state := InHeader(collected + 1);
      }
    }

    method PushPayloadByte(b: byte, remaining: nat)
      requires Valid() && state == InPayload(remaining)
      modifies this, buf
      ensures Valid() && View() == PushPayload(old(View()), b)
    {
      if pos >= MAX_ENCODED {
        assert false; // as in the header
      }
      Append(b);
      state := if remaining == 1 then InCrc(0) else InPayload(remaining - 1);
    }

    method PushCrcByte(b: byte, collected: nat) returns (complete: bool)
      requires Valid() && state == InCrc(collected)
      modifies this, buf
      ensures Valid() && (View(), complete) == PushCrc(old(View()), b)
    {
      if pos < MAX_ENCODED {
        Append(b);
      }
      if collected == 1 {
        state := WaitSof;
        complete := CrcIsIntact(buf[..pos]);
        if !complete {
          crcErrors := crcErrors + 1;
        }
      } else {
        state := InCrc(1);
        complete := false;
      }
    }

    // The integrity check over a complete raw frame.
    static method CrcIsIntact(raw: seq<byte>) returns (intact: bool)
      requires |raw| >= 7
      ensures intact <==> CrcMatches(raw)
    {
      var received := ToOctet(raw[|raw| - 1]) + ToOctet(raw[|raw| - 2]);
      var header, payload := raw[1..4], raw[5..|raw| - 2];
      var computed := ComputeCrcOver(Octets(header), Octets(payload));
      assert Octets(header) + Octets(payload) == Octets(header + payload);
      intact := received == computed;
    }

    method TakeRaw() returns (raw: seq<byte>)
      requires Valid()
      ensures raw == View().data
    {
      raw := buf[..pos];
    }
  }

  // ---- Runs ----

  /** A parser together with the frames it has surfaced so far. */
  datatype Run = Run(rx: Rx, frames: seq<seq<byte>>)

  ghost function Step(run: Run, b: byte): Run {
    var (rx, complete) := Push(run.rx, b);
    Run(rx, if complete then run.frames + [rx.data] else run.frames)
  }

  ghost function Feed(run: Run, input: seq<byte>): Run
    decreases |input|
  {
    if input == [] then run else Step(Feed(run, input[..|input| - 1]), input[|input| - 1])
  }

  /** Neither overflow branch can be taken. */
  lemma BufferNeverOverflows(rx: Rx)
    requires !rx.state.WaitSof?
    ensures |rx.data| < MAX_ENCODED
  {
  }

  lemma FeedSnoc(run: Run, s: seq<byte>, b: byte)
    ensures Feed(run, s + [b]) == Step(Feed(run, s), b)
  {
    assert (s + [b])[..|s + [b]| - 1] == s;
  }

  lemma {:induction false} FeedConcat(run: Run, s: seq<byte>, t: seq<byte>)
    ensures Feed(run, s + t) == Feed(Feed(run, s), t)
    decreases |t|
  {
    if t == [] {
      assert s + t == s;
    } else {
      var front, b := t[..|t| - 1], t[|t| - 1];
      assert s + t == (s + front) + [b];
      FeedConcat(run, s, front);
      FeedSnoc(run, s + front, b);
    }
  }

  // ---- Frames in, frames out ----

  // Where the parser stands after k octets of a framed sequence.
  ghost function StateAt(w: seq<byte>, k: nat): RxState
    requires Framed(w) && 1 <= k < |w|
  {
    var len := DeclaredLength(w[2], w[3]);
    if k < 5 then InHeader(k - 1) else if k < 5 + len then InPayload(5 + len - k) else InCrc(k - 5 - len)
  }

  ghost function ParserAt(w: seq<byte>, k: nat, rx: Rx): Rx
    requires Framed(w) && 1 <= k < |w|
  {
    Parser(StateAt(w, k), w[..k], if k < 5 then rx.payloadLen else DeclaredLength(w[2], w[3]), rx.crcErrors)
  }

  lemma PrefixGrows(w: seq<byte>, k: nat, rx: Rx)
    requires Framed(w) && 1 <= k < |w| - 1
    ensures Push(ParserAt(w, k, rx), w[k]) == (ParserAt(w, k + 1, rx), false)
  {
    assert w[..k + 1] == w[..k] + [w[k]];
    BufferNeverOverflows(ParserAt(w, k, rx));
  }

  lemma {:induction false} AfterPrefix(run: Run, w: seq<byte>, k: nat)
    requires run.rx.state.WaitSof? && Framed(w) && 1 <= k < |w|
    ensures Feed(run, w[..k]) == Run(ParserAt(w, k, run.rx), run.frames)
  {
    assert w[..k] == w[..k - 1] + [w[k - 1]];
    FeedSnoc(run, w[..k - 1], w[k - 1]);
    if k > 1 {
      AfterPrefix(run, w, k - 1);
      PrefixGrows(w, k - 1, run.rx);
    }
  }

  // The outcome of a framed sequence, by the integrity check.
  ghost function Outcome(run: Run, w: seq<byte>): Run
    requires Framed(w)
  {
    var len := DeclaredLength(w[2], w[3]);
    if CrcMatches(w) then Run(Parser(WaitSof, w, len, run.rx.crcErrors), run.frames + [w])
    else Run(Parser(WaitSof, w, len, run.rx.crcErrors + 1), run.frames)
  }

  /** A framed sequence is surfaced whole, or counted as one CRC error. */
  lemma FramedVerdict(run: Run, w: seq<byte>)
    requires run.rx.state.WaitSof? && Framed(w)
    ensures Feed(run, w) == Outcome(run, w)
  {
    var k := |w| - 1;
    assert w == w[..k] + [w[k]];
    FeedSnoc(run, w[..k], w[k]);
    AfterPrefix(run, w, k);
    BufferNeverOverflows(ParserAt(w, k, run.rx));
  }

  lemma {:induction false} FillerIsSkipped(run: Run, gap: seq<byte>)
    requires run.rx.state.WaitSof? && SOF !in gap
    ensures Feed(run, gap) == run
    decreases |gap|
  {
    if gap != [] {
      assert gap[|gap| - 1] in gap;
      FillerIsSkipped(run, gap[..|gap| - 1]);
    }
  }

  /** A frame on the line, preceded by line noise without a start octet. */
  datatype Item = Item(gap: seq<byte>, frame: Frame)

  ghost predicate Clean(items: seq<Item>) {
    forall i :: 0 <= i < |items| ==> SOF !in items[i].gap && WellFormed(items[i].frame)
  }

  ghost function Stream(items: seq<Item>): seq<byte> {
    if items == [] then [] else items[0].gap + (Encoded(items[0].frame) + Stream(items[1..]))
  }

  ghost function Encodings(items: seq<Item>): seq<seq<byte>> {
    seq(|items|, i requires 0 <= i < |items| => Encoded(items[i].frame))
  }

  /** Any list of well-formed frames, with arbitrary noise between them, comes out
      as exactly those frames in order and nothing else, without a CRC error, also
      where payloads contain the start octet. */
  lemma {:induction false} StreamIsRecovered(run: Run, items: seq<Item>)
    requires run.rx.state.WaitSof? && Clean(items)
    ensures Recovered(run, Feed(run, Stream(items)), Encodings(items))
    decreases |items|
  {
    if items != [] {
      var w, rest := Encoded(items[0].frame), Stream(items[1..]);
      var next := Feed(run, items[0].gap + w);
      OneItem(run, items[0], rest);
      StreamIsRecovered(next, items[1..]);
      assert Encodings(items) == [w] + Encodings(items[1..]);
      RecoveredConcat(run, next, Feed(next, rest), [w], Encodings(items[1..]));
    }
  }

  // From one idle parser to another, these frames came out and no CRC failed.
  ghost predicate Recovered(run: Run, done: Run, frames: seq<seq<byte>>) {
    && done.frames == run.frames + frames
    && done.rx.state.WaitSof? && done.rx.crcErrors == run.rx.crcErrors
  }

  lemma RecoveredConcat(a: Run, b: Run, c: Run, s: seq<seq<byte>>, t: seq<seq<byte>>)
    requires Recovered(a, b, s) && Recovered(b, c, t)
    ensures Recovered(a, c, s + t)
  {
  }

  lemma OneItem(run: Run, item: Item, rest: seq<byte>)
    requires run.rx.state.WaitSof? && SOF !in item.gap && WellFormed(item.frame)
    ensures var w := Encoded(item.frame);
            var next := Feed(run, item.gap + w);
            Feed(run, item.gap + (w + rest)) == Feed(next, rest) && Recovered(run, next, [w])
  {
    var w := Encoded(item.frame);
    EncodedIsIntact(item.frame);
    assert item.gap + (w + rest) == (item.gap + w) + rest;
    FeedConcat(run, item.gap + w, rest);
    FeedConcat(run, item.gap, w);
    FillerIsSkipped(run, item.gap);
    FramedVerdict(run, w);
  }

  /** What the other side gets of the frames it is sent: an idle parser surfaces the octets
      of a data frame with its payload and number, or of an acknowledgement with its number. */
  lemma BuiltFramesArrive(run: Run, sequence: byte, payload: seq<byte>)
    requires run.rx.state.WaitSof?
    ensures var w, cut := Encoded(DataFrame(sequence, payload)), if |payload| <= 4095 then payload else payload[..4095];
            Recovered(run, Feed(run, w), [w]) && FrameSpells(w, cut) && HeaderSpells(w[1..4], 0, 0, sequence % 8, |cut|)
    ensures var w := Encoded(AckFrame(sequence));
            Recovered(run, Feed(run, w), [w]) && FrameSpells(w, []) && HeaderSpells(w[1..4], 2, 1, sequence % 8, 0)
  {
    BuiltFramesAreWellFormed(sequence, payload);
    BuiltFramesSpell(sequence, payload);
    Arrives(run, DataFrame(sequence, payload));
    Arrives(run, AckFrame(sequence));
  }

  lemma Arrives(run: Run, f: Frame)
    requires run.rx.state.WaitSof? && WellFormed(f)
    ensures Recovered(run, Feed(run, Encoded(f)), [Encoded(f)])
  {
    EncodedIsIntact(f);
    FramedVerdict(run, Encoded(f));
  }

  // ---- Arbitrary bytes ----

  ghost predicate SliceAt(f: seq<byte>, input: seq<byte>, i: nat) {
    i + |f| <= |input| && input[i..i + |f|] == f
  }

  /** A surfaced frame: cut out of the input, framed as it declares, and intact. */
  ghost predicate Genuine(f: seq<byte>, input: seq<byte>) {
    Framed(f) && CrcMatches(f) && exists i :: SliceAt(f, input, i)
  }

  lemma StaysGenuine(f: seq<byte>, input: seq<byte>, b: byte)
    requires Genuine(f, input)
    ensures Genuine(f, input + [b])
  {
    var i :| SliceAt(f, input, i);
    assert SliceAt(f, input + [b], i);
  }

  // While a frame is being collected, the buffer holds the end of the input.
  ghost predicate HoldsTheEnd(rx: Rx, input: seq<byte>) {
    !rx.state.WaitSof? ==> |rx.data| <= |input| && rx.data == input[|input| - |rx.data|..]
  }

  lemma StepIsGenuine(rx: Rx, input: seq<byte>, b: byte)
    requires HoldsTheEnd(rx, input)
    ensures HoldsTheEnd(Push(rx, b).0, input + [b])
    ensures Push(rx, b).1 ==> Genuine(Push(rx, b).0.data, input + [b])
  {
    var rx1 := Push(rx, b).0;
    if !rx.state.WaitSof? {
      BufferNeverOverflows(rx);
      var all := input + [b];
      assert rx1.data == rx.data + [b];
      assert rx1.data == all[|all| - |rx1.data|..];
      assert SliceAt(rx1.data, all, |all| - |rx1.data|);
    }
  }

  /** On any input whatever, everything surfaced is a slice of that input, framed
      as it declares and passing the integrity check. */
  lemma {:induction false} SurfacedIsGenuine(rx: Rx, input: seq<byte>)
    requires rx.state.WaitSof?
    ensures HoldsTheEnd(Feed(Run(rx, []), input).rx, input)
    ensures forall f :: f in Feed(Run(rx, []), input).frames ==> Genuine(f, input)
    decreases |input|
  {
    if input != [] {
      var front, b := input[..|input| - 1], input[|input| - 1];
      assert input == front + [b];
      SurfacedIsGenuine(rx, front);
      var before := Feed(Run(rx, []), front);
      StepIsGenuine(before.rx, front, b);
      forall f | f in before.frames ensures Genuine(f, input) {
        StaysGenuine(f, front, b);
      }
    }
  }

  // The most octets the parser can still take before it is back at WaitSof.
  ghost function Budget(rx: Rx): nat {
    match rx.state
    case WaitSof => 0
    case InHeader(collected) => 4 - collected + MAX_PAYLOAD + 2
    case InPayload(remaining) => remaining + 2
    case InCrc(collected) => 2 - collected
  }

  lemma PushSpendsBudget(rx: Rx, b: byte)
    requires !rx.state.WaitSof?
    ensures Budget(Push(rx, b).0) < Budget(rx)
  {
    BufferNeverOverflows(rx);
  }

  lemma FeedFront(run: Run, input: seq<byte>, k: nat)
    requires k < |input|
    ensures Feed(run, input[..k + 1]) == Feed(Step(run, input[0]), input[1..][..k])
  {
    assert input[..k + 1] == [input[0]] + input[1..][..k];
    FeedConcat(run, [input[0]], input[1..][..k]);
    assert [] + [input[0]] == [input[0]];
    FeedSnoc(run, [], input[0]);
  }

  /** From any state the parser is back at WaitSof after some k octets, within its
      budget; after an accepted start octet that is 4101 octets. */
  lemma {:induction false} ResynchronisesWithinBudget(run: Run, input: seq<byte>) returns (k: nat)
    requires |input| >= Budget(run.rx)
    ensures run.rx.state == InHeader(0) ==> Budget(run.rx) == 4101
    ensures k <= Budget(run.rx) && Feed(run, input[..k]).rx.state.WaitSof?
    decreases |input|
  {
    if run.rx.state.WaitSof? {
      k := 0;
    } else {
      PushSpendsBudget(run.rx, input[0]);
      var rest := ResynchronisesWithinBudget(Step(run, input[0]), input[1..]);
      FeedFront(run, input, rest);
      k := rest + 1;
    }
  }
}
