/** The supplicant side of the WPA2 4-way handshake: section 12.7.6 of IEEE 802.11-2020. */
module WpaHandshake {
  import opened Wrappers
  import opened Bytes
  import opened Eapol
  import opened WpaKeys

  datatype HandshakeState = AwaitMsg1 | SendMsg2 | AwaitMsg3 | SendMsg4 | Complete | Failed

  /** What a handshake object holds. */
  datatype Context = Context(
    state: HandshakeState, anonce: Nonce, snonce: Nonce, ptk: Option<Ptk>, replayCounter: u64, version: byte)

  /** What the caller supplies with a frame. */
  datatype Inputs = Inputs(pmk: Pmk, ownMac: MacAddress, apMac: MacAddress, snonce: Nonce)

  // ---- Key information flags ----

  predicate Pairwise(keyInfo: u16) { keyInfo / 0x0008 % 2 == 1 }
  predicate Install(keyInfo: u16) { keyInfo / 0x0040 % 2 == 1 }
  predicate AckBit(keyInfo: u16) { keyInfo / 0x0080 % 2 == 1 }
  predicate MicBit(keyInfo: u16) { keyInfo / 0x0100 % 2 == 1 }
  predicate Secure(keyInfo: u16) { keyInfo / 0x0200 % 2 == 1 }

  predicate IsMsg1(kf: KeyFrame) {
    AckBit(kf.keyInfo) && !MicBit(kf.keyInfo) && Pairwise(kf.keyInfo)
  }

  predicate IsMsg3(kf: KeyFrame) {
    AckBit(kf.keyInfo) && MicBit(kf.keyInfo) && Install(kf.keyInfo) && Pairwise(kf.keyInfo)
  }

  // ---- Specification ----

  ghost function Initial(): Context {
    Context(AwaitMsg1, ZEROS_32, ZEROS_32, None, 0, 2)
  }

  /** The key both sides hold after Message 1. */
  ghost function PtkFor(hmac: Hmac, m1: KeyFrame, i: Inputs): Ptk {
    PtkSpec(hmac, i.pmk, m1.nonce, i.snonce, i.apMac, i.ownMac)
  }

  function KeyFrameOf(version: byte, kf: KeyFrame): Frame {
    Frame(version, Key, Some(kf), [])
  }

  /** The frame's integrity code is the one computed over it with that field zeroed. */
  ghost predicate MicValid(hmac: Hmac, kck: Block, f: Frame) {
    f.keyFrame.Some? && f.keyFrame.value.mic == Mac(hmac, kck, Encoded(WithMic(f, ZEROS_16)))[..16]
  }

  ghost function Process(hmac: Hmac, h: Context, kf: KeyFrame, i: Inputs): Context {
    match h.state
    case AwaitMsg1 =>
      if !IsMsg1(kf) then h.(state := Failed)
      else Context(SendMsg2, kf.nonce, i.snonce, Some(PtkFor(hmac, kf, i)), kf.replayCounter, h.version)
    case AwaitMsg3 =>
      if !IsMsg3(kf) || kf.replayCounter <= h.replayCounter then h.(state := Failed)
      else
        var accepted := h.ptk.Some? && MicValid(hmac, h.ptk.value.kck, KeyFrameOf(h.version, kf));
        h.(replayCounter := kf.replayCounter, state := if accepted then SendMsg4 else Failed)
    case _ => h
  }

  // The response body before its integrity code is filled in.
  function ResponseBody(h: Context): KeyFrame {
    if h.state.SendMsg2? then
      KeyFrame(DESCRIPTOR_TYPE_RSN, 0x010A, 0, h.replayCounter, h.snonce, ZEROS_16, 0, ZEROS_16, [])
    else
      KeyFrame(DESCRIPTOR_TYPE_RSN, 0x030A, 0, h.replayCounter, ZEROS_32, ZEROS_16, 0, ZEROS_16, [])
  }

  ghost function Response(hmac: Hmac, h: Context): Option<Frame> {
    if (h.state.SendMsg2? || h.state.SendMsg4?) && h.ptk.Some? then
      var blank := KeyFrameOf(h.version, ResponseBody(h));
      Some(WithMic(blank, ComputeMic(hmac, h.ptk.value.kck, Encoded(blank))))
    else None
  }

  // ---- The handshake object ----

  class Handshake {
    var state: HandshakeState
    var anonce: Nonce
    var snonce: Nonce
    var ptk: Option<Ptk>
    var replayCounter: u64
    var eapolVersion: byte

    ghost function View(): Context
      reads this
    {
      Context(state, anonce, snonce, ptk, replayCounter, eapolVersion)
    }

    constructor ()
      ensures View() == Initial()
    {
      state, anonce, snonce, ptk, replayCounter, eapolVersion := AwaitMsg1, ZEROS_32, ZEROS_32, None, 0, 2;
    }

    method SetEapolVersion(version: byte)
      modifies this
      ensures View() == old(View()).(version := version)
    {
      eapolVersion := version;
    }

    method ProcessMessage(hmac: Hmac, kf: KeyFrame, pmk: Pmk, ownMac: MacAddress, apMac: MacAddress, nonce: Nonce)
      returns (r: HandshakeState)
      modifies this
      ensures View() == Process(hmac, old(View()), kf, Inputs(pmk, ownMac, apMac, nonce)) && r == state
    {
      match state {
        case AwaitMsg1 =>
          if !AckBit(kf.keyInfo) || MicBit(kf.keyInfo) || !Pairwise(kf.keyInfo) {
            state := Failed;
            return state;
          }
          anonce := kf.nonce;
          replayCounter := kf.replayCounter;
          snonce := nonce;
          var derived := DerivePtk(hmac, pmk, anonce, snonce, apMac, ownMac);
          ptk := Some(derived);
          state := SendMsg2;
        case AwaitMsg3 =>
          if !AckBit(kf.keyInfo) || !MicBit(kf.keyInfo) || !Install(kf.keyInfo) || !Pairwise(kf.keyInfo) {
            state := Failed;
            return state;
          }
          if kf.replayCounter <= replayCounter {
            state := Failed;
            return state;
          }
          replayCounter := kf.replayCounter;
          if ptk.None? {
            state := Failed;
            return state;
          }
          var zeroed := Frame(eapolVersion, Key, Some(kf.(mic := ZEROS_16)), []);
          var encoded := Encode(zeroed);
          var valid := VerifyMic(hmac, ptk.value.kck, encoded, kf.mic);
          if !valid {
            state := Failed;
            return state;
          }
          state := SendMsg4;
        case _ =>
      }
      r := state;
    }

    method Msg2Sent()
      modifies this
      ensures View() == old(View()).(state := if old(state).SendMsg2? then AwaitMsg3 else old(state))
    {
      if state == SendMsg2 {
        state := AwaitMsg3;
      }
    }

    method MarkComplete()
      modifies this
      ensures View() == old(View()).(state := if old(state).SendMsg4? then Complete else old(state))
    {
      if state == SendMsg4 {
        state := Complete;
      }
    }

    method BuildResponse(hmac: Hmac) returns (r: Option<Frame>)
      ensures r == Response(hmac, View())
    {
      if state != SendMsg2 && state != SendMsg4 {
        return None;
      }
      if ptk.None? {
        return None;
      }
      var keyInfo, nonce := 0x010A, snonce;
      if state == SendMsg4 {
        keyInfo, nonce := 0x030A, ZEROS_32;
      }
      var kf := KeyFrame(DESCRIPTOR_TYPE_RSN, keyInfo, 0, replayCounter, nonce, ZEROS_16, 0, ZEROS_16, []);
      var forMic := Frame(eapolVersion, Key, Some(kf), []);
      var encoded := Encode(forMic);
      kf := kf.(mic := ComputeMic(hmac, ptk.value.kck, encoded));
      r := Some(Frame(eapolVersion, Key, Some(kf), []));
    }
  }

  // ---- Runs ----

  datatype Event =
    | Version(version: byte)
    | Message(keyFrame: KeyFrame, inputs: Inputs)
    | Msg2Sent
    | Completed

  ghost function Step(hmac: Hmac, h: Context, e: Event): Context {
    match e
    case Version(v) => h.(version := v)
    case Message(kf, i) => Process(hmac, h, kf, i)
    case Msg2Sent => if h.state.SendMsg2? then h.(state := AwaitMsg3) else h
    case Completed => if h.state.SendMsg4? then h.(state := Complete) else h
  }

  /** The context after a whole sequence of calls. */
  ghost function Run(hmac: Hmac, h: Context, events: seq<Event>): Context {
    if events == [] then h
    else Step(hmac, Run(hmac, h, events[..|events| - 1]), events[|events| - 1])
  }

  /** The version last set, 2 before any was. */
  ghost function VersionAfter(events: seq<Event>): byte {
    if events == [] then 2
    else match events[|events| - 1]
      case Version(v) => v
      case _ => VersionAfter(events[..|events| - 1])
  }

  // ---- What the sequence of calls alone says about the state ----

  ghost predicate NoMessage(events: seq<Event>, from: nat, to: nat)
    requires to <= |events|
  {
    forall m :: from <= m < to ==> !events[m].Message?
  }

  // Index i holds the first message of all.
  ghost predicate First(events: seq<Event>, i: nat) {
    i < |events| && NoMessage(events, 0, i) && events[i].Message?
  }

  // It was Message 1, and j is the first report after it that Message 2 was sent.
  ghost predicate Second(events: seq<Event>, i: nat, j: nat) {
    && First(events, i) && IsMsg1(events[i].keyFrame) && i < j < |events| && events[j].Msg2Sent?
    && forall m :: i < m < j ==> !events[m].Msg2Sent?
  }

  // Index k holds the first message after that.
  ghost predicate Third(events: seq<Event>, i: nat, j: nat, k: nat) {
    Second(events, i, j) && j < k < |events| && NoMessage(events, j + 1, k) && events[k].Message?
  }

  // It was Message 3, with a larger replay counter than Message 1 and an integrity code
  // valid under the key that Message 1 established.
  ghost predicate Accepted(hmac: Hmac, events: seq<Event>, i: nat, j: nat, k: nat) {
    && Third(events, i, j, k) && IsMsg3(events[k].keyFrame)
    && events[k].keyFrame.replayCounter > events[i].keyFrame.replayCounter
    && MicValid(hmac, PtkFor(hmac, events[i].keyFrame, events[i].inputs).kck,
                KeyFrameOf(VersionAfter(events[..k]), events[k].keyFrame))
  }

  /** The shape of the call sequences that lead to each state. */
  ghost predicate Shape(hmac: Hmac, events: seq<Event>, s: HandshakeState, i: nat, j: nat, k: nat) {
    match s
    case AwaitMsg1 => NoMessage(events, 0, |events|)
    case SendMsg2 =>
      First(events, i) && IsMsg1(events[i].keyFrame) && forall m :: i < m < |events| ==> !events[m].Msg2Sent?
    case AwaitMsg3 => Second(events, i, j) && NoMessage(events, j + 1, |events|)
    case SendMsg4 => Accepted(hmac, events, i, j, k) && forall m :: k < m < |events| ==> !events[m].Completed?
    case Complete => Accepted(hmac, events, i, j, k) && exists m :: k < m < |events| && events[m].Completed?
    case Failed =>
      || (First(events, i) && !IsMsg1(events[i].keyFrame))
      || (Third(events, i, j, k) && !Accepted(hmac, events, i, j, k))
  }

  // From Message 1 on, at index i, the key and both nonces are those it brought.
  ghost predicate Keyed(hmac: Hmac, events: seq<Event>, i: nat, h: Context) {
    && i < |events| && events[i].Message?
    && h.ptk == Some(PtkFor(hmac, events[i].keyFrame, events[i].inputs))
    && h.anonce == events[i].keyFrame.nonce && h.snonce == events[i].inputs.snonce
  }

  // The counter is that of Message 1, and of Message 3 once it has been accepted.
  ghost predicate Counted(events: seq<Event>, i: nat, k: nat, h: Context) {
    var at := if h.state.SendMsg4? || h.state.Complete? then k else i;
    at < |events| && events[at].Message? && h.replayCounter == events[at].keyFrame.replayCounter
  }

  ghost predicate Explains(hmac: Hmac, events: seq<Event>, h: Context, i: nat, j: nat, k: nat) {
    && Shape(hmac, events, h.state, i, j, k) && h.version == VersionAfter(events)
    && (!h.state.AwaitMsg1? && !h.state.Failed? ==> Keyed(hmac, events, i, h) && Counted(events, i, k, h))
  }

  // Facts about indices stay when the run goes on.
  lemma Extend(hmac: Hmac, events: seq<Event>, e: Event, i: nat, j: nat, k: nat)
    ensures First(events, i) ==> First(events + [e], i) && (events + [e])[i] == events[i]
    ensures Second(events, i, j) ==> Second(events + [e], i, j)
    ensures Third(events, i, j, k) ==> Third(events + [e], i, j, k) && (events + [e])[k] == events[k]
    ensures Third(events, i, j, k) ==> (Accepted(hmac, events + [e], i, j, k) <==> Accepted(hmac, events, i, j, k))
  {
    if k < |events| {
      assert (events + [e])[..k] == events[..k];
    }
  }

  lemma VersionExtend(events: seq<Event>, e: Event)
    ensures VersionAfter(events + [e]) == if e.Version? then e.version else VersionAfter(events)
  {
    assert (events + [e])[..|events|] == events;
  }

  lemma FromStart(hmac: Hmac, events: seq<Event>, h: Context, e: Event)
    requires h.state.AwaitMsg1? && Explains(hmac, events, h, 0, 0, 0)
    ensures Explains(hmac, events + [e], Step(hmac, h, e), |events|, 0, 0)
  {
    VersionExtend(events, e);
    if e.Message? {
      assert First(events + [e], |events|);
    }
  }

  lemma FromSendMsg2(hmac: Hmac, events: seq<Event>, h: Context, e: Event, i: nat)
    requires h.state.SendMsg2? && Explains(hmac, events, h, i, 0, 0)
    ensures Explains(hmac, events + [e], Step(hmac, h, e), i, |events|, 0)
  {
    VersionExtend(events, e);
    Extend(hmac, events, e, i, 0, 0);
    if e.Msg2Sent? {
      assert Second(events + [e], i, |events|);
    }
  }

  lemma FromAwaitMsg3(hmac: Hmac, events: seq<Event>, h: Context, e: Event, i: nat, j: nat)
    requires h.state.AwaitMsg3? && Explains(hmac, events, h, i, j, 0)
    ensures Explains(hmac, events + [e], Step(hmac, h, e), i, j, |events|)
  {
    VersionExtend(events, e);
    Extend(hmac, events, e, i, j, 0);
    if e.Message? {
      assert Third(events + [e], i, j, |events|);
      assert (events + [e])[..|events|] == events;
    }
  }

  lemma FromLate(hmac: Hmac, events: seq<Event>, h: Context, e: Event, i: nat, j: nat, k: nat)
    requires (h.state.SendMsg4? || h.state.Complete? || h.state.Failed?) && Explains(hmac, events, h, i, j, k)
    ensures Explains(hmac, events + [e], Step(hmac, h, e), i, j, k)
  {
    VersionExtend(events, e);
    LateShape(hmac, events, h, e, i, j, k);
    Extend(hmac, events, e, i, j, k);
  }

  lemma LateShape(hmac: Hmac, events: seq<Event>, h: Context, e: Event, i: nat, j: nat, k: nat)
    requires (h.state.SendMsg4? || h.state.Complete? || h.state.Failed?) && Shape(hmac, events, h.state, i, j, k)
    ensures Shape(hmac, events + [e], Step(hmac, h, e).state, i, j, k)
  {
    Extend(hmac, events, e, i, j, k);
    if h.state.Complete? {
      var m :| k < m < |events| && events[m].Completed?;
      assert (events + [e])[m].Completed?;
    } else if h.state.SendMsg4? && e.Completed? {
      assert (events + [e])[|events|].Completed?;
    }
  }

  lemma IndexIrrelevant(hmac: Hmac, events: seq<Event>, h: Context, i: nat, j: nat, k: nat)
    requires Explains(hmac, events, h, i, j, k)
    ensures h.state.AwaitMsg1? ==> Explains(hmac, events, h, 0, 0, 0)
    ensures h.state.SendMsg2? ==> Explains(hmac, events, h, i, 0, 0)
    ensures h.state.AwaitMsg3? ==> Explains(hmac, events, h, i, j, 0)
  {
  }

  /** After any run the state and the fields are explained by the calls made. */
  lemma {:induction false} RunIsExplained(hmac: Hmac, events: seq<Event>) returns (i: nat, j: nat, k: nat)
    ensures Explains(hmac, events, Run(hmac, Initial(), events), i, j, k)
    decreases |events|
  {
    i, j, k := 0, 0, 0;
    if events != [] {
      var n := |events| - 1;
      var before, e := events[..n], events[n];
      i, j, k := RunIsExplained(hmac, before);
      assert events == before + [e];
      var h := Run(hmac, Initial(), before);
      IndexIrrelevant(hmac, before, h, i, j, k);
      match h.state {
        case AwaitMsg1 =>
          FromStart(hmac, before, h, e);
          i, j, k := n, 0, 0;
        case SendMsg2 =>
          FromSendMsg2(hmac, before, h, e, i);
          j, k := n, 0;
        case AwaitMsg3 =>
          FromAwaitMsg3(hmac, before, h, e, i, j);
          k := n;
        case _ => FromLate(hmac, before, h, e, i, j, k);
      }
    }
  }

  // The indices are determined by the calls.
  lemma IndicesUnique(events: seq<Event>, i: nat, j: nat, k: nat, i': nat, j': nat, k': nat)
    ensures First(events, i) && First(events, i') ==> i == i'
    ensures Second(events, i, j) && Second(events, i', j') ==> j == j'
    ensures Third(events, i, j, k) && Third(events, i', j', k') ==> k == k'
  {
  }

  lemma ShapeUnique(hmac: Hmac, events: seq<Event>, s: HandshakeState, i: nat, j: nat, k: nat,
                    s': HandshakeState, i': nat, j': nat, k': nat)
    requires Shape(hmac, events, s, i, j, k) && Shape(hmac, events, s', i', j', k')
    ensures s == s'
  {
    IndicesUnique(events, i, j, k, i', j', k');
  }

  ghost predicate SomeShape(hmac: Hmac, events: seq<Event>, s: HandshakeState) {
    exists i, j, k :: Shape(hmac, events, s, i, j, k)
  }

  /** The state after any run is s exactly when the calls have the shape of s: Message 4
      is due, or was sent, exactly when Message 1 was the first message, Message 2 was
      then reported sent, and the next message was a Message 3 with a larger counter and
      an integrity code valid under the key of that Message 1. */
  lemma StateExactly(hmac: Hmac, events: seq<Event>, s: HandshakeState)
    ensures Run(hmac, Initial(), events).state == s <==> SomeShape(hmac, events, s)
  {
    var i, j, k := RunIsExplained(hmac, events);
    var t := Run(hmac, Initial(), events).state;
    if SomeShape(hmac, events, s) {
      var i', j', k' :| Shape(hmac, events, s, i', j', k');
      ShapeUnique(hmac, events, t, i, j, k, s, i', j', k');
    }
  }

  // ---- What no later call changes ----

  /** Once Message 1 has been taken the key and the nonces are settled, the counter never
      falls, and a failed or completed handshake stays as it is. */
  lemma {:induction false} Settled(hmac: Hmac, h: Context, events: seq<Event>)
    requires !h.state.AwaitMsg1?
    ensures var r := Run(hmac, h, events);
            && !r.state.AwaitMsg1? && r.ptk == h.ptk && r.anonce == h.anonce && r.snonce == h.snonce
            && r.replayCounter >= h.replayCounter
            && (h.state.Failed? || h.state.Complete? ==> r == h.(version := r.version))
    decreases |events|
  {
    if events != [] {
      Settled(hmac, h, events[..|events| - 1]);
    }
  }

  lemma {:induction false} RunConcat(hmac: Hmac, h: Context, a: seq<Event>, b: seq<Event>)
    ensures Run(hmac, h, a + b) == Run(hmac, Run(hmac, h, a), b)
    decreases |b|
  {
    if b == [] {
      assert a + b == a;
    } else {
      var n := |b| - 1;
      RunConcat(hmac, h, a, b[..n]);
      assert (a + b)[..|a + b| - 1] == a + b[..n];
    }
  }

  /** The same over whole runs: whatever follows, the key of Message 1 stays. */
  lemma KeysNeverChange(hmac: Hmac, events: seq<Event>, later: seq<Event>)
    requires Run(hmac, Initial(), events).ptk.Some?
    ensures var a, b := Run(hmac, Initial(), events), Run(hmac, Initial(), events + later);
            b.ptk == a.ptk && b.anonce == a.anonce && b.snonce == a.snonce && b.replayCounter >= a.replayCounter
  {
    StartHasNoKey(hmac, events);
    RunConcat(hmac, Initial(), events, later);
    Settled(hmac, Run(hmac, Initial(), events), later);
  }

  lemma {:induction false} StartHasNoKey(hmac: Hmac, events: seq<Event>)
    ensures var h := Run(hmac, Initial(), events); h.state.AwaitMsg1? ==> h.ptk.None?
    decreases |events|
  {
    if events != [] {
      StartHasNoKey(hmac, events[..|events| - 1]);
    }
  }

  // ---- Responses ----

  /** Every response is a frame that survives the wire, its integrity code is the one
      computed over the sent octets with that field zeroed. */
  lemma ResponseVerifies(hmac: Hmac, h: Context)
    requires Response(hmac, h).Some?
    ensures var f := Response(hmac, h).value;
            && Parse(Encoded(f)) == Ok(f) && h.ptk.Some? && MicValid(hmac, h.ptk.value.kck, f)
            && |Encoded(f)| == HEADER_LEN + KEY_FIXED_LEN
            && f.keyFrame.value.mic == Mac(hmac, h.ptk.value.kck, MicZeroed(Encoded(f)))[..16]
  {
    var f := Response(hmac, h).value;
    ParseOfEncode(f);
    HeaderParse(f);
    FixedLayout(f.keyFrame.value, 0);
    EncodedWithMic(f, ZEROS_16);
    assert WithMic(f, ZEROS_16) == KeyFrameOf(h.version, ResponseBody(h));
  }

  /** No response can be taken for Message 1 or Message 3: it asks for no acknowledgement
      and carries a code; it is marked secure exactly in Message 4. */
  lemma ResponseFlags(hmac: Hmac, h: Context)
    requires Response(hmac, h).Some?
    ensures var keyInfo := Response(hmac, h).value.keyFrame.value.keyInfo;
            !AckBit(keyInfo) && MicBit(keyInfo) && Pairwise(keyInfo) && (Secure(keyInfo) <==> h.state.SendMsg4?)
  {
    assert Response(hmac, h).value.keyFrame.value.keyInfo == ResponseBody(h).keyInfo;
  }

  // The octets of a response body with this key information.
  ghost function PlainOctets(info: u16, counter: u64, nonce: Nonce, mic: Block): seq<byte> {
    [2, info / 256, info % 256, 0, 0] + BigEndian(8, counter) + nonce + ZEROS_32 + mic + [0, 0]
  }

  lemma PlainBody(info: u16, counter: u64, nonce: Nonce, mic: Block)
    ensures KeyOctets(KeyFrame(2, info, 0, counter, nonce, ZEROS_16, 0, mic, [])) == PlainOctets(info, counter, nonce, mic)
  {
    TwoOctets(info);
    TwoOctets(0);
    ZeroOctets(8);
    assert BigEndian(8, 0) == ZEROS_8;
    assert [2] + [info / 256, info % 256] + [0, 0] == [2, info / 256, info % 256, 0, 0];
    ZerosInside([2, info / 256, info % 256, 0, 0] + BigEndian(8, counter) + nonce, mic);
  }

  lemma ZerosInside(a: seq<byte>, b: seq<byte>)
    ensures a + ZEROS_16 + ZEROS_8 + ZEROS_8 + b + [0, 0] + [] == a + ZEROS_32 + b + [0, 0]
  {
    assert ZEROS_16 + ZEROS_8 + ZEROS_8 == ZEROS_32;
    assert a + ZEROS_16 + ZEROS_8 + ZEROS_8 == a + (ZEROS_16 + ZEROS_8 + ZEROS_8);
  }

  lemma TwoOctets(x: u16)
    ensures BigEndian(2, x) == [x / 256, x % 256]
  {
    assert BigEndian(1, x / 256) == [] + [x / 256 % 256];
  }

  lemma {:induction false} ZeroOctets(n: nat)
    ensures forall k :: 0 <= k < n ==> BigEndian(n, 0)[k] == 0
  {
    if n > 0 {
      ZeroOctets(n - 1);
    }
  }

  /** A response octet for octet: a key frame of 95 octets without key data, the
      descriptor version 2 and the flags of Message 2 or of Message 4, the counter it answers,
      the nonce in Message 2 only, zeros, and the code. */
  lemma ResponseOnTheWire(hmac: Hmac, h: Context)
    requires Response(hmac, h).Some?
    ensures Response(hmac, h).value.keyFrame.Some?
    ensures var f := Response(hmac, h).value;
            Encoded(f)
            == [h.version, 3, 0, 95]
               + if h.state.SendMsg2? then PlainOctets(0x010A, h.replayCounter, h.snonce, f.keyFrame.value.mic)
                 else PlainOctets(0x030A, h.replayCounter, ZEROS_32, f.keyFrame.value.mic)
  {
    var f := Response(hmac, h).value;
    var kf := f.keyFrame.value;
    PlainBody(kf.keyInfo, h.replayCounter, kf.nonce, kf.mic);
    TwoOctets(95);
    assert |KeyOctets(kf)| == 95;
    assert [h.version, 3] + [0, 95] == [h.version, 3, 0, 95];
  }

  /** Which message a received frame can be is told by its two octets of key information. */
  lemma MessagesOnTheWire(data: seq<byte>)
    requires Parse(data).Ok? && Parse(data).value.packetType.Key?
    ensures |data| >= HEADER_LEN + KEY_FIXED_LEN && Parse(data).value.keyFrame.Some?
    ensures var kf, hi, lo := Parse(data).value.keyFrame.value, data[5], data[6];
            && (IsMsg1(kf) <==> lo >= 0x80 && lo % 16 >= 8 && hi % 2 == 0)
            && (IsMsg3(kf) <==> lo >= 0x80 && lo % 16 >= 8 && hi % 2 == 1 && lo % 128 >= 0x40)
  {
    KeyInfoOnTheWire(data);
    FlagsInOctets(data[5], data[6]);
  }

  lemma FlagsInOctets(hi: byte, lo: byte)
    ensures var keyInfo := 256 * hi as nat + lo as nat;
            && (AckBit(keyInfo) <==> lo >= 0x80) && (Install(keyInfo) <==> lo % 128 >= 0x40)
            && (Pairwise(keyInfo) <==> lo % 16 >= 8) && (MicBit(keyInfo) <==> hi % 2 == 1)
  {
    FlagAt3(hi, lo);
    FlagAt6(hi, lo);
    FlagAt7(hi, lo);
    assert (256 * hi as nat + lo as nat) / 0x0100 == hi as nat;
  }

  lemma FlagAt3(hi: byte, lo: byte)
    ensures (256 * hi as nat + lo as nat) / 0x0008 % 2 == 1 <==> lo % 16 >= 8
  {
    UpperHalf(16 * hi as nat + lo as nat / 16, lo as nat % 16);
  }

  lemma UpperHalf(q: nat, r: nat)
    requires r < 16
    ensures (16 * q + r) / 8 % 2 == 1 <==> r >= 8
  {
    if r >= 8 {
      assert (16 * q + r) / 8 == 2 * q + 1;
    } else {
      assert (16 * q + r) / 8 == 2 * q;
    }
  }

  lemma FlagAt6(hi: byte, lo: byte)
    ensures (256 * hi as nat + lo as nat) / 0x0040 % 2 == 1 <==> lo % 128 >= 0x40
  {
    UpperSixtyFour(2 * hi as nat + lo as nat / 128, lo as nat % 128);
  }

  lemma UpperSixtyFour(q: nat, r: nat)
    requires r < 128
    ensures (128 * q + r) / 64 % 2 == 1 <==> r >= 64
  {
    if r >= 64 {
      assert (128 * q + r) / 64 == 2 * q + 1;
    } else {
      assert (128 * q + r) / 64 == 2 * q;
    }
  }

  lemma FlagAt7(hi: byte, lo: byte)
    ensures (256 * hi as nat + lo as nat) / 0x0080 % 2 == 1 <==> lo >= 0x80
  {
    assert (256 * hi as nat + lo as nat) / 0x0080 == 2 * hi as nat + lo / 128;
  }

  /** In every reachable state a response is due exactly in the two sending states, and
      it answers the message it follows: Message 2 with the nonce of this handshake and
      the counter of Message 1, Message 4 with the counter of Message 3. */
  lemma ResponseDueExactly(hmac: Hmac, events: seq<Event>)
    ensures var h := Run(hmac, Initial(), events);
            Response(hmac, h).Some? <==> h.state.SendMsg2? || h.state.SendMsg4?
    ensures var r := Response(hmac, Run(hmac, Initial(), events));
            r.Some? ==> exists i, at :: i <= at && Answers(hmac, events, i, at, r.value)
  {
    var i, j, k := RunIsExplained(hmac, events);
    var h := Run(hmac, Initial(), events);
    if h.state.SendMsg2? {
      assert Answers(hmac, events, i, i, Response(hmac, h).value);
    } else if h.state.SendMsg4? {
      assert Answers(hmac, events, i, k, Response(hmac, h).value);
    }
  }

  ghost predicate Answers(hmac: Hmac, events: seq<Event>, i: nat, at: nat, f: Frame) {
    && First(events, i) && i <= at < |events| && events[at].Message?
    && f.version == VersionAfter(events) && f.keyFrame.Some?
    && f.keyFrame.value.replayCounter == events[at].keyFrame.replayCounter
    && f.keyFrame.value.nonce == (if at == i then events[i].inputs.snonce else ZEROS_32)
    && MicValid(hmac, PtkFor(hmac, events[i].keyFrame, events[i].inputs).kck, f)
  }

  // ---- Message 3 on the wire ----

  /** Over canonical octets of the recorded version, Message 3 is taken exactly when its
      flags are right, its counter is larger and the sixteen octets of the code are those
      computed over the received octets with that field zeroed. */
  lemma Msg3OverTheWire(hmac: Hmac, h: Context, data: seq<byte>, i: Inputs)
    requires h.state.AwaitMsg3? && h.ptk.Some?
    requires Parse(data).Ok? && Parse(data).value.packetType.Key? && Canonical(data) && h.version == data[0]
    ensures |data| >= HEADER_LEN + KEY_FIXED_LEN && Parse(data).value.keyFrame.Some?
    ensures var kf := Parse(data).value.keyFrame.value;
            Process(hmac, h, kf, i).state.SendMsg4?
            <==> && IsMsg3(kf) && kf.replayCounter > h.replayCounter
                 && data[MIC_AT..MIC_AT + 16] == Mac(hmac, h.ptk.value.kck, MicZeroed(data))[..16]
  {
    var f := Parse(data).value;
    MicCoversTheWire(data, h.version);
    MicParsed(data, f);
    assert WithMic(f, ZEROS_16).(version := h.version) == WithMic(KeyFrameOf(h.version, f.keyFrame.value), ZEROS_16);
  }

  // ---- Honest authenticators ----

  /** Against an authenticator that derives the key in its own argument order, every run
      in which Message 2 was sent and an honest Message 3 came next gets to Message 4, with
      both sides holding the same key. */
  lemma HonestRun(hmac: Hmac, events: seq<Event>, i: nat, j: nat, k: nat, theirs: Ptk)
    requires Third(events, i, j, k) && IsMsg3(events[k].keyFrame)
    requires events[i].keyFrame.replayCounter < events[k].keyFrame.replayCounter
    requires var mine := events[i].inputs;
             theirs == PtkSpec(hmac, mine.pmk, mine.snonce, events[i].keyFrame.nonce, mine.ownMac, mine.apMac)
    requires MicValid(hmac, theirs.kck, KeyFrameOf(VersionAfter(events[..k]), events[k].keyFrame))
    ensures var h := Run(hmac, Initial(), events); (h.state.SendMsg4? || h.state.Complete?) && h.ptk == Some(theirs)
  {
    var mine := events[i].inputs;
    PtkAgreement(hmac, mine.pmk, events[i].keyFrame.nonce, mine.snonce, mine.apMac, mine.ownMac);
    assert Accepted(hmac, events, i, j, k);
    var i', j', k' := RunIsExplained(hmac, events);
    var h := Run(hmac, Initial(), events);
    var s := if exists m :: k < m < |events| && events[m].Completed? then Complete else SendMsg4;
    assert Shape(hmac, events, s, i, j, k);
    ShapeUnique(hmac, events, s, i, j, k, h.state, i', j', k');
    IndicesUnique(events, i, j, k, i', j', k');
  }

  // ---- Replay counters of a session ----

  /** Accepts a frame only if its counter exceeds the last accepted one. */
  class SupplicantSession {
    var last: Option<u64>

    constructor ()
      ensures last == None
    {
      last := None;
    }

    method Accept(kf: KeyFrame) returns (ok: bool)
      modifies this
      ensures (ok, last) == AcceptSpec(old(last), kf.replayCounter)
    {
      if last.Some? && kf.replayCounter <= last.value {
        return false;
      }
      last := Some(kf.replayCounter);
      ok := true;
    }
  }

  ghost function AcceptSpec(last: Option<u64>, counter: u64): (bool, Option<u64>) {
    if last.Some? && counter <= last.value then (false, last) else (true, Some(counter))
  }

  ghost function LastAfter(counters: seq<u64>): Option<u64> {
    if counters == [] then None
    else AcceptSpec(LastAfter(counters[..|counters| - 1]), counters[|counters| - 1]).1
  }

  /** What a session remembers is the largest counter it was ever shown. */
  lemma {:induction false} LastIsLargest(counters: seq<u64>)
    ensures LastAfter(counters).None? <==> counters == []
    ensures LastAfter(counters).Some? ==>
              LastAfter(counters).value in counters && forall m :: 0 <= m < |counters| ==> counters[m] <= LastAfter(counters).value
    decreases |counters|
  {
    if counters != [] {
      var n := |counters| - 1;
      LastIsLargest(counters[..n]);
      assert forall m :: 0 <= m < n ==> counters[m] == counters[..n][m];
    }
  }

  /** A frame is accepted exactly when its counter exceeds every counter shown before it,
      accepted or not, so no counter is ever accepted twice. */
  lemma {:induction false} AcceptsExactly(counters: seq<u64>, next: u64)
    ensures AcceptSpec(LastAfter(counters), next).0 <==> forall m :: 0 <= m < |counters| ==> counters[m] < next
  {
    LastIsLargest(counters);
  }
}
