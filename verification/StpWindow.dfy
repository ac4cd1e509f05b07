/** Every run of the transmit window. */
module StpWindow {
  import opened Wrappers
  import opened Bytes
  import opened StpFrame
  import opened StpTransport

  datatype Event = Send(frame: Frame) | Acknowledge(sequence: byte) | Retry(sequence: byte)

  /** A transport with the history an observer keeps: every frame enqueued, which of
      them each slot carries, how often each was handed back for retransmission, and
      how many left by acknowledgement or by exhaustion. */
  datatype Link = Link(
    tx: Tx,
    history: seq<Frame>,
    owner: seq<Option<nat>>,
    resent: seq<nat>,
    acked: nat,
    exhausted: nat)

  ghost function Start(retryLimit: nat): Link {
    Link(Tx([None, None, None, None, None, None, None], 0, retryLimit), [],
         [None, None, None, None, None, None, None], [], 0, 0)
  }

  // Slot by slot: a slot carries a frame of the history, still under its retry limit.
  ghost predicate SlotInv(l: Link, i: nat)
    requires i < WINDOW_SIZE && |l.owner| == WINDOW_SIZE && |l.resent| == |l.history|
  {
    match l.tx.window[i]
    case None => l.owner[i].None?
    case Some(e) =>
      && l.owner[i].Some? && l.owner[i].value < |l.history|
      && e.data == Encoded(l.history[l.owner[i].value])
      && e.sequence == l.owner[i].value % 8
      && e.retries == l.resent[l.owner[i].value]
  }

  /** What every run keeps, whatever the order of acknowledgements. */
  ghost predicate LinkInv(l: Link) {
    && |l.owner| == WINDOW_SIZE && |l.resent| == |l.history|
    && l.tx.next == |l.history| % 8
    && (forall i :: 0 <= i < WINDOW_SIZE ==> SlotInv(l, i))
    && (forall i, j :: 0 <= i < j < WINDOW_SIZE && l.owner[i].Some? ==> l.owner[i] != l.owner[j])
    && (forall id :: 0 <= id < |l.history| ==> l.resent[id] <= l.tx.retryLimit)
    && |l.history| == l.acked + l.exhausted + InFlight(l.tx.window)
  }

  // The caller numbers each frame with the transport's next sequence number.
  ghost function Stamped(f: Frame, sequence: byte): Frame {
    f.(header := f.header.(sequence := sequence))
  }

  ghost function Step(l: Link, e: Event): Link
    requires LinkInv(l)
  {
    match e
    case Send(frame) =>
      var f := Stamped(frame, l.tx.next);
      var (tx, r) := EnqueueSpec(l.tx, f);
      if r.Err? then l
      else l.(tx := tx, history := l.history + [f], resent := l.resent + [0],
              owner := l.owner[r.value := Some(|l.history|)])
    case Acknowledge(sequence) =>
      var (tx, r) := AcknowledgeSpec(l.tx, sequence);
      if r.Err? then l
      else l.(tx := tx, acked := l.acked + 1, owner := l.owner[Find(l.tx.window, sequence).value := None])
    case Retry(sequence) =>
      var (tx, r) := RetransmitSpec(l.tx, sequence);
      match Find(l.tx.window, sequence)
      case None => l
      case Some(i) =>
        if r.Err? then l.(tx := tx, exhausted := l.exhausted + 1, owner := l.owner[i := None])
        else
          assert SlotInv(l, i);
          l.(tx := tx, resent := l.resent[l.owner[i].value := l.resent[l.owner[i].value] + 1])
  }

  lemma {:induction false} InFlightUpdate(w: seq<Option<TxEntry>>, i: nat, slot: Option<TxEntry>)
    requires i < |w|
    ensures InFlight(w[i := slot]) == InFlight(w) - (if w[i].Some? then 1 else 0) + (if slot.Some? then 1 else 0)
  {
    if i > 0 {
      assert w[i := slot][1..] == w[1..][i - 1 := slot];
      InFlightUpdate(w[1..], i - 1, slot);
    } else {
      assert w[i := slot][1..] == w[1..];
    }
  }

  lemma SendKeepsInv(l: Link, frame: Frame)
    requires LinkInv(l)
    ensures LinkInv(Step(l, Send(frame)))
  {
    var free := FirstFree(l.tx.window);
    if free.Some? {
      var l' := Step(l, Send(frame));
      SentSlots(l, frame, free.value);
      SentOwners(l, l'.owner, free.value);
      SentCounts(l, frame, free.value);
    }
  }

  lemma SentCounts(l: Link, frame: Frame, i: nat)
    requires LinkInv(l) && FirstFree(l.tx.window) == Some(i)
    ensures var l' := Step(l, Send(frame));
            && l'.tx.next == |l'.history| % 8 && |l'.resent| == |l'.history|
            && (forall id :: 0 <= id < |l'.history| ==> l'.resent[id] <= l'.tx.retryLimit)
            && |l'.history| == l'.acked + l'.exhausted + InFlight(l'.tx.window)
  {
    NextNumber(|l.history|);
    var entry := Some(EntryFor(Stamped(frame, l.tx.next)));
    InFlightUpdate(l.tx.window, i, entry);
    assert Step(l, Send(frame)).tx.window == l.tx.window[i := entry];
  }

  lemma NextNumber(n: nat)
    ensures (n % 8 + 1) % 8 == (n + 1) % 8
  {
  }

  // The new frame's owner is not yet in the window.
  lemma SentOwners(l: Link, owner: seq<Option<nat>>, i: nat)
    requires LinkInv(l) && i < WINDOW_SIZE && owner == l.owner[i := Some(|l.history|)]
    ensures forall j, k :: 0 <= j < k < WINDOW_SIZE && owner[j].Some? ==> owner[j] != owner[k]
  {
    forall j | 0 <= j < WINDOW_SIZE && l.owner[j].Some? ensures l.owner[j].value < |l.history| {
      assert SlotInv(l, j);
    }
  }

  lemma SentSlots(l: Link, frame: Frame, i: nat)
    requires LinkInv(l) && FirstFree(l.tx.window) == Some(i)
    ensures var l' := Step(l, Send(frame));
            && |l'.owner| == WINDOW_SIZE && |l'.resent| == |l'.history|
            && forall j :: 0 <= j < WINDOW_SIZE ==> SlotInv(l', j)
  {
    var l' := Step(l, Send(frame));
    forall j | 0 <= j < WINDOW_SIZE ensures SlotInv(l', j) {
      assert SlotInv(l, j);
    }
  }

  lemma FreeKeepsInv(l: Link, e: Event, i: nat)
    requires LinkInv(l) && i < WINDOW_SIZE && l.tx.window[i].Some?
    requires var l' := Step(l, e);
             && l'.tx == l.tx.(window := l.tx.window[i := None]) && l'.owner == l.owner[i := None]
             && l'.history == l.history && l'.resent == l.resent
             && l'.acked + l'.exhausted == l.acked + l.exhausted + 1
    ensures LinkInv(Step(l, e))
  {
    InFlightUpdate(l.tx.window, i, None);
    forall j | 0 <= j < WINDOW_SIZE ensures SlotInv(Step(l, e), j) {
      assert SlotInv(l, j);
    }
  }

  lemma RetryKeepsInv(l: Link, sequence: byte, i: nat)
    requires LinkInv(l) && Find(l.tx.window, sequence) == Some(i)
    requires l.tx.window[i].value.retries < l.tx.retryLimit
    ensures LinkInv(Step(l, Retry(sequence)))
  {
    assert SlotInv(l, i);
    var l' := Step(l, Retry(sequence));
    InFlightUpdate(l.tx.window, i, l'.tx.window[i]);
    forall j | 0 <= j < WINDOW_SIZE ensures SlotInv(l', j) {
      assert SlotInv(l, j);
    }
  }

  /** Every step keeps the link's invariant. */
  lemma StepKeepsInv(l: Link, e: Event)
    requires LinkInv(l)
    ensures LinkInv(Step(l, e))
  {
    match e
    case Send(frame) => SendKeepsInv(l, frame);
    case Acknowledge(sequence) =>
      var at := Find(l.tx.window, sequence);
      if at.Some? { FreeKeepsInv(l, e, at.value); }
    case Retry(sequence) =>
      var at := Find(l.tx.window, sequence);
      if at.Some? {
        if l.tx.window[at.value].value.retries >= l.tx.retryLimit {
          FreeKeepsInv(l, e, at.value);
        } else {
          RetryKeepsInv(l, sequence, at.value);
        }
      }
  }

  ghost function Run(retryLimit: nat, events: seq<Event>): (l: Link)
    ensures LinkInv(l)
  {
    if events == [] then Start(retryLimit)
    else
      var before := Run(retryLimit, events[..|events| - 1]);
      StepKeepsInv(before, events[|events| - 1]);
      Step(before, events[|events| - 1])
  }

  /** Accounting over every run: frames are conserved, at most seven are in flight,
      and no frame is handed back more than the retry limit allows. */
  lemma FramesAreConserved(retryLimit: nat, events: seq<Event>)
    ensures var l := Run(retryLimit, events);
            && |l.history| == l.acked + l.exhausted + InFlight(l.tx.window)
            && InFlight(l.tx.window) <= WINDOW_SIZE
            && forall id :: 0 <= id < |l.history| ==> l.resent[id] <= l.tx.retryLimit
  {
  }

  /** What a retransmission hands back is the encoding of the frame its slot carries,
      as it was enqueued. */
  lemma RetransmitReturnsTheOriginal(retryLimit: nat, events: seq<Event>, sequence: byte)
    requires RetransmitSpec(Run(retryLimit, events).tx, sequence).1.Ok?
    ensures var l := Run(retryLimit, events);
            var i := Find(l.tx.window, sequence).value;
            && l.owner[i].Some? && l.owner[i].value < |l.history| && l.owner[i].value % 8 == sequence
            && RetransmitSpec(l.tx, sequence).1.value == Encoded(l.history[l.owner[i].value])
            && Step(l, Retry(sequence)).resent[l.owner[i].value] == l.resent[l.owner[i].value] + 1 <= l.tx.retryLimit
  {
    var l := Run(retryLimit, events);
    var i := Find(l.tx.window, sequence).value;
    assert SlotInv(l, i);
  }

  /** How a retransmission ends, after any run: it is refused as stale exactly when no frame in
      flight has the number; the limit is reported exactly when the frame it finds has been
      handed back that often, and that frame then leaves the window. */
  lemma RetryEndsExactly(retryLimit: nat, events: seq<Event>, sequence: byte)
    ensures var l := Run(retryLimit, events);
            var r, at := RetransmitSpec(l.tx, sequence).1, Find(l.tx.window, sequence);
            && (r == Err(StaleAck(sequence)) <==> forall i :: 0 <= i < WINDOW_SIZE ==> !Holds(l.tx.window[i], sequence))
            && (r == Err(RetryLimitExceeded(sequence, l.tx.retryLimit))
                <==> at.Some? && SlotInv(l, at.value) && l.resent[l.owner[at.value].value] == l.tx.retryLimit)
            && (r == Err(RetryLimitExceeded(sequence, l.tx.retryLimit)) ==> Step(l, Retry(sequence)).owner[at.value].None?)
  {
    var l := Run(retryLimit, events);
    var at := Find(l.tx.window, sequence);
    if at.Some? {
      assert SlotInv(l, at.value);
    }
  }

  // ---- Distinct sequence numbers ----

  ghost predicate DistinctSequences(w: Window) {
    forall i, j :: 0 <= i < j < WINDOW_SIZE && w[i].Some? && w[j].Some? ==> w[i].value.sequence != w[j].value.sequence
  }

  /** One step keeps in-flight sequence numbers distinct unless it enqueues into a
      window in which the next number is still in flight. */
  lemma DistinctKeptExactly(l: Link, e: Event)
    requires LinkInv(l) && DistinctSequences(l.tx.window)
    ensures DistinctSequences(Step(l, e).tx.window)
            <==> !(e.Send? && FirstFree(l.tx.window).Some? && Find(l.tx.window, l.tx.next).Some?)
  {
    if e.Send? && FirstFree(l.tx.window).Some? {
      var at, free := Find(l.tx.window, l.tx.next), FirstFree(l.tx.window).value;
      var w' := Step(l, e).tx.window;
      assert w'[free].value.sequence == l.tx.next;
      if at.Some? {
        assert w'[at.value] == l.tx.window[at.value] && at.value != free;
      }
    }
  }

  // The slot an event would free, if any.
  ghost function Frees(l: Link, e: Event): Option<nat> {
    match e
    case Send(_) => None
    case Acknowledge(sequence) => Find(l.tx.window, sequence)
    case Retry(sequence) =>
      match Find(l.tx.window, sequence)
      case None => None
      case Some(i) => if l.tx.window[i].value.retries >= l.tx.retryLimit then Some(i) else None
  }

  /** Frames leave oldest first. */
  ghost predicate OldestFirst(l: Link, e: Event)
    requires LinkInv(l)
  {
    var freed := Frees(l, e);
    freed.Some? ==>
      forall j :: 0 <= j < WINDOW_SIZE && l.owner[j].Some? && l.owner[freed.value].Some? ==>
        l.owner[freed.value].value <= l.owner[j].value
  }

  ghost predicate Carried(l: Link, id: nat) {
    exists i :: 0 <= i < |l.owner| && l.owner[i] == Some(id)
  }

  /** In flight is exactly the youngest stretch of the history. */
  ghost predicate Contiguous(l: Link) {
    forall id: nat :: Carried(l, id) <==> l.acked + l.exhausted <= id < |l.history|
  }

  lemma CarriedAfterUpdate(l: Link, l': Link, i: nat, slot: Option<nat>, id: nat)
    requires i < |l.owner| && l'.owner == l.owner[i := slot]
    requires forall j :: 0 <= j < |l.owner| && j != i && l.owner[i].Some? ==> l.owner[j] != l.owner[i]
    ensures Carried(l', id) <==> (Carried(l, id) && l.owner[i] != Some(id)) || slot == Some(id)
  {
    if Carried(l, id) && l.owner[i] != Some(id) {
      var k :| 0 <= k < |l.owner| && l.owner[k] == Some(id);
      assert l'.owner[k] == Some(id);
    }
    if slot == Some(id) {
      assert l'.owner[i] == Some(id);
    }
    if Carried(l', id) && slot != Some(id) {
      var k :| 0 <= k < |l'.owner| && l'.owner[k] == Some(id);
      assert l.owner[k] == Some(id);
    }
  }

  lemma StepKeepsContiguous(l: Link, e: Event)
    requires LinkInv(l) && Contiguous(l) && OldestFirst(l, e)
    ensures Contiguous(Step(l, e))
  {
    var l' := Step(l, e);
    var freed := Frees(l, e);
    if e.Send? {
      var free := FirstFree(l.tx.window);
      if free.Some? {
        assert SlotInv(l, free.value);
        forall id: nat ensures Carried(l', id) <==> l'.acked + l'.exhausted <= id < |l'.history| {
          CarriedAfterUpdate(l, l', free.value, Some(|l.history|), id);
        }
      }
    } else if freed.Some? {
      var i := freed.value;
      assert SlotInv(l, i);
      var oldest := l.owner[i].value;
      OldestIsTheNext(l, i);
      forall id: nat ensures Carried(l', id) <==> l'.acked + l'.exhausted <= id < |l'.history| {
        CarriedAfterUpdate(l, l', i, None, id);
      }
    } else {
      assert l'.owner == l.owner;
      assert forall id: nat :: Carried(l', id) <==> Carried(l, id);
    }
  }

  lemma OldestIsTheNext(l: Link, i: nat)
    requires LinkInv(l) && Contiguous(l) && i < WINDOW_SIZE && l.owner[i].Some?
    requires forall j :: 0 <= j < WINDOW_SIZE && l.owner[j].Some? ==> l.owner[i].value <= l.owner[j].value
    ensures l.owner[i].value == l.acked + l.exhausted
  {
    assert Carried(l, l.owner[i].value);
    assert Carried(l, l.acked + l.exhausted);
  }

  lemma ContiguousIsDistinct(l: Link)
    requires LinkInv(l) && Contiguous(l)
    ensures DistinctSequences(l.tx.window)
  {
    var w := l.tx.window;
    forall i, j | 0 <= i < j < WINDOW_SIZE && w[i].Some? && w[j].Some?
      ensures w[i].value.sequence != w[j].value.sequence
    {
      SlotsDiffer(l, i, j);
    }
  }

  // Owners less than eight apart have different numbers.
  lemma SlotsDiffer(l: Link, i: nat, j: nat)
    requires LinkInv(l) && Contiguous(l) && i < j < WINDOW_SIZE && l.tx.window[i].Some? && l.tx.window[j].Some?
    ensures l.tx.window[i].value.sequence != l.tx.window[j].value.sequence
  {
    assert SlotInv(l, i) && SlotInv(l, j);
    var a, b := l.owner[i].value, l.owner[j].value;
    assert a != b && Carried(l, a) && Carried(l, b);
    CloseResiduesDiffer(a, b, l.acked + l.exhausted);
  }

  lemma CloseResiduesDiffer(a: nat, b: nat, low: nat)
    requires a != b && low <= a < low + 8 && low <= b < low + 8
    ensures a % 8 != b % 8
  {
  }

  /** Over every run in which frames leave oldest first, what is in flight is the
      youngest stretch of the history, its sequence numbers are distinct, and an
      acknowledgement frees exactly the one frame it names. */
  lemma {:induction false} OldestFirstRuns(retryLimit: nat, events: seq<Event>)
    requires forall k :: 0 <= k < |events| ==> OldestFirst(Run(retryLimit, events[..k]), events[k])
    ensures var l := Run(retryLimit, events);
            Contiguous(l) && DistinctSequences(l.tx.window)
    decreases |events|
  {
    if events == [] {
      assert forall id: nat :: !Carried(Start(retryLimit), id);
    } else {
      var front := events[..|events| - 1];
      forall k | 0 <= k < |front| ensures OldestFirst(Run(retryLimit, front[..k]), front[k]) {
        assert front[..k] == events[..k];
      }
      OldestFirstRuns(retryLimit, front);
      StepKeepsContiguous(Run(retryLimit, front), events[|events| - 1]);
    }
    ContiguousIsDistinct(Run(retryLimit, events));
  }

  lemma AckFreesExactlyItsFrame(l: Link, sequence: byte, id: nat)
    requires LinkInv(l) && Contiguous(l) && Carried(l, id) && id % 8 == sequence
    ensures var l' := Step(l, Acknowledge(sequence));
            && l'.acked == l.acked + 1
            && forall other: nat :: Carried(l', other) <==> Carried(l, other) && other != id
  {
    ContiguousIsDistinct(l);
    var k :| 0 <= k < |l.owner| && l.owner[k] == Some(id);
    assert SlotInv(l, k);
    assert Holds(l.tx.window[k], sequence);
    var i := Find(l.tx.window, sequence).value;
    assert SlotInv(l, i);
    var l' := Step(l, Acknowledge(sequence));
    forall other: nat ensures Carried(l', other) <==> Carried(l, other) && other != id {
      CarriedAfterUpdate(l, l', i, None, other);
    }
  }

  // ---- Why oldest first matters ----

  // One frame is sent and never acknowledged; each later frame is acknowledged at once.
  ghost function StuckOldest(f: Frame, rounds: nat): seq<Event> {
    if rounds == 0 then [Send(f)] else StuckOldest(f, rounds - 1) + [Send(f), Acknowledge(rounds % 8)]
  }

  lemma RunSnoc(retryLimit: nat, events: seq<Event>, e: Event)
    ensures Run(retryLimit, events + [e]) == Step(Run(retryLimit, events), e)
  {
    assert (events + [e])[..|events + [e]| - 1] == events;
  }

  ghost predicate OnlyFirstCarried(l: Link, n: nat) {
    && LinkInv(l) && |l.history| == n + 1
    && l.owner == [Some(0), None, None, None, None, None, None]
  }

  lemma {:induction false} StuckOldestState(retryLimit: nat, f: Frame, rounds: nat)
    requires rounds < 8
    ensures OnlyFirstCarried(Run(retryLimit, StuckOldest(f, rounds)), rounds)
  {
    if rounds == 0 {
      StuckStart(retryLimit, f);
    } else {
      var before := StuckOldest(f, rounds - 1);
      StuckOldestState(retryLimit, f, rounds - 1);
      assert StuckOldest(f, rounds) == (before + [Send(f)]) + [Acknowledge(rounds % 8)];
      StuckRound(retryLimit, f, rounds, before);
    }
  }

  lemma StuckStart(retryLimit: nat, f: Frame)
    ensures OnlyFirstCarried(Run(retryLimit, [Send(f)]), 0)
  {
    assert [] + [Send(f)] == [Send(f)];
    RunSnoc(retryLimit, [], Send(f));
  }

  lemma StuckRound(retryLimit: nat, f: Frame, n: nat, before: seq<Event>)
    requires 1 <= n < 8 && OnlyFirstCarried(Run(retryLimit, before), n - 1)
    ensures OnlyFirstCarried(Run(retryLimit, (before + [Send(f)]) + [Acknowledge(n % 8)]), n)
  {
    RunSnoc(retryLimit, before, Send(f));
    RunSnoc(retryLimit, before + [Send(f)], Acknowledge(n % 8));
    SecondSent(Run(retryLimit, before), f, n);
    SecondFreed(Run(retryLimit, before + [Send(f)]), n);
  }

  // The first two slots carry the stuck frame and frame n.
  ghost predicate FirstAndNth(l: Link, n: nat) {
    && LinkInv(l) && |l.history| == n + 1
    && l.owner == [Some(0), Some(n), None, None, None, None, None]
  }

  lemma SecondSent(l: Link, f: Frame, n: nat)
    requires 1 <= n < 8 && OnlyFirstCarried(l, n - 1)
    ensures FirstAndNth(Step(l, Send(f)), n)
  {
    StepKeepsInv(l, Send(f));
    assert SlotInv(l, 0) && SlotInv(l, 1);
    assert FirstFree(l.tx.window) == Some(1);
  }

  lemma SecondFreed(l: Link, n: nat)
    requires 1 <= n < 8 && FirstAndNth(l, n)
    ensures OnlyFirstCarried(Step(l, Acknowledge(n % 8)), n)
  {
    StepKeepsInv(l, Acknowledge(n % 8));
    assert SlotInv(l, 0) && SlotInv(l, 1);
    assert Find(l.tx.window, n % 8) == Some(1);
  }

  /** Acknowledged out of order, two frames in flight can carry the same number:
      after seven rounds past a stuck first frame, the next frame is numbered 0 too. */
  lemma OutOfOrderAcksCollide(retryLimit: nat, f: Frame)
    ensures !DistinctSequences(Run(retryLimit, StuckOldest(f, 7) + [Send(f)]).tx.window)
  {
    StuckOldestState(retryLimit, f, 7);
    RunSnoc(retryLimit, StuckOldest(f, 7), Send(f));
    NextCollides(Run(retryLimit, StuckOldest(f, 7)), f);
  }

  lemma NextCollides(l: Link, f: Frame)
    requires OnlyFirstCarried(l, 7)
    ensures !DistinctSequences(Step(l, Send(f)).tx.window)
  {
    assert SlotInv(l, 0) && SlotInv(l, 1);
    assert FirstFree(l.tx.window) == Some(1);
    var w := Step(l, Send(f)).tx.window;
    assert w[0].value.sequence == 0 && w[1].value.sequence == 0;
  }
}
