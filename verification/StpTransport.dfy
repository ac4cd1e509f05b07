/** The sliding transmit window, and the transport that joins it to the receive parser. */
module StpTransport {
  import opened Wrappers
  import opened Bytes
  import opened StpFrame
  import opened StpReceiver

  const WINDOW_SIZE: nat := 7

  datatype Error = WindowFull | StaleAck(sequence: byte) | RetryLimitExceeded(sequence: byte, limit: nat)

  /** A frame awaiting acknowledgement. */
  datatype TxEntry = TxEntry(data: seq<byte>, sequence: byte, retries: nat)

  type Window = w: seq<Option<TxEntry>> | |w| == WINDOW_SIZE witness [None, None, None, None, None, None, None]

  datatype Tx = Tx(window: Window, next: byte, retryLimit: nat)

  // ---- Specification of one call ----

  // The first free slot.
  function FirstFree(w: seq<Option<TxEntry>>): (r: Option<nat>)
    ensures r.Some? ==> r.value < |w| && w[r.value].None? && forall i :: 0 <= i < r.value ==> w[i].Some?
    ensures r.None? ==> forall i :: 0 <= i < |w| ==> w[i].Some?
  {
    if w == [] then None
    else if w[0].None? then Some(0)
    else match FirstFree(w[1..])
      case None => None
      case Some(i) => Some(i + 1)
  }

  predicate Holds(slot: Option<TxEntry>, sequence: byte) {
    slot.Some? && slot.value.sequence == sequence
  }

  // The first slot holding `sequence`.
  function Find(w: seq<Option<TxEntry>>, sequence: byte): (r: Option<nat>)
    ensures r.Some? ==> r.value < |w| && Holds(w[r.value], sequence) && forall i :: 0 <= i < r.value ==> !Holds(w[i], sequence)
    ensures r.None? ==> forall i :: 0 <= i < |w| ==> !Holds(w[i], sequence)
  {
    if w == [] then None
    else if Holds(w[0], sequence) then Some(0)
    else match Find(w[1..], sequence)
      case None => None
      case Some(i) => Some(i + 1)
  }

  function InFlight(w: seq<Option<TxEntry>>): (n: nat)
    ensures n <= |w|
  {
    if w == [] then 0 else (if w[0].Some? then 1 else 0) + InFlight(w[1..])
  }

  ghost function EntryFor(f: Frame): TxEntry {
    TxEntry(Encoded(f), f.header.sequence, 0)
  }

  ghost function EnqueueSpec(t: Tx, f: Frame): (Tx, Result<nat, Error>) {
    match FirstFree(t.window)
    case None => (t, Err(WindowFull))
    case Some(i) => (t.(window := t.window[i := Some(EntryFor(f))], next := (t.next + 1) % 8), Ok(i))
  }

  ghost function AcknowledgeSpec(t: Tx, sequence: byte): (Tx, Result<(), Error>) {
    match Find(t.window, sequence)
    case None => (t, Err(StaleAck(sequence)))
    case Some(i) => (t.(window := t.window[i := None]), Ok(()))
  }

  ghost function RetransmitSpec(t: Tx, sequence: byte): (Tx, Result<seq<byte>, Error>) {
    match Find(t.window, sequence)
    case None => (t, Err(StaleAck(sequence)))
    case Some(i) =>
      var e := t.window[i].value;
      if e.retries >= t.retryLimit then
        (t.(window := t.window[i := None]), Err(RetryLimitExceeded(sequence, t.retryLimit)))
      else
        (t.(window := t.window[i := Some(e.(retries := e.retries + 1))]), Ok(e.data))
  }

  // ---- The mutable transport ----

  class Transport {
    const txWindow: array<Option<TxEntry>>
    var txSeq: byte
    const rxParser: RxParser
    const retryLimit: nat

    ghost predicate Valid()
      reads this, txWindow, rxParser, rxParser.buf
    {
      txWindow.Length == WINDOW_SIZE && rxParser.Valid()
    }

    ghost function View(): Tx
      requires txWindow.Length == WINDOW_SIZE
      reads this, txWindow
    {
      Tx(txWindow[..], txSeq, retryLimit)
    }

    constructor (retries: nat)
      ensures Valid() && fresh(txWindow) && fresh(rxParser) && fresh(rxParser.buf)
      ensures View() == Tx([None, None, None, None, None, None, None], 0, retries)
      ensures rxParser.View() == Parser(WaitSof, [], 0, 0)
    {
      txWindow := new Option<TxEntry>[WINDOW_SIZE](i => None);
      txSeq, retryLimit := 0, retries;
      rxParser := new RxParser();
    }

    method Enqueue(f: Frame) returns (r: Result<nat, Error>)
      requires Valid() && |f.payload| <= MAX_PAYLOAD
      modifies this, txWindow
      ensures Valid() && (View(), r) == EnqueueSpec(old(View()), f)
    {
      for i := 0 to WINDOW_SIZE
        invariant txWindow[..] == old(txWindow[..]) && txSeq == old(txSeq)
        invariant forall j :: 0 <= j < i ==> txWindow[j].Some?
      {
        if txWindow[i].None? {
          var data := new byte[MAX_ENCODED](k => 0);
          var len := Encode(f, data);
          txWindow[i] := Some(TxEntry(data[..len], f.header.sequence, 0));
          txSeq := (txSeq + 1) % 8;
          return Ok(i);
        }
      }
      r := Err(WindowFull);
    }

    method Acknowledge(sequence: byte) returns (r: Result<(), Error>)
      requires Valid()
      modifies txWindow
      ensures Valid() && (View(), r) == AcknowledgeSpec(old(View()), sequence)
    {
      for i := 0 to WINDOW_SIZE
        invariant txWindow[..] == old(txWindow[..])
        invariant forall j :: 0 <= j < i ==> !Holds(txWindow[j], sequence)
      {
        if Holds(txWindow[i], sequence) {
          txWindow[i] := None;
          return Ok(());
        }
      }
      r := Err(StaleAck(sequence));
    }

    method Retransmit(sequence: byte) returns (r: Result<seq<byte>, Error>)
      requires Valid()
      modifies txWindow
      ensures Valid() && (View(), r) == RetransmitSpec(old(View()), sequence)
    {
      var position := Find(txWindow[..], sequence);
      if position.None? {
        return Err(StaleAck(sequence));
      }
      var i := position.value;
      var entry := txWindow[i].value;
      if entry.retries >= retryLimit {
        txWindow[i] := None;
        return Err(RetryLimitExceeded(sequence, retryLimit));
      }
      txWindow[i] := Some(entry.(retries := entry.retries + 1));
      r := Ok(entry.data);
    }

    method ReceiveByte(b: byte) returns (raw: Option<seq<byte>>)
      requires Valid()
      modifies rxParser, rxParser.buf
      ensures Valid() && View() == old(View())
      ensures var (rx, complete) := Push(old(rxParser.View()), b);
              rxParser.View() == rx && raw == if complete then Some(rx.data) else None
      ensures forall frames :: Step(Run(old(rxParser.View()), frames), b)
                               == Run(rxParser.View(), if raw.Some? then frames + [raw.value] else frames)
    {
      var complete := rxParser.PushByte(b);
      if complete {
        var data := rxParser.TakeRaw();
        raw := Some(data);
      } else {
        raw := None;
      }
    }
  }
}
