/**
  Two-party sessions: X3DH roots crossed into two directional ratchets, and the
  safety of every run of two sessions over a hostile network.
  */
module KryptaSession {
  import opened Wrappers
  import opened KryptaKeys
  import Ratchet = KryptaRatchet
  import opened KryptaX3dh
  import opened KryptaDelivery

  datatype PeerIdentity = Unverified(key: PublicIdentity) | Verified(key: PublicIdentity)

  /** The state of one end of a session. */
  datatype Endpoint = Endpoint(
    identity: IdentityKeyPair,
    peer: PeerIdentity,
    send: Ratchet.State,
    recv: Ratchet.State,
    initiatorMsg: Option<InitiatorMessage>)

  // ---- Specification of one call ----

  ghost function InitiateSpec(ours: IdentityKeyPair, bundle: PreKeyBundle, ephemeral: Entropy, oneTime: Entropy)
    : Result<Endpoint, Error>
  {
    var (keys, msg) :- InitiateSession(ours, bundle, ephemeral, oneTime);
    Ok(Endpoint(ours, Unverified(bundle.identityKey),
                Ratchet.Init(keys.initiatorToResponder), Ratchet.Init(keys.responderToInitiator), Some(msg)))
  }

  ghost function RespondSpec(ours: IdentityKeyPair, bundle: OwnedBundle, msg: InitiatorMessage): Result<Endpoint, Error> {
    var keys :- RespondSession(bundle, msg);
    Ok(Endpoint(ours, Unverified(msg.identityKey),
                Ratchet.Init(keys.responderToInitiator), Ratchet.Init(keys.initiatorToResponder), None))
  }

  ghost function EncryptSpec(e: Endpoint, plaintext: Bytes): (Endpoint, Message) {
    var (send, msg) := Ratchet.Encrypt(e.send, plaintext);
    (e.(send := send), msg)
  }

  ghost function DecryptSpec(e: Endpoint, msg: Message): (Endpoint, Result<Bytes, Ratchet.Error>) {
    var (recv, r) := Ratchet.Decrypt(e.recv, msg);
    (if r.Ok? then e.(recv := recv, peer := Verified(e.peer.key)) else e.(recv := recv), r)
  }

  // ---- The mutable session ----

  class Session {
    const identity: IdentityKeyPair
    const initiatorMsg: Option<InitiatorMessage>
    const sendRatchet: Ratchet.RatchetState
    const recvRatchet: Ratchet.RatchetState
    var peerIdentity: PeerIdentity

    ghost predicate Valid()
      reads this, recvRatchet
    {
      sendRatchet != recvRatchet && recvRatchet.Valid()
    }

    ghost function View(): Endpoint
      reads this, sendRatchet, recvRatchet
    {
      Endpoint(identity, peerIdentity, sendRatchet.View(), recvRatchet.View(), initiatorMsg)
    }

    constructor (ours: IdentityKeyPair, peer: PublicIdentity, sendRoot: Key, recvRoot: Key, msg: Option<InitiatorMessage>)
      ensures Valid() && fresh(sendRatchet) && fresh(recvRatchet)
      ensures View() == Endpoint(ours, Unverified(peer), Ratchet.Init(sendRoot), Ratchet.Init(recvRoot), msg)
    {
      identity, peerIdentity, initiatorMsg := ours, Unverified(peer), msg;
      sendRatchet := new Ratchet.RatchetState(sendRoot);
      recvRatchet := new Ratchet.RatchetState(recvRoot);
    }

    static method Initiate(ours: IdentityKeyPair, bundle: PreKeyBundle, ephemeral: Entropy, oneTime: Entropy)
      returns (r: Result<Session, Error>)
      ensures r.Ok? ==> r.value.Valid() && InitiateSpec(ours, bundle, ephemeral, oneTime) == Ok(r.value.View())
      ensures r.Err? ==> InitiateSpec(ours, bundle, ephemeral, oneTime) == Err(r.error)
    {
      var agreed := InitiateSession(ours, bundle, ephemeral, oneTime);
      if agreed.Err? {
        return Err(agreed.error);
      }
      var (keys, msg) := agreed.value;
      var s := new Session(ours, bundle.identityKey, keys.initiatorToResponder, keys.responderToInitiator, Some(msg));
      r := Ok(s);
    }

    static method Respond(ours: IdentityKeyPair, bundle: OwnedBundle, msg: InitiatorMessage)
      returns (r: Result<Session, Error>)
      ensures r.Ok? ==> r.value.Valid() && RespondSpec(ours, bundle, msg) == Ok(r.value.View())
      ensures r.Err? ==> RespondSpec(ours, bundle, msg) == Err(r.error)
    {
      var agreed := RespondSession(bundle, msg);
      if agreed.Err? {
        return Err(agreed.error);
      }
      var keys := agreed.value;
      var s := new Session(ours, msg.identityKey, keys.responderToInitiator, keys.initiatorToResponder, None);
      r := Ok(s);
    }

    method EncryptMessage(plaintext: Bytes) returns (msg: Message)
      requires Valid()
      modifies sendRatchet
      ensures Valid() && (View(), msg) == EncryptSpec(old(View()), plaintext)
    {
      msg := sendRatchet.EncryptMessage(plaintext);
    }

    method DecryptMessage(msg: Message) returns (r: Result<Bytes, Ratchet.Error>)
      requires Valid()
      modifies this`peerIdentity, recvRatchet
      ensures Valid() && (View(), r) == DecryptSpec(old(View()), msg)
    {
      r := recvRatchet.DecryptMessage(msg);
      if r.Err? {
        return;
      }
      if peerIdentity.Unverified? {
        peerIdentity := Verified(peerIdentity.key);
      }
    }
  }

  // ---- One direction of a run ----

  datatype Delivery = Delivery(counter: u32, plaintext: Bytes)

  /** What has crossed one direction so far: everything sent, everything accepted. */
  datatype Log = Log(sent: seq<Message>, accepted: seq<Delivery>)

  ghost predicate Accepted(log: Log, c: int) {
    exists k :: 0 <= k < |log.accepted| && log.accepted[k].counter == c
  }

  ghost predicate InSent(sent: seq<Message>, ciphertext: Ciphertext) {
    exists j :: 0 <= j < |sent| && sent[j].ciphertext == ciphertext
  }

  // A box under one of this chain's message keys is among those sent in its direction.
  ghost predicate SealedThere(root: Key, sent: seq<Message>, msg: Message) {
    forall i: nat :: msg.ciphertext.Sealed? && msg.ciphertext.key == KeyAt(root, i) ==> InSent(sent, msg.ciphertext)
  }

  /** What every run keeps of one direction. */
  ghost predicate DirectionInv(root: Key, sender: Ratchet.State, receiver: Ratchet.State, log: Log) {
    && |log.sent| < U32_MODULUS
    && sender.counter == |log.sent| && sender.chainKey == ChainAt(root, |log.sent|)
    && (forall c :: 0 <= c < |log.sent| ==>
          log.sent[c].ciphertext.Sealed? && log.sent[c] == Genuine(root, c, log.sent[c].ciphertext.plaintext))
    && Ratchet.CacheSound(root, receiver) && receiver.counter <= |log.sent|
    && (forall k :: 0 <= k < |log.accepted| ==>
          && log.accepted[k].counter < receiver.counter
          && log.sent[log.accepted[k].counter] == Genuine(root, log.accepted[k].counter, log.accepted[k].plaintext))
    && (forall j, k :: 0 <= j < k < |log.accepted| ==> log.accepted[j].counter != log.accepted[k].counter)
    && (forall c :: Accepted(log, c) ==> !Ratchet.Cached(receiver.skipped, c))
    && (forall c {:trigger Ratchet.Cached(receiver.skipped, c)} :: 0 <= c < receiver.counter ==>
          Accepted(log, c) || Ratchet.Cached(receiver.skipped, c) || BelowAll(c, receiver.skipped))
  }

  lemma SendStep(root: Key, sender: Ratchet.State, receiver: Ratchet.State, log: Log, text: Bytes)
    requires DirectionInv(root, sender, receiver, log) && |log.sent| + 1 < U32_MODULUS
    ensures var (sender', msg) := Ratchet.Encrypt(sender, text);
            DirectionInv(root, sender', receiver, log.(sent := log.sent + [msg]))
  {
    var (sender', msg) := Ratchet.Encrypt(sender, text);
    var log' := log.(sent := log.sent + [msg]);
    assert msg == Genuine(root, |log.sent|, text);
    assert forall c :: Accepted(log', c) <==> Accepted(log, c);
  }

  // A message the receiver accepts is the one its peer sealed at that counter.
  lemma AcceptedIsSent(root: Key, sender: Ratchet.State, receiver: Ratchet.State, log: Log, msg: Message)
    requires DirectionInv(root, sender, receiver, log) && SealedThere(root, log.sent, msg)
    requires Ratchet.Decrypt(receiver, msg).1.Ok?
    ensures msg.counter < |log.sent| && log.sent[msg.counter] == msg
    ensures msg == Genuine(root, msg.counter, Ratchet.Decrypt(receiver, msg).1.value)
  {
    var p := Ratchet.Decrypt(receiver, msg).1.value;
    AcceptsExactly(root, receiver, msg, p);
    assert msg.ciphertext.key == KeyAt(root, msg.counter);
    var j :| 0 <= j < |log.sent| && log.sent[j].ciphertext == msg.ciphertext;
    MessageKeysDistinct(root, j, msg.counter);
  }

  lemma ReceiveStep(root: Key, sender: Ratchet.State, receiver: Ratchet.State, log: Log, msg: Message)
    requires DirectionInv(root, sender, receiver, log) && SealedThere(root, log.sent, msg)
    requires Ratchet.Decrypt(receiver, msg).1.Ok?
    ensures var (receiver', r) := Ratchet.Decrypt(receiver, msg);
            DirectionInv(root, sender, receiver', log.(accepted := log.accepted + [Delivery(msg.counter, r.value)]))
  {
    var (receiver', r) := Ratchet.Decrypt(receiver, msg);
    AcceptedIsSent(root, sender, receiver, log, msg);
    AcceptsExactly(root, receiver, msg, r.value);
    AcceptanceEffect(root, receiver, msg);
    var log' := log.(accepted := log.accepted + [Delivery(msg.counter, r.value)]);
    AcceptedGrows(log, log', Delivery(msg.counter, r.value));
    forall c | 0 <= c < receiver'.counter
      ensures Accepted(log', c) || Ratchet.Cached(receiver'.skipped, c) || BelowAll(c, receiver'.skipped)
    {
      if c < receiver.counter && !Accepted(log, c) && !Ratchet.Cached(receiver.skipped, c) {
        assert BelowAll(c, receiver.skipped);
        forall i | 0 <= i < |receiver'.skipped| ensures c < receiver'.skipped[i].counter {
          assert Ratchet.Cached(receiver'.skipped, receiver'.skipped[i].counter);
        }
      }
    }
  }

  lemma AcceptedGrows(log: Log, log': Log, d: Delivery)
    requires log' == log.(accepted := log.accepted + [d])
    ensures forall c :: Accepted(log', c) <==> Accepted(log, c) || c == d.counter
  {
    assert log'.accepted[|log.accepted|] == d;
    forall c | Accepted(log, c) ensures Accepted(log', c) {
      var k :| 0 <= k < |log.accepted| && log.accepted[k].counter == c;
      assert log'.accepted[k].counter == c;
    }
  }

  // ---- Runs of a whole session ----

  datatype World = World(alice: Endpoint, bob: Endpoint, toBob: Log, toAlice: Log)

  datatype Event = AliceSends(text: Bytes) | BobSends(text: Bytes) | AliceReceives(msg: Message) | BobReceives(msg: Message)

  ghost function Received(log: Log, msg: Message, r: Result<Bytes, Ratchet.Error>): Log {
    if r.Ok? then log.(accepted := log.accepted + [Delivery(msg.counter, r.value)]) else log
  }

  ghost function Step(w: World, e: Event): World {
    match e
    case AliceSends(text) =>
      var (alice, msg) := EncryptSpec(w.alice, text);
      w.(alice := alice, toBob := w.toBob.(sent := w.toBob.sent + [msg]))
    case BobSends(text) =>
      var (bob, msg) := EncryptSpec(w.bob, text);
      w.(bob := bob, toAlice := w.toAlice.(sent := w.toAlice.sent + [msg]))
    case AliceReceives(msg) =>
      var (alice, r) := DecryptSpec(w.alice, msg);
      w.(alice := alice, toAlice := Received(w.toAlice, msg, r))
    case BobReceives(msg) =>
      var (bob, r) := DecryptSpec(w.bob, msg);
      w.(bob := bob, toBob := Received(w.toBob, msg, r))
  }

  ghost function Start(alice: Endpoint, bob: Endpoint): World {
    World(alice, bob, Log([], []), Log([], []))
  }

  ghost function Run(start: World, events: seq<Event>): World {
    if events == [] then start else Step(Run(start, events[..|events| - 1]), events[|events| - 1])
  }

  /** Ideal AEAD: whatever arrives, under whatever counter, a box sealed with a message key
      of either chain was sealed by one of the two, for the other or not. */
  ghost predicate Unforged(keys: SessionKeys, w: World, msg: Message) {
    forall i: nat :: msg.ciphertext.Sealed?
                     && (msg.ciphertext.key == KeyAt(keys.initiatorToResponder, i)
                         || msg.ciphertext.key == KeyAt(keys.responderToInitiator, i))
                     ==> InSent(w.toBob.sent, msg.ciphertext) || InSent(w.toAlice.sent, msg.ciphertext)
  }

  /** What the network may do next: anything but forge, while the 32-bit message
      counters last. In particular it may hand a message back to its own sender. */
  ghost predicate Admissible(keys: SessionKeys, w: World, e: Event) {
    match e
    case AliceSends(_) => |w.toBob.sent| + 1 < U32_MODULUS
    case BobSends(_) => |w.toAlice.sent| + 1 < U32_MODULUS
    case AliceReceives(msg) => Unforged(keys, w, msg)
    case BobReceives(msg) => Unforged(keys, w, msg)
  }

  ghost predicate AdmissibleRun(keys: SessionKeys, start: World, events: seq<Event>) {
    forall k :: 0 <= k < |events| ==> Admissible(keys, Run(start, events[..k]), events[k])
  }

  ghost predicate WorldInv(keys: SessionKeys, w: World) {
    && Apart(keys)
    && DirectionInv(keys.initiatorToResponder, w.alice.send, w.bob.recv, w.toBob)
    && DirectionInv(keys.responderToInitiator, w.bob.send, w.alice.recv, w.toAlice)
    && (w.alice.peer.Verified? <==> w.toAlice.accepted != [])
    && (w.bob.peer.Verified? <==> w.toBob.accepted != [])
  }

  // With separate chains, what is sealed under a key of one was sent in its direction.
  lemma SentOnItsOwnChain(keys: SessionKeys, w: World, msg: Message)
    requires WorldInv(keys, w) && Unforged(keys, w, msg)
    ensures SealedThere(keys.initiatorToResponder, w.toBob.sent, msg)
    ensures SealedThere(keys.responderToInitiator, w.toAlice.sent, msg)
  {
  }

  lemma StepKeepsInv(keys: SessionKeys, w: World, e: Event)
    requires WorldInv(keys, w) && Admissible(keys, w, e)
    ensures WorldInv(keys, Step(w, e))
  {
    match e
    case AliceSends(text) => SendStep(keys.initiatorToResponder, w.alice.send, w.bob.recv, w.toBob, text);
    case BobSends(text) => SendStep(keys.responderToInitiator, w.bob.send, w.alice.recv, w.toAlice, text);
    case AliceReceives(msg) =>
      SentOnItsOwnChain(keys, w, msg);
      if DecryptSpec(w.alice, msg).1.Ok? {
        ReceiveStep(keys.responderToInitiator, w.bob.send, w.alice.recv, w.toAlice, msg);
      } else {
        Ratchet.FailedDecryptIsANoOp(w.alice.recv, msg);
      }
    case BobReceives(msg) =>
      SentOnItsOwnChain(keys, w, msg);
      if DecryptSpec(w.bob, msg).1.Ok? {
        ReceiveStep(keys.initiatorToResponder, w.alice.send, w.bob.recv, w.toBob, msg);
      } else {
        Ratchet.FailedDecryptIsANoOp(w.bob.recv, msg);
      }
  }

  /** Two endpoints whose roots are separate and crossed, with peers still unverified. */
  ghost predicate Established(keys: SessionKeys, alice: Endpoint, bob: Endpoint) {
    && Apart(keys)
    && alice.send == Ratchet.Init(keys.initiatorToResponder) && bob.recv == Ratchet.Init(keys.initiatorToResponder)
    && bob.send == Ratchet.Init(keys.responderToInitiator) && alice.recv == Ratchet.Init(keys.responderToInitiator)
    && alice.peer.Unverified? && bob.peer.Unverified?
  }

  lemma {:induction false} RunKeepsInv(keys: SessionKeys, alice: Endpoint, bob: Endpoint, events: seq<Event>)
    requires Established(keys, alice, bob) && AdmissibleRun(keys, Start(alice, bob), events)
    ensures WorldInv(keys, Run(Start(alice, bob), events))
  {
    var start := Start(alice, bob);
    if events != [] {
      var front := events[..|events| - 1];
      forall k | 0 <= k < |front| ensures Admissible(keys, Run(start, front[..k]), front[k]) {
        assert front[..k] == events[..k];
      }
      RunKeepsInv(keys, alice, bob, front);
      StepKeepsInv(keys, Run(start, front), events[|events| - 1]);
    }
  }

  /** Safety of one direction, in a run's own terms: each counter is accepted at
      most once, and what is accepted is what the peer sealed there. */
  ghost predicate Safe(log: Log) {
    && (forall j, k :: 0 <= j < k < |log.accepted| ==> log.accepted[j].counter != log.accepted[k].counter)
    && (forall k :: 0 <= k < |log.accepted| ==>
          && log.accepted[k].counter < |log.sent|
          && log.sent[log.accepted[k].counter].counter == log.accepted[k].counter
          && log.sent[log.accepted[k].counter].ciphertext.Sealed?
          && log.sent[log.accepted[k].counter].ciphertext.plaintext == log.accepted[k].plaintext)
  }

  /** What holds of every world two sessions can get to: both directions are safe, no two
      messages are sealed under one key, each side is who it was and names the other as its
      peer, and has verified it exactly when something from it has been accepted. */
  ghost predicate SafeWorld(keys: SessionKeys, alice: IdentityKeyPair, bob: IdentityKeyPair, w: World) {
    && Safe(w.toBob) && Safe(w.toAlice) && KeysDiffer(w.toBob.sent + w.toAlice.sent)
    && w.alice.identity == alice && w.alice.peer.key == bob.PublicKey()
    && w.bob.identity == bob && w.bob.peer.key == alice.PublicKey()
    && (w.alice.peer.Verified? <==> w.toAlice.accepted != [])
    && (w.bob.peer.Verified? <==> w.toBob.accepted != [])
    && Ratchet.CacheSound(keys.initiatorToResponder, w.bob.recv)
    && Ratchet.CacheSound(keys.responderToInitiator, w.alice.recv)
  }

  /** End to end. For any two identities and any honest bundle, with or without a
      one-time pre-key: if initiating succeeds, so does responding to its message, and
      every admissible run of the two sessions stays safe. */
  lemma SessionSafety(
    alice: IdentityKeyPair, bob: IdentityKeyPair, bundle: OwnedBundle,
    ephemeral: Entropy, oneTime: Entropy, events: seq<Event>)
    requires Honest(bob, bundle)
    requires InitiateSpec(alice, bundle.publicBundle, ephemeral, oneTime).Ok?
    ensures var keys := InitiateSession(alice, bundle.publicBundle, ephemeral, oneTime).value.0;
            var a := InitiateSpec(alice, bundle.publicBundle, ephemeral, oneTime).value;
            var rb := RespondSpec(bob, bundle, a.initiatorMsg.value);
            && rb.Ok?
            && Established(keys, a, rb.value)
            && (AdmissibleRun(keys, Start(a, rb.value), events) ==>
                  SafeWorld(keys, alice, bob, Run(Start(a, rb.value), events)))
  {
    BothEstablished(alice, bob, bundle, ephemeral, oneTime);
    var keys := InitiateSession(alice, bundle.publicBundle, ephemeral, oneTime).value.0;
    var a := InitiateSpec(alice, bundle.publicBundle, ephemeral, oneTime).value;
    var b := RespondSpec(bob, bundle, a.initiatorMsg.value).value;
    if AdmissibleRun(keys, Start(a, b), events) {
      RunIsSafe(keys, a, b, events);
    }
  }

  lemma BothEstablished(
    alice: IdentityKeyPair, bob: IdentityKeyPair, bundle: OwnedBundle, ephemeral: Entropy, oneTime: Entropy)
    requires Honest(bob, bundle)
    requires InitiateSpec(alice, bundle.publicBundle, ephemeral, oneTime).Ok?
    ensures var keys := InitiateSession(alice, bundle.publicBundle, ephemeral, oneTime).value.0;
            var a := InitiateSpec(alice, bundle.publicBundle, ephemeral, oneTime).value;
            && a.initiatorMsg.Some?
            && var rb := RespondSpec(bob, bundle, a.initiatorMsg.value);
            && rb.Ok? && Established(keys, a, rb.value)
            && a.identity == alice && a.peer.key == bob.PublicKey()
            && rb.value.identity == bob && rb.value.peer.key == alice.PublicKey()
  {
    Agreement(alice, bob, bundle, ephemeral, oneTime);
    var a := InitiateSpec(alice, bundle.publicBundle, ephemeral, oneTime).value;
    AgreedKeysAreApart(alice, bundle.publicBundle, ephemeral, oneTime, bundle, a.initiatorMsg.value);
  }

  lemma RunIsSafe(keys: SessionKeys, alice: Endpoint, bob: Endpoint, events: seq<Event>)
    requires Established(keys, alice, bob) && AdmissibleRun(keys, Start(alice, bob), events)
    requires alice.peer.key == bob.identity.PublicKey() && bob.peer.key == alice.identity.PublicKey()
    ensures SafeWorld(keys, alice.identity, bob.identity, Run(Start(alice, bob), events))
  {
    RunKeepsInv(keys, alice, bob, events);
    PeersStay(Start(alice, bob), events);
    AllKeysDiffer(keys, Run(Start(alice, bob), events));
  }

  lemma {:induction false} PeersStay(start: World, events: seq<Event>)
    ensures var w := Run(start, events);
            && w.alice.identity == start.alice.identity && w.alice.peer.key == start.alice.peer.key
            && w.bob.identity == start.bob.identity && w.bob.peer.key == start.bob.peer.key
  {
    if events != [] {
      PeersStay(start, events[..|events| - 1]);
    }
  }

  /** All sealed, and no two under the same key, whatever the nonces. */
  ghost predicate KeysDiffer(sent: seq<Message>) {
    && (forall i :: 0 <= i < |sent| ==> sent[i].ciphertext.Sealed?)
    && forall i, j :: 0 <= i < j < |sent| ==> sent[i].ciphertext.key != sent[j].ciphertext.key
  }

  lemma AllKeysDiffer(keys: SessionKeys, w: World)
    requires WorldInv(keys, w)
    ensures KeysDiffer(w.toBob.sent + w.toAlice.sent)
  {
    var sent, n := w.toBob.sent + w.toAlice.sent, |w.toBob.sent|;
    forall i | 0 <= i < |sent|
      ensures sent[i].ciphertext.Sealed?
      ensures sent[i].ciphertext.key == if i < n then KeyAt(keys.initiatorToResponder, i)
                                        else KeyAt(keys.responderToInitiator, i - n)
    {
    }
    forall i, j | 0 <= i < j < |sent| ensures sent[i].ciphertext.key != sent[j].ciphertext.key {
      if sent[i].ciphertext.key == sent[j].ciphertext.key {
        if j < n {
          MessageKeysDistinct(keys.initiatorToResponder, i, j);
        } else if n <= i {
          MessageKeysDistinct(keys.responderToInitiator, i - n, j - n);
        }
      }
    }
  }

  /** Reflection: in every reachable world a box handed back to the side that sealed it,
      under any counter, is refused and changes nothing there. */
  lemma ReflectionIsRefused(keys: SessionKeys, alice: Endpoint, bob: Endpoint, events: seq<Event>, c: nat, counter: u32)
    requires Established(keys, alice, bob) && AdmissibleRun(keys, Start(alice, bob), events)
    ensures var w := Run(Start(alice, bob), events);
            && (c < |w.toBob.sent| ==>
                  DecryptSpec(w.alice, Message(counter, w.toBob.sent[c].ciphertext)) == (w.alice, Err(Ratchet.Decryption)))
            && (c < |w.toAlice.sent| ==>
                  DecryptSpec(w.bob, Message(counter, w.toAlice.sent[c].ciphertext)) == (w.bob, Err(Ratchet.Decryption)))
  {
    RunKeepsInv(keys, alice, bob, events);
    var w := Run(Start(alice, bob), events);
    if c < |w.toBob.sent| {
      OtherChainIsRefused(keys.responderToInitiator, w.alice.recv, Message(counter, w.toBob.sent[c].ciphertext));
    }
    if c < |w.toAlice.sent| {
      OtherChainIsRefused(keys.initiatorToResponder, w.bob.recv, Message(counter, w.toAlice.sent[c].ciphertext));
    }
  }

  lemma OtherChainIsRefused(root: Key, receiver: Ratchet.State, msg: Message)
    requires Ratchet.CacheSound(root, receiver)
    requires forall i: nat :: msg.ciphertext.Sealed? ==> msg.ciphertext.key != KeyAt(root, i)
    ensures Ratchet.Decrypt(receiver, msg) == (receiver, Err(Ratchet.Decryption))
  {
    var r := Ratchet.Decrypt(receiver, msg).1;
    if r.Ok? {
      AcceptsExactly(root, receiver, msg, r.value);
    } else {
      Ratchet.FailedDecryptIsANoOp(receiver, msg);
    }
  }

  // Handing over the message sent at counter c succeeds exactly when c is servable.
  ghost predicate DeliversExactly(receiver: Ratchet.State, log: Log, c: nat)
    requires c < |log.sent|
  {
    var r := Ratchet.Decrypt(receiver, log.sent[c]).1;
    && log.sent[c].ciphertext.Sealed?
    && (r.Ok? <==> Servable(receiver, c)) && (r.Ok? ==> r.value == log.sent[c].ciphertext.plaintext)
    && (Accepted(log, c) ==> !Servable(receiver, c))
    && (c < receiver.counter && !Accepted(log, c) && !Servable(receiver, c) ==> BelowAll(c, receiver.skipped))
  }

  lemma DirectionDelivers(root: Key, sender: Ratchet.State, receiver: Ratchet.State, log: Log, c: nat)
    requires DirectionInv(root, sender, receiver, log) && c < |log.sent|
    ensures DeliversExactly(receiver, log, c)
  {
    var msg := log.sent[c];
    AcceptsExactly(root, receiver, msg, msg.ciphertext.plaintext);
    if p :| Ratchet.Decrypt(receiver, msg).1 == Ok(p) {
      AcceptsExactly(root, receiver, msg, p);
    }
  }

  /** Delivery. In every reachable world and in both directions, handing over a genuine
      message succeeds exactly when its counter is still servable, with the text that
      was sent; a counter already accepted never is, and one that was neither accepted
      nor kept lies below the whole cache. */
  lemma DeliverySucceedsExactly(keys: SessionKeys, alice: Endpoint, bob: Endpoint, events: seq<Event>, c: nat)
    requires Established(keys, alice, bob) && AdmissibleRun(keys, Start(alice, bob), events)
    ensures var w := Run(Start(alice, bob), events);
            && (c < |w.toBob.sent| ==> DeliversExactly(w.bob.recv, w.toBob, c))
            && (c < |w.toAlice.sent| ==> DeliversExactly(w.alice.recv, w.toAlice, c))
  {
    RunKeepsInv(keys, alice, bob, events);
    var w := Run(Start(alice, bob), events);
    if c < |w.toBob.sent| {
      DirectionDelivers(keys.initiatorToResponder, w.alice.send, w.bob.recv, w.toBob, c);
    }
    if c < |w.toAlice.sent| {
      DirectionDelivers(keys.responderToInitiator, w.bob.send, w.alice.recv, w.toAlice, c);
    }
  }
}
