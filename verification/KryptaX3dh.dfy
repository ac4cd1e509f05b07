/** X3DH-style key agreement over symbolic X25519, Ed25519 and HKDF. */
module KryptaX3dh {
  import opened Wrappers
  import opened KryptaKeys

  datatype Error = InvalidKey | InvalidSignature | KeyGeneration | KeyAgreement

  /** An Ed25519 public key: a curve point, given by its Montgomery form and the
      sign bit that form forgets, or bytes that encode no point. */
  datatype PublicIdentity = Identity(montgomery: Point, sign: bool) | NotAPoint

  datatype IdentityKeyPair = IdentityKeyPair(secret: Scalar, sign: bool) {
    function PublicKey(): PublicIdentity {
      Identity(Public(secret, NOTHING), sign)
    }

    function Sign(data: Point): Signature {
      Signed(PublicKey(), data)
    }
  }

  datatype Signature = Signed(signer: PublicIdentity, data: Point) | Malformed

  datatype PreKeyBundle = PreKeyBundle(
    identityKey: PublicIdentity,
    signedPrekey: Point,
    prekeySignature: Signature,
    oneTimePrekey: Option<Point>)

  datatype OwnedBundle = OwnedBundle(
    publicBundle: PreKeyBundle,
    signedPrekeyPrivate: Scalar,
    oneTimePrekeyPrivate: Option<Scalar>,
    identityPrivate: Scalar)

  datatype SessionKeys = SessionKeys(sharedSecret: Key, initiatorToResponder: Key, responderToInitiator: Key)

  datatype InitiatorMessage = InitiatorMessage(
    identityKey: PublicIdentity,
    ephemeralKey: Point,
    oneTimeEphemeralKey: Option<Point>)

  /** What the random generator yields: a fresh scalar, or a failure. */
  type Entropy = Option<Scalar>

  function ToX25519(key: PublicIdentity): Result<Point, Error> {
    match key
    case Identity(p, _) => Ok(p)
    case NotAPoint => Err(InvalidKey)
  }

  function Verify(key: PublicIdentity, data: Point, signature: Signature): Result<(), Error> {
    if key.NotAPoint? then Err(InvalidKey)
    else if signature == Signed(key, data) then Ok(())
    else Err(InvalidSignature)
  }

  function Generate(entropy: Entropy): Result<Scalar, Error> {
    match entropy
    case Some(s) => Ok(s)
    case None => Err(KeyGeneration)
  }

  function Agree(secret: Scalar, peer: Point): Result<Leg, Error> {
    match peer
    case Public(other, _) => Ok(DiffieHellman(secret, other))
    case LowOrder => Err(KeyAgreement)
  }

  function DeriveKeys(ikm: seq<Leg>): SessionKeys {
    SessionKeys(Hkdf(ikm, SharedSecret), Hkdf(ikm, InitiatorToResponder), Hkdf(ikm, ResponderToInitiator))
  }

  function CreateBundle(identity: IdentityKeyPair, prekey: Entropy, oneTime: Entropy): Result<OwnedBundle, Error> {
    var spk :- Generate(prekey);
    var signature := identity.Sign(Public(spk, NOTHING));
    var otpk :- Generate(oneTime);
    Ok(OwnedBundle(
         PreKeyBundle(identity.PublicKey(), Public(spk, NOTHING), signature, Some(Public(otpk, NOTHING))),
         spk, Some(otpk), identity.secret))
  }

  function InitiateSession(ours: IdentityKeyPair, bundle: PreKeyBundle, ephemeral: Entropy, oneTime: Entropy)
    : Result<(SessionKeys, InitiatorMessage), Error>
  {
    var _ :- Verify(bundle.identityKey, bundle.signedPrekey, bundle.prekeySignature);
    var theirIdentity :- ToX25519(bundle.identityKey);
    var ek :- Generate(ephemeral);
    var identityPrekey :- Agree(ours.secret, bundle.signedPrekey);
    var ephemeralIdentity :- Agree(ek, theirIdentity);
    var ephemeralPrekey :- Agree(ek, bundle.signedPrekey);
    var ikm := [identityPrekey, ephemeralIdentity, ephemeralPrekey];
    match bundle.oneTimePrekey
    case None =>
      Ok((DeriveKeys(ikm), InitiatorMessage(ours.PublicKey(), Public(ek, NOTHING), None)))
    case Some(otpk) =>
      var ek2 :- Generate(oneTime);
      var leg :- Agree(ek2, otpk);
      Ok((DeriveKeys(ikm + [leg]), InitiatorMessage(ours.PublicKey(), Public(ek, NOTHING), Some(Public(ek2, NOTHING)))))
  }

  function RespondSession(bundle: OwnedBundle, msg: InitiatorMessage): Result<SessionKeys, Error> {
    var theirIdentity :- ToX25519(msg.identityKey);
    var identityPrekey :- Agree(bundle.signedPrekeyPrivate, theirIdentity);
    var ephemeralIdentity :- Agree(bundle.identityPrivate, msg.ephemeralKey);
    var ephemeralPrekey :- Agree(bundle.signedPrekeyPrivate, msg.ephemeralKey);
    var ikm := [identityPrekey, ephemeralIdentity, ephemeralPrekey];
    match (bundle.oneTimePrekeyPrivate, msg.oneTimeEphemeralKey)
    case (Some(otpk), Some(ek2)) =>
      var leg :- Agree(otpk, ek2);
      Ok(DeriveKeys(ikm + [leg]))
    case (None, None) => Ok(DeriveKeys(ikm))
    case _ => Err(KeyAgreement)
  }

  /** A bundle whose public half its owner signed, with or without a one-time key. */
  ghost predicate Honest(owner: IdentityKeyPair, bundle: OwnedBundle) {
    && bundle.publicBundle == PreKeyBundle(
         owner.PublicKey(),
         Public(bundle.signedPrekeyPrivate, NOTHING),
         owner.Sign(Public(bundle.signedPrekeyPrivate, NOTHING)),
         if bundle.oneTimePrekeyPrivate.Some? then Some(Public(bundle.oneTimePrekeyPrivate.value, NOTHING)) else None)
    && bundle.identityPrivate == owner.secret
  }

  lemma CreateBundleIsHonest(owner: IdentityKeyPair, prekey: Entropy, oneTime: Entropy)
    ensures var r := CreateBundle(owner, prekey, oneTime);
            && (r.Ok? <==> prekey.Some? && oneTime.Some?)
            && (r.Ok? ==> Honest(owner, r.value) && r.value.oneTimePrekeyPrivate.Some?)
  {
  }

  /** What meets in an agreement: both long-term secrets, the signed pre-key and the
      ephemeral key, and the one-time pair if there is one. */
  ghost function Meetings(
    alice: Scalar, bob: Scalar, prekey: Scalar, ephemeral: Scalar, oneTime: Option<(Scalar, Scalar)>): seq<Leg>
  {
    [DiffieHellman(alice, prekey), DiffieHellman(ephemeral, bob), DiffieHellman(ephemeral, prekey)]
    + if oneTime.Some? then [DiffieHellman(oneTime.value.0, oneTime.value.1)] else []
  }

  /** Agreement: against an honest bundle the initiator fails only for want of
      entropy, and the responder then derives exactly the initiator's keys: all that
      met, expanded once for each of the three purposes. */
  lemma Agreement(alice: IdentityKeyPair, bob: IdentityKeyPair, bundle: OwnedBundle, ephemeral: Entropy, oneTime: Entropy)
    requires Honest(bob, bundle)
    ensures var r := InitiateSession(alice, bundle.publicBundle, ephemeral, oneTime);
            && (r.Ok? <==> ephemeral.Some? && (bundle.oneTimePrekeyPrivate.Some? ==> oneTime.Some?))
            && (r.Ok? ==>
                  && RespondSession(bundle, r.value.1) == Ok(r.value.0)
                  && var met := Meetings(
                       alice.secret, bob.secret, bundle.signedPrekeyPrivate, ephemeral.value,
                       if bundle.oneTimePrekeyPrivate.Some? then Some((oneTime.value, bundle.oneTimePrekeyPrivate.value))
                       else None);
                  r.value.0 == SessionKeys(
                                 Hkdf(met, SharedSecret), Hkdf(met, InitiatorToResponder), Hkdf(met, ResponderToInitiator)))
  {
    assert forall s: seq<Leg> :: s + [] == s;
  }

  /** Three different keys, and two chains that never come to the same message key. */
  ghost predicate Apart(keys: SessionKeys) {
    && keys.sharedSecret != keys.initiatorToResponder && keys.sharedSecret != keys.responderToInitiator
    && keys.initiatorToResponder != keys.responderToInitiator
    && forall i: nat, j: nat :: KeyAt(keys.initiatorToResponder, i) != KeyAt(keys.responderToInitiator, j)
  }

  lemma DerivedApart(ikm: seq<Leg>)
    ensures Apart(DeriveKeys(ikm))
  {
    var keys := DeriveKeys(ikm);
    forall i: nat, j: nat ensures KeyAt(keys.initiatorToResponder, i) != KeyAt(keys.responderToInitiator, j) {
      if KeyAt(keys.initiatorToResponder, i) == KeyAt(keys.responderToInitiator, j) {
        ChainsNeverMeet(keys.initiatorToResponder, keys.responderToInitiator, i, j);
      }
    }
  }

  /** Every agreement that succeeds, on either side, separates its keys. */
  lemma AgreedKeysAreApart(
    ours: IdentityKeyPair, theirs: PreKeyBundle, ephemeral: Entropy, oneTime: Entropy, bundle: OwnedBundle, msg: InitiatorMessage)
    ensures var r := InitiateSession(ours, theirs, ephemeral, oneTime); r.Ok? ==> Apart(r.value.0)
    ensures var r := RespondSession(bundle, msg); r.Ok? ==> Apart(r.value)
  {
    forall ikm: seq<Leg> ensures Apart(DeriveKeys(ikm)) {
      DerivedApart(ikm);
    }
  }

  /** When an initiator succeeds, told from its inputs: the pre-key is signed by the
      advertised identity, no public value is of low order, and there is entropy. */
  lemma InitiatesExactly(ours: IdentityKeyPair, bundle: PreKeyBundle, ephemeral: Entropy, oneTime: Entropy)
    ensures InitiateSession(ours, bundle, ephemeral, oneTime).Ok?
            <==> && bundle.prekeySignature == Signed(bundle.identityKey, bundle.signedPrekey)
                 && bundle.identityKey.Identity? && bundle.identityKey.montgomery.Public? && bundle.signedPrekey.Public?
                 && ephemeral.Some?
                 && (bundle.oneTimePrekey.Some? ==> bundle.oneTimePrekey.value.Public? && oneTime.Some?)
  {
  }

  /** And a responder: no public value is of low order, and both sides agree on there
      being a one-time key. */
  lemma RespondsExactly(bundle: OwnedBundle, msg: InitiatorMessage)
    ensures RespondSession(bundle, msg).Ok?
            <==> && msg.identityKey.Identity? && msg.identityKey.montgomery.Public? && msg.ephemeralKey.Public?
                 && (bundle.oneTimePrekeyPrivate.Some? <==> msg.oneTimeEphemeralKey.Some?)
                 && (msg.oneTimeEphemeralKey.Some? ==> msg.oneTimeEphemeralKey.value.Public?)
  {
  }

  /** No agreement starts from a pre-key its advertised identity did not sign. */
  lemma UnsignedPrekeyIsRejected(alice: IdentityKeyPair, bundle: PreKeyBundle, ephemeral: Entropy, oneTime: Entropy)
    requires bundle.prekeySignature != Signed(bundle.identityKey, bundle.signedPrekey)
    ensures InitiateSession(alice, bundle, ephemeral, oneTime)
            == Err(if bundle.identityKey.NotAPoint? then InvalidKey else InvalidSignature)
  {
  }

  /** A one-time pre-key present on one side only is always an error. */
  lemma OneSidedOneTimeKeyFails(bundle: OwnedBundle, msg: InitiatorMessage)
    requires bundle.oneTimePrekeyPrivate.Some? != msg.oneTimeEphemeralKey.Some?
    ensures RespondSession(bundle, msg) == Err(if msg.identityKey.NotAPoint? then InvalidKey else KeyAgreement)
  {
  }

  // The legs a responder folds, for a message it accepts.
  ghost function Legs(bundle: OwnedBundle, m: InitiatorMessage): seq<Leg>
    requires RespondSession(bundle, m).Ok?
  {
    var ikm := [ DiffieHellman(bundle.signedPrekeyPrivate, m.identityKey.montgomery.secret),
                 DiffieHellman(bundle.identityPrivate, m.ephemeralKey.secret),
                 DiffieHellman(bundle.signedPrekeyPrivate, m.ephemeralKey.secret) ];
    if m.oneTimeEphemeralKey.None? then ikm
    else ikm + [DiffieHellman(bundle.oneTimePrekeyPrivate.value, m.oneTimeEphemeralKey.value.secret)]
  }

  // What the agreements see of an initiator's message.
  ghost predicate SameSecrets(m: InitiatorMessage, n: InitiatorMessage)
    requires m.identityKey.Identity? && m.identityKey.montgomery.Public? && m.ephemeralKey.Public?
    requires n.identityKey.Identity? && n.identityKey.montgomery.Public? && n.ephemeralKey.Public?
    requires m.oneTimeEphemeralKey.Some? ==> m.oneTimeEphemeralKey.value.Public?
    requires n.oneTimeEphemeralKey.Some? ==> n.oneTimeEphemeralKey.value.Public?
  {
    && m.identityKey.montgomery.secret == n.identityKey.montgomery.secret
    && m.ephemeralKey.secret == n.ephemeralKey.secret
    && (m.oneTimeEphemeralKey.Some? <==> n.oneTimeEphemeralKey.Some?)
    && (m.oneTimeEphemeralKey.Some? && n.oneTimeEphemeralKey.Some? ==>
          m.oneTimeEphemeralKey.value.secret == n.oneTimeEphemeralKey.value.secret)
  }

  /** Binding: for any two messages a responder accepts, the derived keys coincide
      exactly when the secrets behind the identity, the ephemeral key and the one-time
      ephemeral key coincide. */
  lemma KeysBindTheInitiator(bundle: OwnedBundle, m: InitiatorMessage, n: InitiatorMessage)
    requires RespondSession(bundle, m).Ok? && RespondSession(bundle, n).Ok?
    ensures RespondSession(bundle, m) == RespondSession(bundle, n) <==> SameSecrets(m, n)
  {
    var im, jn := Legs(bundle, m), Legs(bundle, n);
    assert RespondSession(bundle, m) == Ok(DeriveKeys(im)) && RespondSession(bundle, n) == Ok(DeriveKeys(jn));
    if im == jn {
      assert im[0] == jn[0] && im[1] == jn[1] && (|im| == 4 ==> im[3] == jn[3]);
    }
  }

  /** The responder is bound as well: two bundles answer one message with the same keys
      exactly when their pre-key, identity and one-time secrets are the same. */
  lemma KeysBindTheResponder(b: OwnedBundle, c: OwnedBundle, m: InitiatorMessage)
    requires RespondSession(b, m).Ok? && RespondSession(c, m).Ok?
    ensures RespondSession(b, m) == RespondSession(c, m)
            <==> && b.signedPrekeyPrivate == c.signedPrekeyPrivate && b.identityPrivate == c.identityPrivate
                 && b.oneTimePrekeyPrivate == c.oneTimePrekeyPrivate
  {
    var im, jm := Legs(b, m), Legs(c, m);
    assert RespondSession(b, m) == Ok(DeriveKeys(im)) && RespondSession(c, m) == Ok(DeriveKeys(jm));
    if im == jm {
      assert im[0] == jm[0] && im[1] == jm[1] && (|im| == 4 ==> im[3] == jm[3]);
    }
  }

  // The same point as other octets may spell it.
  ghost function Respelled(p: Point, forgotten: nat): Point {
    match p
    case Public(secret, _) => Public(secret, forgotten)
    case LowOrder => LowOrder
  }

  /** Not the message itself: another sign of the identity, or other forgotten parts of
      its Montgomery form or of an ephemeral key, make another message with the same keys,
      and the session then names another peer identity. */
  lemma RespelledMessagesShareKeys(bundle: OwnedBundle, m: InitiatorMessage, sign: bool, i: nat, e: nat, o: nat)
    requires RespondSession(bundle, m).Ok?
    ensures var n := InitiatorMessage(
                       Identity(Respelled(m.identityKey.montgomery, i), sign), Respelled(m.ephemeralKey, e),
                       if m.oneTimeEphemeralKey.None? then None else Some(Respelled(m.oneTimeEphemeralKey.value, o)));
            && RespondSession(bundle, n) == RespondSession(bundle, m)
            && (sign != m.identityKey.sign ==> n.identityKey != m.identityKey)
            && (i != m.identityKey.montgomery.forgotten ==> n.identityKey.montgomery != m.identityKey.montgomery)
            && (e != m.ephemeralKey.forgotten ==> n.ephemeralKey != m.ephemeralKey)
  {
  }
}
