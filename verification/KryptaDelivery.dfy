/**
  A sender and a receiver ratchet that share a root, joined by a network which
  reorders, drops, duplicates and forges.
  */
module KryptaDelivery {
  import opened Wrappers
  import opened KryptaKeys
  import opened KryptaRatchet

  /** The message an honest sender on `root` produces at `counter`. */
  ghost function Genuine(root: Key, counter: u32, plaintext: Bytes): Message {
    Message(counter, Sealed(KeyAt(root, counter), CounterNonce(counter), plaintext))
  }

  /** A counter the receiver can still serve: cached, or within the jump bound. */
  ghost predicate Servable(s: State, c: nat) {
    Cached(s.skipped, c) || s.counter <= c <= s.counter + MAX_SKIP_AHEAD
  }

  /** A sound receiver accepts a message with plaintext `p` exactly when it is the
      genuine message of its counter and that counter is still servable. */
  lemma AcceptsExactly(root: Key, s: State, msg: Message, p: Bytes)
    requires CacheSound(root, s)
    ensures Decrypt(s, msg).1 == Ok(p) <==> msg == Genuine(root, msg.counter, p) && Servable(s, msg.counter)
  {
    if msg.counter < s.counter {
      var at := Position(s.skipped, msg.counter);
      assert at.Some? <==> Cached(s.skipped, msg.counter);
    } else {
      JumpEntries(root, s, msg.counter);
    }
  }

  ghost predicate BelowAll(c: int, s: seq<SkippedKey>) {
    forall i :: 0 <= i < |s| ==> c < s[i].counter
  }

  /** The effect of one acceptance: its counter stops being cached, the counters it
      skipped become cached, and anything lost to eviction is smaller than all that
      is kept; nothing is lost while the cache has room. */
  lemma AcceptanceEffect(root: Key, s: State, msg: Message)
    requires CacheSound(root, s) && Decrypt(s, msg).1.Ok? && msg.counter < U32_MODULUS - 1
    ensures var s' := Decrypt(s, msg).0;
            && CacheSound(root, s')
            && s'.counter == (if msg.counter < s.counter then s.counter else msg.counter + 1)
            && !Cached(s'.skipped, msg.counter)
            && (forall c :: Cached(s'.skipped, c) ==> Cached(s.skipped, c) || s.counter <= c < msg.counter)
            && (forall c | c != msg.counter && (Cached(s.skipped, c) || s.counter <= c < msg.counter) ::
                  Cached(s'.skipped, c) || BelowAll(c, s'.skipped))
            && (|s.skipped| + (msg.counter - s.counter) <= MAX_SKIPPED_KEYS ==>
                  forall c | c != msg.counter && (Cached(s.skipped, c) || s.counter <= c < msg.counter) ::
                    Cached(s'.skipped, c))
  {
    DecryptKeepsCacheSound(root, s, msg);
    if msg.counter < s.counter {
      ConsumeEntry(root, s.skipped, s.counter, Position(s.skipped, msg.counter).value);
    } else {
      JumpEffect(root, s, msg.counter);
    }
  }

  // What a jump to counter `to` leaves in the cache.
  lemma JumpEffect(root: Key, s: State, to: u32)
    requires CacheSound(root, s) && s.counter <= to
    ensures var kept := Newest(s.skipped + PendingKeys(s.chainKey, s.counter, to));
            && !Cached(kept, to)
            && (forall c :: Cached(kept, c) ==> Cached(s.skipped, c) || s.counter <= c < to)
            && (forall c | Cached(s.skipped, c) || s.counter <= c < to :: Cached(kept, c) || BelowAll(c, kept))
            && (|s.skipped| + (to - s.counter) <= MAX_SKIPPED_KEYS ==>
                  forall c | Cached(s.skipped, c) || s.counter <= c < to :: Cached(kept, c))
  {
    JumpEntries(root, s, to);
    NewestKeepsTheLargest(root, s.skipped + PendingKeys(s.chainKey, s.counter, to), to);
  }

  /** When the receive state stops agreeing with recomputation from the root, told before
      the call: exactly on the genuine message of counter 2^32 - 1 while it is servable. */
  lemma CacheSoundExactly(root: Key, s: State, msg: Message)
    requires CacheSound(root, s)
    ensures CacheSound(root, Decrypt(s, msg).0)
            <==> !(msg.counter == U32_MODULUS - 1 && Servable(s, msg.counter) && IsGenuine(root, msg))
  {
    DecryptKeepsCacheSound(root, s, msg);
    if IsGenuine(root, msg) {
      AcceptsExactly(root, s, msg, msg.ciphertext.plaintext);
    }
    if p :| Decrypt(s, msg).1 == Ok(p) {
      AcceptsExactly(root, s, msg, p);
    }
  }

  /** Sealed by the chain of this root for the counter it carries. */
  ghost predicate IsGenuine(root: Key, msg: Message) {
    msg.ciphertext.Sealed? && msg == Genuine(root, msg.counter, msg.ciphertext.plaintext)
  }

  // ---- Order independence ----

  ghost function EncryptAll(s: State, texts: seq<Bytes>): (State, seq<Message>)
    decreases |texts|
  {
    if texts == [] then (s, []) else
      var (s1, m) := Encrypt(s, texts[0]);
      var (s2, ms) := EncryptAll(s1, texts[1..]);
      (s2, [m] + ms)
  }

  ghost function DecryptAll(s: State, msgs: seq<Message>): (State, seq<Result<Bytes, Error>>)
    decreases |msgs|
  {
    if msgs == [] then (s, []) else
      var (s1, r) := Decrypt(s, msgs[0]);
      var (s2, rs) := DecryptAll(s1, msgs[1..]);
      (s2, [r] + rs)
  }

  // Every index below `n`, each once.
  ghost predicate Permutation(order: seq<nat>, n: nat) {
    && |order| == n
    && (forall c {:trigger c in order} :: 0 <= c < n ==> c in order)
    && (forall k :: 0 <= k < n ==> order[k] < n)
    && (forall j, k :: 0 <= j < k < n ==> order[j] != order[k])
  }

  ghost function Reordered<T>(items: seq<T>, order: seq<nat>): seq<T>
    requires Permutation(order, |items|)
  {
    seq(|order|, k requires 0 <= k < |order| => items[order[k]])
  }

  ghost function AllOk(texts: seq<Bytes>): seq<Result<Bytes, Error>> {
    seq(|texts|, k requires 0 <= k < |texts| => Ok(texts[k]))
  }

  lemma EncryptStep(root: Key, at: u32, text: Bytes)
    requires at + 1 < U32_MODULUS
    ensures Encrypt(State(ChainAt(root, at), at, []), text)
            == (State(ChainAt(root, at + 1), at + 1, []), Genuine(root, at, text))
  {
    assert WrappingIncrement(at) == at + 1;
  }

  /** An honest sender's n-th message is the genuine message of counter n. */
  lemma {:induction false} EncryptAllIsGenuine(root: Key, from: nat, texts: seq<Bytes>)
    requires from + |texts| < U32_MODULUS
    ensures var (s, ms) := EncryptAll(State(ChainAt(root, from), from, []), texts);
            && s == State(ChainAt(root, from + |texts|), from + |texts|, [])
            && AllGenuine(root, from, texts, ms)
    decreases |texts|
  {
    if texts != [] {
      EncryptStep(root, from, texts[0]);
      EncryptAllIsGenuine(root, from + 1, texts[1..]);
      var ms := EncryptAll(State(ChainAt(root, from + 1), from + 1, []), texts[1..]).1;
      AllGenuineCons(root, from, texts, ms);
    }
  }

  ghost predicate AllGenuine(root: Key, from: nat, texts: seq<Bytes>, ms: seq<Message>)
    requires from + |texts| < U32_MODULUS
  {
    |ms| == |texts| && forall k :: 0 <= k < |texts| ==> ms[k] == Genuine(root, from + k, texts[k])
  }

  lemma AllGenuineCons(root: Key, from: nat, texts: seq<Bytes>, ms: seq<Message>)
    requires texts != [] && from + |texts| < U32_MODULUS && AllGenuine(root, from + 1, texts[1..], ms)
    ensures AllGenuine(root, from, texts, [Genuine(root, from, texts[0])] + ms)
  {
    forall k | 1 <= k < |texts| ensures ms[k - 1] == Genuine(root, from + k, texts[k]) {
      assert texts[1..][k - 1] == texts[k] && from + 1 + (k - 1) == from + k;
    }
  }

  // `done` is what has arrived; every other counter below the chain is cached.
  ghost predicate Progress(root: Key, s: State, done: set<nat>) {
    && CacheSound(root, s)
    && (forall c :: c in done ==> c < s.counter)
    && (forall c: nat :: c < s.counter ==> (c in done <==> !Cached(s.skipped, c)))
  }

  lemma {:induction false} EntriesFitBelowBound(root: Key, s: seq<SkippedKey>, bound: nat)
    requires Entries(root, s, bound)
    ensures |s| <= bound
  {
    if s != [] {
      var last := s[|s| - 1];
      EntriesFitBelowBound(root, s[..|s| - 1], last.counter);
    }
  }

  lemma ProgressStep(root: Key, s: State, done: set<nat>, c: u32, text: Bytes)
    requires Progress(root, s, done) && c !in done && c <= MAX_SKIP_AHEAD
    ensures var (s', r) := Decrypt(s, Genuine(root, c, text));
            && r == Ok(text)
            && Progress(root, s', done + {c})
            && s'.counter == (if c < s.counter then s.counter else c + 1)
  {
    var msg := Genuine(root, c, text);
    AcceptsExactly(root, s, msg, text);
    AcceptanceEffect(root, s, msg);
    if c >= s.counter {
      EntriesFitBelowBound(root, s.skipped, s.counter);
    }
  }

  // The genuine messages of `texts` in the order they arrive.
  ghost function Arriving(root: Key, texts: seq<Bytes>, order: seq<nat>): (ms: seq<Message>)
    requires |texts| < U32_MODULUS && Permutation(order, |texts|)
    ensures |ms| == |texts|
  {
    seq(|texts|, j requires 0 <= j < |texts| => Genuine(root, order[j], texts[order[j]]))
  }

  lemma {:induction false} DeliverRest(root: Key, texts: seq<Bytes>, order: seq<nat>, k: nat, s: State, done: set<nat>)
    requires |texts| <= MAX_SKIP_AHEAD + 1 && Permutation(order, |texts|) && k <= |texts|
    requires Progress(root, s, done) && s.counter <= |texts|
    requires done == set j | 0 <= j < k :: order[j]
    ensures DecryptAll(s, Arriving(root, texts, order)[k..])
            == (State(ChainAt(root, |texts|), |texts|, []), AllOk(Reordered(texts, order))[k..])
    decreases |texts| - k
  {
    var n := |texts|;
    var msgs, expected := Arriving(root, texts, order), AllOk(Reordered(texts, order));
    if k == n {
      assert forall c: nat :: c in order ==> c in done;
      NothingLeft(root, s, done, n);
      assert msgs[k..] == [] && expected[k..] == [];
      assert s == State(ChainAt(root, n), n, []);
    } else {
      var text := texts[order[k]];
      ProgressStep(root, s, done, order[k], text);
      DeliverRest(root, texts, order, k + 1, Decrypt(s, msgs[k]).0, done + {order[k]});
      DecryptFirst(s, msgs, expected, k, text);
    }
  }

  lemma DecryptFirst(s: State, msgs: seq<Message>, expected: seq<Result<Bytes, Error>>, k: nat, text: Bytes)
    requires k < |msgs| == |expected| && Decrypt(s, msgs[k]).1 == Ok(text) == expected[k]
    requires DecryptAll(Decrypt(s, msgs[k]).0, msgs[k + 1..]).1 == expected[k + 1..]
    ensures DecryptAll(s, msgs[k..]) == (DecryptAll(Decrypt(s, msgs[k]).0, msgs[k + 1..]).0, expected[k..])
  {
    assert msgs[k..][1..] == msgs[k + 1..] && msgs[k..][0] == msgs[k];
    assert expected[k..] == [expected[k]] + expected[k + 1..];
  }

  lemma NothingLeft(root: Key, s: State, done: set<nat>, n: nat)
    requires Progress(root, s, done) && s.counter <= n && forall c: nat :: c < n ==> c in done
    ensures s.counter == n && s.skipped == []
  {
    if n > 0 {
      assert n - 1 in done;
    }
    EntryBelow(root, s.skipped, s.counter);
  }

  lemma EntryBelow(root: Key, s: seq<SkippedKey>, bound: nat)
    requires Entries(root, s, bound)
    ensures s != [] ==> exists c: nat :: c < bound && Cached(s, c)
  {
    if s != [] {
      assert Cached(s, s[0].counter);
    }
  }

  // The messages an honest sender produces for `texts`.
  ghost function SentFor(root: Key, texts: seq<Bytes>): (ms: seq<Message>)
    requires |texts| < U32_MODULUS
    ensures |ms| == |texts|
    ensures forall k :: 0 <= k < |texts| ==> ms[k] == Genuine(root, k, texts[k])
  {
    EncryptAllIsGenuine(root, 0, texts);
    EncryptAll(Init(root), texts).1
  }

  /** Order independence: whatever the order in which up to MAX_SKIP_AHEAD + 1
      messages arrive, each decrypts to its own text and the receiver ends in one
      and the same state: the chain advanced once per message, nothing cached. */
  lemma OrderIndependence(root: Key, texts: seq<Bytes>, order: seq<nat>)
    requires |texts| <= MAX_SKIP_AHEAD + 1 && Permutation(order, |texts|)
    ensures DecryptAll(Init(root), Reordered(SentFor(root, texts), order))
            == (State(ChainAt(root, |texts|), |texts|, []), AllOk(Reordered(texts, order)))
  {
    var n := |texts|;
    DeliverRest(root, texts, order, 0, Init(root), {});
    assert Arriving(root, texts, order)[0..] == Reordered(SentFor(root, texts), order);
    assert AllOk(Reordered(texts, order))[0..] == AllOk(Reordered(texts, order));
  }

  /** The bound is exact: with more messages some order loses one. */
  lemma OrderIndependenceLimit(root: Key, texts: seq<Bytes>)
    requires |texts| < U32_MODULUS
    ensures (forall order | Permutation(order, |texts|) ::
               DecryptAll(Init(root), Reordered(SentFor(root, texts), order)).1 == AllOk(Reordered(texts, order)))
            <==> |texts| <= MAX_SKIP_AHEAD + 1
  {
    var n := |texts|;
    var sent := SentFor(root, texts);
    if n <= MAX_SKIP_AHEAD + 1 {
      forall order | Permutation(order, n)
        ensures DecryptAll(Init(root), Reordered(sent, order)).1 == AllOk(Reordered(texts, order))
      {
        OrderIndependence(root, texts, order);
      }
    } else {
      var order := seq(n, k requires 0 <= k < n => n - 1 - k);
      forall c | 0 <= c < n ensures c in order {
        assert order[n - 1 - c] == c;
      }
      var first := Reordered(sent, order)[0];
      assert first.counter == n - 1;
      assert DecryptAll(Init(root), Reordered(sent, order)).1[0] == Decrypt(Init(root), first).1;
      assert AllOk(Reordered(texts, order))[0].Ok?;
    }
  }

  /** Past the wrap: delivered in lock step, messages decrypt at every chain index,
      also beyond 2^32, while the counter on the wire is the index modulo 2^32 and
      so no longer names one message. */
  lemma LockStepPastTheWrap(root: Key, index: nat, text: Bytes)
    ensures var at := State(ChainAt(root, index), index % U32_MODULUS, []);
            var next := State(ChainAt(root, index + 1), (index + 1) % U32_MODULUS, []);
            var (sender, msg) := Encrypt(at, text);
            && sender == next
            && msg.counter == index % U32_MODULUS
            && Decrypt(at, msg) == (next, Ok(text))
  {
    var c: u32 := index % U32_MODULUS;
    WrapAgrees(index);
    assert PendingKeys(ChainAt(root, index), c, c) == [];
    assert ChainAt(ChainAt(root, index), 0) == ChainAt(root, index);
  }

  lemma WrapAgrees(index: nat)
    ensures WrappingIncrement(index % U32_MODULUS) == (index + 1) % U32_MODULUS
  {
  }
}
