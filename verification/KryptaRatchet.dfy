/** The symmetric ratchet: HMAC chain advancement with a bounded skipped-key cache. */
module KryptaRatchet {
  import opened Wrappers
  import opened KryptaKeys

  const MAX_SKIP_AHEAD: nat := 1024
  const MAX_SKIPPED_KEYS: nat := 1024

  datatype Error = Decryption

  datatype SkippedKey = SkippedKey(counter: u32, messageKey: Key)

  datatype State = State(chainKey: Key, counter: u32, skipped: seq<SkippedKey>)

  function Init(root: Key): State {
    State(root, 0, [])
  }

  function WrappingIncrement(c: u32): u32 {
    (c + 1) % U32_MODULUS
  }

  // ---- Specification of one call ----

  ghost function Encrypt(s: State, plaintext: Bytes): (State, Message) {
    (s.(chainKey := ChainKey(s.chainKey), counter := WrappingIncrement(s.counter)),
     Message(s.counter, Sealed(MessageKey(s.chainKey), CounterNonce(s.counter), plaintext)))
  }

  // The keys of the counters from `from` up to `to`, read off a chain standing at `from`.
  ghost function PendingKeys(chain: Key, from: u32, to: u32): seq<SkippedKey>
    requires from <= to
  {
    seq(to - from, i requires 0 <= i < to - from => SkippedKey(from + i, KeyAt(chain, i)))
  }

  // The newest MAX_SKIPPED_KEYS entries.
  function Newest(s: seq<SkippedKey>): seq<SkippedKey> {
    if |s| <= MAX_SKIPPED_KEYS then s else s[|s| - MAX_SKIPPED_KEYS..]
  }

  // The index of the first cached entry for `counter`.
  function Position(s: seq<SkippedKey>, counter: u32): (r: Option<nat>)
    ensures r.Some? ==> r.value < |s| && s[r.value].counter == counter
    ensures r.None? ==> forall i :: 0 <= i < |s| ==> s[i].counter != counter
  {
    if s == [] then None
    else if s[0].counter == counter then Some(0)
    else match Position(s[1..], counter)
      case None => None
      case Some(i) => Some(i + 1)
  }

  function Without<T>(s: seq<T>, i: nat): seq<T>
    requires i < |s|
  {
    s[..i] + s[i + 1..]
  }

  ghost function DecryptFromSkipped(s: State, msg: Message): (State, Result<Bytes, Error>) {
    match Position(s.skipped, msg.counter)
    case None => (s, Err(Decryption))
    case Some(i) =>
      match Open(s.skipped[i].messageKey, msg)
      case None => (s, Err(Decryption))
      case Some(p) => (s.(skipped := Without(s.skipped, i)), Ok(p))
  }

  ghost function Decrypt(s: State, msg: Message): (State, Result<Bytes, Error>) {
    if msg.counter < s.counter then DecryptFromSkipped(s, msg)
    else if msg.counter - s.counter > MAX_SKIP_AHEAD then (s, Err(Decryption))
    else
      var target := ChainAt(s.chainKey, msg.counter - s.counter);
      match Open(MessageKey(target), msg)
      case None => (s, Err(Decryption))
      case Some(p) =>
        (State(ChainKey(target),
               WrappingIncrement(msg.counter),
               Newest(s.skipped + PendingKeys(s.chainKey, s.counter, msg.counter))),
         Ok(p))
  }

  // ---- The mutable ratchet ----

  class RatchetState {
    var chainKey: Key
    var counter: u32
    var skipped: seq<SkippedKey>

    // The cache never outgrows its bound.
    ghost predicate Valid()
      reads this
    {
      |skipped| <= MAX_SKIPPED_KEYS
    }

    ghost function View(): State
      reads this
    {
      State(chainKey, counter, skipped)
    }

    constructor (root: Key)
      ensures Valid() && View() == Init(root)
    {
      chainKey, counter, skipped := root, 0, [];
    }

    method EncryptMessage(plaintext: Bytes) returns (msg: Message)
      modifies this
      ensures (View(), msg) == Encrypt(old(View()), plaintext)
    {
      var messageKey := MessageKey(chainKey);
      var nextChainKey := ChainKey(chainKey);
      msg := Message(counter, Sealed(messageKey, CounterNonce(counter), plaintext));
      chainKey := nextChainKey;
      counter := WrappingIncrement(counter);
    }

    method DecryptMessage(msg: Message) returns (r: Result<Bytes, Error>)
      requires Valid()
      modifies this
      ensures (View(), r) == Decrypt(old(View()), msg)
      ensures Valid()
    {
      if msg.counter < counter {
        r := DecryptSkippedMessage(msg);
        return;
      }
      var gap := msg.counter - counter;
      if gap > MAX_SKIP_AHEAD {
        return Err(Decryption);
      }
      var workChainKey, pending := DeriveAhead(msg.counter);
      var unsealed := Open(MessageKey(workChainKey), msg);
      if unsealed.None? {
        return Err(Decryption);
      }
      var nextChainKey := ChainKey(workChainKey);
      StoreAllSkipped(pending);
      chainKey := nextChainKey;
      counter := WrappingIncrement(msg.counter);
      r := Ok(unsealed.value);
    }

    // Walks a working copy of the chain up to `target`, collecting the keys it passes.
    method DeriveAhead(target: u32) returns (workChainKey: Key, pending: seq<SkippedKey>)
      requires counter <= target
      ensures workChainKey == ChainAt(chainKey, target - counter)
      ensures pending == PendingKeys(chainKey, counter, target)
    {
      workChainKey, pending := chainKey, [];
      var c := counter;
      while c < target
        invariant counter <= c <= target
        invariant workChainKey == ChainAt(chainKey, c - counter)
        invariant pending == PendingKeys(chainKey, counter, c)
      {
        pending := pending + [SkippedKey(c, MessageKey(workChainKey))];
        workChainKey := ChainKey(workChainKey);
        c := WrappingIncrement(c);
      }
    }

    method DecryptSkippedMessage(msg: Message) returns (r: Result<Bytes, Error>)
      modifies this`skipped
      ensures (View(), r) == DecryptFromSkipped(old(View()), msg)
    {
      var position := Position(skipped, msg.counter);
      if position.None? {
        return Err(Decryption);
      }
      var index := position.value;
      var unsealed := Open(skipped[index].messageKey, msg);
      if unsealed.None? {
        return Err(Decryption);
      }
      skipped := Without(skipped, index);
      r := Ok(unsealed.value);
    }

    method StoreAllSkipped(pending: seq<SkippedKey>)
      requires Valid()
      modifies this`skipped
      ensures skipped == Newest(old(skipped) + pending)
    {
      ghost var before := skipped;
      var i := 0;
      while i < |pending|
        invariant 0 <= i <= |pending|
        invariant skipped == Newest(before + pending[..i])
      {
        NewestIsIncremental(before + pending[..i], pending[i]);
        assert before + pending[..i] + [pending[i]] == before + pending[..i + 1];
        StoreSkipped(pending[i]);
        i := i + 1;
      }
      assert pending[..i] == pending;
    }

    method StoreSkipped(key: SkippedKey)
      modifies this`skipped
      ensures skipped == Newest(old(skipped) + [key])
    {
      skipped := skipped + [key];
      ghost var full := skipped;
      while |skipped| > MAX_SKIPPED_KEYS
        invariant |skipped| <= |full| && skipped == full[|full| - |skipped|..]
        invariant |full| > MAX_SKIPPED_KEYS ==> |skipped| >= MAX_SKIPPED_KEYS
        invariant |full| <= MAX_SKIPPED_KEYS ==> skipped == full
        decreases |skipped|
      {
        skipped := skipped[1..];
      }
    }
  }

  lemma NewestIsIncremental(s: seq<SkippedKey>, k: SkippedKey)
    ensures Newest(Newest(s) + [k]) == Newest(s + [k])
  {
  }

  // ---- What a run of decryptions keeps ----

  ghost predicate Cached(s: seq<SkippedKey>, c: int) {
    exists i :: 0 <= i < |s| && s[i].counter == c
  }

  /** Ascending counters below `bound`, each with the key recomputed from `root`. */
  ghost predicate Entries(root: Key, s: seq<SkippedKey>, bound: nat) {
    && (forall i, j :: 0 <= i < j < |s| ==> s[i].counter < s[j].counter)
    && (forall i :: 0 <= i < |s| ==> s[i].counter < bound && s[i].messageKey == KeyAt(root, s[i].counter))
  }

  /** The receive state agrees with recomputing every key from the root. */
  ghost predicate CacheSound(root: Key, s: State) {
    && s.chainKey == ChainAt(root, s.counter)
    && |s.skipped| <= MAX_SKIPPED_KEYS
    && Entries(root, s.skipped, s.counter)
  }

  // Before eviction, a jump to `to` leaves the old entries followed by the next
  // keys of the root's own chain.
  lemma JumpEntries(root: Key, s: State, to: u32)
    requires CacheSound(root, s) && s.counter <= to
    ensures Entries(root, s.skipped + PendingKeys(s.chainKey, s.counter, to), to)
    ensures ChainAt(s.chainKey, to - s.counter) == ChainAt(root, to)
    ensures forall c :: Cached(s.skipped + PendingKeys(s.chainKey, s.counter, to), c)
                        <==> Cached(s.skipped, c) || s.counter <= c < to
  {
    var pending := PendingKeys(s.chainKey, s.counter, to);
    forall i: nat | i <= to - s.counter
      ensures ChainAt(s.chainKey, i) == ChainAt(root, s.counter + i)
    {
      ChainAtComposes(root, s.counter, i);
    }
    assert forall i :: 0 <= i < |pending| ==> pending[i] == SkippedKey(s.counter + i, KeyAt(root, s.counter + i));
    CachedInConcat(s.skipped, pending);
    forall c | s.counter <= c < to ensures Cached(pending, c) {
      assert pending[c - s.counter].counter == c;
    }
  }

  lemma CachedInConcat(s: seq<SkippedKey>, t: seq<SkippedKey>)
    ensures forall c :: Cached(s + t, c) <==> Cached(s, c) || Cached(t, c)
  {
    forall c
      ensures Cached(s + t, c) <==> Cached(s, c) || Cached(t, c)
    {
      if Cached(s, c) {
        var i :| 0 <= i < |s| && s[i].counter == c;
        assert (s + t)[i].counter == c;
      }
      if Cached(t, c) {
        var i :| 0 <= i < |t| && t[i].counter == c;
        assert (s + t)[|s| + i].counter == c;
      }
    }
  }

  // Eviction keeps a suffix: what it drops is smaller than everything kept.
  lemma NewestKeepsTheLargest(root: Key, s: seq<SkippedKey>, bound: nat)
    requires Entries(root, s, bound)
    ensures Entries(root, Newest(s), bound)
    ensures forall c :: Cached(Newest(s), c) ==> Cached(s, c)
    ensures forall c, i :: Cached(s, c) && !Cached(Newest(s), c) && 0 <= i < |Newest(s)| ==> c < Newest(s)[i].counter
  {
    var kept := Newest(s);
    var cut := |s| - |kept|;
    assert kept == s[cut..];
    forall k | cut <= k < |s| ensures Cached(kept, s[k].counter) {
      assert kept[k - cut].counter == s[k].counter;
    }
  }

  // Consuming an entry removes its counter and no other.
  lemma ConsumeEntry(root: Key, s: seq<SkippedKey>, bound: nat, i: nat)
    requires Entries(root, s, bound) && i < |s|
    ensures Entries(root, Without(s, i), bound)
    ensures forall c :: Cached(Without(s, i), c) <==> Cached(s, c) && c != s[i].counter
  {
    forall c ensures Cached(Without(s, i), c) <==> Cached(s, c) && c != s[i].counter {
      CachedWithout(s, i, c);
    }
  }

  lemma CachedWithout(s: seq<SkippedKey>, i: nat, c: int)
    requires i < |s| && forall j, k :: 0 <= j < k < |s| ==> s[j].counter < s[k].counter
    ensures Cached(Without(s, i), c) <==> Cached(s, c) && c != s[i].counter
  {
    var rest := Without(s, i);
    if Cached(rest, c) {
      var k :| 0 <= k < |rest| && rest[k].counter == c;
      assert s[if k < i then k else k + 1].counter == c;
    }
    if Cached(s, c) && c != s[i].counter {
      var k :| 0 <= k < |s| && s[k].counter == c;
      assert rest[if k < i then k else k - 1].counter == c;
    }
  }

  /** A decrypt keeps the receive state sound unless it accepts the counter
      2^32 - 1, after which the chain counter wraps to zero. */
  lemma DecryptKeepsCacheSound(root: Key, s: State, msg: Message)
    requires CacheSound(root, s)
    ensures CacheSound(root, Decrypt(s, msg).0) <==> !(Decrypt(s, msg).1.Ok? && msg.counter == U32_MODULUS - 1)
  {
    if Decrypt(s, msg).1.Ok? {
      if msg.counter < s.counter {
        ConsumeEntry(root, s.skipped, s.counter, Position(s.skipped, msg.counter).value);
      } else {
        JumpEntries(root, s, msg.counter);
        NewestKeepsTheLargest(root, s.skipped + PendingKeys(s.chainKey, s.counter, msg.counter), msg.counter);
        DepthOfChain(root, msg.counter);
      }
    }
  }

  /** A failing decrypt leaves the state as it was. */
  lemma FailedDecryptIsANoOp(s: State, msg: Message)
    requires Decrypt(s, msg).1.Err?
    ensures Decrypt(s, msg).0 == s
  {
  }
}
