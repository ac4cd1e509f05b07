/**
  Symbolic cryptography under krypta: X25519 as a commutative operation on
  scalars, HKDF and HMAC outputs as free terms, AES-256-GCM as a box that opens
  exactly under the key and nonce that sealed it.
  */
module KryptaKeys {
  import opened Wrappers
  import Base = Bytes

  const U32_MODULUS: nat := 0x1_0000_0000

  type u32 = x: nat | x < U32_MODULUS

  type Bytes = seq<nat>

  // Up to sign, which x-only arithmetic does not tell apart.
  type Scalar = nat

  /** An X25519 public value: a scalar multiple of the base point, or one of the
      points on which every agreement yields the all-zero output. `forgotten` is what
      agreements do not see of the octets: the masked top bit, and a component of low
      order, which clamped scalars cancel. Values generated honestly have none. */
  datatype Point = Public(secret: Scalar, forgotten: nat) | LowOrder

  const NOTHING: nat := 0

  /** An X25519 output, named by the unordered pair of scalars that meet in it. */
  datatype Leg = Leg(smaller: Scalar, larger: Scalar)

  function DiffieHellman(a: Scalar, b: Scalar): Leg {
    if a <= b then Leg(a, b) else Leg(b, a)
  }

  datatype Info = SharedSecret | InitiatorToResponder | ResponderToInitiator

  datatype Key =
    | Hkdf(ikm: seq<Leg>, info: Info)
    | MessageKey(chain: Key)
    | ChainKey(chain: Key)

  /** The chain key `n` HMAC steps after `root`. */
  ghost function ChainAt(root: Key, n: nat): Key {
    if n == 0 then root else ChainKey(ChainAt(root, n - 1))
  }

  ghost function KeyAt(root: Key, n: nat): Key {
    MessageKey(ChainAt(root, n))
  }

  lemma {:induction false} ChainAtComposes(root: Key, m: nat, n: nat)
    ensures ChainAt(ChainAt(root, m), n) == ChainAt(root, m + n)
  {
    if n > 0 {
      ChainAtComposes(root, m, n - 1);
    }
  }

  ghost function Depth(k: Key): nat {
    match k
    case Hkdf(_, _) => 0
    case MessageKey(c) => 1 + Depth(c)
    case ChainKey(c) => 1 + Depth(c)
  }

  lemma {:induction false} DepthOfChain(root: Key, n: nat)
    ensures Depth(ChainAt(root, n)) == Depth(root) + n
  {
    if n > 0 {
      DepthOfChain(root, n - 1);
    }
  }

  /** Message keys of one chain never repeat, whatever the root. */
  lemma MessageKeysDistinct(root: Key, i: nat, j: nat)
    requires KeyAt(root, i) == KeyAt(root, j)
    ensures i == j
  {
    DepthOfChain(root, i);
    DepthOfChain(root, j);
  }

  // What a chain grew from.
  ghost function RootOf(k: Key): Key {
    match k
    case Hkdf(_, _) => k
    case MessageKey(c) => RootOf(c)
    case ChainKey(c) => RootOf(c)
  }

  lemma {:induction false} RootOfChain(root: Key, n: nat)
    ensures RootOf(ChainAt(root, n)) == RootOf(root)
  {
    if n > 0 {
      RootOfChain(root, n - 1);
    }
  }

  /** Nor do two chains expanded from different roots ever share one. */
  lemma ChainsNeverMeet(a: Key, b: Key, i: nat, j: nat)
    requires a.Hkdf? && b.Hkdf? && KeyAt(a, i) == KeyAt(b, j)
    ensures a == b && i == j
  {
    RootOfChain(a, i);
    RootOfChain(b, j);
    MessageKeysDistinct(a, i, j);
  }

  function LittleEndian(n: nat, width: nat): (r: Bytes)
    ensures |r| == width
  {
    if width == 0 then [] else [n % 256] + LittleEndian(n / 256, width - 1)
  }

  // The 12-byte AEAD nonce: the counter in little-endian order, then zeros.
  function CounterNonce(counter: u32): Bytes {
    LittleEndian(counter, 4) + [0, 0, 0, 0, 0, 0, 0, 0]
  }

  lemma {:induction false} LittleEndianInjective(m: nat, n: nat, width: nat)
    requires m < Base.Pow256(width) && n < Base.Pow256(width)
    requires LittleEndian(m, width) == LittleEndian(n, width)
    ensures m == n
  {
    if width > 0 {
      var a, b := LittleEndian(m, width), LittleEndian(n, width);
      assert a[0] == b[0] && a[1..] == b[1..];
      LittleEndianInjective(m / 256, n / 256, width - 1);
    }
  }

  /** The four octets of the counter from the least significant on, then eight zeros. */
  lemma NonceOctets(c: u32)
    ensures CounterNonce(c) == [c % 256, c / 256 % 256, c / 65536 % 256, c / 16777216, 0, 0, 0, 0, 0, 0, 0, 0]
  {
    OneOctet(c, 4);
    OneOctet(c / 256, 3);
    OneOctet(c / 65536, 2);
    OneOctet(c / 16777216, 1);
    assert c / 256 / 256 == c / 65536 && c / 65536 / 256 == c / 16777216;
  }

  lemma OneOctet(n: nat, width: nat)
    requires width > 0
    ensures LittleEndian(n, width) == [n % 256] + LittleEndian(n / 256, width - 1)
  {
  }

  /** Distinct counters never share a nonce. */
  lemma CounterNonceInjective(a: u32, b: u32)
    requires CounterNonce(a) == CounterNonce(b)
    ensures a == b
  {
    assert CounterNonce(a)[..4] == LittleEndian(a, 4) && CounterNonce(b)[..4] == LittleEndian(b, 4);
    assert Base.Pow256(4) == 256 * Base.Pow256(3) == 65536 * Base.Pow256(2) == U32_MODULUS;
    LittleEndianInjective(a, b, 4);
  }

  /** A ciphertext: something a key holder sealed, or bytes nobody sealed. */
  datatype Ciphertext = Sealed(key: Key, nonce: Bytes, plaintext: Bytes) | Garbage(bytes: Bytes)

  datatype Message = Message(counter: u32, ciphertext: Ciphertext)

  // Authenticated decryption of `msg` under the nonce its counter names.
  function Open(key: Key, msg: Message): Option<Bytes> {
    match msg.ciphertext
    case Sealed(k, n, p) => if k == key && n == CounterNonce(msg.counter) then Some(p) else None
    case Garbage(_) => None
  }
}
