/**
 Key derivation of protocol/vmess/cipher.go: nested HMACs, once as the reference
 nests them (RFC 2104, section 2, with the enclosing HMAC as the hash function)
 and once as the allocation-free evaluator computes them, with every
 concatenation laid out in one shared scratch array.

 SHA-256 is the parameter `sha`.
 */
module VmessKdf {
  import opened Bytes
  import opened Rfc2104

  const DIGEST_SIZE: nat := 32
  const MAX_CHAIN_LEN: nat := 8
  const MAX_KEY_LEN: nat := 256
  const MAX_PATH_ELEM_LEN: nat := 256
  const SCRATCH_SIZE: nat := MAX_CHAIN_LEN * (MAX_CHAIN_LEN + 1) / 2 * BLOCK_SIZE + MAX_CHAIN_LEN * MAX_KEY_LEN

  type Digest = d: seq<Byte> | |d| == DIGEST_SIZE witness seq(DIGEST_SIZE, _ => 0)

  type Hash = seq<Byte> -> Digest

  /** "VMess AEAD KDF" */
  const ROOT_SALT: seq<Byte> := [86, 77, 101, 115, 115, 32, 65, 69, 65, 68, 32, 75, 68, 70]

  // --- the reference construction ---------------------------------------------

  function BlockKey(h: Hash, key: seq<Byte>): (k: seq<Byte>)
    ensures |k| <= BLOCK_SIZE
  {
    Rfc2104.BlockKey((m: seq<Byte>) => h(m), key)
  }

  function Hmac(h: Hash, key: seq<Byte>, text: seq<Byte>): Digest {
    Rfc2104.Hmac((m: seq<Byte>) => h(m), key, text)
  }

  /** A chain of HMAC constructors: each level's HMAC is the hash of the level above it. */
  datatype Creator = Root(value: seq<Byte>) | Nested(parent: Creator, value: seq<Byte>)

  function Create(sha: Hash, c: Creator): Hash {
    match c
    case Root(v) => (text: seq<Byte>) => Hmac(sha, v, text)
    case Nested(parent, v) =>
      var h := Create(sha, parent);
      (text: seq<Byte>) => Hmac(h, v, text)
  }

  function Chain(path: seq<seq<Byte>>): Creator {
    if path == [] then Root(ROOT_SALT) else Nested(Chain(path[..|path| - 1]), path[|path| - 1])
  }

  function KdfReference(sha: Hash, key: seq<Byte>, path: seq<seq<Byte>>): Digest {
    Create(sha, Chain(path))(key)
  }

  /** The root is HMAC under the text "VMess AEAD KDF". */
  lemma {:induction false} RootOfPath(sha: Hash, key: seq<Byte>)
    ensures KdfReference(sha, key, []) == Hmac(sha, [86, 77, 101, 115, 115, 32, 65, 69, 65, 68, 32, 75, 68, 70], key)
    ensures |ROOT_SALT| == |"VMess AEAD KDF"| && forall i :: 0 <= i < |ROOT_SALT| ==> ROOT_SALT[i] == "VMess AEAD KDF"[i] as int
  {
  }

  /** Each further path element keys an HMAC whose hash is the derivation so far. */
  lemma {:induction false} PathNests(sha: Hash, key: seq<Byte>, path: seq<seq<Byte>>, v: seq<Byte>)
    ensures KdfReference(sha, key, path + [v]) == Hmac((m: seq<Byte>) => KdfReference(sha, m, path), v, key)
  {
    assert (path + [v])[..|path|] == path;
    HmacOnlyCalls(Create(sha, Chain(path)), (m: seq<Byte>) => KdfReference(sha, m, path), v, key);
  }

  // --- the evaluator ------------------------------------------------------------

  datatype Node = Node(iPad: Pad, oPad: Pad, child: Option<Node>)

  function Depth(n: Node): nat {
    match n.child
    case None => 1
    case Some(c) => 1 + Depth(c)
  }

  /** What a node computes, without regard to where the bytes are kept. */
  function NodeHash(sha: Hash, n: Node, text: seq<Byte>): Digest {
    match n.child
    case None => sha(n.oPad + sha(n.iPad + text))
    case Some(c) => NodeHash(sha, c, n.oPad + NodeHash(sha, c, n.iPad + text))
  }

  /** The hash below a node: SHA-256, or the child's HMAC. */
  function Below(sha: Hash, child: Option<Node>): Hash {
    match child
    case None => sha
    case Some(c) => (text: seq<Byte>) => NodeHash(sha, c, text)
  }

  /** The pads of a node keyed with `key` above `child`. */
  function KeyedNode(sha: Hash, key: seq<Byte>, child: Option<Node>): Node {
    var k := BlockKey(Below(sha, child), key);
    Node(PaddedKey(k, 0x36), PaddedKey(k, 0x5c), child)
  }

  /** The node chain for a path. */
  function NodeChain(sha: Hash, path: seq<seq<Byte>>): Node {
    if path == [] then KeyedNode(sha, ROOT_SALT, None)
    else KeyedNode(sha, path[|path| - 1], Some(NodeChain(sha, path[..|path| - 1])))
  }

  /** A keyed node is exactly an HMAC over the hash below it. */
  lemma {:induction false} KeyedNodeIsHmac(sha: Hash, key: seq<Byte>, child: Option<Node>, text: seq<Byte>)
    ensures NodeHash(sha, KeyedNode(sha, key, child), text) == Hmac(Below(sha, child), key, text)
  {
  }

  /** The node chain evaluates the reference nesting, for every path and every message. */
  lemma {:induction false} NodeChainIsReference(sha: Hash, path: seq<seq<Byte>>, text: seq<Byte>)
    ensures NodeHash(sha, NodeChain(sha, path), text) == Create(sha, Chain(path))(text)
    decreases |path|
  {
    if path == [] {
      KeyedNodeIsHmac(sha, ROOT_SALT, None, text);
    } else {
      var front, last := path[..|path| - 1], path[|path| - 1];
      var child := Some(NodeChain(sha, front));
      var h, g := Below(sha, child), Create(sha, Chain(front));
      forall m: seq<Byte> ensures h(m) == g(m) {
        NodeChainIsReference(sha, front, m);
      }
      KeyedNodeIsHmac(sha, last, child, text);
      HmacOnlyCalls(h, g, last, text);
    }
  }

  lemma {:induction false} HmacOnlyCalls(h: Hash, g: Hash, key: seq<Byte>, text: seq<Byte>)
    requires forall m: seq<Byte> :: h(m) == g(m)
    ensures Hmac(h, key, text) == Hmac(g, key, text)
  {
  }

  lemma {:induction false} NodeChainDepth(sha: Hash, path: seq<seq<Byte>>)
    ensures Depth(NodeChain(sha, path)) == |path| + 1
    decreases |path|
  {
    if path != [] {
      NodeChainDepth(sha, path[..|path| - 1]);
    }
  }

  // --- scratch budget -----------------------------------------------------------

  function AtLeastDigest(n: nat): nat {
    if n < DIGEST_SIZE then DIGEST_SIZE else n
  }

  /** Scratch bytes a chain of `depth` levels uses on a message of `n` bytes. */
  function Need(depth: nat, n: nat): nat {
    if depth == 0 then 0
    else var m := BLOCK_SIZE + AtLeastDigest(n); m + Need(depth - 1, m)
  }

  lemma {:induction false} NeedMonotone(depth: nat, n: nat, m: nat)
    requires n <= m
    ensures Need(depth, n) <= Need(depth, m)
  {
    if depth > 0 {
      NeedMonotone(depth - 1, BLOCK_SIZE + AtLeastDigest(n), BLOCK_SIZE + AtLeastDigest(m));
    }
  }

  lemma {:induction false} NeedDeeper(depth: nat, deeper: nat, n: nat)
    requires depth <= deeper
    ensures Need(depth, n) <= Need(deeper, n)
  {
    if depth > 0 {
      NeedDeeper(depth - 1, deeper - 1, BLOCK_SIZE + AtLeastDigest(n));
    }
  }

  /** The closed form the source states for its scratch size: one pad more per level, plus the message per level. */
  lemma {:induction false} NeedClosedForm(depth: nat, n: nat)
    requires n >= DIGEST_SIZE
    ensures 2 * Need(depth, n) == BLOCK_SIZE * depth * (depth + 1) + 2 * n * depth
  {
    if depth > 0 {
      var d := depth - 1;
      NeedClosedForm(d, BLOCK_SIZE + n);
      calc {
        2 * Need(depth, n);
        2 * (BLOCK_SIZE + n) + BLOCK_SIZE * d * (d + 1) + 2 * (BLOCK_SIZE + n) * d;
        BLOCK_SIZE * (d + 1) * (d + 2) + 2 * n * (d + 1);
      }
    }
  }

  /** The scratch array is exactly the worst case of the fast path. */
  lemma {:induction false} ScratchIsExact()
    ensures Need(MAX_CHAIN_LEN, MAX_KEY_LEN) == SCRATCH_SIZE == 4352
    ensures Need(MAX_CHAIN_LEN - 1, MAX_PATH_ELEM_LEN) == 3584
  {
    NeedClosedForm(MAX_CHAIN_LEN, MAX_KEY_LEN);
    NeedClosedForm(MAX_CHAIN_LEN - 1, MAX_PATH_ELEM_LEN);
  }

  // --- the code -------------------------------------------------------------------

  /** A byte slice: its own memory, or a range of the scratch array. */
  datatype Slice = Owned(bytes: seq<Byte>) | InScratch(lo: nat, hi: nat)

  ghost predicate SliceBefore(s: Slice, off: nat) {
    match s
    case Owned(_) => true
    case InScratch(lo, hi) => lo <= hi <= off
  }

  function SliceLen(s: Slice): nat
    requires s.InScratch? ==> s.lo <= s.hi
  {
    match s
    case Owned(bs) => |bs|
    case InScratch(lo, hi) => hi - lo
  }

  function SliceBytes(s: Slice, scratch: array<Byte>): seq<Byte>
    requires s.InScratch? ==> s.lo <= s.hi <= scratch.Length
    reads scratch
  {
    match s
    case Owned(bs) => bs
    case InScratch(lo, hi) => scratch[lo..hi]
  }

  /** `append` of two byte strings at an offset of the scratch array. */
  method Lay(scratch: array<Byte>, off: nat, pad: Pad, tail: seq<Byte>)
    requires off + BLOCK_SIZE + |tail| <= scratch.Length
    modifies scratch
    ensures scratch[off..off + BLOCK_SIZE + |tail|] == pad + tail
    ensures forall i :: 0 <= i < off ==> scratch[i] == old(scratch[i])
  {
    forall i | 0 <= i < BLOCK_SIZE { scratch[off + i] := pad[i]; }
    forall i | 0 <= i < |tail| { scratch[off + BLOCK_SIZE + i] := tail[i]; }
  }

  /**
   One level of the evaluator. `off` is where this level's part of the scratch
   begins; everything before it, in particular the message, is left as it was.
   */
  method Sum(sha: Hash, n: Node, msg: Slice, scratch: array<Byte>, off: nat) returns (d: Digest)
    requires SliceBefore(msg, off) && off <= scratch.Length
    requires Need(Depth(n), SliceLen(msg)) <= scratch.Length - off
    modifies scratch
    ensures d == NodeHash(sha, n, old(SliceBytes(msg, scratch)))
    ensures forall i :: 0 <= i < off ==> scratch[i] == old(scratch[i])
    decreases n
  {
    ghost var text := SliceBytes(msg, scratch);
    NeedMonotone(Depth(n) - 1, BLOCK_SIZE + SliceLen(msg), BLOCK_SIZE + AtLeastDigest(SliceLen(msg)));
    NeedMonotone(Depth(n) - 1, BLOCK_SIZE + DIGEST_SIZE, BLOCK_SIZE + AtLeastDigest(SliceLen(msg)));
    var end := off + BLOCK_SIZE + SliceLen(msg);
    Lay(scratch, off, n.iPad, SliceBytes(msg, scratch));
    var inner := HashBelow(sha, n, scratch, off, end);
    end := off + BLOCK_SIZE + DIGEST_SIZE;
    Lay(scratch, off, n.oPad, inner);
    d := HashBelow(sha, n, scratch, off, end);
  }

  /** Hash `scratch[lo..hi]` with the level below `n`, whose own scratch starts at `hi`. */
  method HashBelow(sha: Hash, n: Node, scratch: array<Byte>, lo: nat, hi: nat) returns (d: Digest)
    requires lo <= hi <= scratch.Length
    requires Need(Depth(n) - 1, hi - lo) <= scratch.Length - hi
    modifies scratch
    ensures d == Below(sha, n.child)(old(scratch[lo..hi]))
    ensures forall i :: 0 <= i < hi ==> scratch[i] == old(scratch[i])
    decreases n, 0
  {
    match n.child {
      case None => d := sha(scratch[lo..hi]);
      case Some(c) => d := Sum(sha, c, InScratch(lo, hi), scratch, hi);
    }
  }

  method FillPads(k: seq<Byte>) returns (iPad: Pad, oPad: Pad)
    requires |k| <= BLOCK_SIZE
    ensures iPad == PaddedKey(k, 0x36) && oPad == PaddedKey(k, 0x5c)
  {
    var inner: seq<Byte>, outer: seq<Byte> := [], [];
    for i := 0 to BLOCK_SIZE
      invariant |inner| == |outer| == i
      invariant forall j :: 0 <= j < i ==> inner[j] == Xor(KeyByte(k, j), 0x36)
      invariant forall j :: 0 <= j < i ==> outer[j] == Xor(KeyByte(k, j), 0x5c)
    {
      var b := KeyByte(k, i);
      inner := inner + [Xor(b, 0x36)];
      outer := outer + [Xor(b, 0x5c)];
    }
    iPad, oPad := inner, outer;
    PaddedKeyIs(k, 0x36, iPad);
    PaddedKeyIs(k, 0x5c, oPad);
  }

  /** Fill in a node's pads from its key, pre-hashing an over-long key through the child chain. */
  method NodeWithKey(sha: Hash, key: seq<Byte>, child: Option<Node>, scratch: array<Byte>) returns (n: Node)
    requires child.Some? && |key| > BLOCK_SIZE ==> Need(Depth(child.value), |key|) <= scratch.Length
    modifies scratch
    ensures n == KeyedNode(sha, key, child)
  {
    var k := key;
    if |k| > BLOCK_SIZE {
      match child {
        case None => k := sha(k);
        case Some(c) => k := Sum(sha, c, Owned(k), scratch, 0);
      }
    }
    var iPad, oPad := FillPads(k);
    n := Node(iPad, oPad, child);
  }

  /** Is the input inside the budget of the scratch evaluator? */
  method FitsScratch(key: seq<Byte>, path: seq<seq<Byte>>) returns (fits: bool)
    ensures fits <==> 0 < |path| < MAX_CHAIN_LEN && |key| <= MAX_KEY_LEN
                      && forall v :: v in path ==> |v| <= MAX_PATH_ELEM_LEN
  {
    if |path| == 0 || |path| >= MAX_CHAIN_LEN || |key| > MAX_KEY_LEN {
      return false;
    }
    for i := 0 to |path|
      invariant forall j :: 0 <= j < i ==> |path[j]| <= MAX_PATH_ELEM_LEN
    {
      if |path[i]| > MAX_PATH_ELEM_LEN {
        return false;
      }
    }
    return true;
  }

  method BuildChain(sha: Hash, path: seq<seq<Byte>>, scratch: array<Byte>) returns (node: Node)
    requires |path| < MAX_CHAIN_LEN && forall v :: v in path ==> |v| <= MAX_PATH_ELEM_LEN
    requires scratch.Length == SCRATCH_SIZE
    modifies scratch
    ensures node == NodeChain(sha, path)
  {
    node := NodeWithKey(sha, ROOT_SALT, None, scratch);
    for i := 0 to |path|
      invariant node == NodeChain(sha, path[..i])
    {
      NodeChainDepth(sha, path[..i]);
      BudgetCovers(i + 1, |path[i]|);
      assert path[..i + 1][..i] == path[..i];
      node := NodeWithKey(sha, path[i], Some(node), scratch);
    }
    assert path[..|path|] == path;
  }

  /**
   The whole derivation. On every input, inside the scratch budget or falling
   back, it returns the reference digest.
   */
  method Kdf(sha: Hash, key: seq<Byte>, path: seq<seq<Byte>>) returns (out: Digest)
    ensures out == KdfReference(sha, key, path)
  {
    var fits := FitsScratch(key, path);
    if !fits {
      return KdfReference(sha, key, path);
    }
    var scratch := new Byte[SCRATCH_SIZE];
    var node := BuildChain(sha, path, scratch);
    NodeChainDepth(sha, path);
    BudgetCovers(|path| + 1, |key|);
    out := Sum(sha, node, Owned(key), scratch, 0);
    NodeChainIsReference(sha, path, key);
  }

  lemma {:induction false} BudgetCovers(depth: nat, n: nat)
    requires depth <= MAX_CHAIN_LEN && n <= MAX_KEY_LEN
    ensures Need(depth, n) <= SCRATCH_SIZE
  {
    NeedMonotone(depth, n, MAX_KEY_LEN);
    NeedDeeper(depth, MAX_CHAIN_LEN, MAX_KEY_LEN);
    ScratchIsExact();
  }
}
