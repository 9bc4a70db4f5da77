/**
 The BLAKE3 hash as the specification defines it: one recursive tree over the
 whole message. Sections 2.1, 2.4, 2.5 and 2.6 of the BLAKE3 paper. The
 compression function is a parameter; nothing here depends on its rounds.
 */
module Blake3Tree {
  import opened Bytes

  const CHUNK_START: bv32 := 0x01
  const CHUNK_END: bv32 := 0x02
  const PARENT: bv32 := 0x04
  const ROOT: bv32 := 0x08
  const KEYED_HASH: bv32 := 0x10
  const DERIVE_KEY_CONTEXT: bv32 := 0x20
  const DERIVE_KEY_MATERIAL: bv32 := 0x40

  /** A chaining value: eight words. */
  type CV = s: seq<Word32> | |s| == 8 witness [0, 0, 0, 0, 0, 0, 0, 0]

  /** A message block, or the full output of one compression: sixteen words. */
  type Block = s: seq<Word32> | |s| == 16 witness [0, 0, 0, 0, 0, 0, 0, 0, 0, 0, 0, 0, 0, 0, 0, 0]

  const IV: CV := [0x6a09e667, 0xbb67ae85, 0x3c6ef372, 0xa54ff53a,
                   0x510e527f, 0x9b05688c, 0x1f83d9ab, 0x5be0cd19]

  /** compress(h, m, t, len, flags). */
  type Compress = (CV, Block, nat, nat, bv32) -> Block

  /** What the three hashing modes differ in. */
  datatype Mode = Mode(compress: Compress, key: CV, flag: bv32)

  /** The inputs of the compression that yields a subtree's value. */
  datatype Node = Node(cv: CV, words: Block, t: nat, len: nat, flags: bv32)

  function Squeeze(compress: Compress, n: Node): Block {
    compress(n.cv, n.words, n.t, n.len, n.flags)
  }

  /** The chaining value of a subtree that is not the root. */
  function NodeCV(m: Mode, n: Node): CV {
    Squeeze(m.compress, n)[..8]
  }

  /** A word with one more byte set at its j-th place, counting from the low end. */
  function With(w: Word32, x: Byte, j: nat): Word32
    requires j < 4
  {
    var v := x as bv32;
    if j == 0 then w | v else if j == 1 then w | (v << 8) else if j == 2 then w | (v << 16) else w | (v << 24)
  }

  /** The first j of the four bytes at i, each shifted to its place in a little-endian word. */
  function WordPrefix(b: seq<Byte>, i: nat, j: nat): (w: Word32)
    requires i + 4 <= |b| && j <= 4
  {
    if j == 0 then 0 else With(WordPrefix(b, i, j - 1), b[i + j - 1], j - 1)
  }

  /** Four bytes read as a little-endian word. */
  function WordLE(b: seq<Byte>, i: nat): (w: Word32)
    requires i + 4 <= |b|
  {
    WordPrefix(b, i, 4)
  }

  /** A block of up to 64 bytes, zero padded, as sixteen little-endian words. */
  function BlockWords(b: seq<Byte>): (m: Block)
    requires |b| <= 64
  {
    var padded := b + Zeros(64 - |b|);
    seq(16, i requires 0 <= i < 16 => WordLE(padded, 4 * i))
  }

  /** Eight words read from the 32 bytes of a key. */
  function KeyWords(b: seq<Byte>): (k: CV)
    requires |b| == 32
  {
    seq(8, i requires 0 <= i < 8 => WordLE(b, 4 * i))
  }

  function StartFlag(blocksBefore: nat): bv32 {
    if blocksBefore == 0 then CHUNK_START else 0
  }

  /** Flags of a block inside a chunk, of a chunk's last block, and of a parent. */
  function InnerFlags(modeFlag: bv32, blocksBefore: nat): bv32 {
    StartFlag(blocksBefore) | modeFlag
  }

  function LastFlags(modeFlag: bv32, blocksBefore: nat): bv32 {
    StartFlag(blocksBefore) | CHUNK_END | modeFlag
  }

  function ParentFlags(modeFlag: bv32): bv32 {
    PARENT | modeFlag
  }

  function RootFlags(flags: bv32): bv32 {
    flags | ROOT
  }

  /** The chaining value after the leading blocks of a chunk. */
  ghost function ChunkChain(m: Mode, blocks: seq<Byte>, t: nat): CV
    requires |blocks| % 64 == 0
  {
    if |blocks| == 0 then m.key else
    var cut := |blocks| - 64;
    NodeCV(m, Node(ChunkChain(m, blocks[..cut], t), BlockWords(blocks[cut..]), t, 64,
                   InnerFlags(m.flag, cut / 64)))
  }

  /** Where the last block of a nonempty chunk starts; 0 for the empty chunk. */
  function LastBlock(n: nat): (k: nat)
    ensures k <= n <= k + 64 && k % 64 == 0
  {
    if n == 0 then 0 else (n - 1) / 64 * 64
  }

  ghost function ChunkNode(m: Mode, chunk: seq<Byte>, t: nat): Node {
    var cut := LastBlock(|chunk|);
    Node(ChunkChain(m, chunk[..cut], t), BlockWords(chunk[cut..]), t, |chunk| - cut,
         LastFlags(m.flag, cut / 64))
  }

  function ParentNode(m: Mode, left: CV, right: CV): Node {
    Node(m.key, left + right, 0, 64, ParentFlags(m.flag))
  }

  ghost predicate PowerOfTwo(n: nat) {
    n == 1 || (n > 1 && n % 2 == 0 && PowerOfTwo(n / 2))
  }

  /** How many chunks go left: the largest power of two leaving at least one byte on the right. */
  ghost function LeftChunks(n: nat): (c: nat)
    requires n > 1024
    ensures PowerOfTwo(c) && 1024 * c < n <= 1024 * (2 * c)
  {
    LeftFrom(1, n)
  }

  ghost function LeftFrom(c: nat, n: nat): (r: nat)
    requires PowerOfTwo(c) && 1024 * c < n
    ensures PowerOfTwo(r) && 1024 * r < n <= 1024 * (2 * r)
    decreases n - c
  {
    if 1024 * (2 * c) < n then LeftFrom(2 * c, n) else c
  }

  /** The tree over msg, whose first chunk is chunk number t of the whole input. */
  ghost function Tree(m: Mode, msg: seq<Byte>, t: nat): Node
    decreases |msg|
  {
    if |msg| <= 1024 then ChunkNode(m, msg, t) else
    var c := LeftChunks(|msg|);
    var cut := 1024 * c;
    ParentNode(m, NodeCV(m, Tree(m, msg[..cut], t)), NodeCV(m, Tree(m, msg[cut..], t + c)))
  }

  /** Byte number i of a word, counting from the low end. */
  function ByteOf(w: Word32, i: nat): Byte
    requires i < 4
  {
    var v := if i == 0 then w else if i == 1 then w >> 8 else if i == 2 then w >> 16 else w >> 24;
    (v & 0xFF) as bv8
  }

  function WordBytes(w: Word32): (b: seq<Byte>)
    ensures |b| == 4
  {
    [ByteOf(w, 0), ByteOf(w, 1), ByteOf(w, 2), ByteOf(w, 3)]
  }

  /** Words as little-endian bytes. */
  function BlockBytes(b: seq<Word32>): (r: seq<Byte>)
    ensures |r| == 4 * |b|
  {
    if b == [] then [] else BlockBytes(b[..|b| - 1]) + WordBytes(b[|b| - 1])
  }

  /** The first k blocks of root output: the root compression again and again, only t counting up. */
  ghost function RootStream(m: Mode, n: Node, k: nat): (r: seq<Byte>)
    ensures |r| == 64 * k
  {
    if k == 0 then [] else
    RootStream(m, n, k - 1) + BlockBytes(Squeeze(m.compress, n.(t := n.t + (k - 1), flags := RootFlags(n.flags))))
  }

  /** How many 64-byte blocks it takes to output n bytes. */
  function BlocksFor(n: nat): nat {
    (n + 64 - 1) / 64
  }

  ghost function Output(m: Mode, n: Node, outLen: nat): (r: seq<Byte>)
    ensures |r| == outLen
  {
    RootStream(m, n, BlocksFor(outLen))[..outLen]
  }

  /** BLAKE3 of msg in mode m, outLen bytes long. */
  ghost function Hash(m: Mode, msg: seq<Byte>, outLen: nat): (r: seq<Byte>)
    ensures |r| == outLen
  {
    Output(m, Tree(m, msg, 0), outLen)
  }

  // ---- unfolding the tree one step

  lemma ChainStep(m: Mode, blocks: seq<Byte>, front: seq<Byte>, last: seq<Byte>, t: nat)
    requires |blocks| % 64 == 0 && |front| % 64 == 0 && |last| == 64
    requires |front| <= |blocks| && blocks[..|front|] == front && blocks[|front|..] == last
    ensures ChunkChain(m, blocks, t) ==
            NodeCV(m, Node(ChunkChain(m, front, t), BlockWords(last), t, 64, InnerFlags(m.flag, |front| / 64)))
  {
  }

  /** A chunk cut before its last block, which is not empty unless the chunk is. */
  lemma LeafTree(m: Mode, chunk: seq<Byte>, front: seq<Byte>, last: seq<Byte>, t: nat)
    requires |front| % 64 == 0 && |chunk| <= 1024 && |last| <= 64
    requires |front| <= |chunk| && chunk[..|front|] == front && chunk[|front|..] == last
    requires |last| == 0 ==> |front| == 0
    ensures Tree(m, chunk, t) ==
            Node(ChunkChain(m, front, t), BlockWords(last), t, |last|, LastFlags(m.flag, |front| / 64))
  {
    hide BlockWords, ChunkChain, NodeCV;
    assert LastBlock(|chunk|) == |front|;
  }

  // ---- extendable output

  lemma {:induction false} BlockByteAt(o: seq<Word32>, w: nat, b: nat)
    requires w < |o| && b < 4
    ensures BlockBytes(o)[4 * w + b] == ByteOf(o[w], b)
    decreases |o|
  {
    hide ByteOf, WordBytes;
    var rest, last := o[..|o| - 1], o[|o| - 1];
    assert BlockBytes(o) == BlockBytes(rest) + WordBytes(last);
    if w < |o| - 1 {
      BlockByteAt(rest, w, b);
    } else {
      WordByteAt(last, b);
    }
  }

  lemma WordByteAt(w: Word32, b: nat)
    requires b < 4
    ensures WordBytes(w)[b] == ByteOf(w, b)
  {
    hide ByteOf;
  }

  lemma {:induction false} RootStreamPrefix(m: Mode, n: Node, j: nat, k: nat)
    requires j <= k
    ensures RootStream(m, n, j) <= RootStream(m, n, k)
    decreases k
  {
    if j < k {
      RootStreamPrefix(m, n, j, k - 1);
    }
  }

  lemma {:induction false} StreamByteAt(m: Mode, n: Node, k: nat, j: nat)
    requires j < 64 * k
    ensures RootStream(m, n, k)[j] ==
            ByteOf(Squeeze(m.compress, n.(t := n.t + j / 64, flags := RootFlags(n.flags)))[j % 64 / 4], j % 4)
    decreases k
  {
    hide ByteOf, Squeeze, BlockBytes, RootFlags;
    if j < 64 * (k - 1) {
      StreamByteAt(m, n, k - 1, j);
    } else {
      assert j / 64 == k - 1;
      var o := Squeeze(m.compress, n.(t := n.t + (k - 1), flags := RootFlags(n.flags)));
      BlockByteAt(o, j % 64 / 4, j % 4);
    }
  }

  /** Output byte j is a byte of the root's compression number j / 64, its words in order, low bytes first. */
  lemma OutputByte(m: Mode, msg: seq<Byte>, outLen: nat, j: nat)
    requires j < outLen
    ensures var n := Tree(m, msg, 0);
            Hash(m, msg, outLen)[j] ==
            ByteOf(Squeeze(m.compress, n.(t := n.t + j / 64, flags := RootFlags(n.flags)))[j % 64 / 4], j % 4)
  {
    hide Tree, ByteOf, Squeeze, RootFlags, RootStream;
    StreamByteAt(m, Tree(m, msg, 0), BlocksFor(outLen), j);
  }

  /** A shorter output is a prefix of a longer one. */
  lemma OutputPrefix(m: Mode, msg: seq<Byte>, short: nat, long: nat)
    requires short <= long
    ensures Hash(m, msg, short) == Hash(m, msg, long)[..short]
  {
    RootStreamPrefix(m, Tree(m, msg, 0), BlocksFor(short), BlocksFor(long));
  }

  // ---- powers of two

  lemma {:induction false} PowerGap(a: nat, b: nat)
    requires PowerOfTwo(a) && PowerOfTwo(b) && a < b
    ensures 2 * a <= b
    decreases a
  {
    if a > 1 {
      PowerGap(a / 2, b / 2);
    }
  }

  /** LeftChunks is the only power of two between half of n and n. */
  lemma LeftChunksUnique(n: nat, c: nat)
    requires n > 1024
    requires PowerOfTwo(c) && 1024 * c < n <= 1024 * (2 * c)
    ensures LeftChunks(n) == c
  {
    var d := LeftChunks(n);
    if c < d {
      PowerGap(c, d);
    } else if d < c {
      PowerGap(d, c);
    }
  }

  lemma SplitTree(m: Mode, msg: seq<Byte>, t: nat, c: nat)
    requires |msg| > 1024 && c == LeftChunks(|msg|)
    ensures Tree(m, msg, t) ==
            ParentNode(m, NodeCV(m, Tree(m, msg[..1024 * c], t)),
                       NodeCV(m, Tree(m, msg[1024 * c..], t + c)))
  {
    hide ChunkNode, ChunkChain, ParentNode, NodeCV, LeftFrom, LeftChunks, PowerOfTwo;
  }

  /** Joining a full power-of-two subtree with anything no larger gives the tree of both. */
  lemma JoinTrees(m: Mode, left: seq<Byte>, right: seq<Byte>, c: nat, t: nat)
    requires PowerOfTwo(c) && |left| == 1024 * c && 0 < |right| <= |left|
    ensures Tree(m, left + right, t) ==
            ParentNode(m, NodeCV(m, Tree(m, left, t)), NodeCV(m, Tree(m, right, t + c)))
  {
    var msg := left + right;
    LeftChunksUnique(|msg|, c);
    SplitTree(m, msg, t, c);
    assert msg[..1024 * c] == left && msg[1024 * c..] == right;
  }
}
