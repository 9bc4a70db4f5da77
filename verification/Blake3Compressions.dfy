/**
 Which compressions a hash is made of. The compression function is a parameter, so whatever
 holds for every such function shows the inputs it is given; numbers are written out here as
 in table 3 and sections 2.1 to 2.6 of the BLAKE3 paper.
 */
module Blake3Compressions {
  import opened Bytes
  import opened Blake3Tree

  // ---- flags

  /** What a compression is for; only the first block of a chunk starts it. */
  datatype Use = Inner(first: bool) | Last(first: bool, root: bool) | Parent(root: bool)

  function FlagsOf(mode: bv32, u: Use): bv32 {
    match u
    case Inner(first) => InnerFlags(mode, if first then 0 else 1)
    case Last(first, root) =>
      var flags := LastFlags(mode, if first then 0 else 1);
      if root then RootFlags(flags) else flags
    case Parent(root) => if root then RootFlags(ParentFlags(mode)) else ParentFlags(mode)
  }

  /** Plain hashing, keyed hashing, and the two stages of key derivation. */
  predicate IsModeFlag(f: bv32) {
    f == 0 || f == 16 || f == 32 || f == 64
  }

  /** The four low bits say the use, the others the mode. */
  lemma FlagBits(f: bv32, u: Use, blocksBefore: nat)
    requires IsModeFlag(f)
    ensures var x := FlagsOf(f, u);
            && x & 0xFFFF_FFF0 == f
            && (x & 1 == 1 <==> !u.Parent? && u.first)
            && (x & 2 == 2 <==> u.Last?)
            && (x & 4 == 4 <==> u.Parent?)
            && (x & 8 == 8 <==> !u.Inner? && u.root)
    ensures KEYED_HASH == 16 && DERIVE_KEY_CONTEXT == 32 && DERIVE_KEY_MATERIAL == 64
    ensures InnerFlags(f, blocksBefore) == FlagsOf(f, Inner(blocksBefore == 0))
    ensures LastFlags(f, blocksBefore) == FlagsOf(f, Last(blocksBefore == 0, false))
  {
    if f == 0 {
    } else if f == 16 {
    } else if f == 32 {
    } else {
    }
  }

  /** Compressions of different uses, or in different modes, never share their flags. */
  lemma FlagsApart(f: bv32, u: Use, g: bv32, v: Use)
    requires IsModeFlag(f) && IsModeFlag(g)
    ensures FlagsOf(f, u) == FlagsOf(g, v) <==> f == g && u == v
  {
    hide FlagsOf;
    FlagBits(f, u, 0);
    FlagBits(g, v, 0);
  }

  // ---- the compressions of a hash

  function Min(a: nat, b: nat): nat {
    if a < b then a else b
  }

  /** Compressing block k of chunk i of the message, as the last block of its chunk or not. */
  ghost predicate OfChunk(m: Mode, msg: seq<Byte>, n: Node, i: nat, k: nat, last: bool) {
    var from, end := 1024 * i + 64 * k, Min(1024 * i + 1024, |msg|);
    && k < 16 && (from < |msg| || (|msg| == 0 && from == 0))
    && (last <==> end <= from + 64)
    && var to := if last then end else from + 64;
    && n.words == BlockWords(msg[from..to]) && n.len == to - from && n.t == i
    && (k == 0 ==> n.cv == m.key)
    && n.flags == (if k == 0 then 1 else 0) | (if last then 2 else 0) | m.flag
  }

  predicate OfParent(m: Mode, n: Node) {
    n.cv == m.key && n.len == 64 && n.t == 0 && n.flags == 4 | m.flag
  }

  /** What the root is before its flag is set: the only chunk, or a parent. */
  ghost predicate OfRoot(m: Mode, msg: seq<Byte>, n: Node) {
    if |msg| <= 1024 then exists k :: OfChunk(m, msg, n, 0, k, true) else OfParent(m, n)
  }

  /** The compressions a hash of the message may be made of. */
  ghost predicate Asked(m: Mode, msg: seq<Byte>, n: Node) {
    || (exists i, k :: OfChunk(m, msg, n, i, k, false))
    || (|msg| > 1024 && exists i, k :: OfChunk(m, msg, n, i, k, true))
    || (|msg| > 1024 && OfParent(m, n))
    || (exists r: Node, j: nat :: OfRoot(m, msg, r) && n == Repeated(r, j))
  }

  /** The root's compression for output block j. */
  function Repeated(r: Node, j: nat): Node {
    r.(t := r.t + j, flags := r.flags | 8)
  }

  /** c gives the same answers where a hash of the message asks. */
  ghost predicate Agrees(m: Mode, c: Compress, msg: seq<Byte>) {
    forall n :: Asked(m, msg, n) ==> Squeeze(c, n) == Squeeze(m.compress, n)
  }

  lemma AnswersAlike(m: Mode, c: Compress, msg: seq<Byte>, n: Node, i: nat, k: nat, last: bool)
    requires Agrees(m, c, msg) && OfChunk(m, msg, n, i, k, last) && (last ==> |msg| > 1024)
    ensures NodeCV(m.(compress := c), n) == NodeCV(m, n)
  {
    hide OfChunk, Squeeze;
    assert Asked(m, msg, n);
  }

  lemma CutAt(s: seq<Byte>, a: nat, b: nat, e: nat)
    requires a <= b <= e <= |s|
    ensures s[a..e][..b - a] == s[a..b] && s[a..e][b - a..] == s[b..e]
  {
  }

  lemma ChainAt(m: Mode, msg: seq<Byte>, i: nat, k: nat)
    requires 1024 * i + 64 * k + 64 <= |msg|
    ensures var from := 1024 * i + 64 * k;
            ChunkChain(m, msg[1024 * i..from + 64], i) ==
            NodeCV(m, Node(ChunkChain(m, msg[1024 * i..from], i), BlockWords(msg[from..from + 64]), i, 64,
                           InnerFlags(m.flag, k)))
  {
    hide NodeCV, BlockWords, InnerFlags, ChunkChain;
    var a, from := 1024 * i, 1024 * i + 64 * k;
    CutAt(msg, a, from, from + 64);
    assert |msg[a..from]| == 64 * k && (64 * k) / 64 == k;
    ChainStep(m, msg[a..from + 64], msg[a..from], msg[from..from + 64], i);
  }

  lemma EmptyChain(m: Mode, blocks: seq<Byte>, t: nat)
    requires |blocks| == 0
    ensures ChunkChain(m, blocks, t) == m.key
  {
  }

  lemma {:induction false} ChainAsks(m: Mode, c: Compress, msg: seq<Byte>, i: nat, k: nat)
    requires Agrees(m, c, msg) && k < 16 && (1024 * i + 64 * k < |msg| || k == 0 == |msg| == i)
    ensures var blocks := msg[1024 * i..1024 * i + 64 * k];
            ChunkChain(m.(compress := c), blocks, i) == ChunkChain(m, blocks, i)
            && (k == 0 ==> ChunkChain(m, blocks, i) == m.key)
    decreases k
  {
    hide Agrees, NodeCV, BlockWords, OfChunk, InnerFlags, ChunkChain;
    if k == 0 {
      EmptyChain(m, msg[1024 * i..1024 * i], i);
      EmptyChain(m.(compress := c), msg[1024 * i..1024 * i], i);
    } else {
      var from := 1024 * i + 64 * (k - 1);
      ChainAsks(m, c, msg, i, k - 1);
      ChainAt(m, msg, i, k - 1);
      ChainAt(m.(compress := c), msg, i, k - 1);
      var n := Node(ChunkChain(m, msg[1024 * i..from], i), BlockWords(msg[from..from + 64]), i, 64,
                    InnerFlags(m.flag, k - 1));
      InnerIsOfChunk(m, msg, n, i, k - 1);
      AnswersAlike(m, c, msg, n, i, k - 1, false);
    }
  }

  lemma InnerIsOfChunk(m: Mode, msg: seq<Byte>, n: Node, i: nat, k: nat)
    requires k < 15 && 1024 * i + 64 * k + 64 < |msg|
    requires n.words == BlockWords(msg[1024 * i + 64 * k..1024 * i + 64 * k + 64]) && n.t == i && n.len == 64
    requires k == 0 ==> n.cv == m.key
    requires n.flags == InnerFlags(m.flag, k)
    ensures OfChunk(m, msg, n, i, k, false)
  {
    hide BlockWords;
    assert n.flags == (if k == 0 then 1 else 0) | 0 | m.flag;
  }

  lemma LastIsOfChunk(m: Mode, msg: seq<Byte>, n: Node, i: nat, k: nat, e: nat)
    requires k < 16 && e == Min(1024 * i + 1024, |msg|) && (1024 * i + 64 * k < |msg| || k == 0 == |msg| == i)
    requires e <= 1024 * i + 64 * k + 64
    requires n.words == BlockWords(msg[1024 * i + 64 * k..e]) && n.t == i && n.len == e - (1024 * i + 64 * k)
    requires k == 0 ==> n.cv == m.key
    requires n.flags == LastFlags(m.flag, k)
    ensures OfChunk(m, msg, n, i, k, true)
  {
    hide BlockWords;
  }

  /** How many blocks come before the last one of the chunk that ends at e. */
  function BlocksBefore(i: nat, e: nat): nat
    requires 1024 * i <= e
  {
    LastBlock(e - 1024 * i) / 64
  }

  lemma LastBlockBounds(n: nat)
    requires n <= 1024
    ensures var k := LastBlock(n) / 64; k < 16 && 64 * k == LastBlock(n) && (k == 0 || 64 * k < n) && n <= 64 * k + 64
  {
  }

  lemma LeafAt(m: Mode, msg: seq<Byte>, i: nat, e: nat, k: nat)
    requires 1024 * i <= e <= |msg| && e <= 1024 * i + 1024 && k == BlocksBefore(i, e)
    ensures var from := 1024 * i + 64 * k;
            && k < 16 && from <= e <= from + 64 && (k == 0 || from < e)
            && Tree(m, msg[1024 * i..e], i) ==
               Node(ChunkChain(m, msg[1024 * i..from], i), BlockWords(msg[from..e]), i, e - from, LastFlags(m.flag, k))
  {
    hide ChunkChain, BlockWords, LastFlags, Tree, LastBlock;
    var a, from := 1024 * i, 1024 * i + 64 * k;
    LastBlockBounds(e - a);
    CutAt(msg, a, from, e);
    assert |msg[a..from]| == 64 * k && (64 * k) / 64 == k;
    LeafTree(m, msg[a..e], msg[a..from], msg[from..e], i);
  }

  /** A chunk of the message as a leaf; every one of its compressions but the leaf's own is answered alike. */
  lemma LeafAsks(m: Mode, c: Compress, msg: seq<Byte>, i: nat, e: nat)
    requires Agrees(m, c, msg)
    requires e == Min(1024 * i + 1024, |msg|) && (1024 * i < |msg| || |msg| == 0 == i)
    ensures var n := Tree(m, msg[1024 * i..e], i);
            n == Tree(m.(compress := c), msg[1024 * i..e], i) && OfChunk(m, msg, n, i, BlocksBefore(i, e), true)
  {
    hide Agrees, ChunkChain, BlockWords, OfChunk, LastFlags, Tree, BlocksBefore;
    var k := BlocksBefore(i, e);
    LeafAt(m, msg, i, e, k);
    LeafAt(m.(compress := c), msg, i, e, k);
    ChainAsks(m, c, msg, i, k);
    LastIsOfChunk(m, msg, Tree(m, msg[1024 * i..e], i), i, k, e);
  }

  lemma {:induction false} TreeAsks(m: Mode, c: Compress, msg: seq<Byte>, i: nat, e: nat)
    requires Agrees(m, c, msg) && 1024 * i <= e <= |msg| && (e % 1024 == 0 || e == |msg|)
    requires 1024 * i < e || |msg| == 0 == i
    ensures var n := Tree(m, msg[1024 * i..e], i);
            && n == Tree(m.(compress := c), msg[1024 * i..e], i)
            && if e <= 1024 * i + 1024 then exists k :: OfChunk(m, msg, n, i, k, true) else OfParent(m, n)
    decreases e - 1024 * i, 0
  {
    hide Agrees, ChunkChain, OfChunk, Tree, LeftChunks, NodeCV;
    if e <= 1024 * i + 1024 {
      assert e == Min(1024 * i + 1024, |msg|);
      LeafAsks(m, c, msg, i, e);
    } else {
      var whole := msg[1024 * i..e];
      var left := LeftChunks(|whole|);
      var mid := 1024 * (i + left);
      CutAt(msg, 1024 * i, mid, e);
      SplitTree(m, whole, i, left);
      SplitTree(m.(compress := c), whole, i, left);
      TreeAnswersAlike(m, c, msg, i, mid);
      TreeAnswersAlike(m, c, msg, i + left, e);
    }
  }

  lemma TreeAnswersAlike(m: Mode, c: Compress, msg: seq<Byte>, i: nat, e: nat)
    requires Agrees(m, c, msg) && 1024 * i < e <= |msg| && (e % 1024 == 0 || e == |msg|) && |msg| > 1024
    ensures NodeCV(m.(compress := c), Tree(m.(compress := c), msg[1024 * i..e], i)) ==
            NodeCV(m, Tree(m, msg[1024 * i..e], i))
    decreases e - 1024 * i, 1
  {
    hide Agrees, OfChunk, Tree;
    TreeAsks(m, c, msg, i, e);
    var n := Tree(m, msg[1024 * i..e], i);
    if e <= 1024 * i + 1024 {
      var k :| OfChunk(m, msg, n, i, k, true);
      AnswersAlike(m, c, msg, n, i, k, true);
    } else {
      assert Asked(m, msg, n);
      Answered(m, c, msg, n);
    }
  }

  lemma Answered(m: Mode, c: Compress, msg: seq<Byte>, n: Node)
    requires Agrees(m, c, msg) && Asked(m, msg, n)
    ensures NodeCV(m.(compress := c), n) == NodeCV(m, n) && Squeeze(c, n) == Squeeze(m.compress, n)
  {
    hide Squeeze, Asked;
  }

  lemma {:induction false} StreamAsks(m: Mode, c: Compress, msg: seq<Byte>, r: Node, k: nat)
    requires Agrees(m, c, msg) && OfRoot(m, msg, r)
    ensures RootStream(m.(compress := c), r, k) == RootStream(m, r, k)
  {
    hide Agrees, OfRoot, Squeeze, BlockBytes;
    if k > 0 {
      StreamAsks(m, c, msg, r, k - 1);
      assert Asked(m, msg, Repeated(r, k - 1));
      Answered(m, c, msg, Repeated(r, k - 1));
    }
  }

  /**
   A hash asks its compression function nothing else: chunk i's blocks in order under counter
   i, each with its length and the flags of its place, starting from the key; parents under
   the key, 64 bytes long and uncounted; and the root's compression, flagged and counted up.
   */
  lemma HashAsksOnly(m: Mode, c: Compress, msg: seq<Byte>, outLen: nat)
    requires Agrees(m, c, msg)
    ensures Hash(m.(compress := c), msg, outLen) == Hash(m, msg, outLen)
  {
    hide Agrees, Tree, OfChunk, RootStream;
    assert msg[1024 * 0..|msg|] == msg;
    TreeAsks(m, c, msg, 0, |msg|);
    StreamAsks(m, c, msg, Tree(m, msg, 0), BlocksFor(outLen));
  }
}
