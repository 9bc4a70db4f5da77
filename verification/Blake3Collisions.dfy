/**
 Why the tree adds no collisions of its own: two messages of the same hash come with two
 different inputs the compression function takes to the same chaining value, and those are
 among the inputs it is given for the two.
 */
module Blake3Collisions {
  import opened Bytes
  import opened Blake3Compressions
  import opened Blake3Tree

  // ---- words and blocks say what their bytes are

  lemma FirstByte(x: Byte)
    ensures With(0, x, 0) == x as bv32
  {
  }

  lemma SecondByte(w: Word32, x: Byte)
    ensures With(w, x, 1) == w | (x as bv32 << 8)
  {
  }

  lemma ThirdByte(w: Word32, x: Byte)
    ensures With(w, x, 2) == w | (x as bv32 << 16)
  {
  }

  lemma FourthByte(w: Word32, x: Byte)
    ensures With(w, x, 3) == w | (x as bv32 << 24)
  {
  }

  lemma Packed(p: bv32, q: bv32, r: bv32, s: bv32)
    requires p <= 0xFF && q <= 0xFF && r <= 0xFF && s <= 0xFF
    ensures var w := p | (q << 8) | (r << 16) | (s << 24);
            w & 0xFF == p && (w >> 8) & 0xFF == q && (w >> 16) & 0xFF == r && (w >> 24) & 0xFF == s
  {
  }

  lemma Widened(x: Byte)
    ensures x as bv32 <= 0xFF && (x as bv32) as bv8 == x
  {
  }

  /** The bytes of a word, low one first, are those it was read from. */
  lemma WordSaysBytes(b: seq<Byte>, i: nat)
    requires i + 4 <= |b|
    ensures var w := WordLE(b, i);
            && (w & 0xFF) == b[i] as bv32 && (w >> 8) & 0xFF == b[i + 1] as bv32
            && (w >> 16) & 0xFF == b[i + 2] as bv32 && (w >> 24) & 0xFF == b[i + 3] as bv32
  {
    hide With;
    WordIs(b, i);
    FirstByte(b[i]);
    SecondByte(With(0, b[i], 0), b[i + 1]);
    ThirdByte(With(With(0, b[i], 0), b[i + 1], 1), b[i + 2]);
    FourthByte(With(With(With(0, b[i], 0), b[i + 1], 1), b[i + 2], 2), b[i + 3]);
    Widened(b[i]);
    Widened(b[i + 1]);
    Widened(b[i + 2]);
    Widened(b[i + 3]);
    Packed(b[i] as bv32, b[i + 1] as bv32, b[i + 2] as bv32, b[i + 3] as bv32);
  }

  lemma WordIs(b: seq<Byte>, i: nat)
    requires i + 4 <= |b|
    ensures WordLE(b, i) == With(With(With(With(0, b[i], 0), b[i + 1], 1), b[i + 2], 2), b[i + 3], 3)
  {
    hide With;
    assert WordPrefix(b, i, 0) == 0;
    assert WordPrefix(b, i, 1) == With(0, b[i], 0);
    assert WordPrefix(b, i, 2) == With(WordPrefix(b, i, 1), b[i + 1], 1);
    assert WordPrefix(b, i, 3) == With(WordPrefix(b, i, 2), b[i + 2], 2);
  }

  /** Byte k of a block is byte k % 4, from the low end, of word k / 4; what is missing counts as zero. */
  lemma BlockSaysBytes(b: seq<Byte>, k: nat)
    requires |b| <= 64 && k < 64
    ensures var w, x := BlockWords(b)[k / 4], if k < |b| then b[k] else 0;
            && (k % 4 == 0 ==> w & 0xFF == x as bv32)
            && (k % 4 == 1 ==> (w >> 8) & 0xFF == x as bv32)
            && (k % 4 == 2 ==> (w >> 16) & 0xFF == x as bv32)
            && (k % 4 == 3 ==> (w >> 24) & 0xFF == x as bv32)
  {
    hide WordLE;
    var padded := b + Zeros(64 - |b|);
    assert BlockWords(b)[k / 4] == WordLE(padded, 4 * (k / 4));
    WordSaysBytes(padded, 4 * (k / 4));
    assert padded[k] == if k < |b| then b[k] else 0;
  }

  /** A key is read like the first half of a block. */
  lemma KeyIsHalfBlock(b: seq<Byte>)
    requires |b| == 32
    ensures KeyWords(b) == BlockWords(b)[..8]
  {
    hide WordLE;
    var padded := b + Zeros(32);
    forall i | 0 <= i < 8
      ensures WordLE(padded, 4 * i) == WordLE(b, 4 * i)
    {
      SameSlice(b, padded, 4 * i);
    }
  }

  lemma SameSlice(a: seq<Byte>, b: seq<Byte>, i: nat)
    requires i + 4 <= |a| <= |b| && b[..|a|] == a
    ensures WordLE(a, i) == WordLE(b, i)
  {
    hide With, WordLE;
    assert forall j :: i <= j < i + 4 ==> b[j] == b[..|a|][j];
    WordIs(a, i);
    WordIs(b, i);
  }

  lemma SameWord(a: seq<Byte>, b: seq<Byte>, i: nat)
    requires i + 4 <= |a| && i + 4 <= |b| && WordLE(a, i) == WordLE(b, i)
    ensures a[i] == b[i] && a[i + 1] == b[i + 1] && a[i + 2] == b[i + 2] && a[i + 3] == b[i + 3]
  {
    hide WordLE;
    WordSaysBytes(a, i);
    WordSaysBytes(b, i);
    SameByte(a[i], b[i]);
    SameByte(a[i + 1], b[i + 1]);
    SameByte(a[i + 2], b[i + 2]);
    SameByte(a[i + 3], b[i + 3]);
  }

  lemma SameByte(x: Byte, y: Byte)
    ensures x as bv32 == y as bv32 ==> x == y
  {
    Widened(x);
    Widened(y);
  }

  /** Blocks of equal length that read as the same words are the same. */
  lemma SameBlock(a: seq<Byte>, b: seq<Byte>)
    requires |a| == |b| <= 64 && BlockWords(a) == BlockWords(b)
    ensures a == b
  {
    hide WordLE;
    var x, y := a + Zeros(64 - |a|), b + Zeros(64 - |b|);
    forall k | 0 <= k < |a|
      ensures a[k] == b[k]
    {
      var i := k / 4;
      assert BlockWords(a)[i] == WordLE(x, 4 * i) && BlockWords(b)[i] == WordLE(y, 4 * i);
      SameWord(x, y, 4 * i);
      assert x[k] == a[k] && y[k] == b[k];
    }
  }

  // ---- bytes put out say what their words are

  function Low(v: bv32): bv32 {
    v & 0xFF
  }

  /** A word's bytes are put out low one first. */
  lemma ByteIs(w: Word32)
    ensures ByteOf(w, 0) == Low(w) as bv8 && ByteOf(w, 1) == Low(w >> 8) as bv8
    ensures ByteOf(w, 2) == Low(w >> 16) as bv8 && ByteOf(w, 3) == Low(w >> 24) as bv8
  {
  }

  lemma Narrowed(v: bv32, w: bv32)
    requires Low(v) as bv8 == Low(w) as bv8
    ensures Low(v) == Low(w)
  {
  }

  lemma FromParts(v: bv32, w: bv32)
    requires Low(v) == Low(w) && Low(v >> 8) == Low(w >> 8)
    requires Low(v >> 16) == Low(w >> 16) && Low(v >> 24) == Low(w >> 24)
    ensures v == w
  {
  }

  lemma SameBytes(v: Word32, w: Word32)
    requires ByteOf(v, 0) == ByteOf(w, 0) && ByteOf(v, 1) == ByteOf(w, 1)
    requires ByteOf(v, 2) == ByteOf(w, 2) && ByteOf(v, 3) == ByteOf(w, 3)
    ensures v == w
  {
    hide ByteOf, Low;
    ByteIs(v);
    ByteIs(w);
    Narrowed(v, w);
    Narrowed(v >> 8, w >> 8);
    Narrowed(v >> 16, w >> 16);
    Narrowed(v >> 24, w >> 24);
    FromParts(v, w);
  }

  // ---- what is compressed on the way to the root

  ghost function Block(m: Mode, blocks: seq<Byte>, t: nat): Node
    requires |blocks| % 64 == 0 && |blocks| > 0
  {
    var cut := |blocks| - 64;
    Node(ChunkChain(m, blocks[..cut], t), BlockWords(blocks[cut..]), t, 64, InnerFlags(m.flag, cut / 64))
  }

  ghost function ChainNodes(m: Mode, blocks: seq<Byte>, t: nat): set<Node>
    requires |blocks| % 64 == 0
  {
    if |blocks| == 0 then {} else ChainNodes(m, blocks[..|blocks| - 64], t) + {Block(m, blocks, t)}
  }

  ghost function Inside(m: Mode, msg: seq<Byte>, t: nat): set<Node>
    decreases |msg|
  {
    if |msg| <= 1024 then ChainNodes(m, msg[..LastBlock(|msg|)], t) else
    var c := LeftChunks(|msg|);
    var left, right := msg[..1024 * c], msg[1024 * c..];
    Inside(m, left, t) + Inside(m, right, t + c) + {Tree(m, left, t), Tree(m, right, t + c)}
  }

  ghost function RootOf(m: Mode, msg: seq<Byte>): Node {
    var n := Tree(m, msg, 0);
    n.(flags := RootFlags(n.flags))
  }

  /** Two different inputs, one of each set, are compressed to the same chaining value. */
  ghost predicate Collide(m: Mode, xs: set<Node>, ys: set<Node>) {
    exists x, y :: x in xs && y in ys && x != y && NodeCV(m, x) == NodeCV(m, y)
  }

  lemma Collision(m: Mode, xs: set<Node>, ys: set<Node>, x: Node, y: Node)
    requires x in xs && y in ys && x != y && NodeCV(m, x) == NodeCV(m, y)
    ensures Collide(m, xs, ys)
  {
  }

  lemma Wider(m: Mode, xs: set<Node>, ys: set<Node>, us: set<Node>, vs: set<Node>)
    requires Collide(m, xs, ys) && xs <= us && ys <= vs
    ensures Collide(m, us, vs)
  {
    var x, y :| x in xs && y in ys && x != y && NodeCV(m, x) == NodeCV(m, y);
    Collision(m, us, vs, x, y);
  }

  lemma FirstAlike(f: bv32, j: nat, k: nat)
    requires IsModeFlag(f)
    ensures InnerFlags(f, j) == InnerFlags(f, k) ==> (j == 0 <==> k == 0)
    ensures LastFlags(f, j) == LastFlags(f, k) ==> (j == 0 <==> k == 0)
    ensures LastFlags(f, j) != ParentFlags(f)
  {
    hide InnerFlags, LastFlags, ParentFlags;
    FlagBits(f, Inner(true), j);
    FlagBits(f, Inner(true), k);
    FlagsApart(f, Inner(j == 0), f, Inner(k == 0));
    FlagsApart(f, Last(j == 0, false), f, Last(k == 0, false));
    FlagsApart(f, Last(j == 0, false), f, Parent(false));
    assert FlagsOf(f, Parent(false)) == ParentFlags(f);
  }

  /** Chains that end in the same value hold the same blocks, or collide. */
  lemma {:induction false} ChainsCollide(m: Mode, a: seq<Byte>, b: seq<Byte>, t: nat, u: nat)
    requires IsModeFlag(m.flag) && |a| % 64 == 0 && |b| % 64 == 0 && (|a| == 0 <==> |b| == 0)
    requires ChunkChain(m, a, t) == ChunkChain(m, b, u) && a != b
    ensures Collide(m, ChainNodes(m, a, t), ChainNodes(m, b, u))
    decreases |a|
  {
    hide NodeCV, BlockWords, InnerFlags, Collide;
    var x, y := Block(m, a, t), Block(m, b, u);
    var front, other := a[..|a| - 64], b[..|b| - 64];
    assert NodeCV(m, x) == NodeCV(m, y);
    if x == y {
      SameBlock(a[|a| - 64..], b[|b| - 64..]);
      assert a == front + a[|a| - 64..] && b == other + b[|b| - 64..];
      FirstAlike(m.flag, |front| / 64, |other| / 64);
      ChainsCollide(m, front, other, t, u);
      Wider(m, ChainNodes(m, front, t), ChainNodes(m, other, u), ChainNodes(m, a, t), ChainNodes(m, b, u));
    } else {
      Collision(m, ChainNodes(m, a, t), ChainNodes(m, b, u), x, y);
    }
  }

  lemma LeavesCollide(m: Mode, a: seq<Byte>, b: seq<Byte>, t: nat, u: nat)
    requires IsModeFlag(m.flag) && |a| <= 1024 && |b| <= 1024 && Tree(m, a, t) == Tree(m, b, u) && a != b
    ensures Collide(m, Inside(m, a, t), Inside(m, b, u))
  {
    hide BlockWords, ChunkChain, LastFlags, LastBlock, Collide, ChainNodes;
    var i, j := LastBlock(|a|), LastBlock(|b|);
    LastBlockBounds(|a|);
    LastBlockBounds(|b|);
    FirstAlike(m.flag, i / 64, j / 64);
    SameBlock(a[i..], b[j..]);
    assert a == a[..i] + a[i..] && b == b[..j] + b[j..];
    ChainsCollide(m, a[..i], b[..j], t, u);
  }

  lemma Halves(l: CV, r: CV, k: CV, s: CV)
    requires l + r == k + s
    ensures l == k && r == s
  {
    assert l == (l + r)[..8] && k == (k + s)[..8] && r == (l + r)[8..] && s == (k + s)[8..];
  }

  /** Subtrees that end in the same compression are over the same bytes, or collide. */
  lemma {:induction false} TreesCollide(m: Mode, a: seq<Byte>, b: seq<Byte>, t: nat, u: nat)
    requires IsModeFlag(m.flag) && Tree(m, a, t) == Tree(m, b, u) && a != b
    ensures Collide(m, Inside(m, a, t), Inside(m, b, u))
    decreases |a|
  {
    hide Tree, Collide, NodeCV, LeftChunks, ParentFlags, LastFlags, Inside;
    LeafOrParent(m, a, t);
    LeafOrParent(m, b, u);
    if |a| <= 1024 && |b| <= 1024 {
      LeavesCollide(m, a, b, t, u);
    } else {
      var c, d := LeftChunks(|a|), LeftChunks(|b|);
      var al, ar, bl, br := a[..1024 * c], a[1024 * c..], b[..1024 * d], b[1024 * d..];
      assert a == al + ar && b == bl + br;
      var i, j, k, l := Tree(m, al, t), Tree(m, ar, t + c), Tree(m, bl, u), Tree(m, br, u + d);
      Halves(NodeCV(m, i), NodeCV(m, j), NodeCV(m, k), NodeCV(m, l));
      InsideSplit(m, a, t);
      InsideSplit(m, b, u);
      if i != k {
        Collision(m, Inside(m, a, t), Inside(m, b, u), i, k);
      } else if j != l {
        Collision(m, Inside(m, a, t), Inside(m, b, u), j, l);
      } else if al != bl {
        TreesCollide(m, al, bl, t, u);
        Wider(m, Inside(m, al, t), Inside(m, bl, u), Inside(m, a, t), Inside(m, b, u));
      } else {
        TreesCollide(m, ar, br, t + c, u + d);
        Wider(m, Inside(m, ar, t + c), Inside(m, br, u + d), Inside(m, a, t), Inside(m, b, u));
      }
    }
  }

  lemma InsideSplit(m: Mode, msg: seq<Byte>, t: nat)
    requires |msg| > 1024
    ensures var c := LeftChunks(|msg|);
            var left, right := msg[..1024 * c], msg[1024 * c..];
            && Inside(m, left, t) <= Inside(m, msg, t) && Inside(m, right, t + c) <= Inside(m, msg, t)
            && Tree(m, left, t) in Inside(m, msg, t) && Tree(m, right, t + c) in Inside(m, msg, t)
  {
    hide Tree, LeftChunks;
  }

  /** A leaf never ends in the same compression as a parent. */
  lemma LeafOrParent(m: Mode, msg: seq<Byte>, t: nat)
    requires IsModeFlag(m.flag)
    ensures |msg| <= 1024 <==> Tree(m, msg, t).flags != ParentFlags(m.flag)
    ensures |msg| > 1024 ==>
              var c := LeftChunks(|msg|);
              Tree(m, msg, t) == ParentNode(m, NodeCV(m, Tree(m, msg[..1024 * c], t)),
                                            NodeCV(m, Tree(m, msg[1024 * c..], t + c)))
  {
    hide NodeCV, LeftChunks, ParentFlags, LastFlags, ChunkChain;
    if |msg| <= 1024 {
      FirstAlike(m.flag, LastBlock(|msg|) / 64, 0);
    } else {
      SplitTree(m, msg, t, LeftChunks(|msg|));
    }
  }

  // ---- the hash

  /** What a tree's own compression is for, before it is known to be the root. */
  ghost function UseOf(msg: seq<Byte>): Use {
    if |msg| <= 1024 then Last(LastBlock(|msg|) / 64 == 0, false) else Parent(false)
  }

  lemma TreeUse(m: Mode, msg: seq<Byte>, t: nat)
    requires IsModeFlag(m.flag)
    ensures Tree(m, msg, t).flags == FlagsOf(m.flag, UseOf(msg))
    ensures RootFlags(Tree(m, msg, t).flags) ==
            FlagsOf(m.flag, UseOf(msg).(root := true))
  {
    hide NodeCV, LeftChunks, ParentFlags, LastFlags, InnerFlags, ChunkChain, LastBlock, RootFlags, BlockWords;
    if |msg| <= 1024 {
      FlagBits(m.flag, UseOf(msg), LastBlock(|msg|) / 64);
    } else {
      SplitTree(m, msg, t, LeftChunks(|msg|));
    }
  }

  lemma FirstWord(m: Mode, msg: seq<Byte>, n: nat, w: nat, i: nat)
    requires n >= 32 && w < 8 && i < 4
    ensures Hash(m, msg, n)[4 * w + i] == ByteOf(NodeCV(m, RootOf(m, msg))[w], i)
  {
    hide Tree, Hash, ByteOf, Squeeze, RootFlags;
    OutputByte(m, msg, n, 4 * w + i);
    assert (4 * w + i) / 64 == 0 && (4 * w + i) % 64 / 4 == w && (4 * w + i) % 4 == i;
  }

  /** The first 32 bytes of a hash are the root's chaining value. */
  lemma SameHashSameRoot(m: Mode, k: Mode, a: seq<Byte>, b: seq<Byte>, n: nat)
    requires n >= 32 && Hash(m, a, n) == Hash(k, b, n)
    ensures NodeCV(m, RootOf(m, a)) == NodeCV(k, RootOf(k, b))
  {
    hide RootOf, Hash, ByteOf, NodeCV;
    var v, w := NodeCV(m, RootOf(m, a)), NodeCV(k, RootOf(k, b));
    forall i | 0 <= i < 8
      ensures v[i] == w[i]
    {
      FirstWord(m, a, n, i, 0);
      FirstWord(m, a, n, i, 1);
      FirstWord(m, a, n, i, 2);
      FirstWord(m, a, n, i, 3);
      FirstWord(k, b, n, i, 0);
      FirstWord(k, b, n, i, 1);
      FirstWord(k, b, n, i, 2);
      FirstWord(k, b, n, i, 3);
      SameBytes(v[i], w[i]);
    }
  }

  ghost function Compressed(m: Mode, msg: seq<Byte>): set<Node> {
    Inside(m, msg, 0) + {RootOf(m, msg)}
  }

  /** Different messages of the same hash, of 32 bytes or more, make the compression function collide. */
  lemma HashesCollide(m: Mode, a: seq<Byte>, b: seq<Byte>, n: nat)
    requires IsModeFlag(m.flag) && n >= 32 && Hash(m, a, n) == Hash(m, b, n) && a != b
    ensures Collide(m, Compressed(m, a), Compressed(m, b))
  {
    hide Tree, Hash, NodeCV, RootFlags, FlagsOf, Inside, Collide;
    SameHashSameRoot(m, m, a, b, n);
    if RootOf(m, a) != RootOf(m, b) {
      Collision(m, Compressed(m, a), Compressed(m, b), RootOf(m, a), RootOf(m, b));
    } else {
      TreeUse(m, a, 0);
      TreeUse(m, b, 0);
      FlagsApart(m.flag, UseOf(a).(root := true), m.flag, UseOf(b).(root := true));
      TreesCollide(m, a, b, 0, 0);
      Wider(m, Inside(m, a, 0), Inside(m, b, 0), Compressed(m, a), Compressed(m, b));
    }
  }

  /** So do equal hashes in different modes, whatever the messages, even under the same key. */
  lemma ModesCollide(m: Mode, k: Mode, a: seq<Byte>, b: seq<Byte>, n: nat)
    requires IsModeFlag(m.flag) && IsModeFlag(k.flag) && m.flag != k.flag && m.compress == k.compress
    requires n >= 32 && Hash(m, a, n) == Hash(k, b, n)
    ensures RootOf(m, a) != RootOf(k, b) && NodeCV(m, RootOf(m, a)) == NodeCV(m, RootOf(k, b))
  {
    hide Tree, Hash, RootFlags, FlagsOf;
    SameHashSameRoot(m, k, a, b, n);
    TreeUse(m, a, 0);
    TreeUse(k, b, 0);
    FlagsApart(m.flag, UseOf(a).(root := true), k.flag, UseOf(b).(root := true));
  }

  // ---- the root, the key and the initial value

  /** The root of more than one chunk puts its left part first; its flags are those of a parent and a root. */
  lemma RootOfTwo(m: Mode, msg: seq<Byte>)
    requires |msg| > 1024
    ensures var c := LeftChunks(|msg|);
            var (left, right) := (Tree(m, msg[..1024 * c], 0), Tree(m, msg[1024 * c..], c));
            RootOf(m, msg) == Node(m.key, NodeCV(m, left) + NodeCV(m, right), 0, 64, 12 | m.flag)
  {
    hide NodeCV, LeftChunks, Tree;
    SplitTree(m, msg, 0, LeftChunks(|msg|));
  }

  /** A message of one block: its own bytes, under the key, with all three flags of a lone block. */
  lemma RootOfOne(m: Mode, msg: seq<Byte>)
    requires |msg| <= 64
    ensures RootOf(m, msg) == Node(m.key, BlockWords(msg), 0, |msg|, 11 | m.flag)
  {
    hide BlockWords;
    LeafTree(m, msg, [], msg, 0);
  }

  /** whole and the fraction's first 32 bits are the prime's square root, cut off there. */
  predicate IsRootOf(whole: nat, w: Word32, prime: nat) {
    var r := whole * 0x1_0000_0000 + w as int;
    r * r <= prime * 0x1_0000_0000_0000_0000 < (r + 1) * (r + 1)
  }

  /** The initial value's words are the fractions of the first eight primes' square roots. */
  lemma InitialValue()
    ensures IsRootOf(1, IV[0], 2) && IsRootOf(1, IV[1], 3) && IsRootOf(2, IV[2], 5) && IsRootOf(2, IV[3], 7)
    ensures IsRootOf(3, IV[4], 11) && IsRootOf(3, IV[5], 13) && IsRootOf(4, IV[6], 17) && IsRootOf(4, IV[7], 19)
  {
    hide IsRootOf;
    FirstFour();
    SecondFour();
  }

  lemma FirstFour()
    ensures IsRootOf(1, IV[0], 2) && IsRootOf(1, IV[1], 3) && IsRootOf(2, IV[2], 5) && IsRootOf(2, IV[3], 7)
  {
  }

  lemma SecondFour()
    ensures IsRootOf(3, IV[4], 11) && IsRootOf(3, IV[5], 13) && IsRootOf(4, IV[6], 17) && IsRootOf(4, IV[7], 19)
  {
  }
}
