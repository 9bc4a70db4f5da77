/** The incremental hasher: a lazily flushed block, a chunk, and a stack of subtree values. */
module Blake3Hasher {
  import Arithmetic
  import opened Bytes
  import opened Blake3Tree

  /** A complete subtree: its chaining value and how many chunks it covers. */
  datatype Entry = Entry(cv: CV, chunks: nat)

  /** The most input the 64-bit chunk counter can number. */
  const MAX_INPUT: nat := 0x400 * 0x1_0000_0000_0000_0000

  /**
   The stack covers exactly the whole chunks in msg: bottom to top, ever smaller
   powers of two of chunks, each entry holding the tree of its own stretch.
   */
  ghost predicate Covers(m: Mode, st: seq<Entry>, msg: seq<Byte>) {
    if st == [] then msg == [] else
    var top := st[|st| - 1];
    var cut := |msg| - 1024 * top.chunks;
    && PowerOfTwo(top.chunks)
    && cut >= 0 && cut % 1024 == 0
    && (|st| > 1 ==> st[|st| - 2].chunks > top.chunks)
    && top.cv == NodeCV(m, Tree(m, msg[cut..], cut / 1024))
    && Covers(m, st[..|st| - 1], msg[..cut])
  }

  ghost function TotalChunks(st: seq<Entry>): nat {
    if st == [] then 0 else TotalChunks(st[..|st| - 1]) + st[|st| - 1].chunks
  }

  /** The entries' sizes are strictly decreasing powers of two adding up to the chunks covered. */
  lemma {:induction false} CoversIsBinary(m: Mode, st: seq<Entry>, msg: seq<Byte>)
    requires Covers(m, st, msg)
    ensures forall i :: 0 <= i < |st| ==> PowerOfTwo(st[i].chunks)
    ensures forall i :: 0 < i < |st| ==> st[i - 1].chunks > st[i].chunks
    ensures 1024 * TotalChunks(st) == |msg|
    decreases |st|
  {
    hide Tree, NodeCV;
    if st != [] {
      var top := st[|st| - 1];
      CoversIsBinary(m, st[..|st| - 1], msg[..|msg| - 1024 * top.chunks]);
      forall i | 0 < i < |st|
        ensures st[i - 1].chunks > st[i].chunks
      {
        if i < |st| - 1 {
          assert st[..|st| - 1][i - 1].chunks > st[..|st| - 1][i].chunks;
        }
      }
    }
  }

  /** k strictly decreasing powers of two ending in top need a total of at least top * (2^k - 1). */
  lemma {:induction false} StackDepth(m: Mode, st: seq<Entry>, msg: seq<Byte>)
    requires Covers(m, st, msg) && st != []
    ensures st[|st| - 1].chunks >= 1
    ensures |msg| >= 1024 * (st[|st| - 1].chunks * (Arithmetic.Pow2(|st|) - 1))
    decreases |st|
  {
    hide Tree;
    var k, top := |st|, st[|st| - 1].chunks;
    if k > 1 {
      var below := st[k - 2].chunks;
      StackDepth(m, st[..k - 1], msg[..|msg| - 1024 * top]);
      assert PowerOfTwo(below);
      PowerGap(top, below);
      DoubledWeight(below, top, Arithmetic.Pow2(k - 1) - 1);
    } else {
      assert Arithmetic.Pow2(1) == 2 * Arithmetic.Pow2(0);
    }
  }

  lemma DoubledWeight(below: nat, top: nat, e: nat)
    requires below >= 2 * top
    ensures below * e + top >= top * (2 * e + 1)
  {
    assert below * e >= (2 * top) * e;
  }

  lemma Pow2_64()
    ensures Arithmetic.Pow2(64) == TWO_64
  {
    assert Arithmetic.Pow2(8) == 0x100;
    assert Arithmetic.Pow2(16) == 0x1_0000;
    assert Arithmetic.Pow2(24) == 0x100_0000;
    assert Arithmetic.Pow2(32) == 0x1_0000_0000;
    assert Arithmetic.Pow2(40) == 0x100_0000_0000;
    assert Arithmetic.Pow2(48) == 0x1_0000_0000_0000;
    assert Arithmetic.Pow2(56) == 0x100_0000_0000_0000;
  }

  /** 64 slots are enough for every input the chunk counter can number. */
  lemma StackFits(m: Mode, st: seq<Entry>, msg: seq<Byte>)
    requires Covers(m, st, msg) && |msg| < MAX_INPUT
    ensures |st| <= 64
  {
    if |st| > 64 {
      StackDepth(m, st, msg);
      Pow2_64();
      Pow2Grows(64, |st| - 1);
      MulByPositive(st[|st| - 1].chunks, Arithmetic.Pow2(|st|) - 1);
    }
  }

  lemma MulByPositive(a: nat, b: nat)
    requires a >= 1
    ensures a * b >= b
  {
  }

  lemma {:induction false} Pow2Grows(a: nat, b: nat)
    requires a <= b
    ensures Arithmetic.Pow2(a) <= Arithmetic.Pow2(b)
    decreases b
  {
    if a < b {
      Pow2Grows(a, b - 1);
    }
  }

  /**
   Joining what lies right of the stack with its top entry: the result is the tree
   over both, and it is again no larger than the next entry.
   */
  lemma FoldTop(m: Mode, st: seq<Entry>, cur: CV, msg: seq<Byte>, cut: nat) returns (below: nat)
    requires st != [] && cut < |msg| && cut % 1024 == 0
    requires Covers(m, st, msg[..cut])
    requires |msg| - cut <= 1024 * st[|st| - 1].chunks
    requires cur == NodeCV(m, Tree(m, msg[cut..], cut / 1024))
    ensures below == cut - 1024 * st[|st| - 1].chunks && below % 1024 == 0
    ensures Covers(m, st[..|st| - 1], msg[..below])
    ensures Tree(m, msg[below..], below / 1024) == ParentNode(m, st[|st| - 1].cv, cur)
    ensures |st| > 1 ==> |msg| - below <= 1024 * st[|st| - 2].chunks
  {
    hide Tree;
    var top := st[|st| - 1];
    below := cut - 1024 * top.chunks;
    assert msg[..cut][..below] == msg[..below];
    assert msg[..cut][below..] == msg[below..cut];
    assert msg[below..] == msg[below..cut] + msg[cut..];
    JoinTrees(m, msg[below..cut], msg[cut..], top.chunks, below / 1024);
    if |st| > 1 {
      CoversIsBinary(m, st, msg[..cut]);
      PowerGap(top.chunks, st[|st| - 2].chunks);
    }
  }

  /**
   The hasher's fields describe the input msg: the whole chunks are on the stack, the
   whole blocks of the current chunk are in cv, and the rest is in the buffer.
   */
  ghost predicate Describes(m: Mode, msg: seq<Byte>, counter: nat, blocks: nat, cv: CV, buffer: seq<Byte>,
          st: seq<Entry>) {
    && blocks <= 15 && |buffer| <= 64 && counter < TWO_64
    && 1024 * counter + 64 * blocks + |buffer| == |msg|
    && var chunk := 1024 * counter;
    var tail := chunk + 64 * blocks;
    && Covers(m, st, msg[..chunk])
    && cv == ChunkChain(m, msg[chunk..tail], counter)
    && buffer == msg[tail..]
  }

  lemma CutAgain(s: seq<Byte>, a: nat, b: nat)
    requires a <= b <= |s|
    ensures s[a..][..b - a] == s[a..b] && s[a..][b - a..] == s[b..]
  {
  }

  lemma DescribesMore(m: Mode, msg: seq<Byte>, counter: nat, blocks: nat, cv: CV, buffer: seq<Byte>, st: seq<Entry>,
          bytes: seq<Byte>)
    requires Describes(m, msg, counter, blocks, cv, buffer, st)
    requires |buffer| + |bytes| <= 64
    ensures Describes(m, msg + bytes, counter, blocks, cv, buffer + bytes, st)
  {
    hide Covers, ChunkChain;
    var chunk := 1024 * counter;
    var tail := chunk + 64 * blocks;
    assert (msg + bytes)[..chunk] == msg[..chunk];
    assert (msg + bytes)[chunk..tail] == msg[chunk..tail];
    assert (msg + bytes)[tail..] == msg[tail..] + bytes;
  }

  /** Compressing a full block that does not end its chunk. */
  lemma DescribesBlock(m: Mode, msg: seq<Byte>, counter: nat, blocks: nat, cv: CV, buffer: seq<Byte>, st: seq<Entry>)
    requires Describes(m, msg, counter, blocks, cv, buffer, st)
    requires blocks < 15 && |buffer| == 64
    ensures Describes(m, msg, counter, blocks + 1,
                      NodeCV(m, Node(cv, BlockWords(buffer), counter, 64, InnerFlags(m.flag, blocks))), [], st)
  {
    hide Covers, ChunkChain, BlockWords, NodeCV, InnerFlags, LastFlags;
    var chunk := 1024 * counter;
    var tail := chunk + 64 * blocks;
    CutAgain(msg, chunk, tail);
    ChainStep(m, msg[chunk..], msg[chunk..tail], buffer, counter);
    assert msg[chunk..tail + 64] == msg[chunk..];
  }

  /** Closing a full chunk, once the stack covers it. */
  lemma DescribesChunk(m: Mode, msg: seq<Byte>, counter: nat, cv: CV, buffer: seq<Byte>, st: seq<Entry>,
          grown: seq<Entry>)
    requires Describes(m, msg, counter, 15, cv, buffer, st)
    requires |buffer| == 64 && |msg| < MAX_INPUT
    requires Covers(m, grown, msg)
    ensures Describes(m, msg, counter + 1, 0, m.key, [], grown)
  {
    hide Covers;
    assert msg[..|msg|] == msg;
  }

  /** What closing a full chunk needs to know. */
  lemma FullChunk(m: Mode, msg: seq<Byte>, counter: nat, cv: CV, buffer: seq<Byte>, st: seq<Entry>)
    requires Describes(m, msg, counter, 15, cv, buffer, st) && |buffer| == 64
    ensures |msg| == 1024 * counter + 1024 && Covers(m, st, msg[..|msg| - 1024])
  {
    hide Covers;
  }

  /** What finishing needs to know: the rest is no larger than any complete subtree. */
  lemma UnfinishedChunk(m: Mode, msg: seq<Byte>, counter: nat, blocks: nat, cv: CV, buffer: seq<Byte>, st: seq<Entry>)
    requires Describes(m, msg, counter, blocks, cv, buffer, st)
    requires |buffer| == 0 ==> |msg| == 0
    ensures 1024 * counter <= |msg| <= 1024 * counter + 1024 && Covers(m, st, msg[..1024 * counter])
    ensures |st| == 0 ==> counter == 0
    ensures |st| > 0 ==> 1024 * counter < |msg| && st[|st| - 1].chunks >= 1
  {
    hide Tree, ChunkChain, NodeCV;
    if |st| > 0 {
      PowerIsPositive(st[|st| - 1].chunks);
    }
  }

  lemma PowerIsPositive(n: nat)
    requires PowerOfTwo(n)
    ensures n >= 1
  {
  }

  lemma PowerOfTwoSteps(n: nat)
    ensures PowerOfTwo(1)
    ensures PowerOfTwo(n) ==> PowerOfTwo(2 * n)
  {
  }

  lemma CoversNothing(m: Mode, st: seq<Entry>, msg: seq<Byte>)
    requires Covers(m, st, msg) && |st| == 0
    ensures |msg| == 0
  {
  }

  lemma CoversPush(m: Mode, st: seq<Entry>, e: Entry, msg: seq<Byte>)
    requires PowerOfTwo(e.chunks) && 1024 * e.chunks <= |msg| && (|msg| - 1024 * e.chunks) % 1024 == 0
    requires Covers(m, st, msg[..|msg| - 1024 * e.chunks])
    requires |st| > 0 ==> st[|st| - 1].chunks > e.chunks
    requires e.cv == NodeCV(m, Tree(m, msg[|msg| - 1024 * e.chunks..], (|msg| - 1024 * e.chunks) / 1024))
    ensures Covers(m, st + [e], msg)
  {
    hide Tree, NodeCV;
    var grown := st + [e];
    assert grown[..|grown| - 1] == st && grown[|grown| - 1] == e;
  }

  /** The unfinished chunk is a leaf of the tree, and the buffer is its last block. */
  lemma LastChunk(m: Mode, msg: seq<Byte>, counter: nat, blocks: nat, cv: CV, buffer: seq<Byte>, st: seq<Entry>)
    requires Describes(m, msg, counter, blocks, cv, buffer, st)
    requires |buffer| == 0 ==> |msg| == 0
    ensures Tree(m, msg[1024 * counter..], counter) ==
            Node(cv, BlockWords(buffer), counter, |buffer|, LastFlags(m.flag, blocks))
  {
    hide Covers, ChunkChain, Tree, BlockWords, NodeCV, InnerFlags, LastFlags;
    var chunk := 1024 * counter;
    var tail := chunk + 64 * blocks;
    var leaf, front := msg[chunk..], msg[chunk..tail];
    assert leaf[..|front|] == front && leaf[|front|..] == buffer by { CutAgain(msg, chunk, tail); }
    assert |front| / 64 == blocks;
    assert |front| % 64 == 0 && |leaf| <= 1024;
    LeafTree(m, leaf, front, buffer, counter);
  }

  /** Pushes the bytes of one output block, stopping once room is used up. */
  method EmitBlock(o: Block, room: nat) returns (bytes: seq<Byte>)
    ensures bytes == BlockBytes(o)[..if room < 64 then room else 64]
  {
    hide BlockBytes, ByteOf;
    bytes := [];
    var w := 0;
    while w < 16 && |bytes| < room
      invariant w <= 16 && |bytes| == if 4 * w < room then 4 * w else room
      invariant bytes == BlockBytes(o)[..|bytes|]
    {
      var b := 0;
      while b < 4 && |bytes| < room
        invariant b <= 4 && |bytes| == if 4 * w + b < room then 4 * w + b else room
        invariant bytes == BlockBytes(o)[..|bytes|]
      {
        BlockByteAt(o, w, b);
        bytes := bytes + [ByteOf(o[w], b)];
        b := b + 1;
      }
      w := w + 1;
    }
  }

  /** One more byte of a word; a zero byte adds nothing. */
  lemma WordStep(b: seq<Byte>, i: nat, j: nat)
    requires i + 4 <= |b| && j < 4
    ensures WordPrefix(b, i, 0) == 0 && WordPrefix(b, i, 4) == WordLE(b, i)
    ensures WordPrefix(b, i, j + 1) == With(WordPrefix(b, i, j), b[i + j], j)
    ensures b[i + j] == 0 ==> WordPrefix(b, i, j + 1) == WordPrefix(b, i, j)
  {
  }

  /** Reads a block as sixteen little-endian words; bytes past len count as zero whatever they hold. */
  method LoadBlock(block: array<Byte>, len: nat) returns (m: Block)
    requires block.Length == 64 && len <= 64
    ensures m == BlockWords(block[..len])
  {
    hide WordPrefix, WordLE, With;
    var words: seq<Word32> := [];
    ghost var padded := block[..len] + Zeros(64 - len);
    for i := 0 to 16
      invariant |words| == i
      invariant forall k :: 0 <= k < i ==> words[k] == WordLE(padded, 4 * k)
    {
      var w: bv32 := 0;
      WordStep(padded, 4 * i, 0);
      for j := 0 to 4
        invariant w == WordPrefix(padded, 4 * i, j)
      {
        WordStep(padded, 4 * i, j);
        if 4 * i + j < len {
          w := With(w, block[4 * i + j], j);
        }
      }
      words := words + [w];
    }
    m := words;
  }

  class Blake3 {
    const compress: Compress
    var key: CV
    var modeFlag: bv32
    var cv: CV
    var chunkCounter: nat
    const block: array<Byte>
    var blockLen: nat
    var blocksCompressed: nat
    const stack: array<Entry>
    var stackLen: nat

    /** Everything absorbed since the last reset. */
    ghost var message: seq<Byte>

    function CurrentMode(): Mode
      reads this
    {
      Mode(compress, key, modeFlag)
    }

    ghost predicate Layout()
      reads this
    {
      block.Length == 64 && stack.Length == 64 && block as object != stack as object
    }

    /** The fields describe message, though its last block may be flushed early. */
    ghost predicate Consistent()
      reads this, block, stack
    {
      && Layout()
      && blockLen <= 64 && blocksCompressed <= 15 && stackLen <= 64
      && Describes(CurrentMode(), message, chunkCounter, blocksCompressed, cv, block[..blockLen], stack[..stackLen])
    }

    /** Between calls the last block is kept back: only the empty message has an empty buffer. */
    ghost predicate Valid()
      reads this, block, stack
    {
      Consistent() && (blockLen == 0 ==> |message| == 0)
    }

    /** Nothing absorbed yet. */
    ghost predicate Pristine()
      reads this, block, stack
    {
      && Layout()
      && cv == key && chunkCounter == 0 && blockLen == 0 && blocksCompressed == 0 && stackLen == 0
      && message == []
    }

    lemma PristineIsValid()
      requires Pristine()
      ensures Valid()
    {
      assert block[..blockLen] == [] && stack[..stackLen] == [];
    }

    constructor (compress: Compress)
      ensures Pristine() && Valid() && fresh(block) && fresh(stack)
      ensures this.compress == compress && key == IV && modeFlag == 0
    {
      this.compress := compress;
      block := new Byte[64](_ => 0);
      stack := new Entry[64](_ => Entry(IV, 0));
      key, cv, modeFlag := IV, IV, 0;
      chunkCounter, blockLen, blocksCompressed, stackLen := 0, 0, 0, 0;
      message := [];
      new;
      PristineIsValid();
    }

    method InitMode(key: CV, flag: bv32)
      requires Layout()
      modifies this, block, stack
      ensures Valid() && message == [] && this.key == key && modeFlag == flag
    {
      this.key, cv, modeFlag := key, key, flag;
      chunkCounter, blockLen, blocksCompressed, stackLen := 0, 0, 0, 0;
      forall i | 0 <= i < 64 {
        block[i] := 0;
      }
      forall i | 0 <= i < 64 {
        stack[i] := Entry([0, 0, 0, 0, 0, 0, 0, 0], 0);
      }
      message := [];
      PristineIsValid();
    }

    method Reset()
      requires Layout()
      modifies this, block, stack
      ensures Valid() && message == [] && CurrentMode() == Mode(compress, IV, 0)
    {
      InitMode(IV, 0);
    }

    /** Keyed hashing; a key that is not 32 bytes is refused and changes nothing. */
    method ResetKeyed(keyBytes: seq<Byte>) returns (ok: bool)
      requires Layout()
      modifies this, block, stack
      ensures ok <==> |keyBytes| == 32
      ensures ok ==> Valid() && message == [] && CurrentMode() == Mode(compress, KeyWords(keyBytes), KEYED_HASH)
      ensures !ok ==> unchanged(this, block, stack)
    {
      if |keyBytes| != 32 {
        return false;
      }
      InitMode(KeyWords(keyBytes), KEYED_HASH);
      return true;
    }

    /** Key derivation: the key is the hash of the context string in its own mode. */
    method ResetDerive(context: seq<Byte>)
      requires Layout()
      requires |context| <= MAX_INPUT
      modifies this, block, stack
      ensures Valid() && message == []
      ensures CurrentMode() == Mode(compress, KeyWords(Hash(Mode(compress, IV, DERIVE_KEY_CONTEXT), context, 32)),
                                    DERIVE_KEY_MATERIAL)
    {
      hide Describes, Hash, KeyWords;
      var ctx := new Blake3(compress);
      ctx.modeFlag := DERIVE_KEY_CONTEXT;
      ctx.PristineIsValid();
      ctx.Update(context);
      assert ctx.message == context && ctx.CurrentMode() == Mode(compress, IV, DERIVE_KEY_CONTEXT);
      var derived := ctx.Finish(32);
      InitMode(KeyWords(derived), DERIVE_KEY_MATERIAL);
    }

    function ParentCV(left: CV, right: CV): (r: CV)
      reads this
      ensures r == NodeCV(CurrentMode(), ParentNode(CurrentMode(), left, right))
    {
      Squeeze(compress, Node(key, left + right, 0, 64, ParentFlags(modeFlag)))[..8]
    }

    /**
     Merges the value of a finished chunk with every equal-sized top: the incremental
     form of keeping left subtrees full and as large as possible.
     */
    method MergeTops(chunkCv: CV, ghost msg: seq<Byte>) returns (cur: CV, chunks: nat, ghost cut: nat)
      requires Layout() && stackLen <= 64 && |msg| >= 1024 && |msg| % 1024 == 0
      requires Covers(CurrentMode(), stack[..stackLen], msg[..|msg| - 1024])
      requires chunkCv == NodeCV(CurrentMode(), Tree(CurrentMode(), msg[|msg| - 1024..], (|msg| - 1024) / 1024))
      modifies `stackLen
      ensures 0 <= stackLen <= old(stackLen) && PowerOfTwo(chunks)
      ensures cut + 1024 * chunks == |msg| && cut % 1024 == 0
      ensures Covers(CurrentMode(), stack[..stackLen], msg[..cut])
      ensures cur == NodeCV(CurrentMode(), Tree(CurrentMode(), msg[cut..], cut / 1024))
      ensures stackLen > 0 ==> stack[stackLen - 1].chunks > chunks
    {
      hide Tree, NodeCV, Covers, PowerOfTwo;
      ghost var m := CurrentMode();
      PowerOfTwoSteps(1);
      cur, chunks, cut := chunkCv, 1, |msg| - 1024;
      if stackLen > 0 {
        ghost var st := stack[..stackLen];
        CoversIsBinary(m, st, msg[..cut]);
        PowerIsPositive(st[stackLen - 1].chunks);
      }
      while stackLen > 0 && stack[stackLen - 1].chunks == chunks
        invariant 0 <= stackLen <= old(stackLen)
        invariant chunks >= 1 && PowerOfTwo(chunks) && cut + 1024 * chunks == |msg| && cut % 1024 == 0
        invariant Covers(m, stack[..stackLen], msg[..cut])
        invariant stackLen > 0 ==> stack[stackLen - 1].chunks >= chunks
        invariant cur == NodeCV(m, Tree(m, msg[cut..], cut / 1024))
      {
        ghost var st := stack[..stackLen];
        stackLen := stackLen - 1;
        var e := stack[stackLen];
        cut := FoldTop(m, st, cur, msg, cut);
        assert st[..stackLen] == stack[..stackLen];
        cur := ParentCV(e.cv, cur);
        PowerOfTwoSteps(chunks);
        chunks := 2 * chunks;
      }
    }

    /** Pushes the value of a finished chunk. */
    method PushChunk(chunkCv: CV, ghost msg: seq<Byte>)
      requires Layout() && stackLen <= 64 && 1024 <= |msg| < MAX_INPUT && |msg| % 1024 == 0
      requires Covers(CurrentMode(), stack[..stackLen], msg[..|msg| - 1024])
      requires chunkCv == NodeCV(CurrentMode(), Tree(CurrentMode(), msg[|msg| - 1024..], (|msg| - 1024) / 1024))
      modifies stack, `stackLen
      ensures stackLen <= 64 && Covers(CurrentMode(), stack[..stackLen], msg)
    {
      hide Tree, NodeCV, Covers;
      var cur, chunks, cut := MergeTops(chunkCv, msg);
      ghost var pushed := stack[..stackLen] + [Entry(cur, chunks)];
      CoversPush(CurrentMode(), stack[..stackLen], Entry(cur, chunks), msg);
      StackFits(CurrentMode(), pushed, msg);
      stack[stackLen] := Entry(cur, chunks);
      stackLen := stackLen + 1;
      assert stack[..stackLen] == pushed;
    }

    /** Closes a full chunk and opens the next one. */
    method FinishChunk()
      requires Consistent() && blocksCompressed == 15 && blockLen == 64
      requires |message| < MAX_INPUT
      modifies this, stack
      ensures Consistent() && blockLen == 0 && blocksCompressed == 0
      ensures message == old(message) && CurrentMode() == old(CurrentMode())
    {
      hide Covers, Describes, Tree, NodeCV, BlockWords, LastFlags;
      ghost var m := CurrentMode();
      ghost var st := stack[..stackLen];
      LastChunk(m, message, chunkCounter, 15, cv, block[..blockLen], st);
      FullChunk(m, message, chunkCounter, cv, block[..blockLen], st);
      var words := LoadBlock(block, blockLen);
      var cur := ChainingValue(words, blockLen, LastFlags(modeFlag, blocksCompressed));
      PushChunk(cur, message);
      DescribesChunk(m, message, chunkCounter, cv, block[..blockLen], st, stack[..stackLen]);
      cv := key;
      chunkCounter := chunkCounter + 1;
      blocksCompressed := 0;
      blockLen := 0;
      assert block[..blockLen] == [];
    }

    /** One compression of the current chunk, cut to a chaining value. */
    function ChainingValue(words: Block, len: nat, flags: bv32): (r: CV)
      reads this
      ensures r == NodeCV(CurrentMode(), Node(cv, words, chunkCounter, len, flags))
    {
      Squeeze(compress, Node(cv, words, chunkCounter, len, flags))[..8]
    }

    /** Absorbs data. A full block is compressed only once more input follows it. */
    method Update(data: seq<Byte>)
      requires Valid() && |message| + |data| <= MAX_INPUT
      modifies this, block, stack
      ensures Valid() && message == old(message) + data && CurrentMode() == old(CurrentMode())
    {
      hide Describes;
      var p := 0;
      while p < |data|
        invariant p <= |data| && Valid()
        invariant message == old(message) + data[..p] && CurrentMode() == old(CurrentMode())
      {
        if blockLen == 64 {
          if blocksCompressed == 15 {
            FinishChunk();
          } else {
            CompressBlock();
          }
        }
        var take := if 64 - blockLen > |data| - p then |data| - p else 64 - blockLen;
        Buffer(data[p..p + take]);
        p := p + take;
      }
      assert data[..p] == data;
    }

    /** Compresses a full block that does not end its chunk. */
    method CompressBlock()
      requires Consistent() && blocksCompressed < 15 && blockLen == 64
      modifies this
      ensures Consistent() && blockLen == 0
      ensures message == old(message) && CurrentMode() == old(CurrentMode())
    {
      hide Describes, BlockWords;
      var words := LoadBlock(block, 64);
      DescribesBlock(CurrentMode(), message, chunkCounter, blocksCompressed, cv, block[..blockLen], stack[..stackLen]);
      cv := ChainingValue(words, 64, InnerFlags(modeFlag, blocksCompressed));
      blocksCompressed := blocksCompressed + 1;
      blockLen := 0;
      assert block[..blockLen] == [];
    }

    /** Appends bytes that fit to the block buffer. */
    method Buffer(bytes: seq<Byte>)
      requires Consistent() && 0 < |bytes| <= 64 - blockLen
      modifies this, block
      ensures Valid() && message == old(message) + bytes && CurrentMode() == old(CurrentMode())
    {
      hide Describes;
      DescribesMore(CurrentMode(), message, chunkCounter, blocksCompressed, cv, block[..blockLen], stack[..stackLen],
          bytes);
      forall i | 0 <= i < |bytes| {
        block[blockLen + i] := bytes[i];
      }
      blockLen := blockLen + |bytes|;
      message := message + bytes;
      assert stack[..stackLen] == old(stack[..stackLen]);
      assert block[..blockLen] == old(block[..blockLen]) + bytes;
    }

    /** The compression inputs of the root: the only chunk, or the fold of the whole stack. */
    method RootNode() returns (root: Node)
      requires Valid()
      modifies `stackLen
      ensures root == var n := Tree(CurrentMode(), message, 0); n.(flags := RootFlags(n.flags))
    {
      hide Covers, Describes, Tree, NodeCV, BlockWords, LastFlags, ParentFlags, RootFlags;
      ghost var m := CurrentMode();
      ghost var cut := 1024 * chunkCounter;
      LastChunk(m, message, chunkCounter, blocksCompressed, cv, block[..blockLen], stack[..stackLen]);
      UnfinishedChunk(m, message, chunkCounter, blocksCompressed, cv, block[..blockLen], stack[..stackLen]);
      var words := LoadBlock(block, blockLen);
      if stackLen == 0 {
        assert message[0..] == message;
        return Node(cv, words, chunkCounter, blockLen, RootFlags(LastFlags(modeFlag, blocksCompressed)));
      }
      var cur := ChainingValue(words, blockLen, LastFlags(modeFlag, blocksCompressed));
      while stackLen > 1
        invariant 1 <= stackLen <= 64 && 0 <= cut < |message| && cut % 1024 == 0
        invariant Covers(m, stack[..stackLen], message[..cut])
        invariant |message| - cut <= 1024 * stack[stackLen - 1].chunks
        invariant cur == NodeCV(m, Tree(m, message[cut..], cut / 1024))
      {
        ghost var st := stack[..stackLen];
        stackLen := stackLen - 1;
        var e := stack[stackLen];
        cut := FoldTop(m, st, cur, message, cut);
        assert st[..stackLen] == stack[..stackLen];
        cur := ParentCV(e.cv, cur);
      }
      cut := FoldTop(m, stack[..1], cur, message, cut);
      CoversNothing(m, stack[..1][..0], message[..cut]);
      assert cut == 0 && message[0..] == message;
      root := Node(key, stack[0].cv + cur, 0, 64, RootFlags(ParentFlags(modeFlag)));
      stackLen := 0;
    }

    /** The hash of everything absorbed, outLen bytes long. Uses the hasher up: reset before reuse. */
    method Finish(outLen: nat) returns (out: seq<Byte>)
      requires Valid()
      modifies `stackLen
      ensures out == Hash(CurrentMode(), message, outLen)
    {
      hide Describes, Tree, RootFlags, BlockBytes, Squeeze;
      ghost var n := Tree(CurrentMode(), message, 0);
      var root := RootNode();
      out := [];
      var blockIndex := 0;
      while |out| < outLen
        invariant |out| == if 64 * blockIndex <= outLen then 64 * blockIndex else outLen
        invariant blockIndex <= BlocksFor(outLen)
        invariant out == RootStream(CurrentMode(), n, blockIndex)[..|out|]
      {
        var o := Squeeze(compress, root.(t := root.t + blockIndex));
        var bytes := EmitBlock(o, outLen - |out|);
        out := out + bytes;
        blockIndex := blockIndex + 1;
      }
    }
  }
}
