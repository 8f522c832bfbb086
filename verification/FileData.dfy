/** What a skip-list of blocks says about the bytes of a file. */
module FileData {
  import opened Bits
  import opened CtzIndex
  import opened Words
  import opened SkipList

  /** Byte p of c is where the index arithmetic puts it. */
  ghost predicate HasByte(dev: Blocks, blockSize: nat, chain: seq<nat>, c: seq<byte>, p: nat)
    requires blockSize > 8 && p < |c|
  {
    var (n, off) := Index(blockSize, p);
    && 0 <= n < |chain| && chain[n] in dev
    && 0 <= off < |dev[chain[n]]|
    && dev[chain[n]][off] == c[p]
  }

  /** The list holds c as the first bytes of its file. */
  ghost predicate Stores(dev: Blocks, blockSize: nat, chain: seq<nat>, c: seq<byte>)
    requires blockSize > 8
  {
    forall p :: 0 <= p < |c| ==> HasByte(dev, blockSize, chain, c, p)
  }

  lemma FrameStores(dev: Blocks, dev': Blocks, blockSize: nat, chain: seq<nat>, c: seq<byte>, block: nat)
    requires blockSize > 8 && Stores(dev, blockSize, chain, c)
    requires block !in chain && block in dev' && dev' == dev[block := dev'[block]]
    ensures Stores(dev', blockSize, chain, c)
  {
    hide Index;
    forall p | 0 <= p < |c| ensures HasByte(dev', blockSize, chain, c, p) {
      assert HasByte(dev, blockSize, chain, c, p);
    }
  }

  /** Everything that a file object knows about a list survives writes to other blocks. */
  lemma FrameFile(dev: Blocks, dev': Blocks, blockSize: nat, chain: seq<nat>, head: nat, c: seq<byte>, block: nat)
    requires blockSize > 8 && IsFile(dev, blockSize, chain, head, |c|) && Stores(dev, blockSize, chain, c)
    requires block !in chain && block in dev' && dev' == dev[block := dev'[block]]
    ensures IsFile(dev', blockSize, chain, head, |c|) && Stores(dev', blockSize, chain, c)
  {
    hide Index, Stores;
    FrameList(dev, dev', blockSize, chain, block);
    FrameStores(dev, dev', blockSize, chain, c, block);
  }

  lemma PositionOrder(blockSize: nat, p: nat, q: nat)
    requires blockSize >= 128 && p < q < WORD_LIMIT
    ensures var (m, o), (n, off) := Index(blockSize, p), Index(blockSize, q);
      0 <= m <= n < INDEX_LIMIT && 0 <= o < blockSize && (m == n ==> o + (q - p) == off)
  {
    hide Index;
    IndexMonotonic(blockSize, p, q);
    IndexCorrect(blockSize, p);
    IndexCorrect(blockSize, q);
  }

  /** The blocks up to the one that holds byte pos - 1 are the list of the first pos bytes. */
  lemma TakeFile(dev: Blocks, blockSize: nat, chain: seq<nat>, c: seq<byte>, pos: nat)
    requires blockSize >= 128 && |c| < WORD_LIMIT && IsList(dev, blockSize, chain) && Stores(dev, blockSize, chain, c)
    requires 0 < pos <= |c|
    ensures var n := Index(blockSize, pos - 1).0;
      && 0 <= n < |chain| && n < INDEX_LIMIT
      && IsFile(dev, blockSize, chain[..n + 1], chain[n], pos)
      && Stores(dev, blockSize, chain[..n + 1], c[..pos])
  {
    hide Index, Holds;
    IndexCorrect(blockSize, pos - 1);
    assert HasByte(dev, blockSize, chain, c, pos - 1);
    var n := Index(blockSize, pos - 1).0;
    Prefix(dev, blockSize, chain, n + 1);
    hide IsList;
    var chain', c' := chain[..n + 1], c[..pos];
    forall p | 0 <= p < pos ensures HasByte(dev, blockSize, chain', c', p) {
      assert HasByte(dev, blockSize, chain, c, p);
      IndexMonotonic(blockSize, p, pos - 1);
    }
  }

  /** Extending a list keeps the bytes that it stored. */
  lemma ExtendStores(dev: Blocks, dev': Blocks, blockSize: nat, chain: seq<nat>, c: seq<byte>,
                     chain': seq<nat>, block: nat, off: nat)
    requires blockSize >= 128 && |c| < WORD_LIMIT && Stores(dev, blockSize, chain, c)
    requires block !in chain && block in dev' && dev' == dev[block := dev'[block]]
    requires Extends(dev', blockSize, chain, |c|, chain', block, off)
    ensures Stores(dev', blockSize, chain', c)
  {
    FrameStores(dev, dev', blockSize, chain, c, block);
    forall p | 0 <= p < |c| ensures HasByte(dev', blockSize, chain', c, p) {
      PositionOrder(blockSize, p, |c|);
      hide Index, IsList;
      assert HasByte(dev', blockSize, chain, c, p);
      var (m, o) := Index(blockSize, p);
      if m == |chain'| - 1 {
        SameByte(dev', blockSize, chain[m], block, off, o);
      }
    }
  }

  lemma SameByte(dev: Blocks, blockSize: nat, from: nat, to: nat, count: nat, o: nat)
    requires SameStart(dev, blockSize, from, to, count) && o < count
    ensures from in dev && to in dev && |dev[to]| == |dev[from]| > o && dev[to][o] == dev[from][o]
  {
    assert dev[to][o] == dev[to][..count][o];
    assert dev[from][o] == dev[from][..count][o];
  }

  /** Programming data where byte |c| belongs appends it to what the list stores. */
  lemma AppendStores(dev: Blocks, dev': Blocks, blockSize: nat, chain: seq<nat>, c: seq<byte>,
                     off: nat, data: seq<byte>)
    requires blockSize >= 128 && |c| + |data| < WORD_LIMIT && |data| > 0
    requires IsList(dev, blockSize, chain) && Stores(dev, blockSize, chain, c) && |chain| > 0
    requires |chain| <= INDEX_LIMIT && Index(blockSize, |c|) == (|chain| - 1, off) && off + |data| <= blockSize
    requires ProgsLast(dev, dev', blockSize, chain, off, data)
    ensures IsFile(dev', blockSize, chain, chain[|chain| - 1], |c| + |data|)
    ensures Stores(dev', blockSize, chain, c + data)
    ensures Index(blockSize, |c| + |data| - 1) == (|chain| - 1, off + |data| - 1)
  {
    hide *;
    IndexCorrect(blockSize, |c|);
    HoldsHeader(blockSize, |c|, |chain| - 1, off);
    ShiftIndex(blockSize, |c|, |chain| - 1, off, |data| - 1);
    ProgKeepsList(dev, dev', blockSize, chain, off, data);
    ListIsFile(dev', blockSize, chain, |c| + |data|);
    AppendedBytes(dev, dev', blockSize, chain, c, off, data);
  }

  lemma HoldsHeader(blockSize: nat, p: nat, n: nat, off: int)
    requires Holds(blockSize, p, n, off)
    ensures HeaderSize(n) <= off < blockSize
  {
  }

  lemma ListIsFile(dev: Blocks, blockSize: nat, chain: seq<nat>, size: nat)
    requires blockSize > 8 && IsList(dev, blockSize, chain) && |chain| > 0 && size > 0
    requires Index(blockSize, size - 1).0 == |chain| - 1
    ensures IsFile(dev, blockSize, chain, chain[|chain| - 1], size)
  {
    hide Index;
  }

  lemma AppendedBytes(dev: Blocks, dev': Blocks, blockSize: nat, chain: seq<nat>, c: seq<byte>,
                      off: nat, data: seq<byte>)
    requires blockSize >= 128 && |c| + |data| < WORD_LIMIT
    requires IsList(dev, blockSize, chain) && Stores(dev, blockSize, chain, c) && |chain| > 0
    requires |chain| <= INDEX_LIMIT && Index(blockSize, |c|) == (|chain| - 1, off) && off + |data| <= blockSize
    requires ProgsLast(dev, dev', blockSize, chain, off, data)
    ensures Stores(dev', blockSize, chain, c + data)
  {
    forall p | 0 <= p < |c| + |data| ensures HasByte(dev', blockSize, chain, c + data, p) {
      if p < |c| {
        assert HasByte(dev, blockSize, chain, c, p);
        PositionOrder(blockSize, p, |c|);
        hide Index, Stores;
      } else {
        hide Stores;
        ShiftIndex(blockSize, |c|, |chain| - 1, off, p - |c|);
        hide Index;
      }
    }
  }

  /** dev' is dev after data was programmed at off of the last block of chain. */
  ghost predicate ProgsLast(dev: Blocks, dev': Blocks, blockSize: nat, chain: seq<nat>, off: nat, data: seq<byte>)
    requires |chain| > 0 && off + |data| <= blockSize
  {
    var last := chain[|chain| - 1];
    && last in dev && |dev[last]| == blockSize
    && dev' == dev[last := Overwrite(dev[last], off, data)]
  }

  lemma ShiftIndex(blockSize: nat, p: nat, n: nat, off: nat, k: nat)
    requires blockSize >= 128 && p + k < WORD_LIMIT && n < INDEX_LIMIT
    requires Index(blockSize, p) == (n, off) && off + k < blockSize
    ensures Index(blockSize, p + k) == (n, off + k)
  {
    hide Index;
    IndexIsTheOnlyPlace(blockSize, p, n, off);
    IndexIsTheOnlyPlace(blockSize, p + k, n, off + k);
  }

  lemma ProgKeepsList(dev: Blocks, dev': Blocks, blockSize: nat, chain: seq<nat>, off: nat, data: seq<byte>)
    requires IsList(dev, blockSize, chain) && |chain| > 0
    requires HeaderSize(|chain| - 1) <= off && off + |data| <= blockSize
    requires ProgsLast(dev, dev', blockSize, chain, off, data)
    ensures IsList(dev', blockSize, chain)
  {
    var n := |chain| - 1;
    forall i | 0 <= i < |chain| ensures Linked(dev', blockSize, chain, i) {
      assert Linked(dev, blockSize, chain, i);
      if i == n && n > 0 {
        HeaderKept(dev, dev', blockSize, chain, off, data);
      }
    }
  }

  lemma HeaderKept(dev: Blocks, dev': Blocks, blockSize: nat, chain: seq<nat>, off: nat, data: seq<byte>)
    requires IsList(dev, blockSize, chain) && |chain| > 1
    requires HeaderSize(|chain| - 1) <= off && off + |data| <= blockSize
    requires ProgsLast(dev, dev', blockSize, chain, off, data)
    ensures Linked(dev', blockSize, chain, |chain| - 1)
  {
    var n := |chain| - 1;
    HeaderSizeIs(n);
    forall k: nat {:trigger Pow2(k)} | k <= Ctz(n)
      ensures Pow2(k) <= n && 4 * k + 4 <= blockSize && PointerAt(dev'[chain[n]], k) == chain[n - Pow2(k)]
    {
      FollowPointer(dev, blockSize, chain, n, k);
      OverwriteOutside(dev[chain[n]], off, data, 4 * k, 4 * k + 4);
      hide Overwrite;
    }
  }

  /** A stretch of one block is a stretch of the file. */
  lemma StretchOfFile(dev: Blocks, blockSize: nat, chain: seq<nat>, c: seq<byte>, pos: nat, n: nat, off: nat, k: nat)
    requires blockSize >= 128 && |c| < WORD_LIMIT && IsList(dev, blockSize, chain) && Stores(dev, blockSize, chain, c)
    requires pos + k <= |c| && n < |chain| && n < INDEX_LIMIT
    requires Index(blockSize, pos) == (n, off) && off + k <= blockSize
    ensures chain[n] in dev && |dev[chain[n]]| == blockSize && dev[chain[n]][off..off + k] == c[pos..pos + k]
  {
    hide IsList, Index;
    LinkedBlock(dev, blockSize, chain, n);
    var a, b := dev[chain[n]][off..off + k], c[pos..pos + k];
    forall j | 0 <= j < k ensures a[j] == b[j] {
      ByteOfStretch(dev, blockSize, chain, c, pos, n, off, j);
    }
  }

  lemma ByteOfStretch(dev: Blocks, blockSize: nat, chain: seq<nat>, c: seq<byte>, pos: nat, n: nat, off: nat, j: nat)
    requires blockSize >= 128 && |c| < WORD_LIMIT && Stores(dev, blockSize, chain, c)
    requires pos + j < |c| && n < |chain| && n < INDEX_LIMIT && chain[n] in dev && |dev[chain[n]]| == blockSize
    requires Index(blockSize, pos) == (n, off) && off + j < blockSize
    ensures dev[chain[n]][off + j] == c[pos + j]
  {
    hide Index;
    ShiftIndex(blockSize, pos, n, off, j);
    assert HasByte(dev, blockSize, chain, c, pos + j);
  }

  /** A file of less than 2^31 bytes has room to grow by a block. */
  lemma ShortChain(blockSize: nat, size: nat)
    requires blockSize >= 128 && size <= 0x8000_0000
    ensures Index(blockSize, size).0 < INDEX_LIMIT - 1
  {
    IndexCorrect(blockSize, size);
    var n := Index(blockSize, size).0;
    hide Index;
    StartMonotonic(blockSize, 0, n);
  }

  function Zeros(n: nat): (s: seq<byte>)
    ensures |s| == n
  {
    seq(n, _ => 0)
  }

  /** The contents c after data is written at pos, with any gap before pos filled with zeros. */
  function Patch(c: seq<byte>, pos: nat, data: seq<byte>): seq<byte> {
    var base := if pos > |c| then c + Zeros(pos - |c|) else c;
    base[..pos] + data + (if pos + |data| < |c| then c[pos + |data|..] else [])
  }

  lemma PatchPatch(c: seq<byte>, pos: nat, a: seq<byte>, b: seq<byte>)
    ensures Patch(Patch(c, pos, a), pos + |a|, b) == Patch(c, pos, a + b)
  {
  }

  lemma PatchNothing(c: seq<byte>, pos: nat)
    requires pos <= |c|
    ensures Patch(c, pos, []) == c
  {
  }

  lemma PatchGap(c: seq<byte>, pos: nat, data: seq<byte>)
    requires pos >= |c|
    ensures Patch(c + Zeros(pos - |c|), pos, data) == Patch(c, pos, data)
  {
  }

  lemma PatchZero(c: seq<byte>, n: nat)
    ensures Patch(c + Zeros(n), |c| + n, [0]) == c + Zeros(n + 1)
  {
  }
}
