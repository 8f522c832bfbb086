/** The CTZ skip-list of a file's blocks: search, extension and traversal over a block device. */
module SkipList {
  import opened Bits
  import opened CtzIndex
  import opened Words

  datatype Error = Ok | Corrupt | NoSpace

  // LFS_BLOCK_NULL
  const NULL_BLOCK: nat := 0xffff_ffff

  type Blocks = map<nat, seq<byte>>

  /** Pointer k of a block: nat k of its header. */
  function PointerAt(block: seq<byte>, k: nat): nat
    requires 4 * k + 4 <= |block|
  {
    UnLeNat(block[4 * k..4 * k + 4])
  }

  /** Block i carries a pointer to block i - 2^k for every k up to ctz(i). */
  ghost predicate Linked(dev: Blocks, blockSize: nat, chain: seq<nat>, i: nat)
    requires i < |chain|
  {
    && chain[i] in dev
    && |dev[chain[i]]| == blockSize
    && (i > 0 ==> forall k: nat {:trigger Pow2(k)} :: k <= Ctz(i) ==>
          Pow2(k) <= i && 4 * k + 4 <= blockSize && PointerAt(dev[chain[i]], k) == chain[i - Pow2(k)])
  }

  /** chain lists the blocks of a well-formed skip-list, first block first. */
  ghost predicate IsList(dev: Blocks, blockSize: nat, chain: seq<nat>) {
    && (forall i :: 0 <= i < |chain| ==> Linked(dev, blockSize, chain, i))
    && (forall i, j :: 0 <= i < j < |chain| ==> chain[i] != chain[j])
  }

  /** chain is a list long enough for exactly size bytes, ending in head. */
  ghost predicate IsFile(dev: Blocks, blockSize: nat, chain: seq<nat>, head: nat, size: nat)
    requires blockSize > 8
  {
    && IsList(dev, blockSize, chain)
    && (size > 0 ==> |chain| > 0 && |chain| == Index(blockSize, size - 1).0 + 1 && chain[|chain| - 1] == head)
    && (size == 0 ==> chain == [])
  }

  /** How many pointers a search from block c over a distance d still follows, at most. */
  function ReadBudget(c: nat, d: nat): nat
    requires d <= c
  {
    if d == 0 then 0
    else if Ctz(c) >= Log2(d) then Log2(d) + 1
    else Log2(d) - Ctz(c) + Log2(d) + 1
  }

  /** One step of the search spends at least one unit of the budget and does not overshoot. */
  lemma SearchStep(c: nat, d: nat, skip: nat)
    requires 0 < d <= c && skip == Min(Npw2(d + 1) - 1, Ctz(c))
    ensures 0 < Pow2(skip) <= d && skip <= Ctz(c)
    ensures ReadBudget(c - Pow2(skip), d - Pow2(skip)) < ReadBudget(c, d)
  {
    Log2Bounds(d);
    Pow2Monotonic(skip, Log2(d));
    if d != Pow2(skip) {
      CtzAfterStep(c, skip);
      Log2Monotonic(d - Pow2(skip), d);
      if skip == Log2(d) {
        Log2DropTop(d);
      }
    }
  }

  ghost predicate AddressesFit(chain: seq<nat>) {
    forall i :: 0 <= i < |chain| ==> chain[i] < WORD_LIMIT
  }

  /** The first count words of a block are the pointers that a block after chain needs. */
  ghost predicate HasHeader(block: seq<byte>, chain: seq<nat>, count: nat) {
    forall k: nat {:trigger Pow2(k)} :: k < count ==>
      Pow2(k) <= |chain| && 4 * k + 4 <= |block| && PointerAt(block, k) == chain[|chain| - Pow2(k)]
  }

  /** chain' is a list in which byte number size of the file lives in its last block, and which
      keeps the first size bytes of the file that chain held. */
  ghost predicate Extends(dev: Blocks, blockSize: nat, chain: seq<nat>, size: nat,
                          chain': seq<nat>, block: nat, off: nat)
    requires blockSize > 8
  {
    && IsList(dev, blockSize, chain')
    && |chain'| > 0 && chain'[|chain'| - 1] == block
    && Index(blockSize, size) == (|chain'| - 1, off)
    && |chain| <= |chain'| <= |chain| + 1
    && (forall i :: 0 <= i < |chain'| - 1 ==> chain'[i] == chain[i])
    && (|chain'| == |chain| ==> SameStart(dev, blockSize, chain[|chain| - 1], block, off))
  }

  /** Two blocks agree on their first count bytes. */
  ghost predicate SameStart(dev: Blocks, blockSize: nat, from: nat, to: nat, count: nat) {
    && from in dev && to in dev
    && |dev[from]| == |dev[to]| == blockSize >= count
    && dev[to][..count] == dev[from][..count]
  }

  lemma BudgetBound(c: nat, d: nat)
    requires d <= c
    ensures ReadBudget(c, d) <= if c == 0 then 0 else 2 * (Log2(c) + 1)
  {
    if d > 0 {
      Log2Monotonic(d, c);
    }
  }

  /** The blocks that a traversal has come to, the last block of the list first. */
  ghost predicate LastFirst(visited: seq<nat>, chain: seq<nat>) {
    |visited| <= |chain| && forall k :: 0 <= k < |visited| ==> visited[k] == chain[|chain| - 1 - k]
  }

  lemma NothingVisited(chain: seq<nat>)
    ensures LastFirst([], chain)
  {
  }

  lemma OneMoreVisited(visited: seq<nat>, chain: seq<nat>, block: nat)
    requires LastFirst(visited, chain) && |visited| < |chain| && block == chain[|chain| - 1 - |visited|]
    ensures LastFirst(visited + [block], chain)
  {
  }

  /** A pointer leads from block a of a list to block b. */
  ghost predicate Hop(a: nat, b: nat) { a > 0 && exists k: nat {:trigger Pow2(k)} :: k <= Ctz(a) && b == a - Pow2(k) }

  /** A way along pointers. */
  ghost predicate IsWay(way: seq<nat>, from: nat, to: nat) {
    && way != [] && way[0] == from && way[|way| - 1] == to
    && forall i :: 0 <= i < |way| - 1 ==> Hop(way[i], way[i + 1])
  }

  lemma WayStarts(at: nat)
    ensures IsWay([at], at, at)
  {
  }

  lemma WayGoesOn(way: seq<nat>, from: nat, at: nat, k: nat)
    requires IsWay(way, from, at) && at > 0 && k <= Ctz(at) && Pow2(k) <= at
    ensures IsWay(way + [at - Pow2(k)], from, at - Pow2(k))
  {
    hide Ctz, Pow2;
    assert Hop(at, at - Pow2(k));
  }

  class Storage {
    const blockSize: nat
    var blocks: Blocks

    ghost predicate Valid()
      reads this
    {
      && blockSize >= 128
      && forall b :: b in blocks ==> |blocks[b]| == blockSize
    }

    constructor (blockSize: nat, blocks: Blocks)
      requires blockSize >= 128 && forall b :: b in blocks ==> |blocks[b]| == blockSize
      ensures Valid() && this.blockSize == blockSize && this.blocks == blocks
    {
      this.blockSize := blockSize;
      this.blocks := blocks;
    }

    /** lfs_bd_read on a block of the device. */
    method Read(block: nat, off: nat, size: nat) returns (err: Error, data: seq<byte>)
      requires Valid() && block in blocks
      ensures err == if off + size > blockSize then Corrupt else Ok
      ensures err == Ok ==> data == blocks[block][off..off + size]
    {
      if off + size > blockSize {
        return Corrupt, [];
      }
      return Ok, blocks[block][off..off + size];
    }

    /** Erasing leaves a block with contents that nothing is known about. */
    method Erase(block: nat)
      requires Valid() && block in blocks
      modifies this
      ensures Valid() && block in blocks && blocks == old(blocks)[block := blocks[block]]
    {
      assert |seq(blockSize, _ => 0 as byte)| == blockSize;
      var junk: seq<byte> :| |junk| == blockSize;
      blocks := blocks[block := junk];
      assert blocks == old(blocks)[block := blocks[block]];
    }

    method Prog(block: nat, off: nat, data: seq<byte>)
      requires Valid() && block in blocks && off + |data| <= blockSize
      modifies this
      ensures Valid()
      ensures blocks == old(blocks)[block := Overwrite(old(blocks)[block], off, data)]
    {
      blocks := blocks[block := Overwrite(blocks[block], off, data)];
    }

    /** A block outside the live set, as lfs_alloc finds one; out of space only if there is none. */
    method Alloc(live: set<nat>) returns (err: Error, block: nat)
      ensures err == Ok || err == NoSpace
      ensures err == Ok ==> block in blocks && block !in live
      ensures err == NoSpace <==> blocks.Keys <= live
    {
      if blocks.Keys <= live {
        return NoSpace, NULL_BLOCK;
      }
      assert exists b :: b in blocks.Keys && b !in live;
      block :| block in blocks.Keys && block !in live;
      return Ok, block;
    }

    /** lfs_ctz_find: the block and offset of byte pos. */
    method Find(head: nat, size: nat, pos: nat, ghost chain: seq<nat>)
      returns (err: Error, block: nat, off: nat, ghost way: seq<nat>)
      requires Valid() && size < WORD_LIMIT
      requires IsFile(blocks, blockSize, chain, head, size)
      requires size > 0 ==> pos < size
      ensures err == Ok
      ensures size == 0 ==> block == NULL_BLOCK && off == 0
      ensures size > 0 ==>
        && 0 <= Index(blockSize, pos).0 < |chain|
        && (block, off) == (chain[Index(blockSize, pos).0], Index(blockSize, pos).1)
      ensures size > 0 ==> IsWay(way, |chain| - 1, Index(blockSize, pos).0)
      ensures |way| <= if |chain| <= 1 then 1 else 2 * (Log2(|chain| - 1) + 1) + 1
    {
      way := [];
      if size == 0 {
        return Ok, NULL_BLOCK, 0, [];
      }
      FileIndices(blocks, blockSize, chain, head, size, pos);
      hide *;
      var (current, _) := Index(blockSize, size - 1);
      var (target, offset) := Index(blockSize, pos);
      err, block, way := Descend(head, current, target, chain);
      off := offset;
    }

    /** The search loop of lfs_ctz_find, from block current down to block target. */
    method Descend(head: nat, current: nat, target: nat, ghost chain: seq<nat>)
      returns (err: Error, block: nat, ghost way: seq<nat>)
      requires Valid() && IsList(blocks, blockSize, chain)
      requires target <= current < |chain| && head == chain[current]
      ensures err == Ok && block == chain[target]
      ensures IsWay(way, current, target) && |way| <= if current == 0 then 1 else 2 * (Log2(current) + 1) + 1
    {
      hide *;
      BudgetBound(current, current - target);
      err, block := Ok, head;
      way := [current];
      WayStarts(current);
      var c := current;
      while c > target
        invariant target <= c < |chain| && block == chain[c] && err == Ok
        invariant IsWay(way, current, c)
        invariant |way| - 1 + ReadBudget(c, c - target) <= ReadBudget(current, current - target)
      {
        var skip := Min(Npw2(c - target + 1) - 1, Ctz(c));
        SearchStep(c, c - target, skip);
        FollowPointer(blocks, blockSize, chain, c, skip);
        var bytes;
        err, bytes := Read(block, 4 * skip, 4);
        block := UnLeNat(bytes);
        WayGoesOn(way, current, c, skip);
        c := c - Pow2(skip);
        way := way + [c];
      }
    }

    /** lfs_ctz_traverse: every block of the list, last block first. */
    method Traverse(head: nat, size: nat, ghost chain: seq<nat>) returns (err: Error, visited: seq<nat>)
      requires Valid() && size < WORD_LIMIT
      requires IsFile(blocks, blockSize, chain, head, size)
      ensures err == Ok
      ensures |visited| == |chain| && LastFirst(visited, chain)
    {
      visited, err := [], Ok;
      if size == 0 {
        return;
      }
      FileIndices(blocks, blockSize, chain, head, size, size - 1);
      NothingVisited(chain);
      hide *;
      var (index, _) := Index(blockSize, size - 1);
      var block := head;
      while true
        invariant err == Ok && 0 <= index < |chain| && block == chain[index]
        invariant |visited| == |chain| - 1 - index && LastFirst(visited, chain)
        decreases index
      {
        OneMoreVisited(visited, chain, block);
        visited := visited + [block];
        if index == 0 {
          return;
        }
        var count := 2 - index % 2;
        FirstPointers(blocks, blockSize, chain, index);
        var bytes;
        err, bytes := Read(block, 0, 4 * count);
        for i := 0 to count - 1
          invariant |visited| == |chain| - index + i && LastFirst(visited, chain)
        {
          OneMoreVisited(visited, chain, UnLeNat(bytes[4 * i..4 * i + 4]));
          visited := visited + [UnLeNat(bytes[4 * i..4 * i + 4])];
        }
        block := UnLeNat(bytes[4 * (count - 1)..4 * count]);
        index := index - count;
      }
    }

    lemma BlocksFull(block: nat)
      requires Valid() && block in blocks
      ensures |blocks[block]| == blockSize >= 128
    {
    }

    /** The pointers of a fresh block n, each read from the block that the previous one leads to. */
    method WriteHeader(nblock: nat, head: nat, skips: nat, ghost chain: seq<nat>)
      requires Valid() && IsList(blocks, blockSize, chain) && AddressesFit(chain)
      requires 0 < |chain| < INDEX_LIMIT && head == chain[|chain| - 1]
      requires nblock in blocks && nblock !in chain && skips == Ctz(|chain|) + 1
      modifies this
      ensures Valid() && nblock in blocks && blocks == old(blocks)[nblock := blocks[nblock]]
      ensures |blocks[nblock]| == blockSize
      ensures HasHeader(blocks[nblock], chain, skips)
    {
      hide *;
      BlocksFull(nblock);
      HeaderRoom(blockSize, |chain|);
      HeaderEmpty(blocks[nblock], chain);
      var h := head;
      for i := 0 to skips
        invariant Valid() && nblock in blocks && blocks == old(blocks)[nblock := blocks[nblock]]
        invariant |blocks[nblock]| == blockSize && HasHeader(blocks[nblock], chain, i)
        invariant i < skips ==> PointsBack(chain, i, h)
      {
        WritePointer(nblock, i, h, chain);
        if i != skips - 1 {
          NextPointer(old(blocks), blockSize, chain, i, h);
          var err, bytes := Read(h, 4 * i, 4);
          h := UnLeNat(bytes);
        }
      }
    }

    method WritePointer(nblock: nat, i: nat, h: nat, ghost chain: seq<nat>)
      requires Valid() && nblock in blocks && 4 * i + 4 <= blockSize == |blocks[nblock]|
      requires HasHeader(blocks[nblock], chain, i) && AddressesFit(chain) && PointsBack(chain, i, h)
      modifies this
      ensures Valid() && nblock in blocks && blocks == old(blocks)[nblock := blocks[nblock]]
      ensures |blocks[nblock]| == blockSize && HasHeader(blocks[nblock], chain, i + 1)
    {
      hide *;
      HeaderGrows(blocks[nblock], chain, i, h);
      Prog(nblock, 4 * i, LeNat(h));
    }

    /** The first size bytes of block head, copied into nblock one at a time. */
    method CopyOut(nblock: nat, head: nat, size: nat)
      requires Valid() && nblock in blocks && head in blocks && nblock != head && size <= blockSize
      modifies this
      ensures Valid() && nblock in blocks && blocks == old(blocks)[nblock := blocks[nblock]]
      ensures SameStart(blocks, blockSize, head, nblock, size)
    {
      for i := 0 to size
        invariant Valid() && nblock in blocks && blocks == old(blocks)[nblock := blocks[nblock]]
        invariant blocks[nblock][..i] == old(blocks)[head][..i]
      {
        var err, data := Read(head, i, 1);
        Prog(nblock, i, data);
      }
    }

    /** lfs_ctz_extend: a fresh block that can take byte number size of the file. */
    method Extend(head: nat, size: nat, live: set<nat>, ghost chain: seq<nat>)
      returns (err: Error, block: nat, off: nat, ghost chain': seq<nat>)
      requires Valid() && size < WORD_LIMIT && |chain| < INDEX_LIMIT
      requires IsFile(blocks, blockSize, chain, head, size) && AddressesFit(chain)
      requires forall i :: 0 <= i < |chain| ==> chain[i] in live
      modifies this
      ensures Valid() && (err == Ok || err == NoSpace)
      ensures err == NoSpace <==> old(blocks.Keys) <= live
      ensures err == NoSpace ==> blocks == old(blocks)
      ensures blocks.Keys == old(blocks.Keys)
      ensures err == Ok ==> block in blocks && block !in live && blocks == old(blocks)[block := blocks[block]]
      ensures err == Ok ==> Extends(blocks, blockSize, chain, size, chain', block, off)
    {
      hide *;
      err, block := Alloc(live);
      off, chain' := 0, [];
      if err != Ok {
        return;
      }
      Erase(block);
      chain' := [block];
      if size == 0 {
        EmptyFile(old(blocks), blockSize, chain, head);
        FirstExtends(blocks, blockSize, block);
        return;
      }
      FileIndices(old(blocks), blockSize, chain, head, size, size - 1);
      FrameList(old(blocks), blocks, blockSize, chain, block);
      var (index, last) := Index(blockSize, size - 1);
      var used := last + 1;
      assert head in chain && head in blocks;
      NextIndex(blockSize, size, index, used);
      if used != blockSize {
        CopyOut(block, head, used);
        off := used;
        FrameList(old(blocks), blocks, blockSize, chain, block);
        CopyExtends(blocks, blockSize, chain, size, block, used);
        chain' := chain[..|chain| - 1] + [block];
      } else {
        var skips := Ctz(index + 1) + 1;
        WriteHeader(block, head, skips, chain);
        off := 4 * skips;
        FrameList(old(blocks), blocks, blockSize, chain, block);
        AppendExtends(blocks, blockSize, chain, size, block);
        chain' := chain + [block];
      }
    }
  }

  lemma FirstExtends(dev: Blocks, blockSize: nat, block: nat)
    requires blockSize >= 128 && block in dev && |dev[block]| == blockSize
    ensures Extends(dev, blockSize, [], 0, [block], block, 0)
  {
    IndexIsTheOnlyPlace(blockSize, 0, 0, 0);
  }

  lemma FileIndices(dev: Blocks, blockSize: nat, chain: seq<nat>, head: nat, size: nat, pos: nat)
    requires blockSize >= 128 && pos < size < WORD_LIMIT && IsFile(dev, blockSize, chain, head, size)
    ensures IsList(dev, blockSize, chain)
    ensures 0 <= Index(blockSize, pos).0 <= Index(blockSize, size - 1).0 == |chain| - 1
    ensures chain[|chain| - 1] == head && head in dev && Index(blockSize, pos).1 >= 0
  {
    hide Index, Linked, Holds;
    IndexMonotonic(blockSize, pos, size - 1);
    IndexCorrect(blockSize, pos);
    LinkedBlock(dev, blockSize, chain, |chain| - 1);
  }

  lemma LinkedBlock(dev: Blocks, blockSize: nat, chain: seq<nat>, i: nat)
    requires IsList(dev, blockSize, chain) && i < |chain|
    ensures chain[i] in dev && |dev[chain[i]]| == blockSize
  {
    assert Linked(dev, blockSize, chain, i);
  }

  /** An even block has pointers 0 and 1, an odd one pointer 0: they lead to its one or two predecessors. */
  lemma FirstPointers(dev: Blocks, blockSize: nat, chain: seq<nat>, n: nat)
    requires IsList(dev, blockSize, chain) && 0 < n < |chain|
    ensures chain[n] in dev && |dev[chain[n]]| == blockSize >= 4 * (2 - n % 2)
    ensures n >= 2 - n % 2
    ensures forall i :: 0 <= i < 2 - n % 2 ==>
      UnLeNat(dev[chain[n]][0..4 * (2 - n % 2)][4 * i..4 * i + 4]) == chain[n - 1 - i]
  {
    FollowPointer(dev, blockSize, chain, n, 0);
    assert Pow2(1) == 2 * Pow2(0);
    if n % 2 == 0 {
      FollowPointer(dev, blockSize, chain, n, 1);
      assert dev[chain[n]][0..8][0..4] == dev[chain[n]][0..4];
      assert dev[chain[n]][0..8][4..8] == dev[chain[n]][4..8];
    } else {
      assert dev[chain[n]][0..4][0..4] == dev[chain[n]][0..4];
    }
  }

  lemma FollowPointer(dev: Blocks, blockSize: nat, chain: seq<nat>, n: nat, k: nat)
    requires IsList(dev, blockSize, chain) && 0 < n < |chain| && k <= Ctz(n)
    ensures Pow2(k) <= n && chain[n] in dev && 4 * k + 4 <= blockSize == |dev[chain[n]]|
    ensures UnLeNat(dev[chain[n]][4 * k..4 * k + 4]) == chain[n - Pow2(k)]
  {
    assert Linked(dev, blockSize, chain, n);
    assert Pow2(k) <= n;
    assert PointerAt(dev[chain[n]], k) == chain[n - Pow2(k)];
  }

  lemma IndexMonotonic(blockSize: nat, p: nat, q: nat)
    requires blockSize >= 128 && p <= q < WORD_LIMIT
    ensures 0 <= Index(blockSize, p).0 <= Index(blockSize, q).0 < INDEX_LIMIT
  {
    IndexCorrect(blockSize, p);
    IndexCorrect(blockSize, q);
    var m, n := Index(blockSize, p).0, Index(blockSize, q).0;
    if n < m {
      StartMonotonic(blockSize, n + 1, m);
    }
  }

  lemma HeaderSizeIs(n: nat)
    requires n > 0
    ensures HeaderSize(n) == 4 * (Ctz(n) + 1)
  {
  }

  lemma HeaderRoom(blockSize: nat, n: nat)
    requires blockSize >= 128 && 0 < n < INDEX_LIMIT
    ensures 4 * (Ctz(n) + 1) <= blockSize
  {
    SmallIndexCapacity(blockSize, n);
  }

  lemma HeaderEmpty(block: seq<byte>, chain: seq<nat>)
    ensures HasHeader(block, chain, 0)
    ensures |chain| > 0 ==> PointsBack(chain, 0, chain[|chain| - 1])
  {
  }

  lemma HeaderGrows(block: seq<byte>, chain: seq<nat>, i: nat, h: nat)
    requires HasHeader(block, chain, i) && AddressesFit(chain)
    requires 4 * i + 4 <= |block| && PointsBack(chain, i, h)
    ensures HasHeader(Overwrite(block, 4 * i, LeNat(h)), chain, i + 1)
  {
    hide LeNat, UnLeNat, Overwrite, Ctz;
    LeNatRoundTrip(h);
    OverwriteInside(block, 4 * i, LeNat(h));
    var block' := Overwrite(block, 4 * i, LeNat(h));
    forall k: nat {:trigger Pow2(k)} | k < i + 1
      ensures Pow2(k) <= |chain| && 4 * k + 4 <= |block'| && PointerAt(block', k) == chain[|chain| - Pow2(k)]
    {
      if k < i {
        OverwriteOutside(block, 4 * i, LeNat(h), 4 * k, 4 * k + 4);
        assert PointerAt(block, k) == chain[|chain| - Pow2(k)];
      }
    }
  }

  lemma OverwriteInside(block: seq<byte>, off: nat, data: seq<byte>)
    requires off + |data| <= |block|
    ensures Overwrite(block, off, data)[off..off + |data|] == data
  {
  }

  lemma OverwriteOutside(block: seq<byte>, off: nat, data: seq<byte>, from: nat, to: nat)
    requires off + |data| <= |block| && from <= to <= |block| && (to <= off || off + |data| <= from)
    ensures Overwrite(block, off, data)[from..to] == block[from..to]
  {
  }

  /** h is the block 2^i before the end of chain. */
  ghost predicate PointsBack(chain: seq<nat>, i: nat, h: nat) {
    Pow2(i) <= |chain| && h == chain[|chain| - Pow2(i)]
  }

  /** Pointer i of block n - 2^i leads to block n - 2^(i+1). */
  lemma NextPointer(dev: Blocks, blockSize: nat, chain: seq<nat>, i: nat, h: nat)
    requires IsList(dev, blockSize, chain) && |chain| > 0 && i < Ctz(|chain|) && PointsBack(chain, i, h)
    ensures h in chain && h in dev && 4 * i + 4 <= blockSize == |dev[h]|
    ensures PointsBack(chain, i + 1, UnLeNat(dev[h][4 * i..4 * i + 4]))
  {
    var n := |chain|;
    CtzBound(n);
    Pow2Monotonic(i + 1, Ctz(n));
    assert Pow2(i + 1) == 2 * Pow2(i);
    CtzAfterStep(n, i);
    FollowPointer(dev, blockSize, chain, n - Pow2(i), i);
  }

  lemma FrameList(dev: Blocks, dev': Blocks, blockSize: nat, chain: seq<nat>, block: nat)
    requires IsList(dev, blockSize, chain)
    requires block !in chain && block in dev' && dev' == dev[block := dev'[block]]
    ensures IsList(dev', blockSize, chain)
  {
    forall i | 0 <= i < |chain| ensures Linked(dev', blockSize, chain, i) {
      assert Linked(dev, blockSize, chain, i);
    }
  }

  /** A list followed by a block with the right header is a list. */
  lemma AppendBlock(dev: Blocks, blockSize: nat, chain: seq<nat>, block: nat)
    requires IsList(dev, blockSize, chain)
    requires block in dev && |dev[block]| == blockSize && block !in chain
    requires |chain| > 0 ==> HasHeader(dev[block], chain, Ctz(|chain|) + 1)
    ensures IsList(dev, blockSize, chain + [block])
  {
    hide Linked, HasHeader;
    var chain' := chain + [block];
    forall i | 0 <= i < |chain'| ensures Linked(dev, blockSize, chain', i) {
      if i < |chain| {
        LinkedStill(dev, blockSize, chain, block, i);
      } else {
        LastLinked(dev, blockSize, chain, block);
      }
    }
  }

  lemma LinkedStill(dev: Blocks, blockSize: nat, chain: seq<nat>, block: nat, i: nat)
    requires i < |chain| && Linked(dev, blockSize, chain, i)
    ensures Linked(dev, blockSize, chain + [block], i)
  {
    hide Ctz, PointerAt;
    var chain' := chain + [block];
    if i > 0 {
      forall k: nat | k <= Ctz(i)
        ensures Pow2(k) <= i && 4 * k + 4 <= blockSize && PointerAt(dev[chain[i]], k) == chain'[i - Pow2(k)]
      {
      }
    }
  }

  lemma LastLinked(dev: Blocks, blockSize: nat, chain: seq<nat>, block: nat)
    requires block in dev && |dev[block]| == blockSize
    requires |chain| > 0 ==> HasHeader(dev[block], chain, Ctz(|chain|) + 1)
    ensures Linked(dev, blockSize, chain + [block], |chain|)
  {
    hide Ctz, PointerAt;
    var chain' := chain + [block];
    if |chain| > 0 {
      forall k: nat | k <= Ctz(|chain|)
        ensures Pow2(k) <= |chain| && 4 * k + 4 <= blockSize
        ensures PointerAt(dev[block], k) == chain'[|chain| - Pow2(k)]
      {
      }
    }
  }

  lemma Prefix(dev: Blocks, blockSize: nat, chain: seq<nat>, n: nat)
    requires IsList(dev, blockSize, chain) && n <= |chain|
    ensures IsList(dev, blockSize, chain[..n])
  {
    forall i | 0 <= i < n ensures Linked(dev, blockSize, chain[..n], i) {
      assert Linked(dev, blockSize, chain, i);
    }
  }

  /** A block that agrees with block n of a list on its header can take its place at the end. */
  lemma EmptyFile(dev: Blocks, blockSize: nat, chain: seq<nat>, head: nat)
    requires blockSize > 8 && IsFile(dev, blockSize, chain, head, 0)
    ensures chain == []
  {
    hide IsList;
  }

  lemma CopiedHeader(dev: Blocks, blockSize: nat, chain: seq<nat>, n: nat, block: nat, used: nat)
    requires IsList(dev, blockSize, chain) && 0 < n < |chain| && HeaderSize(n) <= used
    requires SameStart(dev, blockSize, chain[n], block, used)
    ensures HasHeader(dev[block], chain[..n], Ctz(n) + 1)
  {
    HeaderSizeIs(n);
    forall k: nat {:trigger Pow2(k)} | k < Ctz(n) + 1
      ensures Pow2(k) <= n && 4 * k + 4 <= blockSize && PointerAt(dev[block], k) == chain[..n][n - Pow2(k)]
    {
      FollowPointer(dev, blockSize, chain, n, k);
      assert dev[block][4 * k..4 * k + 4] == dev[block][..used][4 * k..4 * k + 4];
      assert dev[chain[n]][4 * k..4 * k + 4] == dev[chain[n]][..used][4 * k..4 * k + 4];
    }
  }

  lemma NextIndex(blockSize: nat, size: nat, n: nat, used: nat)
    requires blockSize >= 128 && 0 < size < WORD_LIMIT && n + 1 < INDEX_LIMIT && used > 0
    requires Index(blockSize, size - 1) == (n, used - 1)
    ensures HeaderSize(n) < used <= blockSize
    ensures Index(blockSize, size) == if used < blockSize then (n, used) else (n + 1, HeaderSize(n + 1))
  {
    hide Index;
    IndexCorrect(blockSize, size - 1);
    if used < blockSize {
      IndexIsTheOnlyPlace(blockSize, size, n, used);
    } else {
      SmallIndexCapacity(blockSize, n + 1);
      assert Start(blockSize, n + 1) == Start(blockSize, n) + Capacity(blockSize, n);
      IndexIsTheOnlyPlace(blockSize, size, n + 1, HeaderSize(n + 1));
    }
  }

  lemma CopyExtends(dev: Blocks, blockSize: nat, chain: seq<nat>, size: nat, block: nat, used: nat)
    requires blockSize >= 128 && 0 < size < WORD_LIMIT && 0 < |chain| < INDEX_LIMIT && 0 < used < blockSize
    requires IsList(dev, blockSize, chain) && block !in chain
    requires Index(blockSize, size - 1) == (|chain| - 1, used - 1)
    requires SameStart(dev, blockSize, chain[|chain| - 1], block, used)
    ensures Extends(dev, blockSize, chain, size, chain[..|chain| - 1] + [block], block, used)
  {
    hide Index, HasHeader, HeaderSize;
    var n := |chain| - 1;
    NextIndex(blockSize, size, n, used);
    if n > 0 {
      CopiedHeader(dev, blockSize, chain, n, block, used);
    }
    Prefix(dev, blockSize, chain, n);
    AppendBlock(dev, blockSize, chain[..n], block);
  }

  lemma AppendExtends(dev: Blocks, blockSize: nat, chain: seq<nat>, size: nat, block: nat)
    requires blockSize >= 128 && 0 < size < WORD_LIMIT && 0 < |chain| < INDEX_LIMIT
    requires IsList(dev, blockSize, chain) && block !in chain && block in dev && |dev[block]| == blockSize
    requires Index(blockSize, size - 1) == (|chain| - 1, blockSize - 1)
    requires HasHeader(dev[block], chain, Ctz(|chain|) + 1)
    ensures Extends(dev, blockSize, chain, size, chain + [block], block, 4 * (Ctz(|chain|) + 1))
  {
    hide Index, HeaderSize, HasHeader;
    NextIndex(blockSize, size, |chain| - 1, blockSize);
    HeaderSizeIs(|chain|);
    AppendBlock(dev, blockSize, chain, block);
  }
}
