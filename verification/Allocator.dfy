/** The lookahead block allocator: lfs_alloc, lfs_alloc_lookahead and lfs_alloc_ack. */
module Allocator {
  import opened Bits

  datatype Result = Found(block: nat) | NoSpace

  /** Block number k of a cyclic scan that starts at start. */
  function Nth(start: nat, k: nat, count: nat): nat
    requires count > 0
  {
    (start + k) % count
  }

  /** The window offset that lfs_alloc_lookahead computes for a block. */
  function WindowOffset(block: nat, off: nat, count: nat): nat
    requires count > 0 && off < count
  {
    ((block - off) + count) % count
  }

  lemma ModOnce(a: nat, count: nat)
    requires 0 < count && a < 2 * count
    ensures a % count == if a < count then a else a - count
  {
    if a < count {
      DivUnique(a, count, 0, a);
    } else {
      DivUnique(a, count, 1, a - count);
    }
  }

  lemma ModPlus(a: nat, b: nat, count: nat)
    requires count > 0
    ensures (a % count + b) % count == (a + b) % count
  {
    var q := a / count;
    assert a + b == count * q + (a % count + b);
    AddMultiple(a % count + b, q, count);
  }

  lemma {:induction false} AddMultiple(a: nat, q: nat, count: nat)
    requires count > 0
    ensures (count * q + a) % count == a % count
  {
    if q > 0 {
      AddMultiple(a, q - 1, count);
      assert count * q + a == (count * (q - 1) + a) + count;
      DivModStep(count * (q - 1) + a, count);
    }
  }

  /** The bit that the scan of the window tests for a block is the bit that the traversal sets for it. */
  lemma MappingsInverse(off: nat, count: nat, x: nat)
    requires 0 < count && off < count && x < count
    ensures Nth(off, WindowOffset(x, off, count), count) == x
    ensures WindowOffset(Nth(off, x, count), off, count) == x
  {
    ModOnce(x - off + count, count);
    ModOnce(off + WindowOffset(x, off, count), count);
    ModOnce(off + x, count);
    ModOnce(Nth(off, x, count) - off + count, count);
  }

  /** A scan of count consecutive blocks meets every block exactly once. */
  lemma ScanDistinct(start: nat, j: nat, k: nat, count: nat)
    requires j < count && k < count && Nth(start, j, count) == Nth(start, k, count)
    ensures j == k
  {
    var s := start % count;
    ModPlus(start, j, count);
    ModPlus(start, k, count);
    MappingsInverse(s, count, j);
    MappingsInverse(s, count, k);
  }

  lemma ScanComplete(start: nat, block: nat, count: nat)
    requires block < count
    ensures exists k :: 0 <= k < count && Nth(start, k, count) == block
  {
    var s := start % count;
    var k := WindowOffset(block, s, count);
    MappingsInverse(s, count, block);
    ModPlus(start, k, count);
    assert Nth(start, k, count) == block;
  }

  /** The blocks that a traversal of the filesystem reports as in use. */
  function Reported(inUse: seq<nat>): set<nat> { set b | b in inUse }

  lemma InReported(inUse: seq<nat>)
    ensures forall b :: b in Reported(inUse) <==> b in inUse
  {
  }

  lemma NthIs(off: nat, i: nat, blockCount: nat)
    requires blockCount > 0
    ensures Nth(off, i, blockCount) == (off + i) % blockCount
  {
  }

  /** The blocks found since the ack are those of the free marks, also after the next mark. */
  lemma StillMarked(handed: set<nat>, handed': set<nat>, marks: seq<bool>, mark: bool, start: nat, block: nat,
                    blockCount: nat)
    requires blockCount > 0 && block == Nth(start, |marks|, blockCount)
    requires handed' == if mark then handed else handed + {block}
    requires forall b :: b in handed <==> exists k :: 0 <= k < |marks| && !marks[k] && Nth(start, k, blockCount) == b
    ensures forall b :: b in handed' <==>
      exists k :: 0 <= k < |marks + [mark]| && !(marks + [mark])[k] && Nth(start, k, blockCount) == b
  {
    hide Nth;
    var marks' := marks + [mark];
    forall b ensures b in handed' <==> exists k :: 0 <= k < |marks'| && !marks'[k] && Nth(start, k, blockCount) == b {
      if b == block && !mark {
        assert !marks'[|marks|] && Nth(start, |marks|, blockCount) == b;
      }
      if k :| 0 <= k < |marks| && !marks[k] && Nth(start, k, blockCount) == b {
        assert !marks'[k];
      }
    }
  }

  class Lookahead {
    const blockCount: nat
    const lookaheadSize: nat

    // lfs->free, with one array element for each bit of the bitmap
    var off: nat
    var size: nat
    var i: nat
    var ack: nat
    const buffer: array<bool>

    // since the last ack: where the scan began, and for every block scanned whether it was marked
    ghost var start: nat
    ghost var marks: seq<bool>
    // since the last ack: the blocks handed out
    ghost var handed: set<nat>
    // and the blocks found in use
    ghost var used: set<nat>
    // the blocks that were in use when the window was filled, and those handed out since
    ghost var windowUse: set<nat>
    ghost var since: set<nat>

    ghost predicate Valid()
      reads this, buffer
    {
      && 0 < blockCount && 0 < lookaheadSize && buffer.Length == 8 * lookaheadSize
      && i <= size <= buffer.Length && size - i <= ack <= blockCount
      && (size > 0 ==> off < blockCount && size <= blockCount)
      && (forall j :: 0 <= j < size ==> (buffer[j] <==> Nth(off, j, blockCount) in windowUse))
      && |marks| == blockCount - ack
      && Nth(off, i, blockCount) == Nth(start, |marks|, blockCount)
      && (forall b :: b in handed <==> exists k :: 0 <= k < |marks| && !marks[k] && Nth(start, k, blockCount) == b)
      && (forall k :: 0 <= k < |marks| && marks[k] ==> Nth(start, k, blockCount) in used)
      && (forall b :: b in since ==> exists j :: 0 <= j < i && Nth(off, j, blockCount) == b)
    }

    /** The state after lfs_mount: an arbitrary offset, which need not be below the block count. */
    constructor (blockCount: nat, lookaheadSize: nat, seed: nat, blockSize: nat)
      requires 0 < blockCount && 0 < lookaheadSize && 0 < blockSize
      ensures Valid() && fresh(buffer) && handed == {} && used == {} && since == {} && ack == blockCount && i == size
      ensures this.blockCount == blockCount && this.lookaheadSize == lookaheadSize
    {
      this.blockCount, this.lookaheadSize := blockCount, lookaheadSize;
      buffer := new bool[8 * lookaheadSize];
      off, size, i, ack := seed % blockSize, 0, 0, blockCount;
      start, marks, handed, used, windowUse, since := seed % blockSize, [], {}, {}, {}, {};
    }

    /** lfs_alloc_ack. */
    method Ack()
      requires Valid()
      modifies this`ack, this`start, this`marks, this`handed, this`used
      ensures Valid() && ack == blockCount && handed == {} && used == {} && marks == []
    {
      ack := blockCount;
      start, marks, handed, used := off + i, [], {}, {};
    }

    /** Examine the block under the cursor. */
    method Advance() returns (free: bool, block: nat)
      requires Valid() && i < size
      modifies this`i, this`ack, this`marks, this`handed, this`used, this`since
      ensures Valid() && i == old(i) + 1 && ack == old(ack) - 1
      ensures block == Nth(off, old(i), blockCount) < blockCount && free == !buffer[old(i)]
      ensures marks == old(marks) + [!free]
      ensures handed == if free then old(handed) + {block} else old(handed)
      ensures forall k :: 0 <= k < |old(marks)| ==> Nth(start, k, blockCount) != block
      ensures block in windowUse <==> !free
      ensures used == if free then old(used) else old(used) + {block}
      ensures block !in old(since) && since == if free then old(since) + {block} else old(since)
    {
      hide Nth;
      free := !buffer[i];
      block := (off + i) % blockCount;
      NthIs(off, i, blockCount);
      ghost var n := |marks|;
      FirstTime(n);
      NewInWindow();
      NextNth(off, i, start, n, blockCount);
      i, ack := i + 1, ack - 1;
      marks := marks + [!free];
      if free {
        handed, since := handed + {block}, since + {block};
      } else {
        used := used + {block};
      }
      StillMarked(old(handed), handed, old(marks), !free, start, block, blockCount);
    }

    /** lfs_alloc_lookahead: the traversal reports a block in use. */
    method Mark(block: nat)
      requires blockCount > 0 && off < blockCount && size <= buffer.Length && size <= blockCount && block < blockCount
      modifies buffer
      ensures forall j :: 0 <= j < size ==> (buffer[j] <==> old(buffer[j]) || Nth(off, j, blockCount) == block)
    {
      var o := ((block - off) + blockCount) % blockCount;
      forall j | 0 <= j < size ensures Nth(off, j, blockCount) == block <==> j == o {
        MappingsInverse(off, blockCount, j);
        MappingsInverse(off, blockCount, block);
      }
      if o < size {
        buffer[o] := true;
      }
    }

    /** Move the window past the blocks it covered and fill its bitmap from a traversal of the filesystem. */
    method Fill(inUse: seq<nat>)
      requires Valid() && i == size && ack > 0
      requires forall b :: b in inUse ==> b < blockCount
      modifies this`off, this`size, this`i, this`windowUse, this`since, buffer
      ensures Valid() && i == 0 < size == Min(8 * lookaheadSize, ack)
      ensures windowUse == Reported(inUse) && since == {}
    {
      ModPlus(off + size, 0, blockCount);
      ModOnce((off + size) % blockCount, blockCount);
      assert Nth((off + size) % blockCount, 0, blockCount) == Nth(off, i, blockCount);
      off := (off + size) % blockCount;
      size := Min(8 * lookaheadSize, ack);
      i, since := 0, {};
      hide Nth;
      SetBits(inUse);
    }

    method SetBits(inUse: seq<nat>)
      requires blockCount > 0 && off < blockCount && size <= buffer.Length && size <= blockCount
      requires forall b :: b in inUse ==> b < blockCount
      modifies this`windowUse, buffer
      ensures windowUse == Reported(inUse)
      ensures forall j :: 0 <= j < size ==> (buffer[j] <==> Nth(off, j, blockCount) in windowUse)
    {
      hide Nth;
      forall j | 0 <= j < buffer.Length {
        buffer[j] := false;
      }
      windowUse := {};
      for n := 0 to |inUse|
        invariant forall j :: 0 <= j < size ==> (buffer[j] <==> Nth(off, j, blockCount) in windowUse)
        invariant windowUse == Reported(inUse[..n])
      {
        assert inUse[n] in inUse;
        Mark(inUse[n]);
        windowUse := windowUse + {inUse[n]};
        assert inUse[..n + 1] == inUse[..n] + [inUse[n]];
      }
      assert inUse[..|inUse|] == inUse;
    }

    /** lfs_alloc, with inUse the blocks that lfs_fs_traverse reports during this call. */
    method Alloc(inUse: seq<nat>) returns (r: Result)
      requires Valid()
      requires forall b :: b in inUse ==> b < blockCount
      modifies this`off, this`size, this`i, this`ack, this`marks, this`handed, this`used, this`windowUse, this`since,
        buffer
      ensures Valid() && old(marks) <= marks && old(used) <= used <= old(used) + old(windowUse) + Reported(inUse)
      ensures r.Found? ==>
        && r.block < blockCount && r.block !in windowUse
        && r.block !in old(handed) && handed == old(handed) + {r.block}
        && (forall k :: 0 <= k < |old(marks)| ==> Nth(start, k, blockCount) != r.block)
        && (i != size ==> i < buffer.Length && !buffer[i])
      ensures r.Found? ==>
        || (windowUse == old(windowUse) && r.block !in old(since) && since == old(since) + {r.block} && old(i != size))
        || (windowUse == Reported(inUse) && since == {r.block})
      ensures r.Found? && (old(i == size) || Reported(inUse) <= old(windowUse) + old(since)) ==> r.block !in inUse
      ensures r == NoSpace ==> ack == 0 && handed == old(handed)
      ensures r == NoSpace ==> forall b :: 0 <= b < blockCount ==> b in handed || b in used
      ensures r == NoSpace && old(handed) + old(used) + old(windowUse) <= Reported(inUse) ==>
        forall b :: 0 <= b < blockCount ==> b in inUse
    {
      hide *;
      ghost var filled := false;
      while true
        invariant Valid() && old(marks) <= marks && handed == old(handed) && start == old(start)
        invariant old(used) <= used <= old(used) + old(windowUse) + Reported(inUse)
        invariant if filled then windowUse == Reported(inUse) && since == {}
          else windowUse == old(windowUse) && since == old(since) && i == old(i) && size == old(size)
        decreases ack, if i == size then 1 else 0
      {
        r := ScanWindow();
        if r.Found? {
          InReported(inUse);
          return;
        }
        if ack == 0 {
          AllScanned();
          InReported(inUse);
          return;
        }
        Fill(inUse);
        filled := true;
      }
    }

    /** The rest of the window: its first unmarked block, if there is one. */
    method ScanWindow() returns (r: Result)
      requires Valid()
      modifies this`i, this`ack, this`marks, this`handed, this`used, this`since
      ensures Valid() && old(marks) <= marks && ack + i == old(ack) + old(i) && old(i) <= i
      ensures old(used) <= used <= old(used) + windowUse
      ensures r.Found? ==> old(i != size) && r.block !in old(since) && since == old(since) + {r.block}
      ensures !r.Found? ==> since == old(since)
      ensures r.Found? ==>
        && r.block < blockCount && r.block !in windowUse
        && r.block !in old(handed) && handed == old(handed) + {r.block}
        && (forall k :: 0 <= k < |old(marks)| ==> Nth(start, k, blockCount) != r.block)
        && (i != size ==> i < buffer.Length && !buffer[i])
      ensures r == NoSpace ==> i == size && handed == old(handed)
    {
      hide Nth;
      while i != size
        invariant Valid() && old(marks) <= marks && handed == old(handed) && old(used) <= used <= old(used) + windowUse
        invariant ack + i == old(ack) + old(i) && old(i) <= i && since == old(since)
        decreases size - i
      {
        var free, block := Advance();
        if free {
          SkipMarked();
          return Found(block);
        }
      }
      return NoSpace;
    }

    /** Skip blocks that are marked, so that an ack can discredit the window. */
    method SkipMarked()
      requires Valid()
      modifies this`i, this`ack, this`marks, this`handed, this`used, this`since
      ensures Valid() && handed == old(handed) && old(marks) <= marks && old(used) <= used <= old(used) + windowUse
      ensures since == old(since)
      ensures ack + i == old(ack) + old(i) && old(i) <= i && (i != size ==> i < buffer.Length && !buffer[i])
    {
      while i != size && buffer[i]
        invariant Valid() && handed == old(handed) && old(marks) <= marks && old(used) <= used <= old(used) + windowUse
        invariant since == old(since)
        invariant ack + i == old(ack) + old(i) && old(i) <= i
        decreases size - i
      {
        var _, _ := Advance();
      }
    }

    /** Every block of the device was examined since the last ack, and was in use or has been handed out. */
    lemma AllScanned()
      requires Valid() && ack == 0
      ensures forall b :: 0 <= b < blockCount ==> b in handed || b in used
    {
      forall b | 0 <= b < blockCount ensures b in handed || b in used {
        ScanComplete(start, b, blockCount);
        var k :| 0 <= k < blockCount && Nth(start, k, blockCount) == b;
        assert 0 <= k < |marks|;
      }
    }

    /** The block under the cursor was not found in this window before. */
    lemma NewInWindow()
      requires Valid() && i < size
      ensures Nth(off, i, blockCount) !in since
    {
      var block := Nth(off, i, blockCount);
      if block in since {
        var j :| 0 <= j < i && Nth(off, j, blockCount) == block;
        ScanDistinct(off, j, i, blockCount);
        assert false;
      }
    }

    lemma FirstTime(n: nat)
      requires Valid() && n == |marks| && i < size
      ensures n < blockCount
      ensures forall k :: 0 <= k < n ==> Nth(start, k, blockCount) != Nth(off, i, blockCount)
    {
      forall k | 0 <= k < n ensures Nth(start, k, blockCount) != Nth(off, i, blockCount) {
        if Nth(start, k, blockCount) == Nth(start, n, blockCount) {
          ScanDistinct(start, k, n, blockCount);
        }
      }
    }
  }

  lemma NextNth(a: nat, i: nat, b: nat, n: nat, count: nat)
    requires count > 0 && Nth(a, i, count) == Nth(b, n, count)
    ensures Nth(a, i + 1, count) == Nth(b, n + 1, count)
  {
    ModPlus(a + i, 1, count);
    ModPlus(b + n, 1, count);
  }
}
