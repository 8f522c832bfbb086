/** File objects over a block device: lfs_file_read, write, flush and seek. */
module File {
  import opened Bits
  import opened CtzIndex
  import opened Words
  import opened SkipList
  import opened FileData

  datatype Outcome = Success | OutOfSpace | TooBig | Invalid

  datatype Whence = FromStart | FromCurrent | FromEnd

  // LFS_FILE_MAX
  const FILE_MAX: nat := 2147483647

  ghost predicate AddressesInRange(dev: Blocks) {
    forall b :: b in dev ==> b < WORD_LIMIT
  }

  /** The blocks in keep hold in dev' what they held in dev. */
  ghost predicate Untouched(dev: Blocks, dev': Blocks, keep: set<nat>) {
    dev'.Keys == dev.Keys && forall b :: b in keep && b in dev ==> dev'[b] == dev[b]
  }

  /** A list of blocks, its end and the bytes it stores. */
  ghost predicate Holding(dev: Blocks, blockSize: nat, chain: seq<nat>, head: nat, c: seq<byte>)
    requires blockSize > 8
  {
    IsFile(dev, blockSize, chain, head, |c|) && Stores(dev, blockSize, chain, c)
  }

  /** A list whose last block can take the next byte at off. */
  ghost predicate Open(dev: Blocks, blockSize: nat, chain: seq<nat>, block: nat, off: nat, c: seq<byte>)
    requires blockSize > 8
  {
    && IsList(dev, blockSize, chain) && Stores(dev, blockSize, chain, c)
    && 0 < |chain| <= INDEX_LIMIT && chain[|chain| - 1] == block
    && Index(blockSize, |c|) == (|chain| - 1, off) && off < blockSize
  }

  lemma InRange(dev: Blocks, blockSize: nat, chain: seq<nat>)
    requires AddressesInRange(dev) && IsList(dev, blockSize, chain)
    ensures AddressesFit(chain)
  {
    forall i | 0 <= i < |chain| ensures chain[i] < WORD_LIMIT {
      assert Linked(dev, blockSize, chain, i);
    }
  }

  lemma CanExtend(dev: Blocks, blockSize: nat, chain: seq<nat>, head: nat, c: seq<byte>, live: set<nat>)
    requires blockSize >= 128 && |c| <= FILE_MAX && AddressesInRange(dev) && Holding(dev, blockSize, chain, head, c)
    requires forall b :: b in chain ==> b in live
    ensures IsFile(dev, blockSize, chain, head, |c|) && |chain| < INDEX_LIMIT && AddressesFit(chain)
    ensures forall i :: 0 <= i < |chain| ==> chain[i] in live
  {
    hide Index, IsList;
    if |c| > 0 {
      ShortChain(blockSize, |c| - 1);
    }
    InRange(dev, blockSize, chain);
  }

  lemma AfterExtend(dev: Blocks, dev': Blocks, blockSize: nat, chain: seq<nat>, head: nat, c: seq<byte>,
                    chain': seq<nat>, block: nat, off: nat)
    requires blockSize >= 128 && |c| <= FILE_MAX && Holding(dev, blockSize, chain, head, c)
    requires block !in chain && block in dev' && dev' == dev[block := dev'[block]]
    requires Extends(dev', blockSize, chain, |c|, chain', block, off)
    ensures Open(dev', blockSize, chain', block, off, c) && off < blockSize
  {
    hide Index, IsList, Stores;
    IndexCorrect(blockSize, |c|);
    ExtendStores(dev, dev', blockSize, chain, c, chain', block, off);
  }

  lemma AfterWrite(dev: Blocks, dev': Blocks, blockSize: nat, chain: seq<nat>, head: nat, c: seq<byte>,
                   block: nat, keep: set<nat>)
    requires blockSize > 8 && Holding(dev, blockSize, chain, head, c) && AddressesInRange(dev)
    requires block in dev && block in dev' && dev' == dev[block := dev'[block]]
    requires block !in keep && block !in chain
    ensures Holding(dev', blockSize, chain, head, c) && AddressesInRange(dev') && Untouched(dev, dev', keep)
  {
    hide Index, IsList, Stores;
    FrameFile(dev, dev', blockSize, chain, head, c, block);
  }

  lemma OpenBlock(dev: Blocks, blockSize: nat, chain: seq<nat>, block: nat, off: nat, c: seq<byte>)
    requires blockSize > 8 && Open(dev, blockSize, chain, block, off, c)
    ensures block in dev && |dev[block]| == blockSize
  {
    hide Index, Stores;
    LinkedBlock(dev, blockSize, chain, |chain| - 1);
  }

  lemma AfterAppend(dev: Blocks, dev': Blocks, blockSize: nat, chain: seq<nat>, block: nat, off: nat,
                    c: seq<byte>, piece: seq<byte>)
    requires blockSize >= 128 && Open(dev, blockSize, chain, block, off, c)
    requires 0 < |piece| && off + |piece| <= blockSize && |c| + |piece| < WORD_LIMIT
    requires block in dev && |dev[block]| == blockSize && dev' == dev[block := Overwrite(dev[block], off, piece)]
    ensures Holding(dev', blockSize, chain, block, c + piece)
    ensures Index(blockSize, |c| + |piece| - 1).1 + 1 == off + |piece|
    ensures block in dev' && dev' == dev[block := dev'[block]]
  {
    hide Index, IsList, Stores, Overwrite;
    AppendStores(dev, dev', blockSize, chain, c, off, piece);
  }

  lemma UntouchedTrans(a: Blocks, b: Blocks, c: Blocks, keep: set<nat>)
    requires Untouched(a, b, keep) && Untouched(b, c, keep)
    ensures Untouched(a, c, keep)
  {
  }

  function Elements(chain: seq<nat>): set<nat> { set b | b in chain }

  class FileObject {
    const storage: Storage
    const readOnly: bool
    const fileMax: nat
    // blocks in use by the rest of the filesystem, among them the list that the directory entry points to
    const pinned: set<nat>

    var ctzHead: nat
    var ctzSize: nat
    var pos: nat
    var block: nat
    var off: nat
    var reading: bool
    var writing: bool
    var dirty: bool

    // the list behind ctzHead and the bytes it stores; while writing, the same for the branch that ends in block
    ghost var chain: seq<nat>
    ghost var saved: seq<byte>
    ghost var branchChain: seq<nat>
    ghost var branch: seq<byte>

    ghost predicate Base()
      reads this, storage
    {
      && storage.Valid() && AddressesInRange(storage.blocks)
      && fileMax <= FILE_MAX && pos <= fileMax && ctzSize <= fileMax
      && !(reading && writing) && (readOnly ==> !writing)
      && |saved| == ctzSize && Holding(storage.blocks, storage.blockSize, chain, ctzHead, saved)
      && (!dirty && !readOnly ==> forall b :: b in chain ==> b in pinned)
    }

    ghost predicate Valid()
      reads this, storage
    {
      && Base()
      && (reading && pos < ctzSize ==> off == storage.blockSize || AtPosition())
      && (writing ==> Branching())
    }

    /** block and off are where byte pos of the saved list lives. */
    ghost predicate AtPosition()
      requires storage.blockSize > 8
      reads this
    {
      var (n, o) := Index(storage.blockSize, pos);
      0 <= n < |chain| && block == chain[n] && off == o
    }

    /** The branch ends with byte pos - 1 just before off of block. */
    ghost predicate Branching()
      requires storage.blockSize > 8
      reads this, storage
    {
      && 0 < pos == |branch|
      && Holding(storage.blocks, storage.blockSize, branchChain, block, branch)
      && off == Index(storage.blockSize, pos - 1).1 + 1
      && block !in Kept()
    }

    /** The branch can take byte pos at off of block. */
    ghost predicate Ready()
      requires storage.blockSize > 8
      reads this, storage
    {
      && |branch| == pos
      && Open(storage.blocks, storage.blockSize, branchChain, block, off, branch)
      && block !in Kept()
    }

    /** The contents of the file as its user sees them. */
    ghost function View(): seq<byte>
      reads this
    {
      if writing then branch + (if |branch| < |saved| then saved[|branch|..] else []) else saved
    }

    lemma ViewReaches()
      requires Valid() && (!writing ==> pos <= ctzSize)
      ensures pos <= |View()|
      ensures Untouched(storage.blocks, storage.blocks, Kept())
    {
    }

    /** The blocks that no operation may alter: those of the rest of the filesystem and of the saved list. */
    ghost function Kept(): set<nat>
      reads this
    {
      pinned + Elements(chain)
    }

    /** The sizes of the lists, when the contents have up to so many bytes. */
    lemma ListSizes(peak: nat)
      requires Valid() && |View()| <= peak < WORD_LIMIT
      ensures storage.blockSize > 8
      ensures |Elements(chain)| <= BlocksFor(storage.blockSize, peak)
      ensures writing ==> |Elements(branchChain)| <= BlocksFor(storage.blockSize, peak)
      ensures BlocksFor(storage.blockSize, peak) >= 0
    {
      hide Stores, IsList;
      ListSize(chain);
      BlocksMonotonic(storage.blockSize, |saved|, peak);
      if writing {
        ListSize(branchChain);
        BlocksMonotonic(storage.blockSize, |branch|, peak);
      }
      hide Index;
    }

    /** Every block of the device is in use: kept, or a part of the branch. */
    ghost predicate Full()
      reads this, storage
    {
      storage.blocks.Keys <= Kept() + if writing then Elements(branchChain) else {}
    }

    lemma PinnedKept()
      ensures pinned <= Kept()
    {
    }

    lemma FullParts()
      requires Full()
      ensures storage.blocks.Keys <= pinned + Elements(chain) + if writing then Elements(branchChain) else {}
    {
    }

    constructor (storage: Storage, readOnly: bool, fileMax: nat, pinned: set<nat>,
                 head: nat, size: nat, pos: nat, dirty: bool, ghost chain: seq<nat>, ghost saved: seq<byte>)
      requires storage.Valid() && AddressesInRange(storage.blocks)
      requires fileMax <= FILE_MAX && pos <= fileMax && size <= fileMax && |saved| == size
      requires Holding(storage.blocks, storage.blockSize, chain, head, saved)
      requires !dirty && !readOnly ==> forall b :: b in chain ==> b in pinned
      ensures Valid() && !reading && !writing && View() == saved && this.pos == pos
      ensures this.storage == storage && this.readOnly == readOnly && this.fileMax == fileMax && this.pinned == pinned
      ensures this.chain == chain && this.saved == saved && this.ctzSize == size
    {
      this.storage, this.readOnly, this.fileMax, this.pinned := storage, readOnly, fileMax, pinned;
      ctzHead, ctzSize, this.pos, this.dirty := head, size, pos, dirty;
      block, off, reading, writing := 0, 0, false, false;
      this.chain, this.saved, branchChain, branch := chain, saved, [], [];
    }

    /** The blocks that lfs_fs_traverse reports as in use. */
    method LiveBlocks() returns (live: set<nat>)
      requires Base() && !readOnly && (writing ==> Branching())
      ensures Kept() <= live
      ensures writing ==> forall b :: b in branchChain ==> b in live
      ensures live <= Kept() + if writing then Elements(branchChain) else {}
    {
      live := pinned;
      if dirty {
        var err, visited := storage.Traverse(ctzHead, ctzSize, chain);
        live := live + Elements(visited);
        VisitedAll(chain, visited);
      }
      if writing {
        var err, visited := storage.Traverse(block, pos, branchChain);
        live := live + Elements(visited);
        VisitedAll(branchChain, visited);
      }
    }

    /** lfs_file_read: up to size bytes from the cursor. */
    method Read(size: nat) returns (err: Outcome, data: seq<byte>)
      requires Valid() && (writing ==> !readOnly)
      modifies this, storage
      ensures Valid() && Untouched(old(storage.blocks), storage.blocks, old(Kept()))
      ensures err == Success || (err == OutOfSpace && old(writing))
      ensures err == OutOfSpace ==> Full() && View() == old(View())
      ensures !old(writing) ==> storage.blocks == old(storage.blocks) && chain == old(chain)
      ensures !old(writing) ==> saved == old(saved) && !writing
      ensures err == Success ==>
        && !writing && View() == old(View())
        && pos == old(pos) + |data|
        && data == (if old(pos) >= |View()| then [] else View()[old(pos)..Min(old(pos) + size, |View()|)])
      decreases if writing then 5 else 1, 0
    {
      data := [];
      err := Success;
      if writing {
        err := Flush();
        if err != Success {
          return;
        }
      }
      if pos >= ctzSize {
        return;
      }
      data := ReadSaved(Min(size, ctzSize - pos));
    }

    /** The loop of lfs_file_read, block by block. */
    method ReadSaved(size: nat) returns (data: seq<byte>)
      requires Valid() && !writing && pos + size <= ctzSize
      modifies this`pos, this`block, this`off, this`reading
      ensures Valid() && pos == old(pos) + size && data == saved[old(pos)..pos]
    {
      hide *;
      SavedSize();
      data := [];
      var nsize := size;
      while nsize > 0
        invariant Valid() && !writing && pos + nsize == old(pos) + size <= ctzSize
        invariant data == saved[old(pos)..pos]
      {
        if !reading || off == storage.blockSize {
          Locate();
        }
        var diff, piece := ReadPiece(nsize);
        data := data + piece;
        nsize := nsize - diff;
      }
    }

    method Locate()
      requires Valid() && !writing && pos < ctzSize
      modifies this`block, this`off, this`reading
      ensures Valid() && reading && AtPosition() && off < storage.blockSize
    {
      hide Index, IsFile, Stores;
      IndexCorrect(storage.blockSize, pos);
      var e, b, o, _ := storage.Find(ctzHead, ctzSize, pos, chain);
      block, off, reading := b, o, true;
    }

    method ReadPiece(nsize: nat) returns (diff: nat, piece: seq<byte>)
      requires Valid() && !writing && reading && 0 < nsize && pos + nsize <= ctzSize && off != storage.blockSize
      modifies this`pos, this`off
      ensures Valid() && 0 < diff <= nsize && pos == old(pos) + diff && piece == saved[old(pos)..pos]
    {
      hide Index, Stores, IsList, AddressesInRange;
      IndexCorrect(storage.blockSize, pos);
      diff := Min(nsize, storage.blockSize - off);
      ghost var n := Index(storage.blockSize, pos).0;
      StretchOfFile(storage.blocks, storage.blockSize, chain, saved, pos, n, off, diff);
      if off + diff < storage.blockSize {
        ShiftIndex(storage.blockSize, pos, n, off, diff);
      }
      var e;
      e, piece := storage.Read(block, off, diff);
      pos, off := pos + diff, off + diff;
    }

    /** lfs_file_flush: while writing, copy what follows the branch and make the branch the saved list. */
    method Flush() returns (err: Outcome)
      requires Valid() && (writing ==> !readOnly)
      modifies this, storage
      ensures Valid() && Untouched(old(storage.blocks), storage.blocks, old(Kept()))
      ensures err == Success || (err == OutOfSpace && old(writing))
      ensures View() == old(View()) && (err == OutOfSpace ==> Full())
      ensures err == Success ==> !reading && !writing && pos == old(pos)
      ensures err == Success ==> |View()| == ctzSize && pos <= fileMax <= FILE_MAX && ctzSize <= fileMax
      ensures !old(writing) ==> storage.blocks == old(storage.blocks) && chain == old(chain) && saved == old(saved)
      ensures !old(writing) ==> ctzSize == old(ctzSize)
      decreases if writing then 4 else 0, 0
    {
      hide *;
      StopReading();
      err := Success;
      if writing {
        ghost var dev, keep := storage.blocks, Kept();
        var start := pos;
        err := CopyRest();
        if err != Success {
          return;
        }
        TakeOver(start);
      }
    }

    method StopReading()
      requires Valid()
      modifies this`reading
      ensures Valid() && !reading && View() == old(View()) && Kept() == old(Kept())
      ensures Untouched(storage.blocks, storage.blocks, Kept())
      ensures pos <= fileMax <= FILE_MAX && ctzSize <= fileMax && (!writing ==> |View()| == ctzSize)
    {
      hide Holding, Index, AddressesInRange, Storage.Valid;
      reading := false;
    }

    /** The branch becomes the saved list. */
    method TakeOver(start: nat)
      requires Valid() && writing && !readOnly && !reading && pos >= ctzSize && start <= fileMax
      modifies this
      ensures Valid() && !reading && !writing && View() == old(View()) && pos == start
      ensures |View()| == ctzSize && pos <= fileMax <= FILE_MAX && ctzSize <= fileMax
    {
      hide Holding, Index, AddressesInRange, Storage.Valid;
      ctzHead, ctzSize := block, pos;
      chain, saved := branchChain, branch;
      writing, dirty := false, true;
      pos := start;
    }

    /** The copying loop of lfs_file_flush: a second file object reads the saved list behind the cursor. */
    method CopyRest() returns (err: Outcome)
      requires Valid() && writing && !readOnly && !reading
      modifies this, storage
      ensures Valid() && writing && !reading && Untouched(old(storage.blocks), storage.blocks, old(Kept()))
      ensures chain == old(chain) && saved == old(saved) && Kept() == old(Kept())
      ensures View() == old(View()) && (err == Success || err == OutOfSpace)
      ensures if err == Success then pos >= ctzSize else Full()
      decreases 3, 0
    {
      hide *;
      ghost var keep, dev, view := Kept(), storage.blocks, View();
      ViewReaches();
      var orig := SecondReader();
      err := Success;
      while pos < ctzSize
        invariant Valid() && writing && !reading && err == Success
        invariant chain == old(chain) && saved == old(saved) && ctzSize == old(ctzSize)
        invariant Kept() == keep && Untouched(dev, storage.blocks, keep) && View() == view
        invariant fresh(orig) && Shadowed(orig)
        decreases ctzSize - pos
      {
        ghost var dev' := storage.blocks;
        err := CopyByte(orig);
        UntouchedTrans(dev, dev', storage.blocks, keep);
        if err != Success {
          return;
        }
      }
    }

    /** orig reads the saved list of this file at the same position. */
    ghost predicate Shadowed(orig: FileObject)
      reads this, orig, storage
    {
      && orig != this && orig.storage == storage && orig.Valid() && !orig.writing && orig.readOnly
      && orig.pos == pos && orig.chain == chain && orig.saved == saved && orig.ctzSize == ctzSize
    }

    method SecondReader() returns (orig: FileObject)
      requires Valid() && writing
      ensures fresh(orig) && Shadowed(orig)
    {
      hide Holding, Index, AddressesInRange, Storage.Valid;
      orig := new FileObject(storage, true, fileMax, pinned, ctzHead, ctzSize, pos, false, chain, saved);
    }

    method CopyByte(orig: FileObject) returns (err: Outcome)
      requires Valid() && writing && !readOnly && !reading && pos < ctzSize && Shadowed(orig)
      modifies this, storage, orig
      ensures Valid() && writing && !reading && Untouched(old(storage.blocks), storage.blocks, old(Kept()))
      ensures chain == old(chain) && saved == old(saved) && ctzSize == old(ctzSize) && Kept() == old(Kept())
      ensures View() == old(View()) && (err == Success || err == OutOfSpace)
      ensures if err == Success then Shadowed(orig) && pos == old(pos) + 1 else Full()
      decreases 2, 0
    {
      hide *;
      NextByte();
      ghost var view, start := View(), pos;
      var data := ReadByte(orig);
      PatchSame(view, start);
      err := Write(data);
      if err == OutOfSpace {
        NothingWritten(view, start, data, View(), pos);
      } else {
        orig.ReadsLike(this);
        ShadowedIs(orig);
      }
    }

    lemma SavedSize()
      requires Valid()
      ensures |saved| == ctzSize
    {
      hide Holding, Index, AddressesInRange, Storage.Valid;
    }

    /** The next byte of the saved list, through the second reader. */
    method ReadByte(orig: FileObject) returns (data: seq<byte>)
      requires Valid() && Shadowed(orig) && pos < |saved| == ctzSize
      modifies orig, storage
      ensures Valid()
      ensures data == [saved[pos]] && orig.pos == pos + 1 && orig.Steady() && orig.readOnly
      ensures orig.chain == chain && orig.saved == saved && orig.ctzSize == ctzSize
      ensures orig != this && orig.storage == storage && storage.blocks == old(storage.blocks)
      decreases 1, 1
    {
      hide FileObject.Valid, Untouched, FileObject.Kept, FileObject.Full, FileObject.Steady;
      orig.SteadyIfValid();
      var err;
      err, data := orig.Read(1);
      orig.SteadyIfValid();
      StillValid();
    }

    twostate lemma StillValid()
      requires old(Valid()) && unchanged(this) && storage.blocks == old(storage.blocks)
      ensures Valid()
    {
      hide Holding, Index, AddressesInRange;
    }

    /** What of a reader's validity does not depend on what the blocks hold. */
    ghost predicate Steady()
      reads this
    {
      && storage.blockSize > 8 && fileMax <= FILE_MAX && pos <= fileMax && ctzSize <= fileMax
      && readOnly && !writing && |saved| == ctzSize
      && (ctzSize > 0 ==> chain != [] && chain[|chain| - 1] == ctzHead)
      && (reading && pos < ctzSize ==> off == storage.blockSize || AtPosition())
    }

    lemma SteadyIfValid()
      requires Valid() && readOnly
      ensures Steady() && !writing && |saved| == ctzSize
    {
      hide Index, AddressesInRange, Stores, IsList;
    }

    /** A reader of the list that another file object holds. */
    lemma ReadsLike(f: FileObject)
      requires Steady() && f.Valid() && f.storage == storage
      requires chain == f.chain && saved == f.saved && ctzSize == f.ctzSize
      ensures Valid()
    {
      hide Index, AddressesInRange, Storage.Valid, Stores, IsList;
    }

    lemma ShadowedIs(orig: FileObject)
      requires orig != this && orig.storage == storage && orig.Valid() && orig.readOnly
      requires orig.pos == pos && orig.chain == chain && orig.saved == saved && orig.ctzSize == ctzSize
      ensures Shadowed(orig)
    {
      hide Holding, Index, AddressesInRange, Storage.Valid;
    }

    lemma NextByte()
      requires Valid() && writing && pos < ctzSize
      ensures pos + 1 <= fileMax && pos < |saved| == ctzSize && |saved| <= |View()| && View()[pos] == saved[pos]
      ensures Untouched(storage.blocks, storage.blocks, Kept())
    {
      hide Holding, Index, AddressesInRange, Storage.Valid;
    }

    /** lfs_file_write. */
    method Write(data: seq<byte>) returns (err: Outcome)
      requires Valid() && !readOnly && |data| < 0x8000_0000
      modifies this, storage
      ensures Valid() && !reading && Untouched(old(storage.blocks), storage.blocks, old(Kept()))
      ensures chain == old(chain) && saved == old(saved) && ctzSize == old(ctzSize) && Kept() == old(Kept())
      ensures err == Success || err == OutOfSpace || err == TooBig
      ensures err == OutOfSpace ==> Full() && PartWritten(old(View()), old(pos), data, View(), pos)
      ensures err == TooBig <==> old(pos) + |data| > fileMax
      ensures err == TooBig ==> View() == old(View()) && pos == old(pos)
      ensures err == Success ==>
        View() == Patch(old(View()), old(pos), data) && pos == old(pos) + |data|
      ensures old(writing) || (err == Success && |data| > 0) ==> writing
      decreases if reading then 3 else if !writing && pos > ctzSize then 2 else 1, 0
    {
      hide FileObject.Valid, FileObject.Base, FileObject.View, FileObject.Full, Untouched, Patch, PartWritten, Elements;
      WriteBounds(data);
      if reading {
        err := Flush();
      }
      if (pos + |data|) % WORD_LIMIT > fileMax {
        return TooBig;
      }
      err := WriteInLimit(data);
    }

    lemma WriteBounds(data: seq<byte>)
      requires Valid() && |data| < 0x8000_0000
      ensures reading ==> !writing
      ensures (pos + |data|) % WORD_LIMIT == pos + |data|
      ensures Untouched(storage.blocks, storage.blocks, Kept())
    {
      hide Holding, Index, AddressesInRange, Storage.Valid, FileObject.Kept;
    }

    /** A write that the limit allows. */
    method WriteInLimit(data: seq<byte>) returns (err: Outcome)
      requires Valid() && !readOnly && !reading && pos + |data| <= fileMax
      modifies this, storage
      ensures Valid() && !reading && Untouched(old(storage.blocks), storage.blocks, old(Kept()))
      ensures chain == old(chain) && saved == old(saved) && ctzSize == old(ctzSize) && Kept() == old(Kept())
      ensures err == Success || err == OutOfSpace
      ensures err == OutOfSpace ==> Full() && PartWritten(old(View()), old(pos), data, View(), pos)
      ensures err == Success ==>
        View() == Patch(old(View()), old(pos), data) && pos == old(pos) + |data|
      ensures old(writing) || (err == Success && |data| > 0) ==> writing
      decreases if !writing && pos > ctzSize then 1 else 0, 2
    {
      hide *;
      if writing || pos <= ctzSize {
        err := WriteBlocks(data);
        return;
      }
      ghost var view, start, keep, dev := View(), pos, Kept(), storage.blocks;
      err := FillGap();
      if err != Success {
        PartOfGap(view, start, data, View(), pos);
        return;
      }
      ghost var dev' := storage.blocks;
      err := WriteBlocks(data);
      UntouchedTrans(dev, dev', storage.blocks, keep);
      PatchGap(view, start, data);
      if err != Success {
        PartBehindGap(view, start, data, View(), pos);
      }
    }

    method FillGap() returns (err: Outcome)
      requires Valid() && !readOnly && !reading && !writing && pos > ctzSize
      modifies this, storage
      ensures Valid() && !reading && Untouched(old(storage.blocks), storage.blocks, old(Kept()))
      ensures chain == old(chain) && saved == old(saved) && ctzSize == old(ctzSize) && Kept() == old(Kept())
      ensures err == Success || err == OutOfSpace
      ensures ctzSize <= pos && View() == old(View()) + Zeros(pos - old(ctzSize)) && |old(View())| == ctzSize
      ensures if err == Success then writing && pos == old(pos) else Full() && pos < old(pos)
      decreases 1, 1
    {
      hide *;
      ghost var keep, dev := Kept(), storage.blocks;
      var target := pos;
      StartGap();
      err := Success;
      while pos < target
        invariant Valid() && !reading && ctzSize <= pos <= target <= fileMax && err == Success
        invariant writing <==> pos > ctzSize
        invariant chain == old(chain) && saved == old(saved) && ctzSize == old(ctzSize) && Kept() == keep
        invariant Untouched(dev, storage.blocks, keep)
        invariant |old(View())| == ctzSize && View() == old(View()) + Zeros(pos - ctzSize)
      {
        PatchZero(old(View()), pos - ctzSize);
        ghost var dev', view, start := storage.blocks, View(), pos;
        err := Write([0]);
        UntouchedTrans(dev, dev', storage.blocks, keep);
        if err != Success {
          NothingWritten(view, start, [0], View(), pos);
          return;
        }
      }
    }

    method StartGap()
      requires Valid() && !reading && !writing && pos > ctzSize
      modifies this`pos
      ensures Valid() && pos == ctzSize && old(pos) <= fileMax
      ensures Kept() == old(Kept()) && View() == old(View()) == old(View()) + Zeros(0) && |View()| == ctzSize
      ensures Untouched(storage.blocks, storage.blocks, Kept())
    {
      hide Holding, Index, AddressesInRange, Storage.Valid;
      pos := ctzSize;
    }

    /** The loop of lfs_file_write, block by block. */
    method WriteBlocks(data: seq<byte>) returns (err: Outcome)
      requires Valid() && !readOnly && !reading && pos + |data| <= fileMax && (!writing ==> pos <= ctzSize)
      modifies this, storage
      ensures Valid() && !reading && Untouched(old(storage.blocks), storage.blocks, old(Kept()))
      ensures chain == old(chain) && saved == old(saved) && ctzSize == old(ctzSize) && Kept() == old(Kept())
      ensures err == Success || err == OutOfSpace
      ensures err == OutOfSpace ==> Full() && PartWritten(old(View()), old(pos), data, View(), pos)
      ensures err == Success ==>
        View() == Patch(old(View()), old(pos), data) && pos == old(pos) + |data|
      ensures old(writing) || (err == Success && |data| > 0) ==> writing
    {
      hide *;
      ghost var keep, dev := Kept(), storage.blocks;
      ghost var view, start := View(), pos;
      var done := 0;
      StartProgress(data);
      err := Success;
      while done < |data|
        invariant Valid() && !reading && done <= |data| && err == Success
        invariant Progress(view, start, data, done, keep, dev)
        invariant chain == old(chain) && saved == old(saved) && ctzSize == old(ctzSize)
        invariant if done > 0 then writing else writing == old(writing) && (!writing ==> pos <= ctzSize)
      {
        err, done := WriteMore(data, done, view, start, keep, dev);
        if err != Success {
          PartIsWritten(view, start, data, done, keep, dev);
          return;
        }
      }
      EndProgress(view, start, data, keep, dev);
    }

    /** The first done bytes of data are written, and the kept blocks are as they were in dev. */
    ghost predicate Progress(view: seq<byte>, start: nat, data: seq<byte>, done: nat, keep: set<nat>, dev: Blocks)
      reads this, storage
    {
      && done <= |data| && pos == start + done && start + |data| <= fileMax
      && View() == Patch(view, start, data[..done])
      && Kept() == keep && Untouched(dev, storage.blocks, keep)
    }

    lemma StartProgress(data: seq<byte>)
      requires Valid() && pos + |data| <= fileMax && (!writing ==> pos <= ctzSize)
      ensures Progress(View(), pos, data, 0, Kept(), storage.blocks)
    {
      hide FileObject.Valid, FileObject.View, FileObject.Kept, Patch;
      ViewReaches();
      PatchNothing(View(), pos);
    }

    lemma EndProgress(view: seq<byte>, start: nat, data: seq<byte>, keep: set<nat>, dev: Blocks)
      requires Progress(view, start, data, |data|, keep, dev)
      ensures pos == start + |data| && View() == Patch(view, start, data)
      ensures Kept() == keep && Untouched(dev, storage.blocks, keep)
    {
      hide FileObject.View, FileObject.Kept, Patch, Untouched;
      assert data[..|data|] == data;
    }

    lemma PartIsWritten(view: seq<byte>, start: nat, data: seq<byte>, done: nat, keep: set<nat>, dev: Blocks)
      requires Progress(view, start, data, done, keep, dev) && done < |data|
      ensures PartWritten(view, start, data, View(), pos)
      ensures Kept() == keep && Untouched(dev, storage.blocks, keep)
    {
      hide FileObject.View, FileObject.Kept, Patch, Untouched;
      assert pos == start + done && View() == Patch(view, start, data[..done]);
    }

    method WriteMore(data: seq<byte>, done: nat,
                     ghost view: seq<byte>, ghost start: nat, ghost keep: set<nat>, ghost dev: Blocks)
      returns (err: Outcome, done': nat)
      requires Valid() && !readOnly && !reading && done < |data| && (!writing ==> pos <= ctzSize)
      requires Progress(view, start, data, done, keep, dev)
      modifies this, storage
      ensures Valid() && !reading && chain == old(chain) && saved == old(saved) && ctzSize == old(ctzSize)
      ensures err == Success || err == OutOfSpace
      ensures Progress(view, start, data, done', keep, dev) && Kept() == keep && Untouched(dev, storage.blocks, keep)
      ensures err == Success ==> writing && done < done' <= |data|
      ensures err != Success ==> Full() && writing == old(writing) && done' == done
    {
      hide FileObject.Valid, FileObject.View, FileObject.Kept, FileObject.Full, Patch, Untouched, Storage.Valid;
      ghost var dev' := storage.blocks;
      err, done' := WriteStep(data, done);
      UntouchedTrans(dev, dev', storage.blocks, keep);
      if err == Success {
        ghost var piece := data[done..done'];
        PatchPatch(view, start, data[..done], piece);
        assert data[..done] + piece == data[..done'];
      }
    }

    method WriteStep(data: seq<byte>, done: nat) returns (err: Outcome, done': nat)
      requires Valid() && !readOnly && !reading && done < |data| && pos + |data| - done <= fileMax
      requires (!writing ==> pos <= ctzSize)
      modifies this, storage
      ensures Valid() && !reading && Untouched(old(storage.blocks), storage.blocks, old(Kept()))
      ensures chain == old(chain) && saved == old(saved) && ctzSize == old(ctzSize) && Kept() == old(Kept())
      ensures err == Success || err == OutOfSpace
      ensures err == OutOfSpace ==> Full() && writing == old(writing) && View() == old(View())
      ensures err == OutOfSpace ==> pos == old(pos) && done' == done
      ensures err == Success ==> writing && done < done' <= |data| && pos == old(pos) + done' - done
      ensures err == Success ==> View() == Patch(old(View()), old(pos), data[done..done'])
    {
      hide *;
      ghost var keep, dev := Kept(), storage.blocks;
      done' := done;
      err := Prepare();
      if err != Success {
        return;
      }
      ghost var dev' := storage.blocks;
      var diff := if |data| - done < storage.blockSize - off then |data| - done else storage.blockSize - off;
      done' := done + diff;
      Append(data[done..done']);
      UntouchedTrans(dev, dev', storage.blocks, keep);
    }

    /** Make room for byte pos: nothing to do inside a block, a new block otherwise. */
    method Prepare() returns (err: Outcome)
      requires Valid() && !readOnly && !reading && pos < fileMax && (!writing ==> pos <= ctzSize)
      modifies this, storage
      ensures Base() && !reading && Untouched(old(storage.blocks), storage.blocks, old(Kept()))
      ensures chain == old(chain) && saved == old(saved) && ctzSize == old(ctzSize) && Kept() == old(Kept())
      ensures pos == old(pos)
      ensures View() == old(View()) && (err == Success || err == OutOfSpace)
      ensures err == Success ==> writing && Ready() && off < storage.blockSize
      ensures err == OutOfSpace ==> Valid() && Full() && writing == old(writing)
    {
      if writing && off != storage.blockSize {
        BranchReady();
        return Success;
      }
      var live := LiveBlocks();
      ghost var c, bytes := branchChain, branch;
      var from := block;
      if !writing {
        from, c := FindBranch();
        bytes := saved[..pos];
      }
      err := Grow(from, live, c, bytes);
    }

    /** The block that the branch grows out of: the one that holds byte pos - 1. */
    method FindBranch() returns (from: nat, ghost c: seq<nat>)
      requires Base() && !writing && pos <= ctzSize
      ensures Holding(storage.blocks, storage.blockSize, c, from, saved[..pos])
      ensures forall b :: b in c ==> b in Kept()
    {
      from, c := block, [];
      if pos > 0 {
        TakeFile(storage.blocks, storage.blockSize, chain, saved, pos);
        hide Index, Stores, IsList;
        var e, b, o, _ := storage.Find(ctzHead, ctzSize, pos - 1, chain);
        from, c := b, chain[..Index(storage.blockSize, pos - 1).0 + 1];
      } else {
        hide Index;
      }
    }

    lemma BranchReady()
      requires Valid() && writing && off != storage.blockSize
      ensures Base() && Ready() && off < storage.blockSize
    {
      hide Index, Stores, IsList, AddressesInRange, Untouched;
      IndexCorrect(storage.blockSize, pos - 1);
      ShortChain(storage.blockSize, pos - 1);
      NextIndex(storage.blockSize, pos, |branchChain| - 1, off);
    }

    /** Extend the list c, which stores the bytes before pos, by a fresh block, and make it the branch. */
    method Grow(from: nat, live: set<nat>, ghost c: seq<nat>, ghost bytes: seq<byte>) returns (err: Outcome)
      requires Base() && !readOnly && !reading && pos < fileMax && |bytes| == pos
      requires writing ==> Branching() && bytes == branch
      requires !writing ==> pos <= ctzSize && bytes == saved[..pos]
      requires Holding(storage.blocks, storage.blockSize, c, from, bytes)
      requires Kept() <= live && forall b :: b in c ==> b in live
      requires live <= Kept() + if writing then Elements(branchChain) else {}
      modifies this, storage
      ensures Base() && !reading && Untouched(old(storage.blocks), storage.blocks, old(Kept()))
      ensures chain == old(chain) && saved == old(saved) && ctzSize == old(ctzSize) && Kept() == old(Kept())
      ensures pos == old(pos)
      ensures View() == old(View()) && (err == Success || err == OutOfSpace)
      ensures err == Success ==> writing && Ready() && off < storage.blockSize
      ensures err == OutOfSpace ==> Valid() && Full() && writing == old(writing)
    {
      hide Holding, Open, Index, AddressesInRange, Untouched, IsFile, Extends, FileObject.Kept;
      CanExtend(storage.blocks, storage.blockSize, c, from, bytes, live);
      var e, b, o, c' := storage.Extend(from, pos, live, c);
      KeptMembers(b, live);
      if e != Ok {
        return OutOfSpace;
      }
      AfterExtend(old(storage.blocks), storage.blocks, storage.blockSize, c, from, bytes, c', b, o);
      AfterWrite(old(storage.blocks), storage.blocks, storage.blockSize, chain, ctzHead, saved, b, Kept());
      err := Success;
      TakeBranch(b, o, c', bytes);
    }

    lemma KeptMembers(b: nat, live: set<nat>)
      requires Kept() <= live
      ensures b !in live ==> b !in Kept()
      ensures b !in Kept() ==> b !in chain && b !in pinned
      ensures Untouched(storage.blocks, storage.blocks, Kept())
    {
    }

    method TakeBranch(b: nat, o: nat, ghost c: seq<nat>, ghost bytes: seq<byte>)
      requires Base() && !reading && !readOnly && |bytes| == pos && o < storage.blockSize && b !in Kept()
      requires Open(storage.blocks, storage.blockSize, c, b, o, bytes)
      requires writing ==> bytes == branch
      requires !writing ==> pos <= ctzSize && bytes == saved[..pos]
      modifies this`block, this`off, this`writing, this`branchChain, this`branch
      ensures Base() && writing && Ready() && off < storage.blockSize
      ensures View() == old(View()) && Kept() == old(Kept())
    {
      hide Holding, Open, Index, AddressesInRange;
      block, off, writing := b, o, true;
      branchChain, branch := c, bytes;
      assert writing ==> View() == old(View());
    }

    /** lfs_bd_prog of a piece that fits the current block. */
    method Append(piece: seq<byte>)
      requires Base() && !readOnly && !reading && writing && Ready()
      requires 0 < |piece| <= storage.blockSize - off && pos + |piece| <= fileMax
      modifies this, storage
      ensures Valid() && !reading && writing && Untouched(old(storage.blocks), storage.blocks, old(Kept()))
      ensures chain == old(chain) && saved == old(saved) && ctzSize == old(ctzSize) && Kept() == old(Kept())
      ensures pos == old(pos) + |piece|
      ensures View() == Patch(old(View()), old(pos), piece)
    {
      hide Holding, Open, Index, AddressesInRange, Untouched, Overwrite, FileObject.Kept, FileObject.View, Patch;
      KeptMembers(block, Kept());
      OpenBlock(storage.blocks, storage.blockSize, branchChain, block, off, branch);
      storage.Prog(block, off, piece);
      AfterAppend(old(storage.blocks), storage.blocks, storage.blockSize, branchChain, block, off, branch, piece);
      AfterWrite(old(storage.blocks), storage.blocks, storage.blockSize, chain, ctzHead, saved, block, Kept());
      Advance(piece);
    }

    method Advance(piece: seq<byte>)
      requires Base() && !readOnly && !reading && writing && |branch| == pos && 0 < |piece| && pos + |piece| <= fileMax
      requires Holding(storage.blocks, storage.blockSize, branchChain, block, branch + piece) && block !in Kept()
      requires Index(storage.blockSize, pos + |piece| - 1).1 + 1 == off + |piece|
      modifies this`pos, this`off, this`branch
      ensures Valid() && writing && Kept() == old(Kept()) && pos == old(pos) + |piece|
      ensures View() == Patch(old(View()), old(pos), piece)
    {
      hide Holding, Index, AddressesInRange;
      branch := branch + piece;
      pos, off := pos + |piece|, off + |piece|;
    }

    /** lfs_file_seek, with the target computed modulo 2^32. */
    method Seek(offset: int, whence: Whence) returns (err: Outcome)
      requires Valid() && (writing ==> !readOnly) && -0x8000_0000 <= offset < 0x8000_0000
      modifies this, storage
      ensures Valid() && Untouched(old(storage.blocks), storage.blocks, old(Kept()))
      ensures View() == old(View()) && (if err == OutOfSpace then old(writing) && Full() else !writing)
      ensures err == Success || err == Invalid || err == OutOfSpace
      ensures err != OutOfSpace ==>
        var target := SeekTarget(old(pos), |old(View())|, offset, whence);
        && (err == Success <==> 0 <= target <= fileMax)
        && pos == if err == Success then target else old(pos)
    {
      hide *;
      err := Flush();
      if err != Success {
        return;
      }
      SeekWrap(pos, ctzSize, offset, whence, fileMax);
      var npos := NewPosition(pos, ctzSize, offset, whence);
      err := Reposition(npos);
    }

    method Reposition(npos: nat) returns (err: Outcome)
      requires Valid() && !reading && !writing
      modifies this`pos
      ensures Valid() && View() == old(View()) && Kept() == old(Kept())
      ensures err == (if npos > fileMax then Invalid else Success) && pos == if err == Success then npos else old(pos)
    {
      hide Holding, Index, AddressesInRange, Storage.Valid;
      if npos > fileMax {
        return Invalid;
      }
      pos := npos;
      err := Success;
    }
  }

  /** A write that came to its end early: within the gap before the position, or after a part of the data. */
  ghost predicate PartWritten(view: seq<byte>, pos: nat, data: seq<byte>, view': seq<byte>, pos': nat) {
    || (|view| <= pos' < pos && view' == view + Zeros(pos' - |view|))
    || exists done: nat :: done < |data| && view' == Patch(view, pos, data[..done]) && pos' == pos + done
  }

  lemma NothingWritten(view: seq<byte>, pos: nat, data: seq<byte>, view': seq<byte>, pos': nat)
    requires PartWritten(view, pos, data, view', pos') && |data| == 1 && pos <= |view|
    ensures view' == view && pos' == pos
  {
    hide Patch;
    PatchNothing(view, pos);
  }

  lemma PartOfGap(view: seq<byte>, pos: nat, data: seq<byte>, view': seq<byte>, pos': nat)
    requires |view| <= pos' < pos && view' == view + Zeros(pos' - |view|)
    ensures PartWritten(view, pos, data, view', pos')
  {
  }

  lemma PartBehindGap(view: seq<byte>, pos: nat, data: seq<byte>, view': seq<byte>, pos': nat)
    requires pos >= |view| && PartWritten(view + Zeros(pos - |view|), pos, data, view', pos')
    ensures PartWritten(view, pos, data, view', pos')
  {
    hide Patch;
    var done: nat :| done < |data|
      && view' == Patch(view + Zeros(pos - |view|), pos, data[..done]) && pos' == pos + done;
    PatchGap(view, pos, data[..done]);
  }

  /** Where a seek goes, without wrap-around. */
  function SeekTarget(pos: nat, size: nat, offset: int, whence: Whence): int {
    match whence
    case FromStart => offset
    case FromCurrent => pos + offset
    case FromEnd => size + offset
  }

  /** The unsigned 32-bit sum that lfs_file_seek computes. */
  function NewPosition(pos: nat, size: nat, offset: int, whence: Whence): nat {
    match whence
    case FromStart => offset % WORD_LIMIT
    case FromCurrent => (pos + offset) % WORD_LIMIT
    case FromEnd => (size + offset) % WORD_LIMIT
  }

  /** A negative target wraps to a position above every file limit, and no other target wraps. */
  lemma SeekWrap(pos: nat, size: nat, offset: int, whence: Whence, fileMax: nat)
    requires pos <= fileMax <= FILE_MAX && size <= fileMax && -0x8000_0000 <= offset < 0x8000_0000
    ensures var npos, target := NewPosition(pos, size, offset, whence), SeekTarget(pos, size, offset, whence);
      && (npos <= fileMax <==> 0 <= target <= fileMax)
      && (0 <= target <= fileMax ==> npos == target)
  {
  }

  lemma PatchSame(c: seq<byte>, pos: nat)
    requires pos < |c|
    ensures Patch(c, pos, [c[pos]]) == c
  {
  }

  lemma VisitedAll(chain: seq<nat>, visited: seq<nat>)
    requires |visited| == |chain| && forall k :: 0 <= k < |chain| ==> visited[k] == chain[|chain| - 1 - k]
    ensures forall b :: b in chain <==> b in visited
  {
    forall b | b in visited ensures b in chain {
      var k :| 0 <= k < |visited| && visited[k] == b;
      assert chain[|chain| - 1 - k] == b;
    }
    forall b | b in chain ensures b in visited {
      var i :| 0 <= i < |chain| && chain[i] == b;
      assert visited[|chain| - 1 - i] == b;
    }
  }

  datatype Operation =
    | ReadOp(size: nat)
    | WriteOp(data: seq<byte>)
    | SeekOp(offset: int, whence: Whence)
    | FlushOp

  datatype Reply = Reply(outcome: Outcome, data: seq<byte>)

  /** An in-memory file: contents, cursor and what the operations so far replied. */
  datatype Memory = Memory(contents: seq<byte>, cursor: nat, replies: seq<Reply>)

  /** The same operation on the in-memory file. */
  function Apply(m: Memory, fileMax: nat, op: Operation): Memory {
    match op
    case ReadOp(size) =>
      var data := if m.cursor >= |m.contents| then [] else m.contents[m.cursor..Min(m.cursor + size, |m.contents|)];
      Memory(m.contents, m.cursor + |data|, m.replies + [Reply(Success, data)])
    case WriteOp(data) =>
      if m.cursor + |data| > fileMax then m.(replies := m.replies + [Reply(TooBig, [])])
      else Memory(Patch(m.contents, m.cursor, data), m.cursor + |data|, m.replies + [Reply(Success, [])])
    case SeekOp(offset, whence) =>
      var target := SeekTarget(m.cursor, |m.contents|, offset, whence);
      if 0 <= target <= fileMax then Memory(m.contents, target, m.replies + [Reply(Success, [])])
      else m.(replies := m.replies + [Reply(Invalid, [])])
    case FlushOp => m.(replies := m.replies + [Reply(Success, [])])
  }

  /** What was read by the last operation. */
  function LastRead(m: Memory): seq<byte>
    requires m.replies != []
  {
    m.replies[|m.replies| - 1].data
  }

  /** What the three ways to seek are for: reading it all from the start, reading the last n bytes, appending at the
      end, and reading the same bytes again. */
  lemma SeekMeans(m: Memory, fileMax: nat, n: int, data: seq<byte>)
    requires n >= 0 && m.cursor <= fileMax && |m.contents| <= fileMax
    ensures LastRead(Apply(Apply(m, fileMax, SeekOp(0, FromStart)), fileMax, ReadOp(|m.contents|))) == m.contents
    ensures n <= |m.contents| ==>
      LastRead(Apply(Apply(m, fileMax, SeekOp(-n, FromEnd)), fileMax, ReadOp(n))) == m.contents[|m.contents| - n..]
    ensures |m.contents| + |data| <= fileMax ==>
      Apply(Apply(m, fileMax, SeekOp(0, FromEnd)), fileMax, WriteOp(data)).contents == m.contents + data
    ensures var once := Apply(m, fileMax, ReadOp(n));
      LastRead(Apply(Apply(once, fileMax, SeekOp(-|LastRead(once)|, FromCurrent)), fileMax, ReadOp(n)))
      == LastRead(once)
  {
    hide *;
    ReadsAll(m, fileMax);
    if n <= |m.contents| {
      ReadsLast(m, fileMax, n);
    }
    SeekMoves(m, fileMax, 0, FromEnd);
    WriteAtEnd(Apply(m, fileMax, SeekOp(0, FromEnd)), fileMax, data);
    ReadsAgain(m, fileMax, n);
  }

  lemma ReadsAll(m: Memory, fileMax: nat)
    ensures LastRead(Apply(Apply(m, fileMax, SeekOp(0, FromStart)), fileMax, ReadOp(|m.contents|))) == m.contents
  {
    hide Apply;
    SeekMoves(m, fileMax, 0, FromStart);
    ReadReplies(Apply(m, fileMax, SeekOp(0, FromStart)), fileMax, |m.contents|);
  }

  lemma ReadsLast(m: Memory, fileMax: nat, n: int)
    requires 0 <= n <= |m.contents| <= fileMax
    ensures
      LastRead(Apply(Apply(m, fileMax, SeekOp(-n, FromEnd)), fileMax, ReadOp(n))) == m.contents[|m.contents| - n..]
  {
    hide Apply;
    SeekMoves(m, fileMax, -n, FromEnd);
    ReadReplies(Apply(m, fileMax, SeekOp(-n, FromEnd)), fileMax, n);
    ToTheEnd(m.contents, |m.contents| - n);
  }

  lemma ReadsAgain(m: Memory, fileMax: nat, n: nat)
    requires m.cursor <= fileMax && |m.contents| <= fileMax
    ensures var once := Apply(m, fileMax, ReadOp(n));
      LastRead(Apply(Apply(once, fileMax, SeekOp(-|LastRead(once)|, FromCurrent)), fileMax, ReadOp(n)))
      == LastRead(once)
  {
    hide Apply;
    var once := Apply(m, fileMax, ReadOp(n));
    ReadReplies(m, fileMax, n);
    SeekMoves(once, fileMax, -|LastRead(once)|, FromCurrent);
    ReadReplies(Apply(once, fileMax, SeekOp(-|LastRead(once)|, FromCurrent)), fileMax, n);
  }

  lemma ToTheEnd(c: seq<byte>, i: nat)
    requires i <= |c|
    ensures c[i..|c|] == c[i..]
  {
  }

  /** The cursor of a seek, by its distance from the start, the cursor or the end. */
  lemma SeekMoves(m: Memory, fileMax: nat, offset: int, whence: Whence)
    ensures var m' := Apply(m, fileMax, SeekOp(offset, whence));
      && m'.contents == m.contents
      && (whence == FromStart && 0 <= offset <= fileMax ==> m'.cursor == offset)
      && (whence == FromCurrent && 0 <= m.cursor + offset <= fileMax ==> m'.cursor - m.cursor == offset)
      && (whence == FromEnd && 0 <= |m.contents| + offset <= fileMax ==> m'.cursor - |m.contents| == offset)
  {
  }

  lemma ReadReplies(m: Memory, fileMax: nat, n: nat)
    ensures var m' := Apply(m, fileMax, ReadOp(n));
      && m'.contents == m.contents && m'.replies != [] && m'.cursor == m.cursor + |LastRead(m')|
      && LastRead(m') == if m.cursor >= |m.contents| then []
         else m.contents[m.cursor..if m.cursor + n <= |m.contents| then m.cursor + n else |m.contents|]
  {
  }

  lemma WriteAtEnd(m: Memory, fileMax: nat, data: seq<byte>)
    requires m.cursor == |m.contents|
    ensures |m.contents| + |data| <= fileMax ==> Apply(m, fileMax, WriteOp(data)).contents == m.contents + data
  {
    assert Patch(m.contents, |m.contents|, data) == m.contents + data;
  }

  function ApplyAll(m: Memory, fileMax: nat, ops: seq<Operation>): Memory {
    if ops == [] then m
    else Apply(ApplyAll(m, fileMax, ops[..|ops| - 1]), fileMax, ops[|ops| - 1])
  }

  /** The greatest length that the contents have on the way. */
  function Peak(m: Memory, fileMax: nat, ops: seq<Operation>): (n: nat)
    ensures n >= |ApplyAll(m, fileMax, ops).contents|
  {
    if ops == [] then |m.contents|
    else Max(Peak(m, fileMax, ops[..|ops| - 1]), |ApplyAll(m, fileMax, ops).contents|)
  }

  /** How many blocks a list of so many bytes has. */
  function BlocksFor(blockSize: nat, size: nat): int
    requires blockSize > 8
  {
    if size == 0 then 0 else Index(blockSize, size - 1).0 + 1
  }

  /** That is how long the list of a file of this size is. */
  lemma BlocksOfFile(dev: Blocks, blockSize: nat, chain: seq<nat>, head: nat, size: nat)
    requires blockSize > 8 && IsFile(dev, blockSize, chain, head, size)
    ensures |chain| == BlocksFor(blockSize, size)
  {
    hide IsList, Index;
    if size == 0 {
      EmptyFile(dev, blockSize, chain, head);
    }
  }

  /** What the source demands of its callers: sizes that fit a signed 32-bit result, and offsets of that width. */
  predicate InRange32(op: Operation) {
    && (op.WriteOp? ==> |op.data| < 0x8000_0000)
    && (op.SeekOp? ==> -0x8000_0000 <= op.offset < 0x8000_0000)
  }

  /** Any run of operations on a file object is the same run on the in-memory file, if the device has room for what is
      in use elsewhere and for two lists of the greatest length that the file has on the way, one saved and one being
      written. No block in use elsewhere is ever altered. */
  method Run(f: FileObject, ops: seq<Operation>) returns (err: Outcome, replies: seq<Reply>)
    requires f.Valid() && !f.readOnly
    requires forall i :: 0 <= i < |ops| ==> InRange32(ops[i])
    modifies f, f.storage
    ensures f.Valid() && Untouched(old(f.storage.blocks), f.storage.blocks, f.pinned)
    ensures err == Success || err == OutOfSpace
    ensures var peak := Peak(Memory(old(f.View()), old(f.pos), []), f.fileMax, ops);
      |old(f.storage.blocks.Keys)| > |f.pinned| + 2 * BlocksFor(f.storage.blockSize, peak) ==> err == Success
    ensures err == Success ==>
      Memory(f.View(), f.pos, replies) == ApplyAll(Memory(old(f.View()), old(f.pos), []), f.fileMax, ops)
  {
    ghost var start := Memory(f.View(), f.pos, []);
    ghost var dev := f.storage.blocks;
    Unchanged(dev, f.pinned);
    InLimit(f);
    hide *;
    err, replies := Success, [];
    assert ops[..0] == [];
    EmptyRun(start, f.fileMax);
    for i := 0 to |ops|
      invariant f.Valid() && err == Success && Untouched(dev, f.storage.blocks, f.pinned)
      invariant Memory(f.View(), f.pos, replies) == ApplyAll(start, f.fileMax, ops[..i])
    {
      ghost var dev' := f.storage.blocks;
      ghost var m := Memory(f.View(), f.pos, replies);
      NextRun(start, f.fileMax, ops, i);
      var reply;
      err, reply := Perform(f, ops[i], replies);
      UntouchedTrans(dev, dev', f.storage.blocks, f.pinned);
      if err != Success {
        PeakReached(start, f.fileMax, ops, i);
        PeakInLimit(start, f.fileMax, ops);
        FullMeans(f, dev, Peak(start, f.fileMax, ops));
        return;
      }
      replies := replies + [reply];
    }
    assert ops[..|ops|] == ops;
  }

  /** Every state on the way is within the peak. */
  lemma {:induction false} PeakReached(m: Memory, fileMax: nat, ops: seq<Operation>, i: nat)
    requires i < |ops|
    ensures |ApplyAll(m, fileMax, ops[..i]).contents| <= Peak(m, fileMax, ops)
    ensures |ApplyAll(m, fileMax, ops[..i + 1]).contents| <= Peak(m, fileMax, ops)
    decreases |ops|
  {
    hide ApplyAll;
    var before := ops[..|ops| - 1];
    if i + 1 == |ops| {
      assert ops[..i + 1] == ops && ops[..i] == before;
    } else {
      PeakReached(m, fileMax, before, i);
      assert before[..i] == ops[..i] && before[..i + 1] == ops[..i + 1];
    }
  }

  lemma InLimit(f: FileObject)
    requires f.Valid()
    ensures |f.View()| <= f.fileMax < 0x8000_0000
  {
    hide Holding, Index, AddressesInRange, Storage.Valid;
  }

  lemma {:induction false} PeakInLimit(m: Memory, fileMax: nat, ops: seq<Operation>)
    requires |m.contents| <= fileMax < 0x8000_0000
    ensures Peak(m, fileMax, ops) < WORD_LIMIT && Peak(m, fileMax, ops) <= fileMax
  {
    if ops != [] {
      var n := |ops| - 1;
      PeakInLimit(m, fileMax, ops[..n]);
      var before := ApplyAll(m, fileMax, ops[..n]);
      ApplyInLimit(before, fileMax, ops[n]);
      hide Apply;
    }
  }

  lemma ApplyInLimit(m: Memory, fileMax: nat, op: Operation)
    requires |m.contents| <= fileMax
    ensures |Apply(m, fileMax, op).contents| <= fileMax
  {
  }

  /** A full device has no more blocks than what is in use elsewhere, and two lists. */
  lemma FullMeans(f: FileObject, dev: Blocks, peak: nat)
    requires f.Valid() && f.Full() && |f.View()| <= peak < WORD_LIMIT && Untouched(dev, f.storage.blocks, f.pinned)
    ensures f.storage.blockSize > 8 && |dev.Keys| <= |f.pinned| + 2 * BlocksFor(f.storage.blockSize, peak)
  {
    hide *;
    f.ListSizes(peak);
    f.FullParts();
    SameKeys(dev, f.storage.blocks, f.pinned);
    Sizes(dev.Keys, f.pinned, Elements(f.chain), if f.writing then Elements(f.branchChain) else {});
  }

  lemma SameKeys(dev: Blocks, dev': Blocks, keep: set<nat>)
    requires Untouched(dev, dev', keep)
    ensures dev'.Keys == dev.Keys
  {
  }

  lemma Sizes(keys: set<nat>, a: set<nat>, b: set<nat>, c: set<nat>)
    requires keys <= a + b + c
    ensures |keys| <= |a| + |b| + |c|
  {
    SubsetSize(keys, a + b + c);
    UnionSize(a + b, c);
    UnionSize(a, b);
  }

  lemma UnionSize(a: set<nat>, b: set<nat>)
    ensures |a + b| <= |a| + |b|
  {
  }

  lemma {:induction false} SubsetSize(a: set<nat>, b: set<nat>)
    requires a <= b
    ensures |a| <= |b|
  {
    assert b == a + (b - a);
  }

  lemma {:induction false} ListSize(chain: seq<nat>)
    ensures |Elements(chain)| <= |chain|
  {
    if chain == [] {
      assert Elements(chain) == {};
    } else {
      var n := |chain| - 1;
      ListSize(chain[..n]);
      LastElement(chain);
      hide Elements;
      UnionSize(Elements(chain[..n]), {chain[n]});
    }
  }

  lemma LastElement(chain: seq<nat>)
    requires chain != []
    ensures Elements(chain) == Elements(chain[..|chain| - 1]) + {chain[|chain| - 1]}
  {
    var n := |chain| - 1;
    forall b ensures b in Elements(chain) <==> b in Elements(chain[..n]) + {chain[n]} {
      if b in chain {
        var i :| 0 <= i < |chain| && chain[i] == b;
        if i < n {
          assert chain[..n][i] == b;
        }
      }
    }
  }

  lemma BlocksMonotonic(blockSize: nat, p: nat, q: nat)
    requires blockSize >= 128 && p <= q < WORD_LIMIT
    ensures 0 <= BlocksFor(blockSize, p) <= BlocksFor(blockSize, q)
  {
    hide Index;
    if p > 0 {
      IndexMonotonic(blockSize, p - 1, q - 1);
    } else if q > 0 {
      IndexMonotonic(blockSize, q - 1, q - 1);
    }
  }

  lemma EmptyRun(m: Memory, fileMax: nat)
    ensures ApplyAll(m, fileMax, []) == m
  {
  }

  lemma NextRun(m: Memory, fileMax: nat, ops: seq<Operation>, i: nat)
    requires i < |ops|
    ensures ApplyAll(m, fileMax, ops[..i + 1]) == Apply(ApplyAll(m, fileMax, ops[..i]), fileMax, ops[i])
  {
    assert ops[..i + 1][..i] == ops[..i];
  }

  lemma Unchanged(dev: Blocks, keep: set<nat>)
    ensures Untouched(dev, dev, keep)
  {
  }

  lemma UntouchedLess(dev: Blocks, dev': Blocks, keep: set<nat>, fewer: set<nat>)
    requires Untouched(dev, dev', keep) && fewer <= keep
    ensures Untouched(dev, dev', fewer)
  {
  }

  /** Apply, one operation at a time. */
  lemma ApplyCases(m: Memory, fileMax: nat, op: Operation)
    ensures op.ReadOp? ==>
      var data := if m.cursor >= |m.contents| then [] else m.contents[m.cursor..Min(m.cursor + op.size, |m.contents|)];
      Apply(m, fileMax, op) == Memory(m.contents, m.cursor + |data|, m.replies + [Reply(Success, data)])
    ensures op.WriteOp? && m.cursor + |op.data| > fileMax ==>
      Apply(m, fileMax, op) == m.(replies := m.replies + [Reply(TooBig, [])])
    ensures op.WriteOp? && m.cursor + |op.data| <= fileMax ==>
      Apply(m, fileMax, op)
        == Memory(Patch(m.contents, m.cursor, op.data), m.cursor + |op.data|, m.replies + [Reply(Success, [])])
    ensures op.SeekOp? ==>
      var target := SeekTarget(m.cursor, |m.contents|, op.offset, op.whence);
      Apply(m, fileMax, op)
        == if 0 <= target <= fileMax then Memory(m.contents, target, m.replies + [Reply(Success, [])])
           else m.(replies := m.replies + [Reply(Invalid, [])])
    ensures op.FlushOp? ==> Apply(m, fileMax, op) == m.(replies := m.replies + [Reply(Success, [])])
  {
  }

  method PerformWrite(f: FileObject, data: seq<byte>) returns (err: Outcome)
    requires f.Valid() && !f.readOnly && |data| < 0x8000_0000
    modifies f, f.storage
    ensures f.Valid() && Untouched(old(f.storage.blocks), f.storage.blocks, old(f.Kept()))
    ensures err == Success || err == OutOfSpace || err == TooBig
    ensures err == TooBig <==> old(f.pos) + |data| > f.fileMax
    ensures err == TooBig ==> f.View() == old(f.View()) && f.pos == old(f.pos)
    ensures err == Success ==> f.View() == Patch(old(f.View()), old(f.pos), data) && f.pos == old(f.pos) + |data|
    ensures err == OutOfSpace ==> f.Full() && |f.View()| <= |Patch(old(f.View()), old(f.pos), data)|
  {
    hide *;
    ghost var view, start := f.View(), f.pos;
    err := f.Write(data);
    if err == OutOfSpace {
      PartIsShort(view, start, data, f.View(), f.pos);
    }
  }

  lemma InRangeParts(op: Operation)
    requires InRange32(op)
    ensures op.WriteOp? ==> |op.data| < 0x8000_0000
    ensures op.SeekOp? ==> -0x8000_0000 <= op.offset < 0x8000_0000
  {
  }

  method Perform(f: FileObject, op: Operation, ghost replies: seq<Reply>) returns (err: Outcome, reply: Reply)
    requires f.Valid() && !f.readOnly && InRange32(op)
    modifies f, f.storage
    ensures f.Valid() && Untouched(old(f.storage.blocks), f.storage.blocks, f.pinned)
    ensures err == Success || err == OutOfSpace
    ensures err == Success ==>
      Memory(f.View(), f.pos, replies + [reply]) == Apply(Memory(old(f.View()), old(f.pos), replies), f.fileMax, op)
    ensures err == OutOfSpace ==> f.Full()
    ensures err == OutOfSpace ==>
      |f.View()| <= Max(|old(f.View())|, |Apply(Memory(old(f.View()), old(f.pos), replies), f.fileMax, op).contents|)
  {
    hide *;
    ghost var dev, keep := f.storage.blocks, f.Kept();
    ghost var m := Memory(f.View(), f.pos, replies);
    f.PinnedKept();
    ApplyCases(m, f.fileMax, op);
    InRangeParts(op);
    var outcome, data;
    data := [];
    match op {
      case ReadOp(size) => outcome, data := f.Read(size);
      case WriteOp(bytes) => outcome := PerformWrite(f, bytes);
      case SeekOp(offset, whence) => outcome := f.Seek(offset, whence);
      case FlushOp => outcome := f.Flush();
    }
    UntouchedLess(dev, f.storage.blocks, keep, f.pinned);
    NoLessThan(|m.contents|, |Apply(m, f.fileMax, op).contents|);
    reply := Reply(outcome, data);
    err := if outcome == OutOfSpace then OutOfSpace else Success;
  }

  lemma NoLessThan(a: nat, b: nat)
    ensures a <= Max(a, b) && b <= Max(a, b)
  {
  }

  /** What a write left off with is no longer than what it would have come to. */
  lemma PartIsShort(view: seq<byte>, pos: nat, data: seq<byte>, view': seq<byte>, pos': nat)
    requires PartWritten(view, pos, data, view', pos')
    ensures |view'| <= |Patch(view, pos, data)|
  {
  }
}
