/** The caches between the filesystem and the block device: lfs_bd_read, lfs_bd_prog, lfs_bd_flush, lfs_bd_sync. */
module BlockCache {
  import opened Bits
  import opened Words

  // LFS_BLOCK_NULL as a block number
  const NO_BLOCK: int := -1

  datatype Config = Config(readSize: nat, progSize: nat, cacheSize: nat, blockSize: nat)

  /** What lfs_init asserts about the configuration. */
  predicate ValidConfig(c: Config) {
    && c.readSize > 0 && c.progSize > 0 && c.cacheSize > 0
    && c.cacheSize % c.readSize == 0 && c.cacheSize % c.progSize == 0 && c.blockSize % c.cacheSize == 0
  }

  type Device = seq<seq<byte>>

  ghost predicate ValidDevice(c: Config, dev: Device) {
    forall b :: 0 <= b < |dev| ==> |dev[b]| == c.blockSize
  }

  /** struct lfs_cache. */
  class Cache {
    var block: int
    var off: nat
    var size: nat
    const buffer: array<byte>

    constructor (cacheSize: nat)
      ensures buffer.Length == cacheSize && block == NO_BLOCK && fresh(buffer)
      ensures AllOnes(buffer[..])
    {
      block, off, size := NO_BLOCK, 0, 0;
      buffer := new byte[cacheSize](_ => 0xff);
    }

    /** lfs_cache_drop. */
    method Drop()
      modifies this`block
      ensures block == NO_BLOCK
    {
      block := NO_BLOCK;
    }

    /** lfs_cache_zero. */
    method Zero()
      modifies this`block, buffer
      ensures block == NO_BLOCK && AllOnes(buffer[..])
    {
      forall i | 0 <= i < buffer.Length {
        buffer[i] := 0xff;
      }
      block := NO_BLOCK;
    }

    /** The position off of block is in the cache. */
    predicate Covers(block: int, off: nat)
      reads this
    {
      this.block == block && this.off <= off < this.off + this.size
    }

    /** A read cache: empty, or a copy of a part of a block. */
    ghost predicate Coherent(c: Config, dev: Device)
      reads this, buffer
    {
      && buffer.Length == c.cacheSize
      && (block == NO_BLOCK || IsCopy(dev, block, off, size, buffer[..]))
    }

    /** A program cache: empty, or bytes to be programmed at a multiple of the program size, with room behind them. */
    ghost predicate Pending(c: Config, dev: Device)
      reads this, buffer
    {
      && buffer.Length == c.cacheSize
      && (block == NO_BLOCK || (0 <= block < |dev| && size <= c.cacheSize && off + size <= c.blockSize
                                && c.progSize > 0 && off % c.progSize == 0))
      && AllOnes(if block == NO_BLOCK then buffer[..] else buffer[size..])
    }

    /** The device when the pending bytes are programmed, with ones up to a multiple of the program size. */
    ghost function AfterFlush(c: Config, dev: Device): Device
      requires ValidConfig(c) && ValidDevice(c, dev) && Pending(c, dev)
      reads this, buffer
    {
      if block == NO_BLOCK then dev
      else
        FlushFits(c, off, size);
        dev[block := Overwrite(dev[block], off, buffer[..AlignUp(size, c.progSize)])]
    }

    /** A block as it is with the pending bytes. */
    ghost function View(dev: Device, b: nat): seq<byte>
      requires b < |dev| && (block == b ==> size <= buffer.Length && off + size <= |dev[b]|)
      reads this, buffer
    {
      if block == b then Overwrite(dev[b], off, buffer[..size]) else dev[b]
    }
  }

  lemma FlushFits(c: Config, off: nat, size: nat)
    requires ValidConfig(c) && size <= c.cacheSize && off + size <= c.blockSize && off % c.progSize == 0
    ensures size <= AlignUp(size, c.progSize) <= c.cacheSize && off + AlignUp(size, c.progSize) <= c.blockSize
  {
    hide AlignUp;
    AlignBounds(size, c.progSize);
    AlignFits(size, c.cacheSize, c.progSize);
    MultipleOfMultiple(c.blockSize, c.cacheSize, c.progSize);
    AlignFits(off + size, c.blockSize, c.progSize);
    AlignShift(size, off, c.progSize);
  }

  ghost predicate IsCopy(dev: Device, block: int, off: nat, size: nat, buffer: seq<byte>) {
    && 0 <= block < |dev| && size <= |buffer| && off + size <= |dev[block]|
    && dev[block][off..off + size] == buffer[..size]
  }

  lemma CacheHolds(c: Config)
    requires ValidConfig(c)
    ensures c.cacheSize >= c.readSize && c.cacheSize >= c.progSize > 0 && c.cacheSize % c.progSize == 0
  {
  }

  /** What one load brings into the read cache covers the position asked for. */
  lemma LoadCovers(c: Config, off: nat, hint: nat)
    requires ValidConfig(c) && hint >= 1 && off < c.blockSize
    ensures var start := AlignDown(off, c.readSize);
      var size := Min(Min(AlignUp(off + hint, c.readSize), c.blockSize) - start, c.cacheSize);
      start <= off < start + size <= c.blockSize
  {
    CacheHolds(c);
    AlignBounds(off, c.readSize);
    AlignBounds(off + hint, c.readSize);
    hide ValidConfig, AlignDown, AlignUp;
  }

  lemma OverAt(s: seq<byte>, off: nat, bs: seq<byte>, i: nat)
    requires off + |bs| <= |s| && i < |s|
    ensures Overwrite(s, off, bs)[i] == if off <= i < off + |bs| then bs[i - off] else s[i]
  {
  }

  lemma OverParts(s: seq<byte>, off: nat, bs: seq<byte>, i: nat, n: nat)
    requires off + |bs| <= |s| && i + n <= |s|
    ensures i + n <= off || i >= off + |bs| ==> Overwrite(s, off, bs)[i..i + n] == s[i..i + n]
    ensures off <= i && i + n <= off + |bs| ==> Overwrite(s, off, bs)[i..i + n] == bs[i - off..i - off + n]
  {
    var r := Overwrite(s, off, bs);
    var piece := r[i..i + n];
    if i + n <= off || i >= off + |bs| {
      var same := s[i..i + n];
      forall k | 0 <= k < n ensures piece[k] == same[k] {
        assert r[i + k] == s[i + k];
      }
      assert piece == same;
    }
    if off <= i && i + n <= off + |bs| {
      var a := i - off;
      var same := bs[a..a + n];
      forall k | 0 <= k < n ensures piece[k] == same[k] {
        assert r[i + k] == bs[a + k];
      }
      assert piece == same;
    }
  }

  lemma NextPiece(v: seq<byte>, off: nat, o: nat, n: nat, data: seq<byte>, piece: seq<byte>)
    requires off <= o && o + n <= |v| && data == v[off..o] && piece == v[o..o + n]
    ensures data + piece == v[off..o + n]
  {
  }

  lemma CopyPiece(dev: Device, block: int, off: nat, size: nat, buffer: seq<byte>, o: nat, n: nat)
    requires IsCopy(dev, block, off, size, buffer) && off <= o && o + n <= off + size
    ensures o + n <= |dev[block]| && buffer[o - off..o - off + n] == dev[block][o..o + n]
  {
    var b, i := dev[block], o - off;
    SliceOfSlice(b, off, off + size, i, i + n);
    SliceOfSlice(buffer, 0, size, i, i + n);
  }

  lemma CopyBounds(dev: Device, block: int, off: nat, size: nat, buffer: seq<byte>)
    requires IsCopy(dev, block, off, size, buffer)
    ensures 0 <= block < |dev| && size <= |buffer| && off + size <= |dev[block]|
  {
  }

  /** The block device behind its two caches. */
  class Store {
    const config: Config
    var dev: Device

    ghost predicate Valid()
      reads this
    {
      ValidConfig(config) && ValidDevice(config, dev)
    }

    /** A block as a reader sees it who looks into pcache first. */
    ghost function Seen(pcache: Cache?, b: nat): (s: seq<byte>)
      requires Valid() && b < |dev| && (pcache != null ==> pcache.Pending(config, dev))
      reads this, pcache, if pcache == null then {} else {pcache.buffer}
      ensures |s| == config.blockSize
    {
      if pcache == null then dev[b] else pcache.View(dev, b)
    }

    /** The read of the block device. */
    method ReadDevice(block: nat, off: nat, buffer: array<byte>, size: nat)
      requires Valid() && block < |dev| && off + size <= config.blockSize && size <= buffer.Length
      modifies buffer
      ensures IsCopy(dev, block, off, size, buffer[..])
    {
      forall i | 0 <= i < size {
        buffer[i] := dev[block][off + i];
      }
    }

    /** Load a part of a block into the read cache, from the read unit that holds off on. */
    method Load(rcache: Cache, hint: nat, block: nat, off: nat)
      requires Valid() && block < |dev| && off < config.blockSize && hint >= 1
      requires rcache.buffer.Length == config.cacheSize
      modifies rcache, rcache.buffer
      ensures rcache.Coherent(config, dev) && rcache.Covers(block, off)
    {
      LoadCovers(config, off, hint);
      hide AlignDown, AlignUp, ValidConfig;
      rcache.block := block;
      rcache.off := AlignDown(off, config.readSize);
      rcache.size := Min(Min(AlignUp(off + hint, config.readSize), config.blockSize) - rcache.off, config.cacheSize);
      ReadDevice(rcache.block, rcache.off, rcache.buffer, rcache.size);
    }

    /** lfs_bd_read; not ok is LFS_ERR_CORRUPT. */
    method Read(pcache: Cache?, rcache: Cache, hint: nat, block: nat, off: nat, size: nat)
      returns (ok: bool, data: seq<byte>)
      requires Valid() && block < |dev| && hint >= 1 && rcache.Coherent(config, dev)
      requires pcache != null ==> pcache.Pending(config, dev) && pcache != rcache && pcache.buffer != rcache.buffer
      modifies rcache, rcache.buffer
      ensures ok <==> off + size <= config.blockSize
      ensures ok ==> data == Seen(pcache, block)[off..off + size]
      ensures rcache.Coherent(config, dev)
    {
      hide IsCopy, Overwrite, AllOnes, ValidConfig;
      data := [];
      if off + size > config.blockSize {
        return false, data;
      }
      ghost var seen := Seen(pcache, block);
      var o, left := off, size;
      while left > 0
        invariant 0 <= left && o + left == off + size && off <= o && data == seen[off..o]
        invariant rcache.Coherent(config, dev) && seen == Seen(pcache, block)
        decreases left, if rcache.Covers(block, o) then 0 else 1
      {
        var piece := ReadSome(pcache, rcache, hint, block, o, left);
        NextPiece(seen, off, o, |piece|, data, piece);
        data, o, left := data + piece, o + |piece|, left - |piece|;
      }
      ok := true;
    }

    /** One round of the loop of lfs_bd_read: bytes out of a cache, or a load that makes the next round find some. */
    method ReadSome(pcache: Cache?, rcache: Cache, hint: nat, block: nat, o: nat, left: nat) returns (piece: seq<byte>)
      requires Valid() && block < |dev| && hint >= 1 && rcache.Coherent(config, dev)
      requires pcache != null ==> pcache.Pending(config, dev) && pcache != rcache && pcache.buffer != rcache.buffer
      requires left > 0 && o + left <= config.blockSize
      modifies rcache, rcache.buffer
      ensures |piece| <= left && piece == Seen(pcache, block)[o..o + |piece|]
      ensures rcache.Coherent(config, dev)
      ensures piece == [] ==> rcache.Covers(block, o) && !old(rcache.Covers(block, o))
    {
      hide IsCopy, Overwrite, AllOnes, ValidConfig;
      var diff := left;
      if pcache != null && block == pcache.block && o < pcache.off + pcache.size {
        if o >= pcache.off {
          diff := Min(diff, pcache.size - (o - pcache.off));
          piece := FromPending(pcache, block, o, diff);
          return;
        }
        diff := Min(diff, pcache.off - o);
      }
      if block == rcache.block && o < rcache.off + rcache.size {
        CopyBounds(dev, rcache.block, rcache.off, rcache.size, rcache.buffer[..]);
        if o >= rcache.off {
          diff := Min(diff, rcache.size - (o - rcache.off));
          piece := FromCopy(pcache, rcache, block, o, diff);
          return;
        }
        diff := Min(diff, rcache.off - o);
      }
      Load(rcache, hint, block, o);
      piece := [];
    }

    method FromPending(pcache: Cache, block: nat, o: nat, diff: nat) returns (piece: seq<byte>)
      requires Valid() && block < |dev| && pcache.Pending(config, dev) && block == pcache.block
      requires pcache.off <= o && o + diff <= pcache.off + pcache.size
      ensures |piece| == diff && o + diff <= config.blockSize && piece == Seen(pcache, block)[o..o + diff]
    {
      hide Overwrite, AllOnes, ValidConfig;
      piece := FromCache(pcache, o, diff);
      OverParts(dev[block], pcache.off, pcache.buffer[..pcache.size], o, diff);
    }

    method FromCopy(pcache: Cache?, rcache: Cache, block: nat, o: nat, diff: nat) returns (piece: seq<byte>)
      requires Valid() && block < |dev| && rcache.Coherent(config, dev) && block == rcache.block
      requires pcache != null ==> pcache.Pending(config, dev)
      requires pcache != null && pcache.block == block ==> o + diff <= pcache.off || o >= pcache.off + pcache.size
      requires rcache.size <= rcache.buffer.Length && rcache.off <= o && o + diff <= rcache.off + rcache.size
      ensures |piece| == diff && o + diff <= config.blockSize && piece == Seen(pcache, block)[o..o + diff]
    {
      hide IsCopy, Overwrite, AllOnes, ValidConfig;
      piece := FromCache(rcache, o, diff);
      CopyPiece(dev, block, rcache.off, rcache.size, rcache.buffer[..], o, diff);
      if pcache != null && pcache.block == block {
        OverParts(dev[block], pcache.off, pcache.buffer[..pcache.size], o, diff);
      }
    }

    /** The copy out of a cache. */
    method FromCache(c: Cache, o: nat, diff: nat) returns (piece: seq<byte>)
      requires c.off <= o && o + diff <= c.off + c.size && c.size <= c.buffer.Length
      ensures |piece| == diff && piece == c.buffer[..][o - c.off..o - c.off + diff]
      ensures piece == c.buffer[..c.size][o - c.off..o - c.off + diff]
    {
      var i := o - c.off;
      piece := c.buffer[i..i + diff];
    }

    /** The program of the block device. */
    method ProgDevice(block: nat, off: nat, buffer: array<byte>, size: nat)
      requires Valid() && block < |dev| && off + size <= config.blockSize && size <= buffer.Length
      modifies this`dev
      ensures Valid() && dev == old(dev)[block := Overwrite(old(dev)[block], off, buffer[..size])]
    {
      dev := dev[block := Overwrite(dev[block], off, buffer[..size])];
    }

    /** lfs_bd_cmp against a block that has no pending bytes. */
    method Compare(rcache: Cache, hint: nat, block: nat, off: nat, buffer: array<byte>, size: nat)
      returns (res: Comparison)
      requires Valid() && block < |dev| && hint >= size && size <= buffer.Length && rcache.Coherent(config, dev)
      requires buffer != rcache.buffer && off + size <= config.blockSize
      modifies rcache, rcache.buffer
      ensures rcache.Coherent(config, dev) && res == Order(dev[block][off..off + size], buffer[..size])
    {
      hide IsCopy, AllOnes, ValidConfig, Order;
      ghost var stored, given := dev[block][off..off + size], buffer[..size];
      for i := 0 to size
        invariant rcache.Coherent(config, dev) && buffer[..size] == given
        invariant Order(stored, given) == Order(stored[i..], given[i..])
      {
        var ok, dat := Read(null, rcache, hint - i, block, off + i, 1);
        OrderStep(stored[i..], given[i..]);
        assert dat[0] == stored[i] && buffer[i] == given[i];
        assert stored[i..][1..] == stored[i + 1..] && given[i..][1..] == given[i + 1..];
        if dat[0] != buffer[i] {
          return if dat[0] < buffer[i] then Less else Greater;
        }
      }
      NothingDiffers(stored[size..], given[size..]);
      res := Equal;
    }

    /** lfs_bd_flush: the pending bytes go to the device, and ones up to a multiple of the program size. */
    method Flush(pcache: Cache, rcache: Cache, validate: bool) returns (ok: bool)
      requires Valid() && pcache.Pending(config, dev) && rcache.buffer.Length == config.cacheSize
      requires pcache != rcache && pcache.buffer != rcache.buffer
      modifies this`dev, pcache, pcache.buffer, rcache, rcache.buffer
      ensures ok && Valid() && pcache.block == NO_BLOCK && pcache.Pending(config, dev)
      ensures dev == old(pcache.AfterFlush(config, dev))
      ensures if validate && old(pcache.block) != NO_BLOCK then rcache.Coherent(config, dev)
              else unchanged(rcache) && unchanged(rcache.buffer)
    {
      hide IsCopy, Overwrite, AllOnes, ValidConfig;
      if pcache.block != NO_BLOCK {
        FlushFits(config, pcache.off, pcache.size);
        var diff := AlignUp(pcache.size, config.progSize);
        ProgDevice(pcache.block, pcache.off, pcache.buffer, diff);
        if validate {
          rcache.Drop();
          WrittenIsStored(old(dev)[pcache.block], pcache.off, pcache.buffer[..diff]);
          SameOrder(pcache.buffer[..diff]);
          var res := Compare(rcache, diff, pcache.block, pcache.off, pcache.buffer, diff);
          if res != Equal {
            return false;
          }
        }
        pcache.Zero();
      }
      ok := true;
    }

    /** lfs_bd_sync. */
    method Sync(pcache: Cache, rcache: Cache, validate: bool) returns (ok: bool)
      requires Valid() && pcache.Pending(config, dev) && rcache.buffer.Length == config.cacheSize
      requires pcache != rcache && pcache.buffer != rcache.buffer
      modifies this`dev, pcache, pcache.buffer, rcache, rcache.buffer
      ensures ok && Valid() && pcache.block == NO_BLOCK && pcache.Pending(config, dev) && rcache.Coherent(config, dev)
      ensures dev == old(pcache.AfterFlush(config, dev))
    {
      hide IsCopy, AllOnes, ValidConfig, Overwrite;
      rcache.Drop();
      ok := Flush(pcache, rcache, validate);
    }

    /** The read cache is right, and stays so when a block is programmed: it holds another block, or is loaded anew. */
    ghost predicate Safe(rcache: Cache, validate: bool, block: int)
      reads this, rcache, rcache.buffer
    {
      rcache.Coherent(config, dev) && (validate || rcache.block != block)
    }

    /** One round of the loop of lfs_bd_prog: as many bytes as fit go into the cache, which is flushed when it is
        full. */
    method ProgSome(pcache: Cache, rcache: Cache, validate: bool, block: nat, o: nat,
                    data: seq<byte>) returns (diff: nat)
      requires Valid() && block < |dev| && data != [] && o + |data| <= config.blockSize
      requires pcache.Pending(config, dev) && pcache.block == block && pcache.off <= o < pcache.off + config.cacheSize
      requires pcache.size < config.cacheSize && rcache.buffer.Length == config.cacheSize
      requires pcache != rcache && pcache.buffer != rcache.buffer
      modifies this`dev, pcache, pcache.buffer, rcache, rcache.buffer
      ensures Valid() && pcache.Pending(config, dev) && 0 < diff <= |data| && OnlyIn(block, old(dev), dev)
      ensures |dev| == |old(dev)|
      ensures ViewAfter(old(pcache.View(dev, block)), pcache.View(dev, block), old(Min(o, pcache.off + pcache.size)), o,
                        data[..diff])
      ensures pcache.block == block ==>
        diff == |data| && pcache.size < config.cacheSize && pcache.off == old(pcache.off)
      ensures pcache.block == block ==> pcache.off + pcache.size == Max(old(pcache.off + pcache.size), o + diff)
      ensures pcache.block != block ==>
        pcache.block == NO_BLOCK && (o + diff) % config.progSize == 0 && old(pcache.off + pcache.size) <= o + diff
      ensures old(Safe(rcache, validate, block)) ==> Safe(rcache, validate, block)
    {
      hide IsCopy, Overwrite, AllOnes, ValidConfig, ViewAfter, OnlyIn;
      diff := Min(|data|, config.cacheSize - (o - pcache.off));
      Fill(pcache, block, o, data[..diff]);
      SameDevice(block, dev);
      if pcache.size == config.cacheSize {
        FlushFull(pcache, rcache, validate);
      }
    }

    /** The copy into the program cache. */
    method Fill(pcache: Cache, block: nat, o: nat, chunk: seq<byte>)
      requires Valid() && block < |dev| && chunk != [] && o + |chunk| <= config.blockSize
      requires pcache.Pending(config, dev) && pcache.block == block
      requires pcache.off <= o && o + |chunk| <= pcache.off + config.cacheSize
      modifies pcache`size, pcache.buffer
      ensures pcache.Pending(config, dev) && pcache.off + pcache.size == Max(old(pcache.off + pcache.size), o + |chunk|)
      ensures ViewAfter(old(pcache.View(dev, block)), pcache.View(dev, block), old(Min(o, pcache.off + pcache.size)), o,
                        chunk)
    {
      hide IsCopy, Overwrite, AllOnes, ValidConfig, ViewAfter;
      ghost var size, buffer := pcache.size, pcache.buffer[..];
      Put(pcache.buffer, o - pcache.off, chunk);
      ChunkView(dev[block], pcache.off, size, buffer, o, chunk);
      pcache.size := Max(pcache.size, o + |chunk| - pcache.off);
    }

    /** Flushing a full cache adds no padding. */
    method FlushFull(pcache: Cache, rcache: Cache, validate: bool)
      requires Valid() && pcache.Pending(config, dev) && pcache.block != NO_BLOCK && pcache.size == config.cacheSize
      requires rcache.buffer.Length == config.cacheSize && pcache != rcache && pcache.buffer != rcache.buffer
      modifies this`dev, pcache, pcache.buffer, rcache, rcache.buffer
      ensures Valid() && pcache.Pending(config, dev) && pcache.block == NO_BLOCK
      ensures dev == old(dev)[old(pcache.block) := old(pcache.View(dev, pcache.block))]
      ensures OnlyIn(old(pcache.block), old(dev), dev) && old(pcache.off + pcache.size) % config.progSize == 0
      ensures old(Safe(rcache, validate, pcache.block)) ==> Safe(rcache, validate, old(pcache.block))
    {
      hide Overwrite, AllOnes, ValidConfig;
      CacheHolds(config);
      AlignMultiple(config.cacheSize, config.progSize);
      ModAdd(pcache.off, config.cacheSize, config.progSize);
      var ok := Flush(pcache, rcache, validate);
    }

    /** A program cache that can take bytes at o; the block will change from position from on. */
    ghost predicate Ready(pcache: Cache, block: nat, o: nat, from: nat)
      reads this, pcache
    {
      && config.progSize > 0
      && if pcache.block == block
         then
           && pcache.off <= o < pcache.off + config.cacheSize && pcache.size < config.cacheSize
           && from == Min(o, pcache.off + pcache.size)
         else pcache.block == NO_BLOCK && from == AlignDown(o, config.progSize)
    }

    /** What is pending ends at pos; last is where it ended before. */
    ghost predicate EndsAt(pcache: Cache, block: nat, pos: nat, last: nat)
      reads this, pcache
    {
      && config.progSize > 0
      && if pcache.block == block
         then pcache.off <= pos && pcache.off + pcache.size == Max(last, pos) && pcache.size < config.cacheSize
         else pcache.block == NO_BLOCK && pos % config.progSize == 0 && last <= pos
    }

    /** Inside the loop of lfs_bd_prog: bytes up to o have been taken, from position off on. */
    ghost predicate Taking(pcache: Cache, block: nat, off: nat, o: nat, from: nat, last: nat)
      reads this, pcache
    {
      && off <= o && Ready(pcache, block, o, if o == off then from else o)
      && if pcache.block == block then last <= pcache.off + pcache.size <= Max(last, o)
         else last <= if o == off then from else o
    }

    /** lfs_bd_prog; last is where the bytes pending for the block end, if there are any. */
    method Prog(pcache: Cache, rcache: Cache, validate: bool, block: nat, off: nat, data: seq<byte>,
                ghost from: nat, ghost last: nat)
      requires Valid() && block < |dev| && off + |data| <= config.blockSize && data != []
      requires pcache.Pending(config, dev) && Ready(pcache, block, off, from)
      requires last == if pcache.block == block then pcache.off + pcache.size else 0
      requires rcache.buffer.Length == config.cacheSize && pcache != rcache && pcache.buffer != rcache.buffer
      modifies this`dev, pcache, pcache.buffer, rcache, rcache.buffer
      ensures Valid() && pcache.Pending(config, dev) && OnlyIn(block, old(dev), dev) && |dev| == |old(dev)|
      ensures ViewAfter(old(pcache.View(dev, block)), pcache.View(dev, block), from, off, data)
      ensures EndsAt(pcache, block, off + |data|, last)
      ensures old(Safe(rcache, validate, block)) ==> Safe(rcache, validate, block)
    {
      hide IsCopy, Overwrite, AllOnes, ValidConfig, ViewAfter, OnlyIn, AlignDown, Ready, Taking, EndsAt;
      ghost var dev0, view0 := dev, pcache.View(dev, block);
      var o, end := off, off + |data|;
      SameDevice(block, dev);
      StartTaking(pcache, block, off, from, last);
      while o < end
        invariant off <= o <= end && Valid() && pcache.Pending(config, dev) && OnlyIn(block, dev0, dev)
        invariant |dev| == |dev0|
        invariant Sofar(view0, pcache.View(dev, block), from, off, data[..o - off])
        invariant if o < end then Taking(pcache, block, off, o, from, last) else EndsAt(pcache, block, o, last)
        invariant old(Safe(rcache, validate, block)) ==> Safe(rcache, validate, block)
        decreases end - o, if pcache.block == block then 0 else 1
      {
        ghost var dev1 := dev;
        o := ProgRound(pcache, rcache, validate, block, off, o, data, from, last, view0);
        OnlyTwice(block, dev0, dev1, dev);
      }
      assert data[..|data|] == data;
    }

    /** One round of the loop of lfs_bd_prog. */
    method ProgRound(pcache: Cache, rcache: Cache, validate: bool, block: nat, off: nat, o: nat, data: seq<byte>,
                     ghost from: nat, ghost last: nat, ghost view0: seq<byte>)
      returns (o': nat)
      requires Valid() && block < |dev| && off <= o < off + |data| <= config.blockSize
      requires pcache.Pending(config, dev) && Taking(pcache, block, off, o, from, last)
      requires Sofar(view0, pcache.View(dev, block), from, off, data[..o - off])
      requires rcache.buffer.Length == config.cacheSize && pcache != rcache && pcache.buffer != rcache.buffer
      modifies this`dev, pcache, pcache.buffer, rcache, rcache.buffer
      ensures Valid() && pcache.Pending(config, dev) && OnlyIn(block, old(dev), dev) && o <= o' <= off + |data|
      ensures Sofar(view0, pcache.View(dev, block), from, off, data[..o' - off])
      ensures if o' < off + |data| then Taking(pcache, block, off, o', from, last) else EndsAt(pcache, block, o', last)
      ensures o' == o ==> pcache.block == block && old(pcache.block) != block
      ensures old(Safe(rcache, validate, block)) ==> Safe(rcache, validate, block)
    {
      hide IsCopy, Overwrite, AllOnes, ValidConfig, ViewAfter, OnlyIn, AlignDown, Sofar;
      if block == pcache.block && o >= pcache.off && o < pcache.off + config.cacheSize {
        o' := TakeRound(pcache, rcache, validate, block, off, o, data, from, last, view0);
      } else {
        SameDevice(block, dev);
        Prepare(pcache, block, o);
        o' := o;
      }
    }

    method TakeRound(pcache: Cache, rcache: Cache, validate: bool, block: nat, off: nat, o: nat, data: seq<byte>,
                     ghost from: nat, ghost last: nat, ghost view0: seq<byte>)
      returns (o': nat)
      requires Valid() && block < |dev| && off <= o < off + |data| <= config.blockSize
      requires pcache.Pending(config, dev) && Taking(pcache, block, off, o, from, last) && pcache.block == block
      requires Sofar(view0, pcache.View(dev, block), from, off, data[..o - off])
      requires rcache.buffer.Length == config.cacheSize && pcache != rcache && pcache.buffer != rcache.buffer
      modifies this`dev, pcache, pcache.buffer, rcache, rcache.buffer
      ensures Valid() && pcache.Pending(config, dev) && OnlyIn(block, old(dev), dev) && |dev| == |old(dev)|
      ensures o < o' <= off + |data|
      ensures Sofar(view0, pcache.View(dev, block), from, off, data[..o' - off])
      ensures if o' < off + |data| then Taking(pcache, block, off, o', from, last) else EndsAt(pcache, block, o', last)
      ensures old(Safe(rcache, validate, block)) ==> Safe(rcache, validate, block)
    {
      hide IsCopy, Overwrite, AllOnes, ValidConfig, ViewAfter, OnlyIn, AlignDown, Sofar, Ready, Taking, EndsAt;
      ghost var view1, taken, rest := pcache.View(dev, block), data[..o - off], data[o - off..];
      TakingMeans(pcache, block, off, o, from, last);
      ghost var until := pcache.off + pcache.size;
      var diff := ProgSome(pcache, rcache, validate, block, o, data[o - off..]);
      o' := o + diff;
      AfterRound(pcache, block, off, o, o', off + |data|, until, from, last);
      SofarStep(view0, view1, pcache.View(dev, block), from, off, taken, o, rest[..diff]);
      assert taken + rest[..diff] == data[..o' - off];
    }

    lemma TakingMeans(pcache: Cache, block: nat, off: nat, o: nat, from: nat, last: nat)
      requires Taking(pcache, block, off, o, from, last) && pcache.block == block
      ensures pcache.off <= o < pcache.off + config.cacheSize && pcache.size < config.cacheSize && config.progSize > 0
      ensures (if o == off then from else o) == Min(o, pcache.off + pcache.size)
      ensures last <= pcache.off + pcache.size <= Max(last, o)
    {
    }

    lemma AfterRound(pcache: Cache, block: nat, off: nat, o: nat, o': nat, end: nat, until: nat, from: nat, last: nat)
      requires off <= o < o' <= end && config.progSize > 0 && last <= until <= Max(last, o)
      requires pcache.block == block ==> o' == end && pcache.off <= o && pcache.size < config.cacheSize
      requires pcache.block == block ==> pcache.off + pcache.size == Max(until, o')
      requires pcache.block != block ==> pcache.block == NO_BLOCK && o' % config.progSize == 0 && until <= o'
      ensures if o' < end then Taking(pcache, block, off, o', from, last) else EndsAt(pcache, block, o', last)
    {
      hide AlignDown;
      AlignedDown(o', config.progSize);
    }

    lemma StartTaking(pcache: Cache, block: nat, off: nat, from: nat, last: nat)
      requires Ready(pcache, block, off, from) && last == if pcache.block == block then pcache.off + pcache.size else 0
      ensures Taking(pcache, block, off, off, from, last)
    {
      hide AlignDown;
    }

    /** An empty program cache is set up for bytes at o. */
    method Prepare(pcache: Cache, block: nat, o: nat)
      requires Valid() && block < |dev| && pcache.Pending(config, dev) && pcache.block == NO_BLOCK
      requires o <= config.blockSize
      modifies pcache`block, pcache`off, pcache`size
      ensures pcache.Pending(config, dev) && pcache.View(dev, block) == dev[block]
      ensures Ready(pcache, block, o, AlignDown(o, config.progSize)) && pcache.block == block
      ensures pcache.off + pcache.size <= o
    {
      hide AllOnes;
      CacheHolds(config);
      AlignBounds(o, config.progSize);
      pcache.block := block;
      pcache.off := AlignDown(o, config.progSize);
      pcache.size := 0;
      hide AlignDown, ValidConfig;
    }

    /** Any run of programs that follow one another, from a multiple of the program size on, and a sync: the device
        holds their concatenation, padded with ones to whole program units, and the block is otherwise as it was. */
    method ProgramAndSync(pcache: Cache, rcache: Cache, validate: bool, block: nat, off: nat, chunks: seq<seq<byte>>)
      returns (ok: bool)
      requires Valid() && block < |dev| && pcache.Pending(config, dev) && pcache.block == NO_BLOCK
      requires off % config.progSize == 0 && off + |Concat(chunks)| <= config.blockSize
      requires forall i :: 0 <= i < |chunks| ==> chunks[i] != []
      requires rcache.buffer.Length == config.cacheSize && pcache != rcache && pcache.buffer != rcache.buffer
      modifies this`dev, pcache, pcache.buffer, rcache, rcache.buffer
      ensures ok && Valid() && pcache.block == NO_BLOCK && pcache.Pending(config, dev) && rcache.Coherent(config, dev)
      ensures OnlyIn(block, old(dev), dev) && |dev| == |old(dev)|
      ensures HoldsPadded(config, old(dev)[block], dev[block], off, Concat(chunks))
    {
      hide IsCopy, Overwrite, AllOnes, ValidConfig, ViewAfter, OnlyIn, AlignDown, AlignUp, Sofar, Ready, EndsAt, Concat;
      ghost var dev0 := dev;
      var o := off;
      CacheHolds(config);
      SameDevice(block, dev);
      EndsHere(pcache, block, off, dev[block]);
      for i := 0 to |chunks|
        invariant Valid() && pcache.Pending(config, dev) && OnlyIn(block, dev0, dev) && |dev| == |dev0|
        invariant Sofar(dev0[block], pcache.View(dev, block), off, off, Concat(chunks[..i]))
        invariant o == off + |Concat(chunks[..i])| && EndsAt(pcache, block, o, off)
      {
        ghost var dev1, view1, taken := dev, pcache.View(dev, block), Concat(chunks[..i]);
        ghost var last := if pcache.block == block then pcache.off + pcache.size else 0;
        ConcatSnoc(chunks, i);
        ReadyAgain(pcache, block, o, off, last);
        Prog(pcache, rcache, validate, block, o, chunks[i], o, last);
        SameEnd(pcache, block, o, o + |chunks[i]|, last, off);
        SofarStep(dev0[block], view1, pcache.View(dev, block), off, off, taken, o, chunks[i]);
        OnlyTwice(block, dev0, dev1, dev);
        o := o + |chunks[i]|;
      }
      assert chunks[..|chunks|] == chunks;
      ghost var dev1 := dev;
      SyncMeans(pcache, dev0[block], block, off, Concat(chunks));
      ok := Sync(pcache, rcache, validate);
      OnlyTwice(block, dev0, dev1, dev);
    }

    lemma EndsHere(pcache: Cache, block: nat, off: nat, stored: seq<byte>)
      requires pcache.block == NO_BLOCK && config.progSize > 0 && off % config.progSize == 0
      ensures EndsAt(pcache, block, off, off) && Concat([]) == [] && Sofar(stored, stored, off, off, [])
    {
    }

    lemma ReadyAgain(pcache: Cache, block: nat, o: nat, off: nat, last: nat)
      requires EndsAt(pcache, block, o, off) && off <= o
      requires last == if pcache.block == block then pcache.off + pcache.size else 0
      ensures Ready(pcache, block, o, o) && last <= o
    {
      hide AlignDown;
      AlignedDown(o, config.progSize);
    }

    lemma SameEnd(pcache: Cache, block: nat, o: nat, pos: nat, last: nat, off: nat)
      requires EndsAt(pcache, block, pos, last) && last <= o <= pos && off <= o
      ensures EndsAt(pcache, block, pos, off)
    {
    }

    /** What a sync makes of a run of programs. */
    lemma SyncMeans(pcache: Cache, stored: seq<byte>, block: nat, off: nat, data: seq<byte>)
      requires Valid() && block < |dev| && pcache.Pending(config, dev) && |stored| == config.blockSize
      requires off % config.progSize == 0 && off + |data| <= config.blockSize
      requires EndsAt(pcache, block, off + |data|, off) && Sofar(stored, pcache.View(dev, block), off, off, data)
      ensures HoldsPadded(config, stored, pcache.AfterFlush(config, dev)[block], off, data)
      ensures OnlyIn(block, dev, pcache.AfterFlush(config, dev))
    {
      hide *;
      if pcache.block == block {
        SyncMeansFlush(pcache, stored, block, off, data);
      } else {
        SyncMeansNothing(pcache, stored, block, off, data);
      }
    }

    lemma SyncMeansFlush(pcache: Cache, stored: seq<byte>, block: nat, off: nat, data: seq<byte>)
      requires Valid() && block < |dev| && pcache.Pending(config, dev) && |stored| == config.blockSize
      requires off % config.progSize == 0 && off + |data| <= config.blockSize && pcache.block == block
      requires EndsAt(pcache, block, off + |data|, off) && Sofar(stored, pcache.View(dev, block), off, off, data)
      ensures HoldsPadded(config, stored, pcache.AfterFlush(config, dev)[block], off, data)
      ensures OnlyIn(block, dev, pcache.AfterFlush(config, dev))
    {
      hide ValidConfig, AllOnes, AlignUp, Sofar, Overwrite, HoldsPadded;
      CacheHolds(config);
      AlignShift(|data|, off, config.progSize);
      FlushFits(config, pcache.off, pcache.size);
      AlignShift(pcache.size, pcache.off, config.progSize);
      SyncedBlock(config, stored, dev[block], pcache.off, pcache.buffer[..], pcache.size, off, data);
    }

    lemma SyncMeansNothing(pcache: Cache, stored: seq<byte>, block: nat, off: nat, data: seq<byte>)
      requires Valid() && block < |dev| && pcache.Pending(config, dev) && |stored| == config.blockSize
      requires off % config.progSize == 0 && off + |data| <= config.blockSize && pcache.block != block
      requires EndsAt(pcache, block, off + |data|, off) && Sofar(stored, pcache.View(dev, block), off, off, data)
      ensures HoldsPadded(config, stored, pcache.AfterFlush(config, dev)[block], off, data)
      ensures OnlyIn(block, dev, pcache.AfterFlush(config, dev))
    {
      hide ValidConfig, AllOnes, AlignUp, Sofar, Overwrite, HoldsPadded;
      CacheHolds(config);
      AlignShift(|data|, off, config.progSize);
      AlignMultiple(off + |data|, config.progSize);
      PaddedTwice(config, stored, dev[block], off, data);
    }

    method Put(buffer: array<byte>, k: nat, chunk: seq<byte>)
      requires k + |chunk| <= buffer.Length
      modifies buffer
      ensures buffer[..] == Overwrite(old(buffer[..]), k, chunk)
    {
      forall i | 0 <= i < |chunk| {
        buffer[k + i] := chunk[i];
      }
    }
  }

  /** dev' differs from dev in one block only. */
  ghost predicate OnlyIn(block: int, dev: Device, dev': Device) {
    |dev'| == |dev| && forall b :: 0 <= b < |dev| && b != block ==> dev'[b] == dev[b]
  }

  lemma SameDevice(block: int, dev: Device)
    ensures OnlyIn(block, dev, dev)
  {
  }

  /** v' is v with chunk at o, and ones between from and o. */
  ghost predicate ViewAfter(v: seq<byte>, v': seq<byte>, from: nat, o: nat, chunk: seq<byte>) {
    from <= o && o + |chunk| <= |v| && v' == Overwrite(v, from, Ones(o - from) + chunk)
  }

  /** What the loop of lfs_bd_prog has made of a view so far. */
  ghost predicate Sofar(v: seq<byte>, v': seq<byte>, from: nat, off: nat, taken: seq<byte>) {
    if taken == [] then v' == v else ViewAfter(v, v', from, off, taken)
  }

  lemma SofarStep(v0: seq<byte>, v1: seq<byte>, v2: seq<byte>, from: nat, off: nat, taken: seq<byte>, o: nat,
                  chunk: seq<byte>)
    requires Sofar(v0, v1, from, off, taken) && o == off + |taken| && chunk != []
    requires ViewAfter(v1, v2, if taken == [] then from else o, o, chunk)
    ensures Sofar(v0, v2, from, off, taken + chunk)
  {
    hide ViewAfter;
    if taken == [] {
      assert taken + chunk == chunk;
    } else {
      ViewTwice(v0, v1, v2, from, off, taken, chunk);
    }
  }

  lemma AlignedDown(o: nat, n: nat)
    requires n > 0
    ensures o % n == 0 ==> AlignDown(o, n) == o
  {
  }

  lemma OnlyTwice(block: int, a: Device, b: Device, c: Device)
    requires OnlyIn(block, a, b) && OnlyIn(block, b, c)
    ensures OnlyIn(block, a, c) && |a| == |c|
  {
  }

  function Concat(chunks: seq<seq<byte>>): seq<byte> {
    if chunks == [] then [] else Concat(chunks[..|chunks| - 1]) + chunks[|chunks| - 1]
  }

  lemma ConcatSnoc(chunks: seq<seq<byte>>, i: nat)
    requires i < |chunks|
    ensures Concat(chunks[..i + 1]) == Concat(chunks[..i]) + chunks[i]
    ensures |Concat(chunks[..i + 1])| <= |Concat(chunks)|
    decreases |chunks| - i
  {
    assert chunks[..i + 1][..i] == chunks[..i];
    if i + 1 == |chunks| {
      assert chunks[..i + 1] == chunks;
    } else {
      ConcatSnoc(chunks, i + 1);
    }
  }

  /** s' is s with data at off, padded with ones to whole program units. */
  ghost predicate HoldsPadded(c: Config, s: seq<byte>, s': seq<byte>, off: nat, data: seq<byte>) {
    && c.progSize > 0
    && var up := AlignUp(|data|, c.progSize);
      |data| <= up && off + up <= |s| && s' == Overwrite(s, off, data + Ones(up - |data|))
  }

  lemma FlushPads(stored: seq<byte>, off: nat, buffer: seq<byte>, size: nat, up: nat)
    requires size <= up <= |buffer| && off + up <= |stored| && AllOnes(buffer[size..])
    ensures Overwrite(stored, off, buffer[..up])
      == Overwrite(Overwrite(stored, off, buffer[..size]), off + size, Ones(up - size))
  {
    var head, ones := buffer[..size], Ones(up - size);
    var whole := head + ones;
    assert buffer[..up] == whole by {
      forall i | 0 <= i < up ensures buffer[i] == whole[i] {
        if i >= size {
          assert buffer[size..][i - size] == 0xff && ones[i - size] == 0xff;
        }
      }
    }
    hide Overwrite, AllOnes;
    OverTwice(stored, off, head, ones);
  }

  lemma SyncedBlock(c: Config, stored: seq<byte>, held: seq<byte>, from: nat, buffer: seq<byte>, size: nat, off: nat,
                    data: seq<byte>)
    requires c.progSize > 0 && size <= AlignUp(size, c.progSize) <= |buffer|
    requires from + AlignUp(size, c.progSize) <= |held| == |stored| && AllOnes(buffer[size..])
    requires Sofar(stored, Overwrite(held, from, buffer[..size]), off, off, data)
    requires from + size == off + |data| && from + AlignUp(size, c.progSize) == off + AlignUp(|data|, c.progSize)
    ensures HoldsPadded(c, stored, Overwrite(held, from, buffer[..AlignUp(size, c.progSize)]), off, data)
  {
    hide AlignUp, Sofar, HoldsPadded, AllOnes, Overwrite;
    FlushPads(held, from, buffer, size, AlignUp(size, c.progSize));
    PaddedTwice(c, stored, Overwrite(held, from, buffer[..size]), off, data);
  }

  lemma PaddedTwice(c: Config, stored: seq<byte>, view: seq<byte>, off: nat, data: seq<byte>)
    requires c.progSize > 0 && Sofar(stored, view, off, off, data) && |data| <= AlignUp(|data|, c.progSize)
    requires |view| == |stored| && off + AlignUp(|data|, c.progSize) <= |stored|
    ensures HoldsPadded(c, stored, Overwrite(view, off + |data|, Ones(AlignUp(|data|, c.progSize) - |data|)), off, data)
    ensures AlignUp(|data|, c.progSize) == |data| ==> HoldsPadded(c, stored, view, off, data)
  {
    hide AlignUp;
    var pad := Ones(AlignUp(|data|, c.progSize) - |data|);
    assert Ones(0) + data == data;
    OverNothing(stored, off);
    OverTwice(stored, off, data, pad);
    if pad == [] {
      assert data + pad == data;
    }
  }

  lemma OverNothing(s: seq<byte>, off: nat)
    requires off <= |s|
    ensures Overwrite(s, off, []) == s
  {
    assert s[..off] + [] + s[off..] == s;
  }

  lemma ViewTwice(v0: seq<byte>, v1: seq<byte>, v2: seq<byte>, from: nat, off: nat, a: seq<byte>, b: seq<byte>)
    requires ViewAfter(v0, v1, from, off, a) && ViewAfter(v1, v2, off + |a|, off + |a|, b)
    ensures ViewAfter(v0, v2, from, off, a + b)
  {
    hide Overwrite;
    assert Ones(0) + b == b;
    assert Ones(off - from) + (a + b) == Ones(off - from) + a + b;
    OverTwice(v0, from, Ones(off - from) + a, b);
  }

  lemma OverTwice(s: seq<byte>, off: nat, a: seq<byte>, b: seq<byte>)
    requires off + |a| + |b| <= |s|
    ensures Overwrite(Overwrite(s, off, a), off + |a|, b) == Overwrite(s, off, a + b)
  {
    hide Overwrite;
    var l, r := Overwrite(Overwrite(s, off, a), off + |a|, b), Overwrite(s, off, a + b);
    forall i | 0 <= i < |s| ensures l[i] == r[i] {
      OverAt(Overwrite(s, off, a), off + |a|, b, i);
      OverAt(s, off, a, i);
      OverAt(s, off, a + b, i);
      hide Overwrite;
    }
    assert l == r;
  }

  lemma ChunkView(stored: seq<byte>, off: nat, size: nat, buffer: seq<byte>, o: nat, chunk: seq<byte>)
    requires size <= |buffer| && AllOnes(buffer[size..]) && off <= o && o - off + |chunk| <= |buffer|
    requires off + size <= |stored| && o + |chunk| <= |stored|
    ensures var buffer', size' := Overwrite(buffer, o - off, chunk), Max(size, o - off + |chunk|);
      && AllOnes(buffer'[size'..])
      && ViewAfter(Overwrite(stored, off, buffer[..size]), Overwrite(stored, off, buffer'[..size']), Min(o, off + size),
                   o, chunk)
  {
    hide Overwrite;
    var at := o - off;
    var buffer', size', from := Overwrite(buffer, at, chunk), Max(size, at + |chunk|), Min(o, off + size);
    forall i | size' <= i < |buffer| ensures buffer'[i] == 0xff {
      OverAt(buffer, at, chunk, i);
      assert buffer[size..][i - size] == 0xff;
    }
    var gap := Ones(o - from);
    var l := Overwrite(stored, off, buffer'[..size']);
    var r := Overwrite(Overwrite(stored, off, buffer[..size]), from, gap + chunk);
    forall i | 0 <= i < |stored| ensures l[i] == r[i] {
      OverAt(stored, off, buffer'[..size'], i);
      OverAt(Overwrite(stored, off, buffer[..size]), from, gap + chunk, i);
      OverAt(stored, off, buffer[..size], i);
      if off <= i < off + size' {
        OverAt(buffer, at, chunk, i - off);
        if from <= i < o {
          assert buffer[size..][i - off - size] == 0xff && gap[i - from] == 0xff;
        }
      }
      hide Overwrite;
    }
    assert l == r;
  }

  datatype Comparison = Equal | Less | Greater

  /** The first differing byte decides. */
  ghost function Order(a: seq<byte>, b: seq<byte>): Comparison
    requires |a| == |b|
  {
    if a == [] then Equal else if a[0] == b[0] then Order(a[1..], b[1..]) else if a[0] < b[0] then Less else Greater
  }

  lemma OrderStep(a: seq<byte>, b: seq<byte>)
    requires |a| == |b| && a != []
    ensures Order(a, b) == if a[0] == b[0] then Order(a[1..], b[1..]) else if a[0] < b[0] then Less else Greater
  {
  }

  lemma NothingDiffers(a: seq<byte>, b: seq<byte>)
    requires a == [] && b == []
    ensures Order(a, b) == Equal
  {
  }

  lemma {:induction false} SameOrder(a: seq<byte>)
    ensures Order(a, a) == Equal
  {
    if a != [] {
      SameOrder(a[1..]);
    }
  }

  lemma WrittenIsStored(s: seq<byte>, off: nat, bs: seq<byte>)
    requires off + |bs| <= |s|
    ensures Overwrite(s, off, bs)[off..off + |bs|] == bs
  {
    hide Overwrite;
    OverParts(s, off, bs, off, |bs|);
    assert bs[0..|bs|] == bs;
  }
}
