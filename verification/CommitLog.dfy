/** Writing a commit into a metadata block: lfs_dir_commitattr and lfs_dir_commitcrc, against the scan that reads it. */
module CommitLog {
  import opened Bits
  import opened Words
  import opened MetaLog
  import opened TagWord
  import opened MetaBlock
  import opened Crc
  import opened Fetch

  /** d' is d with bs programmed at off. */
  ghost predicate Programs(d: seq<byte>, d': seq<byte>, off: nat, bs: seq<byte>) {
    off + |bs| <= |d| && d' == Overwrite(d, off, bs)
  }

  /** A checksum carries four bytes and a tail eight. */
  ghost predicate Full(word: word) { (IsCrc(word) ==> DSize(word) >= 8) && (IsTail(word) ==> DSize(word) >= 12) }

  ghost predicate Whole(raws: seq<Raw>) {
    forall i :: 0 <= i < |raws| ==> Full(raws[i].word)
  }

  lemma {:induction false} FullPasses(d: seq<byte>, raws: seq<Raw>, i: nat)
    requires Scanned(d, raws) && Whole(raws) && i < |raws| && IsCrc(raws[i].word)
    ensures End(raws[..i]) + 8 <= End(raws)
  {
    hide IsCrc, DSize, End, Scanned;
    var upTo := raws[..i + 1];
    ScannedSized(d, raws);
    PrefixSized(raws, i + 1);
    assert Full(raws[i].word);
    EndStep(upTo);
    EndMonotonic(raws, i + 1);
    assert upTo[..|upTo| - 1] == raws[..i];
  }

  lemma PrefixSized(raws: seq<Raw>, n: nat)
    requires Sized(raws) && n <= |raws|
    ensures Sized(raws[..n])
  {
    hide DSize;
  }

  lemma SamePasses(d: seq<byte>, d': seq<byte>, p: nat, end: nat, crc: word)
    requires Passes(d, p, crc) && p + 8 <= end <= |d| && end <= |d'| && d'[..end] == d[..end]
    ensures Passes(d', p, crc)
  {
    hide CrcOf, UnLe;
    assert d[p..p + 4] == d[..end][p..p + 4] && d'[p..p + 4] == d'[..end][p..p + 4];
    assert d[p + 4..p + 8] == d[..end][p + 4..p + 8] && d'[p + 4..p + 8] == d'[..end][p + 4..p + 8];
  }

  lemma SameHolds(d: seq<byte>, d': seq<byte>, raws: seq<Raw>)
    requires Holds(d, raws, End(raws)) && End(raws) <= |d'| && d'[..End(raws)] == d[..End(raws)]
    ensures Holds(d', raws, End(raws)) && d'[..4] == d[..4]
  {
    hide Sized, Encode;
    var end := End(raws);
    hide End;
    assert d[4..end] == d[..end][4..] && d'[4..end] == d'[..end][4..];
    assert d[..4] == d[..end][..4] && d'[..4] == d'[..end][..4];
  }

  /** What follows a log in its block does not matter to the log. */
  lemma FrameScanned(d: seq<byte>, d': seq<byte>, raws: seq<Raw>)
    requires Scanned(d, raws) && Whole(raws) && End(raws) <= |d'| && d'[..End(raws)] == d[..End(raws)]
    ensures Scanned(d', raws)
  {
    hide Holds, IsCrc, Passes, Register, End, NextWord, Body, Whole;
    ScannedSized(d, raws);
    SameHolds(d, d', raws);
    forall i | 0 <= i < |raws| && IsCrc(raws[i].word)
      ensures Passes(d', End(raws[..i]), Register(d'[..4], raws[..i]))
    {
      FullPasses(d, raws, i);
      hide Whole, Holds;
      assert Passes(d, End(raws[..i]), Register(d[..4], raws[..i]));
      hide Scanned, IsCrc;
      SamePasses(d, d', End(raws[..i]), End(raws), Register(d[..4], raws[..i]));
    }
  }

  lemma Restored(tag: word, prev: word)
    ensures Xor(UnBe(Be(Xor(tag, prev))), prev) == tag
  {
    hide Xor, Be, UnBe;
    BeRoundTrip(Xor(tag, prev));
    XorTwice(tag, prev);
  }

  /** An entry programmed behind a log becomes part of it. */
  lemma EntryWritten(d: seq<byte>, d': seq<byte>, raws: seq<Raw>, tag: word, data: seq<byte>)
    requires Scanned(d, raws) && Whole(raws) && IsValid(tag) && |data| == DSize(tag) - 4
    requires End(raws) + DSize(tag) <= |d'| && End(raws) <= |d| && d'[..End(raws)] == d[..End(raws)]
    requires d'[End(raws)..End(raws) + 4] == Be(Xor(tag, LastWord(raws)))
    requires d'[End(raws) + 4..End(raws) + DSize(tag)] == data
    requires Full(tag) && (IsCrc(tag) ==> Passes(d', End(raws), Register(d'[..4], raws)))
    ensures Scanned(d', raws + [Raw(NextWord(tag), data)]) && Whole(raws + [Raw(NextWord(tag), data)])
    ensures End(raws + [Raw(NextWord(tag), data)]) == End(raws) + DSize(tag)
  {
    hide *;
    FrameScanned(d, d', raws);
    WrittenFollows(d', raws, tag);
    NextRawParts(d', End(raws), tag);
    ExtendScan(d', raws, tag);
    WordKept(tag);
    FullSnoc(raws, Raw(NextWord(tag), data));
    assert NextRaw(d', End(raws), tag) == Raw(NextWord(tag), data);
  }

  lemma WordKept(tag: word)
    requires IsValid(tag)
    ensures DSize(NextWord(tag)) == DSize(tag) && IsCrc(NextWord(tag)) == IsCrc(tag)
    ensures IdOf(NextWord(tag)) == IdOf(tag) && Full(NextWord(tag)) == Full(tag)
  {
    hide *;
    NextWordBody(tag);
    SameWords(NextWord(tag), tag);
  }

  lemma SameWords(v: word, w: word)
    requires Body(v) == Body(w)
    ensures IdOf(v) == IdOf(w) && Full(v) == Full(w)
  {
    hide Body, Unpack, TypeOf, DSize, IdOf;
    SameFields(v, w);
    UnpackFields(v);
    UnpackFields(w);
  }

  lemma ChecksumIsFull(w: word)
    requires IsCrc(w) && DSize(w) >= 8
    ensures Full(w) && !IsTail(w)
  {
    hide TypeOf, DSize;
  }

  lemma WrittenFollows(d: seq<byte>, raws: seq<Raw>, tag: word)
    requires Scanned(d, raws) && IsValid(tag) && End(raws) + 4 <= |d| && End(raws) + DSize(tag) <= |d|
    requires d[End(raws)..End(raws) + 4] == Be(Xor(tag, LastWord(raws)))
    requires IsCrc(tag) ==> Passes(d, End(raws), Register(d[..4], raws))
    ensures Follows(d, raws, tag)
  {
    hide *;
    Restored(tag, LastWord(raws));
    TagAfterIs(d, raws, tag);
    FollowsIs(d, raws, tag);
  }

  lemma FullSnoc(raws: seq<Raw>, r: Raw)
    requires Whole(raws) && Full(r.word)
    ensures Whole(raws + [r])
  {
    hide Full;
  }

  // ----- checksum tags

  function Size10(n: nat): (b: bv10)
    requires n < 0x400
    ensures b as nat == n
  {
    if n == 0 then 0
    else
      var b := Size10(n - 1);
      FieldOrder(b, 0x3ff);
      NextField(b);
      b + 1
  }

  /** LFS_MKTAG(LFS_TYPE_CRC + reset, 0x3ff, size). */
  function ChecksumTag(reset: bool, size: bv10): word {
    0x500f_fc00 | (if reset then 0x0010_0000 else 0) | (size as word)
  }

  /** bool reset = ~word >> 31, of the word read behind the commit. */
  predicate Reset(next: word) { !next >> 31 != 0 }

  /** commit->ptag after a checksum. */
  function AfterChecksum(tag: word, reset: bool): word { tag ^ (if reset then 0x8000_0000 else 0) }

  lemma ChecksumBits(reset: bool, size: bv10)
    ensures IsValid(ChecksumTag(reset, size)) && TypeHigh(ChecksumTag(reset, size)) == 5
    ensures SizeBits(ChecksumTag(reset, size)) == size && IdBits(ChecksumTag(reset, size)) == 0x3ff
  {
  }

  lemma CrcBand(h: bv3, c: bv8)
    requires h == 5
    ensures Type1(0x100 * BandNumber(h) + ChunkNumber(c)) == TYPE_CRC
  {
    hide ChunkNumber;
    assert BandNumber(5) == 5;
  }

  lemma ChecksumFields(reset: bool, n: nat)
    requires n < 0x3ff
    ensures IsCrc(ChecksumTag(reset, Size10(n))) && DSize(ChecksumTag(reset, Size10(n))) == 4 + n
    ensures SizeOf(ChecksumTag(reset, Size10(n))) == n && IsValid(ChecksumTag(reset, Size10(n)))
    ensures IdOf(ChecksumTag(reset, Size10(n))) == NO_ID
  {
    hide TypeHigh, TypeChunk, SizeBits, IdBits, ChecksumTag, Type1, Size10, BandNumber, IsValid;
    ChecksumBits(reset, Size10(n));
    var tag := ChecksumTag(reset, Size10(n));
    assert 0x3ff as bv10 as nat == 0x3ff;
    CrcBand(TypeHigh(tag), TypeChunk(tag));
  }

  lemma ResetFlips(reset: bool, size: bv10)
    ensures FlipIfReset(ChecksumTag(reset, size)) == AfterChecksum(ChecksumTag(reset, size), reset)
  {
  }

  /** The word behind a commit cannot be read as a valid tag, whatever it was when the commit was written. */
  lemma NextIsInvalid(next: word, size: bv10)
    ensures !IsValid(Xor(next, AfterChecksum(ChecksumTag(Reset(next), size), Reset(next))))
  {
  }

  // ----- a commit being written

  /** The block d holds log, and the commit that begins at start continues at off. */
  ghost predicate Writing(d: seq<byte>, log: seq<Raw>, start: nat, off: nat, ptag: word, crc: word) {
    && Scanned(d, log) && Whole(log) && off == End(log) && ptag == LastWord(log)
    && 4 <= off <= |d| && crc == Register(d[..4], log)
    && start <= off && crc == CrcOf(ALL_ONES, d[start..off])
  }

  lemma WritingParts(d: seq<byte>, log: seq<Raw>, start: nat, off: nat, ptag: word, crc: word)
    requires Writing(d, log, start, off, ptag, crc)
    ensures Scanned(d, log) && Whole(log) && off == End(log) && ptag == LastWord(log)
    ensures 4 <= off <= |d| && start <= off && crc == Register(d[..4], log) && crc == CrcOf(ALL_ONES, d[start..off])
  {
  }

  lemma WritingIs(d: seq<byte>, log: seq<Raw>, start: nat, off: nat, ptag: word, crc: word)
    requires Scanned(d, log) && Whole(log) && off == End(log) && ptag == LastWord(log)
    requires 4 <= off <= |d| && start <= off && crc == Register(d[..4], log) && crc == CrcOf(ALL_ONES, d[start..off])
    ensures Writing(d, log, start, off, ptag, crc)
  {
    hide Scanned, Whole, End, LastWord, Register, CrcOf;
  }

  lemma ProgramsParts(d: seq<byte>, d': seq<byte>, off: nat, a: seq<byte>, b: seq<byte>)
    requires Programs(d, d', off, a + b)
    ensures |d'| == |d| && off + |a| + |b| <= |d| && d'[..off] == d[..off]
    ensures d'[off..off + |a|] == a && d'[off + |a|..off + |a| + |b|] == b
  {
    var m, e := off + |a|, off + |a| + |b|;
    assert d'[off..e] == a + b;
    assert d'[off..m] == d'[off..e][..|a|];
    assert d'[m..e] == d'[off..e][|a|..];
  }

  lemma CrcContinues(d: seq<byte>, d': seq<byte>, start: nat, off: nat, bs: seq<byte>, crc: word)
    requires start <= off <= |d| && off + |bs| <= |d'| && d'[..off] == d[..off] && d'[off..off + |bs|] == bs
    requires crc == CrcOf(ALL_ONES, d[start..off])
    ensures CrcOf(ALL_ONES, d'[start..off + |bs|]) == CrcOf(crc, bs)
  {
    hide CrcOf;
    assert d'[start..off] == d'[..off][start..] && d[start..off] == d[..off][start..];
    assert d'[start..off + |bs|] == d'[start..off] + d'[off..off + |bs|];
    CrcConcat(ALL_ONES, d[start..off], bs);
  }

  lemma SameRevision(d: seq<byte>, d': seq<byte>, off: nat)
    requires 4 <= off <= |d| && off <= |d'| && d'[..off] == d[..off]
    ensures d'[..4] == d[..4]
  {
    assert d[..4] == d[..off][..4] && d'[..4] == d'[..off][..4];
  }

  lemma AttrWritten(d: seq<byte>, d': seq<byte>, log: seq<Raw>, start: nat, off: nat, ptag: word, crc: word,
                    tag: word, data: seq<byte>)
    requires Writing(d, log, start, off, ptag, crc) && IsValid(tag) && !IsCrc(tag) && |data| == DSize(tag) - 4
    requires Full(tag) && Programs(d, d', off, Be(Xor(tag, ptag)) + data)
    ensures Writing(d', log + [Raw(tag, data)], start, off + DSize(tag), tag, CrcOf(crc, Be(Xor(tag, ptag)) + data))
  {
    hide *;
    WritingParts(d, log, start, off, ptag, crc);
    var stored := Be(Xor(tag, ptag));
    ProgramsParts(d, d', off, stored, data);
    NotFlipped(tag);
    EntryWritten(d, d', log, tag, data);
    SameRevision(d, d', off);
    ValidIsBody(tag);
    RegisterSnoc(d[..4], log, Raw(tag, data), CrcOf(crc, stored));
    CrcConcat(crc, stored, data);
    assert d'[off..off + DSize(tag)] == stored + data;
    CrcContinues(d, d', start, off, stored + data, crc);
    LastWordSnoc(log, Raw(tag, data));
    WritingIs(d', log + [Raw(tag, data)], start, off + DSize(tag), tag, CrcOf(crc, stored + data));
  }

  // ----- segments

  /** Where the commit after a checksum at off begins, when the checksums have to reach stop. */
  function NextSegment(off: nat, stop: nat): nat
    requires off + 8 <= stop
  {
    var noff := Min(stop - (off + 4), 0x3fe) + (off + 4);
    if noff < stop then Min(noff, stop - 8) else noff
  }

  /** A checksum tag of a commit covers 4 to 0x3fe bytes, and leaves room for another one or ends the commit. */
  lemma SegmentBounds(off: nat, stop: nat)
    requires off + 8 <= stop
    ensures var next := NextSegment(off, stop);
      4 <= next - (off + 4) <= 0x3fe && (next == stop || next + 8 <= stop)
  {
  }

  /** A stretch of bytes that ends with the checksum tag at at and its checksum. */
  datatype Segment = Segment(begin: nat, at: nat)

  /** The stretches of a commit up to stop, the first of which begins at begin with its checksum at at. */
  function Segments(begin: nat, at: nat, stop: nat): seq<Segment>
    decreases stop - at
  {
    if at + 8 > stop then []
    else [Segment(begin, at)] + Segments(NextSegment(at, stop), NextSegment(at, stop), stop)
  }

  ghost predicate ZeroChecksum(d: seq<byte>, seg: Segment) {
    seg.begin <= seg.at && seg.at + 8 <= |d| && CrcOf(ALL_ONES, d[seg.begin..seg.at + 8]) == 0
  }

  ghost predicate AllZero(d: seq<byte>, segs: seq<Segment>) {
    forall i :: 0 <= i < |segs| ==> ZeroChecksum(d, segs[i])
  }

  /** The stretches written so far have checksum zero, and the rest of them begins at off. */
  ghost predicate Checked(d: seq<byte>, all: seq<Segment>, done: seq<Segment>, start: nat, off: nat, stop: nat) {
    && all == done + Segments(start, off, stop) && AllZero(d, done)
    && start <= off <= stop <= |d| && (off == stop || off + 8 <= stop)
    && forall i :: 0 <= i < |done| ==> done[i].at + 8 <= off
  }

  lemma SegmentWritten(d: seq<byte>, d': seq<byte>, all: seq<Segment>, done: seq<Segment>, start: nat, off: nat,
                       stop: nat)
    requires Checked(d, all, done, start, off, stop) && off + 8 <= stop
    requires |d'| == |d| && d'[..off] == d[..off] && ZeroChecksum(d', Segment(start, off))
    ensures Checked(d', all, done + [Segment(start, off)], NextSegment(off, stop), NextSegment(off, stop), stop)
  {
    hide NextSegment, Segments, ZeroChecksum;
    SegmentBounds(off, stop);
    SegmentsStep(start, off, stop);
    var next := NextSegment(off, stop);
    assert all == done + [Segment(start, off)] + Segments(next, next, stop);
    ZeroKept(d, d', done, off);
    hide AllZero;
    ZeroSnoc(d', done, Segment(start, off));
  }

  lemma SegmentsStep(begin: nat, at: nat, stop: nat)
    requires at + 8 <= stop
    ensures Segments(begin, at, stop)
      == [Segment(begin, at)] + Segments(NextSegment(at, stop), NextSegment(at, stop), stop)
  {
  }

  lemma ZeroSnoc(d: seq<byte>, segs: seq<Segment>, s: Segment)
    requires AllZero(d, segs) && ZeroChecksum(d, s)
    ensures AllZero(d, segs + [s])
  {
    hide ZeroChecksum;
  }

  lemma ZeroKept(d: seq<byte>, d': seq<byte>, segs: seq<Segment>, off: nat)
    requires AllZero(d, segs) && forall i :: 0 <= i < |segs| ==> segs[i].at + 8 <= off
    requires off <= |d| && off <= |d'| && d'[..off] == d[..off]
    ensures AllZero(d', segs)
  {
    hide ZeroChecksum;
    forall i | 0 <= i < |segs| ensures ZeroChecksum(d', segs[i]) {
      ZeroKept1(d, d', segs[i], off);
    }
  }

  lemma ZeroKept1(d: seq<byte>, d': seq<byte>, s: Segment, off: nat)
    requires ZeroChecksum(d, s) && s.at + 8 <= off
    requires off <= |d| && off <= |d'| && d'[..off] == d[..off]
    ensures ZeroChecksum(d', s)
  {
    hide CrcOf;
    var b, e := s.begin, s.at + 8;
    assert d'[b..e] == d'[..off][b..e] && d[b..e] == d[..off][b..e];
  }

  lemma ChecksumWritten(d: seq<byte>, d': seq<byte>, log: seq<Raw>, start: nat, off: nat, ptag: word, crc: word,
                        tag: word, data: seq<byte>)
    requires Writing(d, log, start, off, ptag, crc) && IsValid(tag) && IsCrc(tag)
    requires |data| == DSize(tag) - 4 && |data| >= 4 && data[..4] == Le(CrcOf(crc, Be(Xor(tag, ptag))))
    requires Programs(d, d', off, Be(Xor(tag, ptag)) + data)
    ensures Writing(d', log + [Raw(NextWord(tag), data)], off + DSize(tag), off + DSize(tag), NextWord(tag), ALL_ONES)
    ensures |d'| == |d| && d'[..off] == d[..off] && ZeroChecksum(d', Segment(start, off))
  {
    hide *;
    WritingParts(d, log, start, off, ptag, crc);
    var stored := Be(Xor(tag, ptag));
    ProgramsParts(d, d', off, stored, data);
    SameRevision(d, d', off);
    ChecksumStored(d', off, crc, stored, data);
    ChecksumIsFull(tag);
    EntryWritten(d, d', log, tag, data);
    var r := Raw(NextWord(tag), data);
    WordKept(tag);
    LastIsCommit(d', log, r);
    RegisterAfter(d'[..4], log, r);
    SegmentPasses(d, d', start, off, stored, data[..4], crc);
    assert d'[off + DSize(tag)..off + DSize(tag)] == [];
    NothingRead();
    WritingIs(d', log + [r], off + DSize(tag), off + DSize(tag), NextWord(tag), ALL_ONES);
  }

  lemma NothingRead()
    ensures CrcOf(ALL_ONES, []) == ALL_ONES
  {
  }

  lemma ChecksumStored(d: seq<byte>, p: nat, crc: word, stored: seq<byte>, data: seq<byte>)
    requires |stored| == 4 && |data| >= 4 && p + 4 + |data| <= |d|
    requires d[p..p + 4] == stored && d[p + 4..p + 4 + |data|] == data && data[..4] == Le(CrcOf(crc, stored))
    ensures Passes(d, p, crc)
  {
    hide CrcOf, Le, UnLe;
    LeRoundTrip(CrcOf(crc, stored));
    assert d[p + 4..p + 8] == d[p + 4..p + 4 + |data|][..4];
  }

  lemma ZeroIs(d: seq<byte>, start: nat, off: nat)
    requires start <= off && off + 8 <= |d| && CrcOf(ALL_ONES, d[start..off + 8]) == 0
    ensures ZeroChecksum(d, Segment(start, off))
  {
    hide CrcOf;
  }

  /** The checksum over a whole segment, its own checksum included, is zero. */
  lemma SegmentPasses(d: seq<byte>, d': seq<byte>, start: nat, off: nat, stored: seq<byte>, dcrc: seq<byte>, crc: word)
    requires start <= off <= |d| && |stored| == 4 && off + 8 <= |d'| && d'[..off] == d[..off]
    requires crc == CrcOf(ALL_ONES, d[start..off]) && dcrc == Le(CrcOf(crc, stored))
    requires d'[off..off + 4] == stored && d'[off + 4..off + 8] == dcrc
    ensures ZeroChecksum(d', Segment(start, off))
  {
    hide *;
    assert d'[off..off + 8] == stored + dcrc;
    assert |stored + dcrc| == 8;
    CrcContinues(d, d', start, off, stored + dcrc, crc);
    ChecksumPasses(crc, stored);
    ZeroIs(d', start, off);
  }

  /** What a directory remembers of its block: it is committed up to off, and etag is its last tag. */
  ghost predicate Fetched(d: seq<byte>, log: seq<Raw>, off: nat, etag: word) {
    Committed(d, log) && Whole(log) && off == End(log) && etag == LastWord(log)
  }

  lemma AppendStarts(d: seq<byte>, log: seq<Raw>, off: nat, etag: word)
    requires Fetched(d, log, off, etag)
    ensures Writing(d, log, off, off, etag, ALL_ONES)
  {
    CommittedParts(d, log);
    ScannedSized(d, log);
    LastIsChecksum(d[..4], log);
    NothingRead();
    assert d[off..off] == [];
    hide *;
    WritingIs(d, log, off, off, etag, ALL_ONES);
  }

  lemma LastIsChecksum(rev: seq<byte>, log: seq<Raw>)
    requires log != [] && IsCrc(log[|log| - 1].word)
    ensures Register(rev, log) == ALL_ONES
  {
    hide IsCrc;
  }

  lemma CompactStarts(d: seq<byte>, rev: seq<byte>, crc: word)
    requires |d| >= 4 && |rev| == 4 && d[..4] == rev && crc == CrcOf(ALL_ONES, rev)
    ensures Writing(d, [], 0, 4, ALL_ONES, crc)
  {
    hide CrcOf;
    assert d[4..4] == [] && d[0..4] == rev;
  }

  lemma ProgramsTwice(d: seq<byte>, d1: seq<byte>, d2: seq<byte>, off: nat, a: seq<byte>, b: seq<byte>)
    requires Programs(d, d1, off, a) && Programs(d1, d2, off + |a|, b)
    ensures Programs(d, d2, off, a + b)
  {
    var m, e := off + |a|, off + |a| + |b|;
    assert d2[..off] == d2[..m][..off] && d1[..off] == d1[..m][..off];
    assert d2[off..m] == d2[..m][off..] && d1[off..m] == d1[..m][off..];
    assert d2[off..e] == d2[off..m] + d2[m..e];
    assert d1[e..] == d1[m..][|b|..] && d[e..] == d[m..][|b|..];
  }

  /** struct lfs_commit, with the block that it writes to. */
  class Writer {
    const block: array<byte>
    const progSize: nat
    const begin: nat
    const end: nat
    var off: nat
    var ptag: word
    var crc: word
    // the log in the block, and where its last commit begins
    ghost var log: seq<Raw>
    ghost var start: nat

    ghost predicate Valid()
      reads this, block
    {
      && progSize > 0 && block.Length % progSize == 0 && end + 8 == block.Length && begin <= off
      && Writing(block[..], log, start, off, ptag, crc)
    }

    /** A commit behind the commits of a block, as lfs_dir_commit sets it up. */
    constructor Append(block: array<byte>, progSize: nat, off: nat, etag: word, ghost log: seq<Raw>)
      requires progSize > 0 && block.Length % progSize == 0 && block.Length >= 8
      requires Fetched(block[..], log, off, etag)
      ensures Valid() && this.block == block && this.progSize == progSize && begin == off && this.log == log
      ensures this.off == off && start == begin
    {
      hide Writing, Fetched;
      this.block := block;
      this.progSize := progSize;
      this.begin := off;
      this.end := block.Length - 8;
      this.off := off;
      this.ptag := etag;
      this.crc := ALL_ONES;
      this.log := log;
      this.start := off;
      new;
      AppendStarts(block[..], log, off, etag);
    }

    /** A commit at the start of an erased block, with the revision count written, as lfs_dir_compact sets it up. */
    constructor Compact(block: array<byte>, progSize: nat, rev: word)
      requires progSize > 0 && block.Length % progSize == 0 && block.Length >= 8
      modifies block
      ensures Valid() && this.block == block && this.progSize == progSize && begin == 0 && log == []
      ensures off == 4 && start == begin
      ensures Programs(old(block[..]), block[..], 0, Le(rev))
    {
      hide Writing, CrcOf, Le;
      this.block := block;
      this.progSize := progSize;
      this.begin := 0;
      this.end := block.Length - 8;
      this.off := 0;
      this.ptag := ALL_ONES;
      this.crc := ALL_ONES;
      this.log := [];
      this.start := 0;
      new;
      Prog(Le(rev));
      CompactStarts(block[..], Le(rev), crc);
    }

    /** lfs_dir_commitprog. */
    method Prog(bs: seq<byte>)
      requires off + |bs| <= block.Length
      modifies this`off, this`crc, block
      ensures off == old(off) + |bs| && crc == CrcOf(old(crc), bs)
      ensures Programs(old(block[..]), block[..], old(off), bs)
    {
      hide CrcOf;
      Store(off, bs);
      crc := Update(crc, bs);
      off := off + |bs|;
    }

    /** lfs_bd_prog. */
    method Store(at: nat, bs: seq<byte>)
      requires at + |bs| <= block.Length
      modifies block
      ensures Programs(old(block[..]), block[..], at, bs)
    {
      forall i | 0 <= i < |bs| {
        block[at + i] := bs[i];
      }
    }

    /** The fill of the program cache behind a checksum. */
    method Pad(from: nat, to: nat)
      requires from <= to <= block.Length
      modifies block
      ensures Programs(old(block[..]), block[..], from, Ones(to - from))
    {
      forall i | from <= i < to {
        block[i] := 0xff;
      }
    }

    /** lfs_dir_commitattr with the data in memory. */
    method Attr(tag: word, data: seq<byte>) returns (ok: bool)
      requires Valid() && !IsCrc(tag) && Full(tag) && |data| == DSize(tag) - 4
      modifies this, block
      ensures Valid() && start == old(start)
      ensures ok == (old(off) + DSize(tag) <= end)
      ensures ok ==> log == old(log) + [Raw(Body(tag), data)] && off == old(off) + DSize(tag) <= end
      ensures ok ==> Programs(old(block[..]), block[..], old(off), Be(Xor(Body(tag), old(ptag))) + data)
      ensures !ok ==> unchanged(this) && unchanged(block)
    {
      hide Writing, Programs, CrcOf, Be, Xor, Body, DSize, IsCrc, IsValid, Full;
      var dsize := DSize(tag);
      SizeAtLeast(tag);
      if off + dsize > end {
        return false;
      }
      ghost var d, p, c := block[..], ptag, crc;
      ValidBody(tag);
      var stored := Be(Xor(Body(tag), ptag));
      Prog(stored);
      ghost var d1 := block[..];
      Prog(data);
      ProgramsTwice(d, d1, block[..], old(off), stored, data);
      CrcConcat(c, stored, data);
      AttrWritten(d, block[..], log, start, old(off), p, c, Body(tag), data);
      ptag := Body(tag);
      log := log + [Raw(Body(tag), data)];
      ok := true;
    }

    /** lfs_dir_commitattr with the data in a block: disk is that block's contents. */
    method AttrFromDisk(tag: word, disk: seq<byte>, at: nat) returns (ok: bool)
      requires Valid() && !IsCrc(tag) && Full(tag) && at + DSize(tag) - 4 <= |disk|
      modifies this, block
      ensures Valid() && start == old(start)
      ensures ok == (old(off) + DSize(tag) <= end)
      ensures ok ==> off == old(off) + DSize(tag) <= end && 4 <= DSize(tag)
      ensures ok ==> log == old(log) + [Raw(Body(tag), disk[at..at + DSize(tag) - 4])]
      ensures ok ==> Programs(old(block[..]), block[..], old(off),
                              Be(Xor(Body(tag), old(ptag))) + disk[at..at + DSize(tag) - 4])
      ensures !ok ==> unchanged(this) && unchanged(block)
    {
      hide Writing, Programs, CrcOf, Be, Xor, Body, DSize, IsCrc, IsValid, Full;
      var dsize := DSize(tag);
      SizeAtLeast(tag);
      if off + dsize > end {
        return false;
      }
      ValidBody(tag);
      ghost var d, c := block[..], crc;
      CopyFromDisk(Be(Xor(Body(tag), ptag)), disk, at, dsize - 4);
      AttrWritten(d, block[..], log, start, old(off), ptag, c, Body(tag), disk[at..at + dsize - 4]);
      ptag := Body(tag);
      log := log + [Raw(Body(tag), disk[at..at + dsize - 4])];
      ok := true;
    }

    /** A stored tag, then the data behind it byte by byte. */
    method CopyFromDisk(stored: seq<byte>, disk: seq<byte>, at: nat, size: nat)
      requires off + |stored| + size <= block.Length && at + size <= |disk|
      modifies this`off, this`crc, block
      ensures off == old(off) + |stored| + size && crc == CrcOf(old(crc), stored + disk[at..at + size])
      ensures Programs(old(block[..]), block[..], old(off), stored + disk[at..at + size])
    {
      hide *;
      ghost var d, c, o := block[..], crc, off;
      Prog(stored);
      assert stored + disk[at..at + 0] == stored;
      for i := 0 to size
        invariant off == o + |stored| + i
        invariant crc == CrcOf(c, stored + disk[at..at + i])
        invariant Programs(d, block[..], o, stored + disk[at..at + i])
      {
        ghost var d1 := block[..];
        ghost var sofar := stored + disk[at..at + i];
        var b := disk[at + i];
        Prog([b]);
        ProgramsTwice(d, d1, block[..], o, sofar, [b]);
        CrcConcat(c, sofar, [b]);
        assert sofar + [b] == stored + disk[at..at + (i + 1)];
      }
    }

    /** A stored checksum tag, the checksum, and padding up to noff. */
    method Footer(stored: seq<byte>, noff: nat) returns (ghost data: seq<byte>)
      requires |stored| == 4 && off + 8 <= noff <= block.Length
      modifies this`crc, block
      ensures |data| == noff - off - 4 && data[..4] == Le(CrcOf(old(crc), stored))
      ensures Programs(old(block[..]), block[..], off, stored + data)
    {
      hide *;
      crc := Update(crc, stored);
      ghost var d := block[..];
      Store(off, stored + Le(crc));
      ghost var d1 := block[..];
      Pad(off + 8, noff);
      data := Le(crc) + Ones(noff - off - 8);
      ProgramsTwice(d, d1, block[..], off, stored + Le(crc), Ones(noff - off - 8));
      assert stored + Le(crc) + Ones(noff - off - 8) == stored + data;
    }

    /** The word at a place, as the big-endian number that it stores; all ones behind the end of the block. */
    method ReadWord(at: nat) returns (next: word)
      ensures next == WordAt(block[..], at)
    {
      next := ALL_ONES;
      if at + 4 <= block.Length {
        next := UnBe(block[at..at + 4]);
        assert block[..][at..at + 4] == block[at..at + 4];
      }
    }

    /** One round of the first loop of lfs_dir_commitcrc. */
    method Checksum(stop: nat) returns (ghost bs: seq<byte>)
      requires Valid() && off + 8 <= stop <= block.Length
      modifies this, block
      ensures Valid() && off == start == NextSegment(old(off), stop)
      ensures Programs(old(block[..]), block[..], old(off), bs) && |bs| == off - old(off)
      ensures AddsChecksum(old(log), log, off - old(off))
      ensures ZeroChecksum(block[..], Segment(old(start), old(off)))
      ensures Sealed(old(block[..]), off, ptag)
    {
      hide Writing, Programs, CrcOf, Be, Xor, SizeOf, DSize, IsCrc, IsValid, WordAt, AddsChecksum, ZeroChecksum, Sealed,
        NextWord, TagFits;
      SegmentBounds(off, stop);
      var o := off + 4;
      var noff := Min(stop - o, 0x3fe) + o;
      if noff < stop {
        noff := Min(noff, stop - 8);
      }
      ghost var d := block[..];
      var next := ReadWord(noff);
      var tag, after := BuildTag(next, noff - o);
      TagParts(tag, after, next, noff - o);
      bs := ProgChecksum(tag, after, noff);
      ChecksumLeaves(d, old(log), noff, tag, after, noff - o, bs[4..]);
    }

    /** Store a checksum behind tag and padding up to noff, and go on there. */
    method ProgChecksum(tag: word, after: word, noff: nat) returns (ghost bs: seq<byte>)
      requires Valid() && off + 8 <= noff <= block.Length && IsValid(tag) && IsCrc(tag) && NextWord(tag) == after
      requires DSize(tag) == noff - off && SizeOf(tag) == noff - off - 4
      modifies this, block
      ensures Valid() && off == start == noff && ptag == after
      ensures |bs| == noff - old(off) && log == old(log) + [Raw(after, bs[4..])]
      ensures Programs(old(block[..]), block[..], old(off), bs)
      ensures ZeroChecksum(block[..], Segment(old(start), old(off)))
    {
      hide Writing, Programs, CrcOf, Be, Xor, SizeOf, DSize, IsCrc, IsValid, ZeroChecksum, NextWord;
      ghost var d, p, c := block[..], ptag, crc;
      var stored := Be(Xor(tag, ptag));
      ghost var data := Footer(stored, noff);
      ChecksumWritten(d, block[..], log, start, off, p, c, tag, data);
      bs := stored + data;
      assert bs[4..] == data;
      log := log + [Raw(after, data)];
      off := off + 4 + SizeOf(tag);
      ptag := after;
      crc := ALL_ONES;
      start := off;
    }

    /** The first loop of lfs_dir_commitcrc: checksums up to stop, padded to whole programming units. */
    method WriteChecksums(stop: nat)
      requires Valid() && start == begin && off + 8 <= stop <= block.Length
      modifies this, block
      ensures Valid() && off == stop
      ensures AddsChecksums(old(log), log) && Sealed(old(block[..]), stop, ptag)
      ensures AlteredWithin(old(block[..]), block[..], old(off), stop)
      ensures AllZero(block[..], Segments(begin, old(off), stop))
    {
      hide Writing, Programs, Segments, AllZero, IsCrc, DSize, AddsChecksum, Sealed, ZeroChecksum, NextSegment;
      ghost var d, from, log0 := block[..], off, log;
      ghost var all, done := Segments(start, off, stop), [];
      NothingChecked(d, start, off, stop);
      while off < stop
        invariant Valid() && Checked(block[..], all, done, start, off, stop) && from <= off
        invariant AlteredWithin(d, block[..], from, off)
        invariant Extends(log0, log) && (log == log0 <==> off == from)
        invariant off > from ==> Sealed(d, off, ptag)
      {
        ghost var d1, seg, log1 := block[..], Segment(start, off), log;
        ghost var bs := Checksum(stop);
        SegmentBounds(seg.at, stop);
        ProgramsKeep(d, d1, block[..], from, seg.at, bs);
        SegmentWritten(d1, block[..], all, done, seg.begin, seg.at, stop);
        done := done + [seg];
        ExtendsSnoc(log0, log1, log, off - seg.at);
        SealedBefore(d, d1, from, seg.at, off, ptag);
      }
      AllChecked(block[..], all, done, start, off, stop);
      ExtendsIs(log0, log);
    }

    /** The second loop of lfs_dir_commitcrc: read everything back. */
    method CheckChecksums(off1: nat, stop: nat) returns (ok: bool)
      requires off1 >= 4 && begin <= off1 - 4 && off1 + 4 <= stop <= block.Length
      ensures ok <==> AllZero(block[..], Segments(begin, off1 - 4, stop))
    {
      hide Segments, AllZero, CrcOf, ZeroChecksum;
      ghost var all := Segments(begin, off1 - 4, stop);
      var o := begin;
      var noff := off1;
      while o < stop
        invariant noff >= 4 && o <= noff - 4
        invariant o == stop || noff + 4 <= stop
        invariant AllZero(block[..], all) <==> AllZero(block[..], Segments(o, noff - 4, stop))
        invariant o >= stop ==> noff + 4 > stop
        decreases stop - o
      {
        var crc := Update(ALL_ONES, block[o..noff + 4]);
        SegmentsStep(o, noff - 4, stop);
        ZeroMeans(block[..], o, noff - 4, crc);
        var next := NextSegment(noff - 4, stop);
        ZeroCons(block[..], Segment(o, noff - 4), Segments(next, next, stop));
        if crc != 0 {
          return false;
        }
        SegmentBounds(noff - 4, stop);
        o := Min(stop - noff, 0x3fe) + noff;
        if o < stop {
          o := Min(o, stop - 8);
        }
        noff := o + 4;
      }
      NoSegments(block[..], o, noff - 4, stop);
      ok := true;
    }

    /** lfs_dir_commitcrc: the commit is complete, and it is what a scan of the block finds. */
    method Crc() returns (ok: bool)
      requires Valid() && start == begin && off <= end
      modifies this, block
      ensures ok && Valid() && old(off) + 8 <= off < old(off) + 8 + progSize && off % progSize == 0
      ensures off == AlignUp(old(off) + 8, progSize)
      ensures AddsChecksums(old(log), log) && AlteredWithin(old(block[..]), block[..], old(off), off)
      ensures Fetched(block[..], log, off, ptag) && Longest(block[..], log)
      ensures off + 4 <= block.Length ==> Erased(block[..], log, progSize)
    {
      hide Writing, AllZero, Segments, AddsChecksums, Sealed, Fetched, Longest, Scanned, Whole, IsCrc, AlteredWithin,
        AlignUp, Erased;
      var off1 := off + 4;
      var stop := AlignUp(off1 + 4, progSize);
      AlignBounds(off + 8, progSize);
      AlignFits(off + 8, block.Length, progSize);
      ghost var d := block[..];
      WriteChecksums(stop);
      ok := CheckChecksums(off1, stop);
      CommitIsFetched(block[..], old(log), log, start, off, ptag, crc);
      CommitIsLongest(d, block[..], log, old(off), off, ptag);
      CommitIsErased(d, block[..], log, old(off), off, ptag, progSize);
    }
  }

  /** The word behind a commit; all ones at the end of the block. */
  function WordAt(d: seq<byte>, at: nat): word {
    if at + 4 <= |d| then UnBe(d[at..at + 4]) else ALL_ONES
  }

  /** A checksum tag covers 4 to 0x3fe bytes and belongs to no file. */
  ghost predicate IsChecksum(w: word) { IsCrc(w) && 8 <= DSize(w) <= 0x402 && IdOf(w) == NO_ID }

  /** log' is log and one checksum of the given size. */
  ghost predicate AddsChecksum(log: seq<Raw>, log': seq<Raw>, size: nat) {
    && |log'| == |log| + 1 && log' == log + [log'[|log|]]
    && IsChecksum(log'[|log|].word) && DSize(log'[|log|].word) == size
  }

  /** No valid tag can be read behind off from what the block held there. */
  ghost predicate Sealed(d: seq<byte>, off: nat, ptag: word) { !IsValid(Xor(WordAt(d, off), ptag)) }

  /** A checksum tag for size bytes, the chain word behind it, and what it makes of the word stored there. */
  ghost predicate TagFits(tag: word, after: word, next: word, size: nat) {
    && IsValid(tag) && IsCrc(tag) && DSize(tag) == 4 + size && SizeOf(tag) == size && NextWord(tag) == after
    && IsCrc(after) && DSize(after) == 4 + size && IdOf(after) == NO_ID && !IsValid(Xor(next, after))
  }

  method BuildTag(next: word, size: nat) returns (tag: word, after: word)
    requires size < 0x3ff
    ensures TagFits(tag, after, next, size)
  {
    hide *;
    var reset := Reset(next);
    tag := ChecksumTag(reset, Size10(size));
    after := AfterChecksum(tag, reset);
    TagIsFit(next, size);
  }

  lemma TagIsFit(next: word, size: nat)
    requires size < 0x3ff
    ensures var tag := ChecksumTag(Reset(next), Size10(size));
      TagFits(tag, AfterChecksum(tag, Reset(next)), next, size)
  {
    hide FlipIfReset, AfterChecksum, ChecksumTag, Size10, IsCrc, DSize, IsValid, Reset, Xor, SizeOf, IdOf;
    var tag := ChecksumTag(Reset(next), Size10(size));
    ChecksumFields(Reset(next), size);
    NextIsInvalid(next, Size10(size));
    ResetFlips(Reset(next), Size10(size));
    WordKept(tag);
  }

  lemma TagParts(tag: word, after: word, next: word, size: nat)
    requires TagFits(tag, after, next, size)
    ensures IsValid(tag) && IsCrc(tag) && DSize(tag) == 4 + size && SizeOf(tag) == size && NextWord(tag) == after
  {
  }

  lemma ChecksumLeaves(d: seq<byte>, log: seq<Raw>, noff: nat, tag: word, after: word, size: nat, data: seq<byte>)
    requires TagFits(tag, after, WordAt(d, noff), size) && 4 <= size <= 0x3fe
    ensures Sealed(d, noff, after) && AddsChecksum(log, log + [Raw(after, data)], size + 4)
  {
    hide IsValid, Xor, IsCrc, DSize, WordAt, NextWord, SizeOf, IdOf;
  }

  /** log' is log and one or more checksums. */
  ghost predicate AddsChecksums(log: seq<Raw>, log': seq<Raw>) { log < log' && Extends(log, log') }

  ghost predicate Extends(log: seq<Raw>, log': seq<Raw>) {
    && log <= log'
    && forall i :: |log| <= i < |log'| ==> IsChecksum(log'[i].word)
  }

  /** d' differs from d between from and to only. */
  ghost predicate AlteredWithin(d: seq<byte>, d': seq<byte>, from: nat, to: nat) {
    |d'| == |d| && from <= to <= |d| && d'[..from] == d[..from] && d'[to..] == d[to..]
  }

  lemma ProgramsKeep(d: seq<byte>, d1: seq<byte>, d2: seq<byte>, from: nat, at: nat, bs: seq<byte>)
    requires AlteredWithin(d, d1, from, at) && Programs(d1, d2, at, bs)
    ensures AlteredWithin(d, d2, from, at + |bs|) && d2[..at] == d1[..at] && |d2| == |d1|
  {
    assert d2[..from] == d2[..at][..from] && d1[..from] == d1[..at][..from];
    assert d1[at + |bs|..] == d1[at..][|bs|..] && d[at + |bs|..] == d[at..][|bs|..];
  }

  lemma CommitIsFetched(d: seq<byte>, log0: seq<Raw>, log: seq<Raw>, start: nat, off: nat, ptag: word, crc: word)
    requires Writing(d, log, start, off, ptag, crc) && AddsChecksums(log0, log)
    ensures Fetched(d, log, off, ptag)
  {
    hide Scanned, Whole, LastWord, End, AddsChecksums, IsCrc, Writing, Register, CrcOf;
    WritingParts(d, log, start, off, ptag, crc);
    EndsWithChecksum(log0, log);
  }

  lemma EndsWithChecksum(log0: seq<Raw>, log: seq<Raw>)
    requires AddsChecksums(log0, log)
    ensures log != [] && IsCrc(log[|log| - 1].word)
  {
    hide IsCrc, DSize, IdOf;
    var last := |log| - 1;
    assert IsChecksum(log[last].word);
  }

  lemma CommitIsLongest(d: seq<byte>, d': seq<byte>, log: seq<Raw>, from: nat, off: nat, ptag: word)
    requires Fetched(d', log, off, ptag) && AlteredWithin(d, d', from, off) && Sealed(d, off, ptag)
    ensures Longest(d', log)
  {
    hide *;
    FetchedParts(d', log, off, ptag);
    SealedStops(d, d', log, from, off, ptag);
    LastIsWhole(log);
    LongestIs(d', log, log);
  }

  /** Behind the commit another one can be programmed, if the block is not full. */
  lemma CommitIsErased(d: seq<byte>, d': seq<byte>, log: seq<Raw>, from: nat, off: nat, ptag: word, progSize: nat)
    requires Fetched(d', log, off, ptag) && AlteredWithin(d, d', from, off) && Sealed(d, off, ptag)
    requires progSize > 0 && off % progSize == 0
    ensures off + 4 <= |d'| ==> Erased(d', log, progSize)
  {
    hide Sealed, AlteredWithin, Fetched, Stops, Unprogrammed, Whole, Scanned, Committed;
    FetchedParts(d', log, off, ptag);
    SealedStops(d, d', log, from, off, ptag);
  }

  lemma FetchedParts(d: seq<byte>, log: seq<Raw>, off: nat, etag: word)
    requires Fetched(d, log, off, etag)
    ensures Scanned(d, log) && Whole(log) && off == End(log) && etag == LastWord(log)
    ensures log != [] && IsCrc(log[|log| - 1].word) && Committed(d, log) && 4 <= off <= |d|
  {
    hide Whole, IsCrc, LastWord, Passes, Register, Sized;
  }

  lemma LastIsWhole(log: seq<Raw>)
    requires log != [] && IsCrc(log[|log| - 1].word)
    ensures LastCommit(log, log)
  {
    hide IsCrc;
  }

  lemma SealedStops(d: seq<byte>, d': seq<byte>, log: seq<Raw>, from: nat, off: nat, ptag: word)
    requires AlteredWithin(d, d', from, off) && Sealed(d, off, ptag) && off == End(log) && ptag == LastWord(log)
    ensures Stops(d', log) && (off + 4 <= |d'| ==> Unprogrammed(d', log))
  {
    hide IsValid, Xor, UnBe, DSize, IsCrc, IsTail, Passes, End, LastWord;
    if off + 4 <= |d| {
      assert d[off..off + 4] == d[off..][..4] && d'[off..off + 4] == d'[off..][..4];
    }
  }

  lemma NothingChecked(d: seq<byte>, start: nat, off: nat, stop: nat)
    requires start <= off && off + 8 <= stop <= |d|
    ensures Checked(d, Segments(start, off, stop), [], start, off, stop)
    ensures AlteredWithin(d, d, off, off)
  {
    hide Segments;
    assert Segments(start, off, stop) == [] + Segments(start, off, stop);
  }

  lemma AllChecked(d: seq<byte>, all: seq<Segment>, done: seq<Segment>, start: nat, off: nat, stop: nat)
    requires Checked(d, all, done, start, off, stop) && off == stop
    ensures AllZero(d, all)
  {
    hide AllZero;
    assert all == done;
  }

  lemma ExtendsSnoc(log0: seq<Raw>, log1: seq<Raw>, log2: seq<Raw>, size: nat)
    requires Extends(log0, log1) && AddsChecksum(log1, log2, size)
    ensures Extends(log0, log2) && |log2| > |log0|
  {
    hide IsChecksum, DSize;
  }

  lemma ExtendsIs(log: seq<Raw>, log': seq<Raw>)
    requires Extends(log, log') && log != log'
    ensures AddsChecksums(log, log')
  {
    hide IsChecksum;
  }

  lemma SealedBefore(d: seq<byte>, d1: seq<byte>, from: nat, at: nat, off: nat, ptag: word)
    requires AlteredWithin(d, d1, from, at) && at <= off && Sealed(d1, off, ptag)
    ensures Sealed(d, off, ptag)
  {
    hide IsValid, Xor, UnBe;
    if off + 4 <= |d| {
      assert d[off..off + 4] == d[at..][off - at..off - at + 4];
      assert d1[off..off + 4] == d1[at..][off - at..off - at + 4];
    }
  }

  lemma ZeroMeans(d: seq<byte>, begin: nat, at: nat, crc: word)
    requires begin <= at && at + 8 <= |d| && crc == CrcOf(ALL_ONES, d[begin..at + 8])
    ensures ZeroChecksum(d, Segment(begin, at)) <==> crc == 0
  {
    hide CrcOf;
  }

  lemma ZeroCons(d: seq<byte>, s: Segment, rest: seq<Segment>)
    ensures AllZero(d, [s] + rest) <==> ZeroChecksum(d, s) && AllZero(d, rest)
  {
    hide ZeroChecksum;
    if AllZero(d, [s] + rest) {
      assert ([s] + rest)[0] == s;
      forall i | 0 <= i < |rest| ensures ZeroChecksum(d, rest[i]) {
        assert ([s] + rest)[i + 1] == rest[i];
      }
    }
  }

  lemma NoSegments(d: seq<byte>, begin: nat, at: nat, stop: nat)
    requires at + 8 > stop
    ensures AllZero(d, Segments(begin, at, stop))
  {
  }

  lemma ValidBody(tag: word)
    ensures IsValid(Body(tag)) && DSize(Body(tag)) == DSize(tag) && IsCrc(Body(tag)) == IsCrc(tag)
    ensures Full(Body(tag)) == Full(tag)
  {
    hide *;
    BodyIsValid(tag);
    BodyTwice(tag);
    SameBody(Body(tag), tag);
    SameWords(Body(tag), tag);
  }
}
