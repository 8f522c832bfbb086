/** The scan of a metadata block: lfs_dir_fetch recovers the longest prefix of checked commits. */
module Fetch {
  import opened Bits
  import opened Words
  import opened MetaLog
  import opened TagWord
  import opened MetaBlock
  import opened Crc

  predicate IsCrc(w: word) { Type1(TypeOf(w)) == TYPE_CRC }

  predicate IsTail(w: word) { Type1(TypeOf(w)) == TYPE_TAIL }

  /** The tag that the next one is XORed with: a checksum's low chunk bit says whether the valid bit flips. */
  function NextWord(tag: word): word {
    if IsCrc(tag) then FlipIfReset(tag) else tag
  }

  function FlipIfReset(tag: word): word { tag ^ (((tag >> 20) & 1) << 31) }

  /** The offset after a log. */
  function End(raws: seq<Raw>): nat { 4 + |Encode(raws)| }

  /** The bytes of the last entry: its stored tag and its data. */
  function Chunk(raws: seq<Raw>): seq<byte>
    requires raws != []
  {
    var before, r := raws[..|raws| - 1], raws[|raws| - 1];
    Be(Xor(Body(r.word), LastWord(before))) + r.data
  }

  /** The checksum register after the scan of a log that follows the bytes rev of a revision count. */
  function Register(rev: seq<byte>, raws: seq<Raw>): word {
    if raws == [] then CrcOf(ALL_ONES, rev)
    else if IsCrc(raws[|raws| - 1].word) then ALL_ONES
    else CrcOf(Register(rev, raws[..|raws| - 1]), Chunk(raws))
  }

  /** The checksum tag at p passes when the register before it was crc. */
  ghost predicate Passes(dev: seq<byte>, p: nat, crc: word) {
    p + 8 <= |dev| && UnLe(dev[p + 4..p + 8]) == CrcOf(crc, dev[p..p + 4])
  }

  /** The block holds this log, and every checksum in it passes. */
  ghost predicate Scanned(dev: seq<byte>, raws: seq<Raw>) {
    && Holds(dev, raws, End(raws))
    && (forall i :: 0 <= i < |raws| ==> raws[i].word == NextWord(Body(raws[i].word)))
    && (forall i :: 0 <= i < |raws| && IsCrc(raws[i].word) ==>
          Passes(dev, End(raws[..i]), Register(dev[..4], raws[..i])))
  }

  /** The block holds this log, and it ends with a commit. */
  ghost predicate Committed(dev: seq<byte>, raws: seq<Raw>) {
    Scanned(dev, raws) && raws != [] && IsCrc(raws[|raws| - 1].word)
  }

  /** What a scan gathers for the directory: file count, tail pair, and whether the tail continues it. */
  datatype Gathered = Gathered(count: nat, tail: seq<byte>, split: bool)

  const NO_TAIL: seq<byte> := [0xff, 0xff, 0xff, 0xff, 0xff, 0xff, 0xff, 0xff]

  /** One tag at p: 16-bit count, tail and split. */
  function Gather1(g: Gathered, dev: seq<byte>, p: nat, tag: word): Gathered {
    if Type1(TypeOf(tag)) == TYPE_NAME then g.(count := if IdOf(tag) >= g.count then IdOf(tag) + 1 else g.count)
    else if Type1(TypeOf(tag)) == TYPE_SPLICE then g.(count := (g.count + Splice(TypeOf(tag))) % 0x1_0000)
    else if IsTail(tag) && p + 12 <= |dev| then g.(split := TypeOf(tag) % 2 == 1, tail := dev[p + 4..p + 12])
    else g
  }

  function Gather(dev: seq<byte>, raws: seq<Raw>): Gathered {
    if raws == [] then Gathered(0, NO_TAIL, false)
    else
      var before := raws[..|raws| - 1];
      Gather1(Gather(dev, before), dev, End(before), Body(raws[|raws| - 1].word))
  }

  // LFS_TYPE_SOFTTAIL and LFS_TYPE_HARDTAIL
  const TYPE_SOFTTAIL: nat := 0x600
  const TYPE_HARDTAIL: nat := 0x601

  predicate HasTailType(w: word) { 0x600 <= TypeOf(w) < 0x700 }

  /** Entry i names the tail, and none behind it does. */
  ghost predicate NamesTail(raws: seq<Raw>, i: nat) {
    && i < |raws| && HasTailType(raws[i].word)
    && forall j :: i < j < |raws| ==> !HasTailType(raws[j].word)
  }

  /** The tail is what the last entry of a tail says, and it continues the directory if that one is hard. */
  ghost predicate TailIs(dev: seq<byte>, raws: seq<Raw>, g: Gathered) {
    && ((forall i :: 0 <= i < |raws| ==> !HasTailType(raws[i].word)) ==> g.tail == NO_TAIL && !g.split)
    && forall i: nat :: NamesTail(raws, i) ==> TailOfEntry(dev, End(raws[..i]), raws[i], g)
  }

  ghost predicate TailOfEntry(dev: seq<byte>, p: nat, r: Raw, g: Gathered) {
    && (TypeOf(r.word) == TYPE_HARDTAIL ==> g.split) && (TypeOf(r.word) == TYPE_SOFTTAIL ==> !g.split)
    && (g.split <==> TypeChunk(r.word) & 1 == 1)
    && (if |r.data| >= 8 then g.tail == r.data[..8] else p + 12 <= |dev| && g.tail == dev[p + 4..p + 12])
  }

  datatype State = State(off: nat, etag: word, gathered: Gathered)

  // ----- a log is determined by the block

  lemma EndStep(raws: seq<Raw>)
    requires Sized(raws) && raws != []
    ensures End(raws) == End(raws[..|raws| - 1]) + DSize(raws[|raws| - 1].word)
  {
    hide Xor, Body, Be, DSize;
    assert |raws[|raws| - 1].data| == DSize(raws[|raws| - 1].word) - 4;
  }

  lemma {:induction false} EndMonotonic(raws: seq<Raw>, m: nat)
    requires Sized(raws) && m <= |raws|
    ensures End(raws[..m]) + 4 * (|raws| - m) <= End(raws)
    decreases |raws|
  {
    if m == |raws| {
      assert raws[..m] == raws;
    } else {
      EndStep(raws);
      SizeAtLeast(raws[|raws| - 1].word);
      assert raws[..|raws| - 1][..m] == raws[..m];
      hide End;
      EndMonotonic(raws[..|raws| - 1], m);
    }
  }

  lemma ScannedPrefix(dev: seq<byte>, raws: seq<Raw>, n: nat)
    requires Scanned(dev, raws) && n <= |raws|
    ensures Scanned(dev, raws[..n])
    decreases |raws| - n
  {
    hide *;
    if n == |raws| {
      assert raws[..n] == raws;
    } else {
      ScannedPrefix(dev, raws, n + 1);
      DropLast(dev, raws[..n + 1]);
      assert raws[..n + 1][..n] == raws[..n];
    }
  }

  lemma DropLast(dev: seq<byte>, raws: seq<Raw>)
    requires Scanned(dev, raws) && raws != []
    ensures Scanned(dev, raws[..|raws| - 1])
  {
    hide IsCrc, NextWord, Body, Register, End, Passes, DSize;
    var n := |raws| - 1;
    EndStep(raws);
    LastEntry(dev, raws, End(raws));
    forall i | 0 <= i < n && IsCrc(raws[..n][i].word)
      ensures Passes(dev, End(raws[..n][..i]), Register(dev[..4], raws[..n][..i]))
    {
      assert raws[..n][..i] == raws[..i];
    }
  }

  /** The tag stored after a log. */
  function TagAfter(dev: seq<byte>, raws: seq<Raw>): word
    requires End(raws) + 4 <= |dev|
  {
    Xor(UnBe(dev[End(raws)..End(raws) + 4]), LastWord(raws))
  }

  /** The last entry of a scanned log, seen from the log before it. */
  lemma LastScanned(dev: seq<byte>, raws: seq<Raw>)
    requires Scanned(dev, raws) && raws != []
    ensures var before, r, p := raws[..|raws| - 1], raws[|raws| - 1], End(raws[..|raws| - 1]);
      && p + 4 <= |dev| && p + DSize(r.word) == End(raws) <= |dev|
      && TagAfter(dev, before) == Body(r.word) && r.word == NextWord(TagAfter(dev, before))
      && r.data == dev[p + 4..p + DSize(r.word)]
      && (IsCrc(r.word) ==> Passes(dev, p, Register(dev[..4], before)))
  {
    hide IsCrc, NextWord, Body, Xor, Register, End, Passes, DSize, Be, UnBe;
    var before, r := raws[..|raws| - 1], raws[|raws| - 1];
    EndStep(raws);
    SizeAtLeast(r.word);
    LastEntry(dev, raws, End(raws));
    BeRoundTrip(Xor(Body(r.word), LastWord(before)));
    XorBack(r.word, LastWord(before));
  }

  lemma SameLast(dev: seq<byte>, a: seq<Raw>, b: seq<Raw>)
    requires Scanned(dev, a) && Scanned(dev, b) && a != [] && b != [] && a[..|a| - 1] == b[..|b| - 1]
    ensures a == b
  {
    hide *;
    LastScanned(dev, a);
    LastScanned(dev, b);
    assert a == a[..|a| - 1] + [a[|a| - 1]];
    assert b == b[..|b| - 1] + [b[|b| - 1]];
  }

  /** Two logs in one block agree as far as both go. */
  lemma {:induction false} Agree(dev: seq<byte>, a: seq<Raw>, b: seq<Raw>)
    requires Scanned(dev, a) && Scanned(dev, b) && |a| <= |b|
    ensures b[..|a|] == a
    decreases |a|
  {
    hide *;
    if a != [] {
      var n := |a| - 1;
      var b' := b[..n + 1];
      ScannedPrefix(dev, b, n + 1);
      DropLast(dev, a);
      Agree(dev, a[..n], b);
      assert b'[..|b'| - 1] == b[..n];
      SameLast(dev, a, b');
    }
  }

  // ----- where a scan stops

  /** The tag after a log does not continue it. */
  ghost predicate Stops(dev: seq<byte>, all: seq<Raw>) {
    var p := End(all);
    p + 4 > |dev|
    || (var tag := TagAfter(dev, all);
        || !IsValid(tag) || p + DSize(tag) > |dev|
        || (IsCrc(tag) && !Passes(dev, p, Register(dev[..4], all)))
        || (IsTail(tag) && p + 12 > |dev|))
  }

  /** No log that ends with a commit goes past a place where the scan stops. */
  lemma NothingLonger(dev: seq<byte>, all: seq<Raw>, raws: seq<Raw>)
    requires Scanned(dev, all) && Stops(dev, all) && Committed(dev, raws)
    ensures |raws| <= |all|
  {
    hide *;
    if |raws| > |all| {
      var n := |all|;
      CommittedParts(dev, raws);
      Agree(dev, all, raws);
      ScannedPrefix(dev, raws, n + 1);
      var next := raws[..n + 1];
      assert next[..|next| - 1] == all;
      LastScanned(dev, next);
      RoomAfter(dev, raws, n);
      StopsNot(dev, all, next[n].word);
    }
  }

  lemma CommittedParts(dev: seq<byte>, raws: seq<Raw>)
    requires Committed(dev, raws)
    ensures Scanned(dev, raws) && raws != [] && IsCrc(raws[|raws| - 1].word)
  {
  }

  /** Behind an entry that is no checksum there is room for the eight bytes of one. */
  lemma RoomAfter(dev: seq<byte>, raws: seq<Raw>, n: nat)
    requires Committed(dev, raws) && n < |raws|
    ensures !IsCrc(raws[n].word) ==> End(raws[..n]) + 12 <= |dev|
  {
    hide *;
    var last := |raws| - 1;
    CommittedParts(dev, raws);
    LastScanned(dev, raws);
    PassesRoom(dev, End(raws[..last]), Register(dev[..4], raws[..last]));
    if n < last {
      DropLast(dev, raws);
      assert raws[..last][..n] == raws[..n];
      ScannedSized(dev, raws[..last]);
      EndMonotonic(raws[..last], n);
    }
  }

  lemma PassesRoom(dev: seq<byte>, p: nat, crc: word)
    requires Passes(dev, p, crc)
    ensures p + 8 <= |dev|
  {
  }

  lemma ScannedSized(dev: seq<byte>, raws: seq<Raw>)
    requires Scanned(dev, raws)
    ensures Sized(raws) && Holds(dev, raws, End(raws)) && 4 <= End(raws) <= |dev|
  {
  }

  lemma StopsNot(dev: seq<byte>, all: seq<Raw>, w: word)
    requires End(all) + 4 <= |dev| && End(all) + DSize(w) <= |dev| && TagAfter(dev, all) == Body(w)
    requires IsCrc(w) ==> Passes(dev, End(all), Register(dev[..4], all))
    requires !IsCrc(w) ==> End(all) + 12 <= |dev|
    ensures !Stops(dev, all)
  {
    BodyIsValid(w);
    SameFields(w, Body(w));
    BodyTwice(w);
    UnpackFields(w);
    UnpackFields(Body(w));
    hide Body, IsValid, DSize, Passes, Register, End, TagAfter, TypeOf;
  }

  lemma BodyIsValid(w: word)
    ensures IsValid(Body(w))
  {
  }

  // ----- the tail

  lemma NothingTailed(dev: seq<byte>)
    ensures TailIs(dev, [], Gather(dev, []))
  {
  }

  lemma OddType(h: bv3, c: bv8)
    ensures (0x100 * BandNumber(h) + ChunkNumber(c)) % 2 == 1 <==> c & 1 == 1
  {
    hide BandNumber, ChunkNumber;
    OddChunk(c);
    OddSum(BandNumber(h), ChunkNumber(c));
  }

  lemma OddSum(h: nat, c: nat)
    ensures (0x100 * h + c) % 2 == c % 2
  {
  }

  lemma OddChunk(c: bv8)
    ensures ChunkNumber(c) % 2 == 1 <==> c & 1 == 1
  {
  }

  lemma TailBand(ty: nat)
    ensures Type1(ty) == TYPE_TAIL <==> 0x600 <= ty < 0x700
    ensures Type1(ty) == TYPE_TAIL ==> Type1(ty) != TYPE_NAME && Type1(ty) != TYPE_SPLICE && Type1(ty) != TYPE_CRC
  {
  }

  /** What an entry brings to the tail. */
  lemma GathersTail(g: Gathered, dev: seq<byte>, p: nat, r: Raw)
    requires |r.data| == DSize(r.word) - 4 && p + DSize(r.word) <= |dev| && r.data == dev[p + 4..p + DSize(r.word)]
    requires !IsCrc(r.word) ==> p + 12 <= |dev|
    ensures var g' := Gather1(g, dev, p, Body(r.word));
      if HasTailType(r.word) then TailOfEntry(dev, p, r, g') else g'.tail == g.tail && g'.split == g.split
  {
    hide Body, DSize, TypeHigh, TypeChunk, Type1, BandNumber, ChunkNumber, Splice, IdOf;
    BodyType(r.word);
    TailBand(TypeOf(r.word));
    OddType(TypeHigh(r.word), TypeChunk(r.word));
    if |r.data| >= 8 && p + 12 <= |dev| {
      assert r.data[..8] == dev[p + 4..p + 12];
    }
  }

  lemma BodyType(w: word)
    ensures TypeOf(Body(w)) == TypeOf(w)
  {
    hide Body, TypeOf, IdOf, SizeOf;
    BodyTwice(w);
    SameFields(w, Body(w));
    UnpackFields(w);
    UnpackFields(Body(w));
  }

  /** The tail so far, from the entries so far. */
  lemma TailSnoc(dev: seq<byte>, before: seq<Raw>, r: Raw, g: Gathered, g': Gathered)
    requires TailIs(dev, before, g)
    requires if HasTailType(r.word) then TailOfEntry(dev, End(before), r, g')
      else g'.tail == g.tail && g'.split == g.split
    ensures TailIs(dev, before + [r], g')
  {
    hide HasTailType, TypeOf, End, TypeChunk;
    var all, n := before + [r], |before|;
    assert all[..n] == before;
    if !HasTailType(r.word) && forall i :: 0 <= i < |all| ==> !HasTailType(all[i].word) {
      assert forall i :: 0 <= i < n ==> before[i] == all[i];
    }
    forall i: nat | NamesTail(all, i) ensures TailOfEntry(dev, End(all[..i]), all[i], g') {
      if i < n {
        assert all[..i] == before[..i] && all[n] == r && all[i] == before[i];
        assert forall j :: i < j < n ==> before[j] == all[j];
        assert NamesTail(before, i);
      }
    }
  }

  lemma {:induction false} TailUpTo(dev: seq<byte>, raws: seq<Raw>, n: nat)
    requires Committed(dev, raws) && n <= |raws|
    ensures TailIs(dev, raws[..n], Gather(dev, raws[..n]))
    decreases n
  {
    hide *;
    if n == 0 {
      NothingTailed(dev);
    } else {
      var before, r := raws[..n - 1], raws[n - 1];
      TailUpTo(dev, raws, n - 1);
      CommittedParts(dev, raws);
      ScannedPrefix(dev, raws, n);
      assert raws[..n] == before + [r] && raws[..n][..n - 1] == before;
      LastScanned(dev, raws[..n]);
      SizeAtLeast(r.word);
      RoomAfter(dev, raws, n - 1);
      GathersTail(Gather(dev, before), dev, End(before), r);
      GatherSnoc(dev, before, r);
      TailSnoc(dev, before, r, Gather(dev, before), Gather(dev, raws[..n]));
    }
  }

  /** Tail and split that a scan reports are those of the last entry that names a tail. */
  lemma TailOfLog(dev: seq<byte>, raws: seq<Raw>)
    requires Committed(dev, raws)
    ensures TailIs(dev, raws, Gather(dev, raws))
  {
    hide *;
    TailUpTo(dev, raws, |raws|);
    assert raws[..|raws|] == raws;
  }

  // ----- the scan

  /** The word after a commit reads as not programmed: no valid tag that fits the block. */
  ghost predicate Unprogrammed(dev: seq<byte>, raws: seq<Raw>) {
    && End(raws) + 4 <= |dev|
    && (!IsValid(TagAfter(dev, raws)) || End(raws) + DSize(TagAfter(dev, raws)) > |dev|)
  }

  /** Another commit can be programmed behind the log: it ends with a whole program unit, and nothing follows it. */
  ghost predicate Erased(dev: seq<byte>, done: seq<Raw>, progSize: nat)
    requires progSize > 0
  {
    done != [] && Unprogrammed(dev, done) && End(done) % progSize == 0
  }

  ghost function Result(dev: seq<byte>, done: seq<Raw>): Option<State> {
    if done == [] then None else Some(State(End(done), LastWord(done), Gather(dev, done)))
  }

  /** done is the longest log in the block that ends with a commit, and extends every other one. */
  ghost predicate Longest(dev: seq<byte>, done: seq<Raw>) {
    && (done == [] || Committed(dev, done))
    && forall raws :: Committed(dev, raws) ==> raws <= done
  }

  /** What a scan of the block returns, whatever log it went through. */
  ghost predicate IsResult(dev: seq<byte>, progSize: nat, found: Option<State>, erased: bool)
    requires progSize > 0
  {
    exists log :: Longest(dev, log) && found == Result(dev, log) && (erased <==> Erased(dev, log, progSize))
  }

  /** Between tags: everything before End(all) is scanned, and done is the part up to the last checksum. */
  ghost predicate Progress(dev: seq<byte>, all: seq<Raw>, done: seq<Raw>, off: nat, ptag: word, crc: word,
                           g: Gathered, found: Option<State>) {
    && Scanned(dev, all) && off + DSize(ptag) == End(all) && ptag == LastWord(all)
    && crc == Register(dev[..4], all) && g == Gather(dev, all)
    && LastCommit(all, done)
    && found == Result(dev, done)
  }

  ghost predicate LastCommit(all: seq<Raw>, done: seq<Raw>) {
    && done <= all
    && (done == [] || IsCrc(done[|done| - 1].word))
    && forall i :: |done| <= i < |all| ==> !IsCrc(all[i].word)
  }

  /** lfs_dir_fetch on one block of the pair. */
  method Fetch(dev: seq<byte>, progSize: nat) returns (found: Option<State>, erased: bool, ghost done: seq<Raw>)
    requires |dev| >= 4 && progSize > 0
    ensures Longest(dev, done) && found == Result(dev, done) && (erased <==> Erased(dev, done, progSize))
    ensures IsResult(dev, progSize, found, erased)
    ensures found.Some? ==> TailIs(dev, done, found.value.gathered)
  {
    hide Longest, Result, Erased, TailIs;
    found, erased, done := Scan(dev, progSize);
    ResultTail(dev, done);
  }

  lemma ResultTail(dev: seq<byte>, done: seq<Raw>)
    requires Longest(dev, done)
    ensures Result(dev, done).Some? ==> TailIs(dev, done, Result(dev, done).value.gathered)
  {
    hide Committed, Gather, TailIs, End;
    if done != [] {
      TailOfLog(dev, done);
    }
  }

  /** The endless loop of the scan. */
  method Scan(dev: seq<byte>, progSize: nat) returns (found: Option<State>, erased: bool, ghost done: seq<Raw>)
    requires |dev| >= 4 && progSize > 0
    ensures Longest(dev, done) && found == Result(dev, done) && (erased <==> Erased(dev, done, progSize))
  {
    hide *;
    var off: nat := 0;
    var ptag := ALL_ONES;
    var g := Gathered(0, NO_TAIL, false);
    var crc := Update(ALL_ONES, dev[0..4]);
    found, erased, done := None, false, [];
    ghost var all: seq<Raw> := [];
    Start(dev);
    while true
      invariant Progress(dev, all, done, off, ptag, crc, g, found) && off <= |dev| && !erased
      decreases |dev| - off
    {
      ProgressParts(dev, all, done, off, ptag, crc, g, found);
      SizeAtLeast(ptag);
      off := off + DSize(ptag);
      if off + 4 > |dev| {
        StopsHere(dev, all, done);
        FullMeans(dev, all, done, progSize);
        return;
      }
      var stored := dev[off..off + 4];
      crc := Update(crc, stored);
      var tag := Xor(UnBe(stored), ptag);
      TagAfterIs(dev, all, tag);
      if !IsValid(tag) || off + DSize(tag) > |dev| {
        StopsHere(dev, all, done);
        erased := IsCrc(ptag) && (found.Some? && found.value.off % progSize == 0);
        ErasedMeans(dev, all, done, erased, progSize);
        return;
      }
      SizeAtLeast(tag);
      MoreMeans(dev, all, done, progSize);
      if IsCrc(tag) {
        if off + 8 > |dev| {
          NoRoomForChecksum(dev, off, Register(dev[..4], all));
          StopsHere(dev, all, done);
          return;
        }
        var dcrc := UnLe(dev[off + 4..off + 8]);
        PassesIs(dev, off, Register(dev[..4], all), crc, dcrc);
        if crc != dcrc {
          StopsHere(dev, all, done);
          return;
        }
        FollowsIs(dev, all, tag);
        AddChecksum(dev, all, g, tag);
        all := all + [NextRaw(dev, off, tag)];
        done := all;
        ptag := NextWord(tag);
        found := Some(State(off + DSize(tag), ptag, g));
        crc := ALL_ONES;
        continue;
      }
      if IsTail(tag) && off + 12 > |dev| {
        StopsHere(dev, all, done);
        return;
      }
      FollowsIs(dev, all, tag);
      NextRawParts(dev, off, tag);
      AddEntry(dev, all, done, crc, g, found, tag);
      crc := Update(crc, dev[off + 4..off + DSize(tag)]);
      g := GatherTag(dev, off, tag, g);
      all := all + [NextRaw(dev, off, tag)];
      ptag := tag;
    }
  }

  /** The bookkeeping for one tag that is no checksum. */
  method GatherTag(dev: seq<byte>, off: nat, tag: word, g: Gathered) returns (g': Gathered)
    requires IsTail(tag) ==> off + 12 <= |dev|
    ensures g' == Gather1(g, dev, off, tag)
  {
    hide TypeOf, IdOf;
    g' := g;
    if Type1(TypeOf(tag)) == TYPE_NAME {
      if IdOf(tag) >= g.count {
        g' := g'.(count := IdOf(tag) + 1);
      }
    } else if Type1(TypeOf(tag)) == TYPE_SPLICE {
      g' := g'.(count := (g.count + Splice(TypeOf(tag))) % 0x1_0000);
    } else if IsTail(tag) {
      g' := g'.(split := TypeOf(tag) % 2 == 1, tail := dev[off + 4..off + 12]);
    }
  }

  lemma Start(dev: seq<byte>)
    requires |dev| >= 4
    ensures Progress(dev, [], [], 0, ALL_ONES, CrcOf(ALL_ONES, dev[0..4]), Gathered(0, NO_TAIL, false), None)
  {
    hide DSize, CrcOf;
    FirstTag();
    assert dev[4..4] == [];
  }

  lemma ProgressParts(dev: seq<byte>, all: seq<Raw>, done: seq<Raw>, off: nat, ptag: word, crc: word,
                      g: Gathered, found: Option<State>)
    requires Progress(dev, all, done, off, ptag, crc, g, found)
    ensures Scanned(dev, all) && off + DSize(ptag) == End(all) && ptag == LastWord(all)
    ensures crc == Register(dev[..4], all) && g == Gather(dev, all) && LastCommit(all, done)
    ensures found == Result(dev, done)
  {
  }

  lemma TagAfterIs(dev: seq<byte>, all: seq<Raw>, tag: word)
    requires End(all) + 4 <= |dev| && tag == Xor(UnBe(dev[End(all)..End(all) + 4]), LastWord(all))
    ensures tag == TagAfter(dev, all)
  {
  }

  lemma StopsIs(dev: seq<byte>, all: seq<Raw>)
    requires
      || End(all) + 4 > |dev|
      || !IsValid(TagAfter(dev, all)) || End(all) + DSize(TagAfter(dev, all)) > |dev|
      || (IsCrc(TagAfter(dev, all)) && !Passes(dev, End(all), Register(dev[..4], all)))
      || (IsTail(TagAfter(dev, all)) && End(all) + 12 > |dev|)
    ensures Stops(dev, all)
  {
    hide End, IsValid, DSize, TagAfter, IsCrc, IsTail, Passes, Register;
  }

  /** The scan stops: what was committed so far is the longest committed log. */
  lemma StopsHere(dev: seq<byte>, all: seq<Raw>, done: seq<Raw>)
    requires Scanned(dev, all) && LastCommit(all, done)
    requires
      || End(all) + 4 > |dev|
      || !IsValid(TagAfter(dev, all)) || End(all) + DSize(TagAfter(dev, all)) > |dev|
      || (IsCrc(TagAfter(dev, all)) && !Passes(dev, End(all), Register(dev[..4], all)))
      || (IsTail(TagAfter(dev, all)) && End(all) + 12 > |dev|)
    ensures Longest(dev, done)
  {
    hide *;
    StopsIs(dev, all);
    LongestIs(dev, all, done);
  }

  lemma LongestIs(dev: seq<byte>, all: seq<Raw>, done: seq<Raw>)
    requires Scanned(dev, all) && LastCommit(all, done) && Stops(dev, all)
    ensures Longest(dev, done)
  {
    hide Scanned, Stops, IsCrc, LastCommit, Committed;
    DoneIsCommitted(dev, all, done);
    forall raws | Committed(dev, raws) ensures raws <= done {
      NothingBeyond(dev, all, done, raws);
    }
  }

  lemma DoneIsCommitted(dev: seq<byte>, all: seq<Raw>, done: seq<Raw>)
    requires Scanned(dev, all) && LastCommit(all, done)
    ensures done == [] || Committed(dev, done)
  {
    hide *;
    LastCommitParts(all, done);
    ScannedPrefix(dev, all, |done|);
    if done != [] {
      CommittedIs(dev, done);
    }
  }

  lemma LastCommitParts(all: seq<Raw>, done: seq<Raw>)
    requires LastCommit(all, done)
    ensures |done| <= |all| && done == all[..|done|] && (done == [] || IsCrc(done[|done| - 1].word))
  {
    hide IsCrc;
  }

  lemma CommittedIs(dev: seq<byte>, raws: seq<Raw>)
    requires Scanned(dev, raws) && raws != [] && IsCrc(raws[|raws| - 1].word)
    ensures Committed(dev, raws)
  {
    hide Scanned, IsCrc;
  }

  lemma NothingBeyond(dev: seq<byte>, all: seq<Raw>, done: seq<Raw>, raws: seq<Raw>)
    requires Scanned(dev, all) && LastCommit(all, done) && Stops(dev, all) && Committed(dev, raws)
    ensures raws <= done
  {
    hide Scanned, IsCrc, Stops, Committed;
    CommittedParts(dev, raws);
    NothingLonger(dev, all, raws);
    Agree(dev, raws, all);
    var last := |raws| - 1;
    assert all[last] == all[..|raws|][last];
    assert last < |done|;
  }

  lemma NoRoomForChecksum(dev: seq<byte>, p: nat, crc: word)
    requires p + 8 > |dev|
    ensures !Passes(dev, p, crc)
  {
  }

  lemma PassesIs(dev: seq<byte>, p: nat, before: word, crc: word, dcrc: word)
    requires p + 8 <= |dev| && crc == CrcOf(before, dev[p..p + 4]) && dcrc == UnLe(dev[p + 4..p + 8])
    ensures Passes(dev, p, before) <==> crc == dcrc
  {
    hide CrcOf, UnLe;
  }

  /** tag continues a scanned log. */
  ghost predicate Follows(dev: seq<byte>, all: seq<Raw>, tag: word) {
    && Scanned(dev, all) && End(all) + 4 <= |dev| && tag == TagAfter(dev, all) && IsValid(tag)
    && End(all) + DSize(tag) <= |dev|
    && (IsCrc(tag) ==> Passes(dev, End(all), Register(dev[..4], all)))
  }

  function NextRaw(dev: seq<byte>, p: nat, tag: word): Raw
    requires p + DSize(tag) <= |dev|
  {
    SizeAtLeast(tag);
    Raw(NextWord(tag), dev[p + 4..p + DSize(tag)])
  }

  /** A valid tag that fits continues a scanned log. */
  lemma ExtendScan(dev: seq<byte>, all: seq<Raw>, tag: word)
    requires Follows(dev, all, tag)
    ensures Scanned(dev, all + [NextRaw(dev, End(all), tag)])
    ensures End(all + [NextRaw(dev, End(all), tag)]) == End(all) + DSize(tag)
  {
    hide *;
    FollowsParts(dev, all, tag);
    NextWordBody(tag);
    var r := NextRaw(dev, End(all), tag);
    NextRawParts(dev, End(all), tag);
    StoredTag(dev, all, tag);
    HoldsSnoc(dev, all, r, End(all));
    AddedPasses(dev, all, r);
    ScannedIs(dev, all, r);
  }

  lemma FollowsIs(dev: seq<byte>, all: seq<Raw>, tag: word)
    requires Scanned(dev, all) && End(all) + 4 <= |dev| && tag == TagAfter(dev, all) && IsValid(tag)
    requires End(all) + DSize(tag) <= |dev| && (IsCrc(tag) ==> Passes(dev, End(all), Register(dev[..4], all)))
    ensures Follows(dev, all, tag)
  {
    hide Scanned, TagAfter, IsValid, DSize, IsCrc, Passes, Register;
  }

  lemma FollowsParts(dev: seq<byte>, all: seq<Raw>, tag: word)
    requires Follows(dev, all, tag)
    ensures Scanned(dev, all) && Holds(dev, all, End(all)) && 4 <= End(all) && End(all) + 4 <= |dev|
    ensures tag == TagAfter(dev, all) && IsValid(tag) && DSize(tag) >= 4 && End(all) + DSize(tag) <= |dev|
    ensures IsCrc(tag) ==> Passes(dev, End(all), Register(dev[..4], all))
  {
    hide IsValid, TagAfter, IsCrc, Passes, DSize;
    SizeAtLeast(tag);
  }

  lemma NextRawParts(dev: seq<byte>, p: nat, tag: word)
    requires p + DSize(tag) <= |dev|
    ensures p + 4 <= p + DSize(tag)
    ensures NextRaw(dev, p, tag).word == NextWord(tag) && NextRaw(dev, p, tag).data == dev[p + 4..p + DSize(tag)]
  {
    hide NextWord, DSize;
    SizeAtLeast(tag);
  }

  lemma StoredTag(dev: seq<byte>, all: seq<Raw>, tag: word)
    requires End(all) + 4 <= |dev| && tag == TagAfter(dev, all)
    ensures dev[End(all)..End(all) + 4] == Be(Xor(tag, LastWord(all)))
  {
    hide Be, UnBe, Xor, End, LastWord;
    StoredAgain(dev[End(all)..End(all) + 4], LastWord(all));
  }

  lemma AddedPasses(dev: seq<byte>, all: seq<Raw>, r: Raw)
    requires Scanned(dev, all) && (IsCrc(r.word) ==> Passes(dev, End(all), Register(dev[..4], all)))
    ensures var all' := all + [r];
      forall i :: 0 <= i < |all'| && IsCrc(all'[i].word) ==> Passes(dev, End(all'[..i]), Register(dev[..4], all'[..i]))
  {
    hide IsCrc, NextWord, Body, Register, Passes, Encode, End;
    var all' := all + [r];
    forall i | 0 <= i < |all'| && IsCrc(all'[i].word)
      ensures Passes(dev, End(all'[..i]), Register(dev[..4], all'[..i]))
    {
      assert all'[..i] == all[..i];
      assert all[..|all|] == all;
    }
  }

  lemma ScannedIs(dev: seq<byte>, all: seq<Raw>, r: Raw)
    requires Scanned(dev, all) && Holds(dev, all + [r], End(all + [r])) && r.word == NextWord(Body(r.word))
    requires var all' := all + [r];
      forall i :: 0 <= i < |all'| && IsCrc(all'[i].word) ==> Passes(dev, End(all'[..i]), Register(dev[..4], all'[..i]))
    ensures Scanned(dev, all + [r])
  {
    hide IsCrc, NextWord, Body, Register, Passes, Holds, End;
  }

  lemma EncodeSnoc(all: seq<Raw>, r: Raw)
    ensures Encode(all + [r]) == Encode(all) + Be(Xor(Body(r.word), LastWord(all))) + r.data
    ensures LastWord(all + [r]) == r.word
  {
    hide Be, Xor, Body;
    assert (all + [r])[..|all + [r]| - 1] == all;
  }

  lemma HoldsSnoc(dev: seq<byte>, all: seq<Raw>, r: Raw, p: nat)
    requires Holds(dev, all, p) && p == End(all) && |r.data| == DSize(r.word) - 4
    requires p + DSize(r.word) <= |dev| && r.data == dev[p + 4..p + DSize(r.word)]
    requires dev[p..p + 4] == Be(Xor(Body(r.word), LastWord(all)))
    ensures End(all + [r]) == p + DSize(r.word) && Holds(dev, all + [r], p + DSize(r.word))
  {
    hide Be, Xor, Body, DSize, Encode;
    EncodeSnoc(all, r);
    var q := p + DSize(r.word);
    assert dev[4..q] == dev[4..p] + dev[p..p + 4] + dev[p + 4..q];
  }

  lemma NextWordBody(tag: word)
    requires IsValid(tag)
    ensures Body(NextWord(tag)) == tag && Body(tag) == tag
    ensures DSize(NextWord(tag)) == DSize(tag) && IsCrc(NextWord(tag)) == IsCrc(tag)
  {
    hide *;
    ValidIsBody(tag);
    NextWordKeeps(tag);
    SameBody(NextWord(tag), tag);
  }

  lemma NextWordKeeps(tag: word)
    ensures Body(NextWord(tag)) == Body(tag)
  {
    hide Body, FlipIfReset, IsCrc;
    FlipBody(tag);
  }

  lemma SameBody(v: word, w: word)
    requires Body(v) == Body(w)
    ensures DSize(v) == DSize(w) && IsCrc(v) == IsCrc(w)
  {
    hide Body, Unpack, TypeOf, DSize;
    SameFields(v, w);
    UnpackFields(v);
    UnpackFields(w);
  }

  lemma ValidIsBody(tag: word)
    requires IsValid(tag)
    ensures Body(tag) == tag
  {
  }

  lemma FlipBody(tag: word)
    ensures Body(FlipIfReset(tag)) == Body(tag)
  {
  }

  lemma StoredAgain(stored: seq<byte>, prev: word)
    requires |stored| == 4
    ensures Be(Xor(Xor(UnBe(stored), prev), prev)) == stored
  {
    hide Be, UnBe, Xor;
    XorTwice(UnBe(stored), prev);
    UnBeRoundTrip(stored);
  }

  lemma XorTwice(a: word, b: word)
    ensures Xor(Xor(a, b), b) == a
  {
  }

  lemma UnBeRoundTrip(s: seq<byte>)
    requires |s| == 4
    ensures Be(UnBe(s)) == s
  {
  }

  /** A checksum that passes completes a commit. */
  lemma AddChecksum(dev: seq<byte>, all: seq<Raw>, g: Gathered, tag: word)
    requires Follows(dev, all, tag) && IsCrc(tag) && g == Gather(dev, all)
    ensures var all', found := all + [NextRaw(dev, End(all), tag)], State(End(all) + DSize(tag), NextWord(tag), g);
      Progress(dev, all', all', End(all), NextWord(tag), ALL_ONES, g, Some(found))
  {
    hide *;
    FollowsParts(dev, all, tag);
    NextWordBody(tag);
    var r := NextRaw(dev, End(all), tag);
    NextRawParts(dev, End(all), tag);
    ExtendScan(dev, all, tag);
    SameBody(r.word, tag);
    GatherSnoc(dev, all, r);
    CrcGathersNothing(g, dev, End(all), tag);
    LastIsCommit(dev, all, r);
    RegisterReset(dev[..4], all, r);
    ProgressIs(dev, all + [r], all + [r], End(all), NextWord(tag), ALL_ONES, g,
               Some(State(End(all) + DSize(tag), NextWord(tag), g)));
  }

  lemma RegisterAfter(rev: seq<byte>, log: seq<Raw>, r: Raw)
    requires IsCrc(r.word)
    ensures Register(rev, log + [r]) == ALL_ONES
  {
    hide IsCrc;
  }

  lemma LastIsCommit(dev: seq<byte>, all: seq<Raw>, r: Raw)
    requires IsCrc(r.word)
    ensures LastCommit(all + [r], all + [r]) && LastWord(all + [r]) == r.word
    ensures Result(dev, all + [r]) == Some(State(End(all + [r]), r.word, Gather(dev, all + [r])))
  {
    hide IsCrc, Gather, End, Chunk;
  }

  lemma CrcGathersNothing(g: Gathered, dev: seq<byte>, p: nat, tag: word)
    requires IsCrc(tag)
    ensures Gather1(g, dev, p, tag) == g
  {
    hide TypeOf;
  }

  lemma AddEntry(dev: seq<byte>, all: seq<Raw>, done: seq<Raw>, crc: word, g: Gathered, found: Option<State>, tag: word)
    requires Follows(dev, all, tag) && !IsCrc(tag) && g == Gather(dev, all)
    requires crc == CrcOf(Register(dev[..4], all), dev[End(all)..End(all) + 4])
    requires LastCommit(all, done) && found == Result(dev, done)
    ensures var r := NextRaw(dev, End(all), tag);
      Progress(dev, all + [r], done, End(all), tag, CrcOf(crc, r.data), Gather1(g, dev, End(all), tag), found)
  {
    hide *;
    FollowsParts(dev, all, tag);
    NextWordBody(tag);
    NotFlipped(tag);
    var r := NextRaw(dev, End(all), tag);
    NextRawParts(dev, End(all), tag);
    ExtendScan(dev, all, tag);
    StoredTag(dev, all, tag);
    RegisterSnoc(dev[..4], all, r, crc);
    GatherSnoc(dev, all, r);
    NotLast(all, done, r);
    LastWordSnoc(all, r);
    ProgressIs(dev, all + [r], done, End(all), tag, CrcOf(crc, r.data), Gather1(g, dev, End(all), tag), found);
  }

  lemma LastWordSnoc(all: seq<Raw>, r: Raw)
    ensures LastWord(all + [r]) == r.word
  {
  }

  lemma NotFlipped(tag: word)
    requires !IsCrc(tag)
    ensures NextWord(tag) == tag
  {
  }

  lemma ProgressIs(dev: seq<byte>, all: seq<Raw>, done: seq<Raw>, off: nat, ptag: word, crc: word,
                   g: Gathered, found: Option<State>)
    requires Scanned(dev, all) && off + DSize(ptag) == End(all) && ptag == LastWord(all)
    requires crc == Register(dev[..4], all) && g == Gather(dev, all) && LastCommit(all, done)
    requires found == Result(dev, done)
    ensures Progress(dev, all, done, off, ptag, crc, g, found)
  {
    hide Scanned, DSize, End, LastWord, Register, Gather, LastCommit, Result;
  }

  lemma RegisterReset(rev: seq<byte>, all: seq<Raw>, r: Raw)
    requires IsCrc(r.word)
    ensures Register(rev, all + [r]) == ALL_ONES
  {
    hide IsCrc;
  }

  lemma RegisterSnoc(rev: seq<byte>, all: seq<Raw>, r: Raw, crc: word)
    requires !IsCrc(r.word) && crc == CrcOf(Register(rev, all), Be(Xor(Body(r.word), LastWord(all))))
    ensures Register(rev, all + [r]) == CrcOf(crc, r.data)
  {
    hide CrcOf, IsCrc, Be, Body, Xor, LastWord;
    assert (all + [r])[..|all + [r]| - 1] == all;
    CrcConcat(Register(rev, all), Be(Xor(Body(r.word), LastWord(all))), r.data);
  }

  lemma GatherSnoc(dev: seq<byte>, all: seq<Raw>, r: Raw)
    ensures Gather(dev, all + [r]) == Gather1(Gather(dev, all), dev, End(all), Body(r.word))
  {
    hide Gather1, End, Body;
    assert (all + [r])[..|all + [r]| - 1] == all;
  }

  lemma NotLast(all: seq<Raw>, done: seq<Raw>, r: Raw)
    requires LastCommit(all, done) && !IsCrc(r.word)
    ensures LastCommit(all + [r], done)
  {
    hide IsCrc;
  }

  lemma ErasedMeans(dev: seq<byte>, all: seq<Raw>, done: seq<Raw>, erased: bool, progSize: nat)
    requires progSize > 0 && Scanned(dev, all) && LastCommit(all, done) && End(all) + 4 <= |dev|
    requires !IsValid(TagAfter(dev, all)) || End(all) + DSize(TagAfter(dev, all)) > |dev|
    requires erased <==> IsCrc(LastWord(all)) && Result(dev, done).Some? && Result(dev, done).value.off % progSize == 0
    ensures erased <==> Erased(dev, done, progSize)
  {
    hide IsValid, TagAfter, DSize, End, IsCrc, Gather, Scanned;
    NothingBehind(dev, all, done);
    if IsCrc(LastWord(all)) && done != [] {
      AllIsDone(all, done);
    }
  }

  /** The block is full. */
  lemma FullMeans(dev: seq<byte>, all: seq<Raw>, done: seq<Raw>, progSize: nat)
    requires progSize > 0 && Scanned(dev, all) && LastCommit(all, done) && End(all) + 4 > |dev|
    ensures !Erased(dev, done, progSize)
  {
    hide IsValid, TagAfter, DSize, End, IsCrc, Scanned;
    NothingBehind(dev, all, done);
  }

  /** Something valid follows the entries scanned so far. */
  lemma MoreMeans(dev: seq<byte>, all: seq<Raw>, done: seq<Raw>, progSize: nat)
    requires progSize > 0 && Scanned(dev, all) && LastCommit(all, done) && End(all) + 4 <= |dev|
    requires IsValid(TagAfter(dev, all)) && End(all) + DSize(TagAfter(dev, all)) <= |dev|
    ensures !Erased(dev, done, progSize)
  {
    hide IsValid, TagAfter, DSize, End, IsCrc, Scanned;
    NothingBehind(dev, all, done);
  }

  /** If nothing is programmed behind the last commit, it is the end of what was scanned. */
  lemma NothingBehind(dev: seq<byte>, all: seq<Raw>, done: seq<Raw>)
    requires Scanned(dev, all) && LastCommit(all, done)
    ensures Unprogrammed(dev, done) ==> all == done
  {
    hide IsValid, TagAfter, DSize, End, IsCrc, Scanned, Body, Passes, Register;
    if |all| > |done| && Unprogrammed(dev, done) {
      var n := |done|;
      ScannedPrefix(dev, all, n + 1);
      var upTo := all[..n + 1];
      assert upTo[..n] == done;
      LastScanned(dev, upTo);
      BodyIsValid(upTo[n].word);
      BodyTwice(upTo[n].word);
      SameFields(upTo[n].word, Body(upTo[n].word));
      assert false;
    }
  }

  lemma AllIsDone(all: seq<Raw>, done: seq<Raw>)
    requires LastCommit(all, done) && IsCrc(LastWord(all)) && done != []
    ensures done == all
  {
    hide IsCrc;
    var last := |all| - 1;
    assert all[last].word == LastWord(all);
    assert |done| == |all|;
  }
}
