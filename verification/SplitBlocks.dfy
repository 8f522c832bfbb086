/** Compaction of a directory from the bytes of its block: the log is read forward, split until its parts fit, and every
    part is written to a block of its own, where a fetch and lookups find it. */
module SplitBlocks {
  import opened Words
  import opened MetaLog
  import opened TagWord
  import opened MetaBlock
  import opened Compaction
  import opened Fetch
  import opened CommitLog
  import opened Atomicity
  import opened CompactedBlock

  // ----- reading forward

  /** A log without the valid bits, which the words in a block do not tell apart from those of their neighbours. */
  function Bodies(raws: seq<Raw>): (r: seq<Raw>)
    ensures |r| == |raws|
  {
    seq(|raws|, i requires 0 <= i < |raws| => Raw(Body(raws[i].word), raws[i].data))
  }

  lemma BodiesThen(raws: seq<Raw>, attrs: seq<Raw>)
    ensures Entries(Bodies(raws) + attrs) == Entries(raws + attrs)
    ensures Sized(raws) && Sized(attrs) ==> Sized(Bodies(raws) + attrs)
    ensures GoodTags(raws + attrs) ==> GoodTags(Bodies(raws) + attrs)
  {
    hide Body, Unpack, DSize, GoodTag;
    forall i | 0 <= i < |raws|
      ensures Unpack(Body(raws[i].word)) == Unpack(raws[i].word) && DSize(Body(raws[i].word)) == DSize(raws[i].word)
      ensures GoodTag(raws[i].word) ==> GoodTag(Body(raws[i].word))
    {
      BodyTwice(raws[i].word);
      SameFields(Body(raws[i].word), raws[i].word);
      if GoodTag(raws[i].word) {
        GoodBody(raws[i].word);
      }
    }
    assert forall i :: 0 <= i < |raws| ==> (raws + attrs)[i] == raws[i];
    assert forall i :: 0 <= i < |attrs| ==> (raws + attrs)[|raws| + i] == attrs[i];
  }

  /** tag | 0x80000000. */
  function Marked(w: word): word { w | 0x8000_0000 }

  lemma MarkedBody(w: word)
    ensures Body(Marked(w)) == Body(w)
  {
  }

  /** The bytes of entry n. */
  lemma EntryAt(dev: seq<byte>, raws: seq<Raw>, off: nat, n: nat)
    requires Holds(dev, raws, off) && n < |raws|
    ensures var at, r := End(raws[..n]), raws[n];
      && 4 <= at && at + DSize(r.word) == End(raws[..n + 1]) <= off <= |dev| && DSize(r.word) >= 4
      && dev[at..at + 4] == Be(Xor(Body(r.word), LastWord(raws[..n])))
      && dev[at + 4..at + DSize(r.word)] == r.data
  {
    hide Xor, Body, Be, DSize;
    var part := raws[..n + 1];
    HoldsPart(dev, raws, off, n + 1);
    LastEntry(dev, part, End(part));
    assert part[|part| - 1] == raws[n] && part[..|part| - 1] == raws[..n];
    EndStep(part);
    SizeAtLeast(raws[n].word);
  }

  lemma {:induction false} HoldsPart(dev: seq<byte>, raws: seq<Raw>, off: nat, n: nat)
    requires Holds(dev, raws, off) && n <= |raws|
    ensures Holds(dev, raws[..n], End(raws[..n])) && End(raws[..n]) <= off <= |dev|
    decreases |raws| - n
  {
    hide *;
    if n == |raws| {
      assert raws[..n] == raws;
      HoldsEnd(dev, raws, off);
    } else {
      var part := raws[..n + 1];
      HoldsPart(dev, raws, off, n + 1);
      LastEntry(dev, part, End(part));
      assert part[..|part| - 1] == raws[..n];
      HoldsEnd(dev, raws[..n], End(part) - DSize(part[|part| - 1].word));
    }
  }

  lemma HoldsEnd(dev: seq<byte>, raws: seq<Raw>, off: nat)
    requires Holds(dev, raws, off)
    ensures off == End(raws) && off <= |dev|
  {
    hide Encode, Sized;
  }

  /** A tag decoded forward, from the word stored and the tag before. */
  lemma DecodesNext(stored: seq<byte>, ptag: word, last: word, w: word)
    requires |stored| == 4 && stored == Be(Xor(Body(w), last)) && Body(ptag) == Body(last)
    ensures Body(Marked(Xor(UnBe(stored), ptag))) == Body(w)
  {
    hide Be, UnBe;
    BeRoundTrip(Xor(Body(w), last));
    MarkedBody(Xor(UnBe(stored), ptag));
    XorForward(w, last, ptag);
  }

  lemma XorForward(w: word, last: word, ptag: word)
    requires Body(ptag) == Body(last)
    ensures Body(Xor(Xor(Body(w), last), ptag)) == Body(w)
  {
  }

  /** Where the forward walk stands: behind the first n entries. */
  ghost predicate Forward(raws: seq<Raw>, n: nat, o: nat, ptag: word) {
    n <= |raws| && o + DSize(ptag) == End(raws[..n]) && Body(ptag) == Body(LastWord(raws[..n]))
  }

  lemma ForwardStarts(raws: seq<Raw>)
    ensures Forward(raws, 0, 0, ALL_ONES) && Bodies(raws[..0]) == []
  {
    FirstTag();
  }

  lemma ForwardGoesOn(raws: seq<Raw>, n: nat, o: nat, tag: word)
    requires n < |raws| && o == End(raws[..n]) && o + DSize(raws[n].word) == End(raws[..n + 1])
    requires Body(tag) == Body(raws[n].word)
    ensures Forward(raws, n + 1, o, tag) && DSize(tag) == DSize(raws[n].word)
    ensures Bodies(raws[..n + 1]) == Bodies(raws[..n]) + [Raw(Body(tag), raws[n].data)]
  {
    hide Body, DSize, End, Unpack;
    SameFields(tag, raws[n].word);
    assert raws[..n + 1][n] == raws[n];
  }

  /** The forward walk over the bytes, as lfs_dir_traverse makes it: all entries, but for their valid bits. */
  method ReadForward(dev: seq<byte>, off: nat, ghost raws: seq<Raw>) returns (read: seq<Raw>)
    requires Holds(dev, raws, off)
    ensures read == Bodies(raws)
  {
    hide *;
    read := [];
    var o: nat := 0;
    var ptag: word := 0xffff_ffff;
    AllOnes();
    ForwardStarts(raws);
    HoldsEnd(dev, raws, off);
    while o + DSize(ptag) < off
      invariant Forward(raws, |read|, o, ptag) && |read| <= |raws| && read == Bodies(raws[..|read|])
      decreases |raws| - |read|
    {
      ghost var n := |read|;
      ForwardParts(raws, n, o, ptag);
      NotAtEnd(raws, n, off);
      EntryAt(dev, raws, off, n);
      o := o + DSize(ptag);
      var tag := Marked(Xor(UnBe(dev[o..o + 4]), ptag));
      DecodesNext(dev[o..o + 4], ptag, LastWord(raws[..n]), raws[n].word);
      ForwardGoesOn(raws, n, o, tag);
      read := read + [Raw(Body(tag), dev[o + 4..o + DSize(tag)])];
      ptag := tag;
    }
    ForwardParts(raws, |read|, o, ptag);
    AtEnd(dev, raws, off, |read|);
    assert raws[..|raws|] == raws;
  }

  lemma AllOnes()
    ensures ALL_ONES == 0xffff_ffff
  {
  }

  lemma ForwardParts(raws: seq<Raw>, n: nat, o: nat, ptag: word)
    requires Forward(raws, n, o, ptag)
    ensures n <= |raws| && o + DSize(ptag) == End(raws[..n]) && Body(ptag) == Body(LastWord(raws[..n]))
  {
  }

  lemma NotAtEnd(raws: seq<Raw>, n: nat, off: nat)
    requires n <= |raws| && off == End(raws) && End(raws[..n]) < off
    ensures n < |raws|
  {
    hide End;
    assert raws[..|raws|] == raws;
  }

  lemma AtEnd(dev: seq<byte>, raws: seq<Raw>, off: nat, n: nat)
    requires Holds(dev, raws, off) && n <= |raws| && End(raws[..n]) >= off
    ensures n == |raws|
  {
    hide *;
    if n < |raws| {
      EntryAt(dev, raws, off, n);
    }
  }

  // ----- what is written

  /** Where a part of the directory has been written: its block, the offset and tag for the next commit, and how many
      files it has. */
  datatype Place = Place(block: array<byte>, off: nat, etag: word, count: nat)

  /** Every lookup of a file of the part can be made. */
  ghost predicate Searchable(log: seq<Raw>, count: nat) {
    forall key, id: nat :: IsFileKey(key) && id < count ==> Stays(Entries(log), key, id)
  }

  /** A fetch of the block finds this log, and lfs_dir_get can search it. */
  ghost predicate IsWritten(p: Place, d: seq<byte>, log: seq<Raw>) {
    && Fetched(d, log, p.off, p.etag) && Longest(d, log)
    && Holds(d, log, p.off) && GoodTags(log) && p.etag == LastWord(log) && Searchable(log, p.count)
  }

  ghost predicate AllWritten(places: seq<Place>, logs: seq<seq<Raw>>)
    reads set p | p in places :: p.block
  {
    |places| == |logs| && forall i :: 0 <= i < |places| ==> IsWritten(places[i], places[i].block[..], logs[i])
  }

  /** The parts as entries. */
  function Parts(places: seq<Place>, logs: seq<seq<Raw>>): seq<Piece>
    requires |places| == |logs|
  {
    seq(|places|, i requires 0 <= i < |places| => Piece(Entries(logs[i]), places[i].count))
  }

  /** The blocks are distinct and have the same size, a number of program units. */
  ghost predicate Fresh(own: array<byte>, pool: seq<array<byte>>, size: nat, progSize: nat) {
    && size >= 36 && progSize > 0 && size % progSize == 0 && own.Length == size && own !in pool
    && (forall i :: 0 <= i < |pool| ==> pool[i].Length == size)
    && forall i, j :: 0 <= i < j < |pool| ==> pool[i] != pool[j]
  }

  /** The blocks of the pool that have not been taken, which are the last ones. */
  ghost predicate IsRest(rest: seq<array<byte>>, pool: seq<array<byte>>) {
    |rest| <= |pool| && rest == pool[|pool| - |rest|..]
  }

  /** No pair has as many files as the loop of lfs_dir_compact would split. */
  ghost predicate AreSmall(places: seq<Place>) { forall p :: p in places ==> p.count < 0xff }

  lemma SmallTogether(a: seq<Place>, b: seq<Place>)
    ensures AreSmall(a) && AreSmall(b) ==> AreSmall(a + b)
  {
  }

  lemma OneSmall(p: Place)
    ensures p.count < 0xff ==> AreSmall([p])
    ensures AreSmall([])
  {
  }

  /** Places in blocks that were taken from the pool. */
  ghost predicate Taken(places: seq<Place>, pool: seq<array<byte>>, rest: seq<array<byte>>) {
    forall p :: p in places ==> p.block in pool && p.block !in rest
  }

  /** Places in own or in blocks that were taken from the pool. */
  ghost predicate Within(places: seq<Place>, own: array<byte>, pool: seq<array<byte>>, rest: seq<array<byte>>) {
    forall p :: p in places ==> p.block == own || (p.block in pool && p.block !in rest)
  }

  /** The bytes of a block that do not go to entries: the revision count, the tail and the global state. */
  function Reserved(extra: nat -> seq<Raw>): nat -> nat { (b: nat) => 4 + Bytes(extra(b)) }

  ghost predicate AllNeutral(extra: nat -> seq<Raw>) {
    forall b: nat :: AreNeutral(extra(b)) && AreAttrs(extra(b))
  }

  lemma NeutralAt(extra: nat -> seq<Raw>, b: nat)
    requires AllNeutral(extra)
    ensures AreNeutral(extra(b)) && AreAttrs(extra(b)) && Reserved(extra)(b) == 4 + Bytes(extra(b))
  {
    hide AreNeutral, AreAttrs, Bytes;
  }

  lemma {:induction false} BytesAreSize(raws: seq<Raw>)
    ensures Bytes(raws) == LogSize(Entries(raws))
  {
    hide SizeOf, DiskSize;
    if raws != [] {
      var n := |raws| - 1;
      BytesAreSize(raws[..n]);
      assert Entries(raws)[..n] == Entries(raws[..n]);
    }
  }

  /** The bytes of a block with these entries. */
  lemma WrittenSize(raws: seq<Raw>, begin: nat, end: nat, extra: nat -> seq<Raw>)
    requires Sized(raws) && end <= begin + NO_ID && AllNeutral(extra)
    ensures End(EmitRaws(raws, begin, end) + extra(begin))
      == Reserved(extra)(begin) + LogSize(Emit(Entries(raws), begin, end))
  {
    hide *;
    var out := EmitRaws(raws, begin, end);
    NeutralAt(extra, begin);
    EmitIsEntries(raws, begin, end);
    BytesAreSize(out);
    SizedNothing();
    AttrsSized([], out);
    assert [] + out == out;
    EndOfAttrs([], out);
    EndOfAttrs(out, extra(begin));
    EmptyEnd();
  }

  lemma SizedNothing()
    ensures Sized([])
  {
  }

  /** One part that keeps all lookups. */
  lemma KeepsHold(raws: seq<Raw>, log: seq<Raw>, begin: nat, end: nat)
    requires Keeps(raws, log, begin, end) && begin <= end
    ensures Hold([Piece(Entries(log), end - begin)], Entries(raws), begin, end) && Searchable(log, end - begin)
  {
    hide Lookup, Entries, IsFileKey, Stays;
    var pieces := [Piece(Entries(log), end - begin)];
    assert pieces[1..] == [] && TotalCount(pieces) == end - begin + TotalCount([]);
    forall key, id: nat | IsFileKey(key) && id < end - begin
      ensures PieceLookup(pieces, key, id) == Lookup(Entries(raws), key, begin + id) && Stays(Entries(log), key, id)
    {
      assert KeepsOne(raws, log, begin, key, begin + id);
    }
  }

  lemma PartsConcat(a: seq<Place>, la: seq<seq<Raw>>, b: seq<Place>, lb: seq<seq<Raw>>)
    requires |a| == |la| && |b| == |lb|
    ensures Parts(a + b, la + lb) == Parts(a, la) + Parts(b, lb)
  {
    hide Entries;
  }

  /** Parts of adjacent ranges together. */
  lemma Joined(a: seq<Place>, la: seq<seq<Raw>>, b: seq<Place>, lb: seq<seq<Raw>>, log: seq<Entry>, begin: nat,
               mid: nat, end: nat)
    requires AllWritten(a, la) && AllWritten(b, lb)
    requires Hold(Parts(a, la), log, begin, mid) && Hold(Parts(b, lb), log, mid, end)
    ensures AllWritten(a + b, la + lb) && |a + b| == |la + lb|
    ensures Hold(Parts(a + b, la + lb), log, begin, end)
  {
    hide IsWritten, Hold, Parts;
    PartsConcat(a, la, b, lb);
    HoldConcat(Parts(a, la), Parts(b, lb), log, begin, mid, end);
  }

  lemma NothingWrittenYet(log: seq<Entry>, at: nat)
    ensures AllWritten([], []) && Hold(Parts([], []), log, at, at)
  {
    hide Hold, PieceLookup, TotalCount;
    HoldNothing(log, at);
    assert Parts([], []) == [];
  }

  lemma PoolParts(own: array<byte>, pool: seq<array<byte>>, size: nat, progSize: nat)
    requires Fresh(own, pool, size, progSize)
    ensures size >= 36 && progSize > 0 && size % progSize == 0 && own.Length == size && own !in pool
    ensures IsRest(pool, pool)
  {
  }

  lemma NextOfPool(own: array<byte>, pool: seq<array<byte>>, size: nat, progSize: nat, rest: seq<array<byte>>)
    requires Fresh(own, pool, size, progSize) && IsRest(rest, pool) && rest != []
    ensures Fresh(rest[0], rest[1..], size, progSize)
  {
    var k := |pool| - |rest|;
    assert rest[0] == pool[k] && rest[1..] == pool[k + 1..];
  }

  /** The end of lfs_dir_compact: the entries of what is left go to the other block of the pair, unless they overflow
      it. */
  method WriteOut(raws: seq<Raw>, begin: nat, end: nat, own: array<byte>, progSize: nat, rev: word,
                  extra: nat -> seq<Raw>)
    returns (ok: bool, place: Place, ghost log: seq<Raw>)
    requires progSize > 0 && own.Length % progSize == 0 && own.Length >= 36
    requires Sized(raws) && GoodTags(raws) && begin <= end <= NO_ID && AllNeutral(extra)
    modifies own
    ensures place.block == own
    ensures ok ==> AllWritten([place], [log]) && Hold(Parts([place], [log]), Entries(raws), begin, end)
    ensures ok <==> Reserved(extra)(begin) + LogSize(Emit(Entries(raws), begin, end)) <= own.Length - 8
    ensures place.count == end - begin
  {
    hide *;
    NeutralAt(extra, begin);
    WrittenSize(raws, begin, end, extra);
    EmptyEnd();
    var off, etag;
    ok, off, etag, log := Rewrite(own, progSize, rev, raws, begin, end, extra(begin));
    place := Place(own, off, etag, end - begin);
    if ok {
      KeepsHold(raws, log, begin, end);
      OnePart(place, log);
    }
  }

  lemma OnePart(p: Place, log: seq<Raw>)
    requires Fetched(p.block[..], log, p.off, p.etag) && Longest(p.block[..], log)
    requires Holds(p.block[..], log, p.off) && GoodTags(log) && p.etag == LastWord(log) && Searchable(log, p.count)
    ensures AllWritten([p], [log]) && Parts([p], [log]) == [Piece(Entries(log), p.count)]
  {
    hide Fetched, Longest, Holds, GoodTags, LastWord, Searchable, Entries;
  }

  /** lfs_dir_compact without relocation, from the entries of a block: split until the rest fits, then write it to the
      other block of the pair. Every part is in a block where a fetch finds it, all parts together answer every lookup
      as the log did, and blocks that were not taken are untouched. It succeeds if there is a block for every id but the
      first, and the entries of any single id fit into one. */
  method CompactInto(raws: seq<Raw>, begin: nat, end: nat, own: array<byte>, pool: seq<array<byte>>, progSize: nat,
                     revs: nat -> word, extra: nat -> seq<Raw>)
    returns (ok: bool, places: seq<Place>, rest: seq<array<byte>>, ghost logs: seq<seq<Raw>>)
    requires Fresh(own, pool, own.Length, progSize)
    requires Sized(raws) && GoodTags(raws) && begin <= end <= NO_ID && AllNeutral(extra)
    modifies own, set b | b in pool
    ensures IsRest(rest, pool)
    ensures forall b :: b in rest ==> b[..] == old(b[..])
    ensures ok ==> Within(places, own, pool, rest) && AllWritten(places, logs)
    ensures ok ==> Hold(Parts(places, logs), Entries(raws), begin, end)
    ensures own.Length >= 36 && progSize > 0
    ensures Enough(own.Length, progSize, Reserved(extra), Entries(raws), begin, end, |pool|) ==> ok && AreSmall(places)
    ensures |pool| <= |rest| + (if begin < end then end - begin - 1 else 0)
    ensures FitTogether(own.Length, progSize, Entries(raws), begin, end) ==> rest == pool && (ok ==> |places| == 1)
    ensures pool == [] ==> (ok <==> FitAlone(own.Length, Reserved(extra)(begin), Entries(raws), begin, end))
    decreases end - begin, 1
  {
    hide *;
    PoolParts(own, pool, own.Length, progSize);
    FitAloneIs(own.Length, progSize, Reserved(extra)(begin), Entries(raws), begin, end);
    var last;
    ok, last, places, rest, logs := SplitOff(raws, begin, end, own, pool, progSize, revs, extra);
    if !ok {
      return;
    }
    if Enough(own.Length, progSize, Reserved(extra), Entries(raws), begin, end, |pool|) {
      EnoughToWrite(own.Length, progSize, Reserved(extra), Entries(raws), begin, end, |pool|, last);
    }
    var head;
    ghost var headLog, tailPlaces := [], places;
    TakenBlocks(places, pool, rest);
    RestOfRest(rest, pool, pool);
    ok, head, headLog := WriteOut(raws, begin, last, own, progSize, revs(begin), extra);
    if ok {
      Joined([head], [headLog], places, logs, Entries(raws), begin, last, end);
      OneSmall(head);
      SmallTogether([head], places);
      places, logs := [head] + places, [headLog] + logs;
      WithinIs(head, tailPlaces, pool, rest);
    }
  }

  /** The loop of lfs_dir_compact: the upper half of the ids goes to another pair, as long as the rest does not fit and
      this is possible. */
  method SplitOff(raws: seq<Raw>, begin: nat, end: nat, own: array<byte>, pool: seq<array<byte>>, progSize: nat,
                  revs: nat -> word, extra: nat -> seq<Raw>)
    returns (ok: bool, last: nat, places: seq<Place>, rest: seq<array<byte>>, ghost logs: seq<seq<Raw>>)
    requires Fresh(own, pool, own.Length, progSize) && own.Length >= 36 && progSize > 0
    requires Sized(raws) && GoodTags(raws) && begin <= end <= NO_ID && AllNeutral(extra)
    modifies set b | b in pool
    ensures IsRest(rest, pool) && begin <= last <= end
    ensures forall b :: b in rest ==> b[..] == old(b[..])
    ensures |places| == |logs| && AllWritten(places, logs) && Hold(Parts(places, logs), Entries(raws), last, end)
    ensures Taken(places, pool, rest)
    ensures |pool| <= |rest| + (if begin < end then end - begin - 1 else 0)
    ensures Enough(own.Length, progSize, Reserved(extra), Entries(raws), begin, end, |pool|) ==>
      && ok && AreSmall(places) && last - begin < 0xff
      && (last - begin > 1 ==> LogSize(Emit(Entries(raws), begin, last)) <= Room(own.Length, progSize))
    ensures FitTogether(own.Length, progSize, Entries(raws), begin, end) ==> last == end && places == [] && rest == pool
    ensures pool == [] ==> last == end && places == []
    ensures pool == [] ==>
      (ok <==> end - begin <= 1 || LogSize(Emit(Entries(raws), begin, end)) <= own.Length - 36)
    decreases end - begin, 0
  {
    hide *;
    GoodTagsSplice(raws);
    ghost var es := Entries(raws);
    ghost var enough := Enough(own.Length, progSize, Reserved(extra), es, begin, end, |pool|);
    last, rest, places, logs := end, pool, [], [];
    NothingWrittenYet(es, end);
    NothingTaken(pool, pool);
    OneSmall(Place(own, 0, 0, 0));
    FitTogetherIs(own.Length, progSize, es, begin, end);
    FitAloneIs(own.Length, progSize, 0, es, begin, end);
    while last - begin > 1
      invariant FitTogether(own.Length, progSize, es, begin, end) ==> last == end && places == [] && rest == pool
      invariant pool == [] ==> last == end && places == [] && rest == []
      invariant begin <= last <= end && IsRest(rest, pool)
      invariant forall b :: b in rest ==> b in pool && b[..] == old(b[..])
      invariant |places| == |logs| && AllWritten(places, logs) && Hold(Parts(places, logs), es, last, end)
      invariant Taken(places, pool, rest) && (enough ==> AreSmall(places))
      invariant |pool| <= |rest| + (end - last) && (begin < end ==> begin < last)
      decreases last - begin
    {
      TakenBlocks(places, pool, rest);
      var size := TraverseSize(Entries(raws), begin, last);
      if last - begin < 0xff && size <= Room(own.Length, progSize) {
        break;
      }
      var split := (last - begin) / 2;
      if enough {
        EnoughPairs(own.Length, progSize, Reserved(extra), es, begin, end, |pool|);
        EnoughBehind(own.Length, progSize, Reserved(extra), es, begin, end, |pool|, begin + split, last, |rest| - 1);
      }
      var fits;
      fits, places, rest, logs :=
        TailOff(raws, begin + split, last, end, own, pool, rest, places, progSize, revs, extra, logs);
      if !fits {
        return size <= own.Length - 36, last, places, rest, logs;
      }
      last := begin + split;
    }
    ok := true;
  }

  /** One more split, in front of the places so far. */
  method TailOff(raws: seq<Raw>, split: nat, last: nat, end: nat, own: array<byte>, pool: seq<array<byte>>,
                 before: seq<array<byte>>, behind: seq<Place>, progSize: nat, revs: nat -> word, extra: nat -> seq<Raw>,
                 ghost behindLogs: seq<seq<Raw>>)
    returns (fits: bool, places: seq<Place>, rest: seq<array<byte>>, ghost logs: seq<seq<Raw>>)
    requires Fresh(own, pool, own.Length, progSize) && own.Length >= 36 && progSize > 0
    requires Sized(raws) && GoodTags(raws) && split <= last <= end <= NO_ID && AllNeutral(extra)
    requires IsRest(before, pool) && Taken(behind, pool, before) && |behind| == |behindLogs|
    requires AllWritten(behind, behindLogs) && Hold(Parts(behind, behindLogs), Entries(raws), last, end)
    modifies set b | b in before
    ensures IsRest(rest, pool) && Taken(places, pool, rest) && |places| == |logs|
    ensures forall b :: b in rest ==> b in before && b in pool && b[..] == old(b[..])
    ensures AllWritten(places, logs) && Hold(Parts(places, logs), Entries(raws), if fits then split else last, end)
    ensures !fits ==> places == behind && logs == behindLogs
    ensures before == [] ==> !fits && rest == []
    ensures |before| > 0 && Enough(own.Length, progSize, Reserved(extra), Entries(raws), split, last, |before| - 1) ==>
      fits && (AreSmall(behind) ==> AreSmall(places))
    ensures split < last ==> |before| <= |rest| + (last - split)
    decreases last - split, 3
  {
    hide *;
    if before != [] {
      NextOfPool(own, pool, own.Length, progSize, before);
    }
    TakenBlocks(behind, pool, before);
    NothingTaken(pool, pool);
    RestOfRest(before, pool, pool);
    fits, places, rest, logs := SplitInto(raws, split, last, before, own.Length, progSize, revs, extra);
    RestOfRest(rest, before, pool);
    if !fits {
      NothingTaken(before, rest);
      TakenAgain([], behind, rest, before, pool);
      places, logs := behind, behindLogs;
      return;
    }
    TakenAgain(places, behind, rest, before, pool);
    Joined(places, logs, behind, behindLogs, Entries(raws), split, last, end);
    SmallTogether(places, behind);
    places, logs := places + behind, logs + behindLogs;
  }

  lemma RestOfRest(rest: seq<array<byte>>, before: seq<array<byte>>, pool: seq<array<byte>>)
    requires IsRest(rest, before) && IsRest(before, pool)
    ensures IsRest(rest, pool)
    ensures forall b :: b in rest ==> b in before
    ensures forall b :: b in before ==> b in pool
  {
    var k, l := |pool| - |before|, |before| - |rest|;
    assert before[l..] == pool[k..][l..] == pool[k + l..];
  }

  lemma TakenAgain(tails: seq<Place>, places: seq<Place>, rest: seq<array<byte>>, before: seq<array<byte>>,
                   pool: seq<array<byte>>)
    requires IsRest(rest, before) && IsRest(before, pool) && Taken(tails, before, rest) && Taken(places, pool, before)
    ensures Taken(tails + places, pool, rest) && Taken(places, pool, rest)
  {
    hide IsRest;
    RestOfRest(rest, before, pool);
  }

  lemma NothingTaken(pool: seq<array<byte>>, rest: seq<array<byte>>)
    ensures Taken([], pool, rest) && IsRest(pool, pool)
  {
  }

  lemma TakenBlocks(places: seq<Place>, pool: seq<array<byte>>, rest: seq<array<byte>>)
    requires Taken(places, pool, rest)
    ensures forall p :: p in places ==> p.block in pool && p.block !in rest
  {
  }

  lemma WithinIs(head: Place, places: seq<Place>, pool: seq<array<byte>>, rest: seq<array<byte>>)
    requires Taken(places, pool, rest)
    ensures Within([head] + places, head.block, pool, rest)
  {
  }

  /** lfs_dir_split: the next pair of the pool takes the upper ids. */
  method SplitInto(raws: seq<Raw>, split: nat, end: nat, pool: seq<array<byte>>, size: nat, progSize: nat,
                   revs: nat -> word, extra: nat -> seq<Raw>)
    returns (ok: bool, places: seq<Place>, rest: seq<array<byte>>, ghost logs: seq<seq<Raw>>)
    requires size >= 36 && progSize > 0 && (pool != [] ==> Fresh(pool[0], pool[1..], size, progSize))
    requires Sized(raws) && GoodTags(raws) && split <= end <= NO_ID && AllNeutral(extra)
    modifies set b | b in pool
    ensures IsRest(rest, pool)
    ensures forall b :: b in rest ==> b[..] == old(b[..])
    ensures ok ==> AllWritten(places, logs) && Hold(Parts(places, logs), Entries(raws), split, end)
    ensures ok ==> Taken(places, pool, rest)
    ensures |pool| > 0 && Enough(size, progSize, Reserved(extra), Entries(raws), split, end, |pool| - 1) ==>
      ok && AreSmall(places)
    ensures split < end ==> |pool| <= |rest| + (end - split)
    ensures pool == [] ==> !ok && rest == []
    decreases end - split, 2
  {
    hide *;
    if pool == [] {
      NothingTaken(pool, pool);
      return false, [], [], [];
    }
    PoolParts(pool[0], pool[1..], size, progSize);
    ok, places, rest, logs := CompactInto(raws, split, end, pool[0], pool[1..], progSize, revs, extra);
    OneTaken(pool, rest);
    if ok {
      TakenInside(pool, rest, places);
    }
  }

  lemma OneTaken(pool: seq<array<byte>>, rest: seq<array<byte>>)
    requires pool != [] && IsRest(rest, pool[1..])
    ensures IsRest(rest, pool) && |rest| < |pool|
    ensures forall b :: b in pool[1..] ==> b in pool
    ensures forall b :: b in rest ==> b in pool[1..]
  {
    assert pool[1..][|pool| - 1 - |rest|..] == pool[|pool| - |rest|..];
  }

  lemma TakenInside(pool: seq<array<byte>>, rest: seq<array<byte>>, places: seq<Place>)
    requires pool != [] && IsRest(rest, pool[1..]) && pool[0] !in pool[1..] && Within(places, pool[0], pool[1..], rest)
    ensures Taken(places, pool, rest)
  {
    hide IsRest;
    OneTaken(pool, rest);
  }

  /** A directory and the attributes of a commit compacted into other blocks: from the bytes of the log to bytes in
      which every lookup is answered as behind these attributes. */
  method CompactDirectory(disk: seq<byte>, off: nat, begin: nat, end: nat, own: array<byte>, pool: seq<array<byte>>,
                          progSize: nat, revs: nat -> word, extra: nat -> seq<Raw>, attrs: seq<Raw>,
                          ghost raws: seq<Raw>)
    returns (ok: bool, places: seq<Place>, rest: seq<array<byte>>, ghost logs: seq<seq<Raw>>)
    requires Holds(disk, raws, off) && Sized(attrs) && GoodTags(raws + attrs) && begin <= end <= NO_ID
    requires Fresh(own, pool, own.Length, progSize) && AllNeutral(extra)
    modifies own, set b | b in pool
    ensures IsRest(rest, pool)
    ensures forall b :: b in rest ==> b[..] == old(b[..])
    ensures ok ==> Within(places, own, pool, rest) && AllWritten(places, logs)
    ensures ok ==> Hold(Parts(places, logs), Entries(raws + attrs), begin, end)
    ensures own.Length >= 36 && progSize > 0
    ensures Enough(own.Length, progSize, Reserved(extra), Entries(raws + attrs), begin, end, |pool|) ==> ok
    ensures FitTogether(own.Length, progSize, Entries(raws + attrs), begin, end) ==>
      rest == pool && (ok ==> |places| == 1)
  {
    hide *;
    HoldsSized(disk, raws, off);
    BodiesThen(raws, attrs);
    var read := ReadForward(disk, off, raws);
    ok, places, rest, logs := CompactInto(read + attrs, begin, end, own, pool, progSize, revs, extra);
    NothingTaken(pool, pool);
    RestOfRest(rest, pool, pool);
  }

  lemma HoldsSized(disk: seq<byte>, raws: seq<Raw>, off: nat)
    requires Holds(disk, raws, off)
    ensures Sized(raws)
  {
    hide Sized, Encode;
  }
}
