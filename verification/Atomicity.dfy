/** Whole commits: what a directory block says after any sequence of them, complete or torn, and which block of a
    pair is believed. */
module Atomicity {
  import opened Bits
  import opened Words
  import opened MetaLog
  import opened TagWord
  import opened MetaBlock
  import opened Crc
  import opened Fetch
  import opened CommitLog

  /** There is only one longest log. */
  lemma OneLongest(d: seq<byte>, a: seq<Raw>, b: seq<Raw>)
    requires Longest(d, a) && Longest(d, b)
    ensures a == b
  {
    hide Committed;
    if a != [] && b != [] {
      assert a <= b && b <= a;
    }
  }

  /** A scan has one result only: offset, last tag, count, tail, split, and whether another commit fits behind. */
  lemma OneResult(d: seq<byte>, progSize: nat, found: Option<State>, erased: bool, found': Option<State>, erased': bool)
    requires progSize > 0 && IsResult(d, progSize, found, erased) && IsResult(d, progSize, found', erased')
    ensures found == found' && erased == erased'
  {
    hide Longest, Result, Erased;
    var a :| Longest(d, a) && found == Result(d, a) && (erased <==> Erased(d, a, progSize));
    var b :| Longest(d, b) && found' == Result(d, b) && (erased' <==> Erased(d, b, progSize));
    OneLongest(d, a, b);
  }

  // ----- torn commits

  lemma {:induction false} GatherKept(d: seq<byte>, d': seq<byte>, raws: seq<Raw>)
    requires Sized(raws) && Whole(raws) && End(raws) <= |d| && End(raws) <= |d'| && d'[..End(raws)] == d[..End(raws)]
    ensures Gather(d', raws) == Gather(d, raws)
  {
    if raws != [] {
      var before, r := raws[..|raws| - 1], raws[|raws| - 1];
      assert Full(r.word) && |r.data| == DSize(r.word) - 4;
      EndStep(raws);
      WholePrefix(raws, |raws| - 1);
      PrefixSized(raws, |raws| - 1);
      hide *;
      ShorterKept(d, d', End(before), End(raws));
      GatherKept(d, d', before);
      GatherUnfold(d, raws);
      GatherUnfold(d', raws);
      SameGather1(d, d', End(before), End(raws), r.word, Gather(d, before));
    }
  }

  lemma GatherUnfold(d: seq<byte>, raws: seq<Raw>)
    requires raws != []
    ensures Gather(d, raws)
      == Gather1(Gather(d, raws[..|raws| - 1]), d, End(raws[..|raws| - 1]), Body(raws[|raws| - 1].word))
  {
    hide Gather1, End, Body;
  }

  lemma ShorterKept(d: seq<byte>, d': seq<byte>, m: nat, n: nat)
    requires m <= n <= |d| && n <= |d'| && d'[..n] == d[..n]
    ensures d'[..m] == d[..m]
  {
    assert d[..m] == d[..n][..m] && d'[..m] == d'[..n][..m];
  }

  lemma WholePrefix(raws: seq<Raw>, n: nat)
    requires Whole(raws) && n <= |raws|
    ensures Whole(raws[..n])
  {
    hide Full;
  }

  lemma SameGather1(d: seq<byte>, d': seq<byte>, p: nat, end: nat, w: word, g: Gathered)
    requires Full(w) && p + DSize(w) == end && end <= |d| && end <= |d'| && d'[..end] == d[..end]
    ensures Gather1(g, d', p, Body(w)) == Gather1(g, d, p, Body(w))
  {
    hide TypeOf, IdOf, Body, DSize, Full;
    BodyTwice(w);
    TailSize(w);
    if IsTail(Body(w)) {
      assert d[p + 4..p + 12] == d[..end][p + 4..p + 12] && d'[p + 4..p + 12] == d'[..end][p + 4..p + 12];
    }
  }

  lemma TailSize(w: word)
    requires Full(w)
    ensures IsTail(Body(w)) ==> DSize(w) >= 12
  {
    hide Body, Unpack, TypeOf, DSize;
    BodyTwice(w);
    SameFields(Body(w), w);
    UnpackFields(w);
    UnpackFields(Body(w));
  }

  /** Power fails while a commit is being written behind a fetched log: if what got written of it ends, behind some
      complete entries, without a valid checksum or a valid tag, the scan finds exactly the state before. */
  lemma TornCommit(d: seq<byte>, d': seq<byte>, log: seq<Raw>, off: nat, etag: word, partial: seq<Raw>)
    requires Fetched(d, log, off, etag) && off <= |d'| && d'[..off] == d[..off]
    requires Scanned(d', log + partial) && (forall i :: 0 <= i < |partial| ==> !IsCrc(partial[i].word))
    requires Stops(d', log + partial)
    ensures Longest(d', log) && Result(d', log) == Result(d, log)
  {
    hide *;
    FetchedParts(d, log, off, etag);
    ScannedSized(d, log);
    NoChecksumBehind(log, partial);
    LongestIs(d', log + partial, log);
    GatherKept(d, d', log);
    SameResult(d, d', log);
  }

  /** Whatever was written behind a fetched log, or into a block without any: a scan finds exactly the state before,
      or a log that goes on behind it and ends with a valid checksum. */
  lemma OldOrLonger(d: seq<byte>, d': seq<byte>, log: seq<Raw>, off: nat, etag: word, progSize: nat,
                    found: Option<State>, erased: bool)
    requires log != [] ==> Fetched(d, log, off, etag) && off <= |d'| && d'[..off] == d[..off]
    requires progSize > 0 && IsResult(d', progSize, found, erased)
    ensures found == Result(d, log) || exists done :: log < done && Committed(d', done) && found == Result(d', done)
  {
    hide Longest, Result, Erased, Committed, Fetched;
    var done :| Longest(d', done) && found == Result(d', done) && (erased <==> Erased(d', done, progSize));
    LongestParts(d', done, log);
    if log == [] {
      NoResults(d, d');
    } else {
      LogStays(d, d', log, off, etag);
      LongestParts(d', done, log);
      if done != log {
        assert |log| < |done| && log < done;
      }
    }
  }

  lemma LongestParts(d: seq<byte>, done: seq<Raw>, raws: seq<Raw>)
    requires Longest(d, done)
    ensures done == [] || Committed(d, done)
    ensures Committed(d, raws) ==> raws <= done
  {
    hide Committed;
  }

  lemma NoResults(d: seq<byte>, d': seq<byte>)
    ensures Result(d, []) == None == Result(d', [])
  {
  }

  lemma LogStays(d: seq<byte>, d': seq<byte>, log: seq<Raw>, off: nat, etag: word)
    requires Fetched(d, log, off, etag) && off <= |d'| && d'[..off] == d[..off]
    ensures Committed(d', log) && Result(d', log) == Result(d, log)
  {
    hide *;
    FetchedParts(d, log, off, etag);
    ScannedSized(d, log);
    FrameScanned(d, d', log);
    CommittedIs(d', log);
    GatherKept(d, d', log);
    SameResult(d, d', log);
  }

  lemma NoChecksumBehind(log: seq<Raw>, partial: seq<Raw>)
    requires log != [] && IsCrc(log[|log| - 1].word) && forall i :: 0 <= i < |partial| ==> !IsCrc(partial[i].word)
    ensures LastCommit(log + partial, log)
  {
    hide IsCrc;
    forall i | |log| <= i < |log + partial| ensures !IsCrc((log + partial)[i].word) {
      assert (log + partial)[i] == partial[i - |log|];
    }
  }

  lemma SameResult(d: seq<byte>, d': seq<byte>, log: seq<Raw>)
    requires Gather(d', log) == Gather(d, log)
    ensures Result(d', log) == Result(d, log)
  {
    hide Gather, End;
  }

  // ----- what a committed log means

  /** The log without its checksums. */
  function Plain(raws: seq<Raw>): seq<Raw> {
    if raws == [] then []
    else
      var before, r := Plain(raws[..|raws| - 1]), raws[|raws| - 1];
      if IsCrc(r.word) then before else before + [r]
  }

  ghost predicate FreeChecksums(raws: seq<Raw>) {
    forall i :: 0 <= i < |raws| && IsCrc(raws[i].word) ==> IdOf(raws[i].word) == NO_ID
  }

  function EntryOf(r: Raw): Entry { Entry(Unpack(r.word), r.data) }

  lemma EntriesSnoc(raws: seq<Raw>)
    requires raws != []
    ensures Entries(raws) == Entries(raws[..|raws| - 1]) + [EntryOf(raws[|raws| - 1])]
  {
    hide Unpack;
  }

  lemma EntriesSnocOne(raws: seq<Raw>, r: Raw)
    ensures Entries(raws + [r]) == Entries(raws) + [EntryOf(r)]
  {
    assert (raws + [r])[..|raws|] == raws;
    EntriesSnoc(raws + [r]);
  }

  lemma ReplaySnoc(es: seq<Entry>, e: Entry)
    ensures Replay(es + [e]) == Replay1(Replay(es), e)
    ensures WellFormed(es + [e]) <==>
      WellFormed(es) && Fits(Replay(es), e) && (IsSplice(e.tag) ==> e.tag.ty == TYPE_CREATE || e.tag.ty == TYPE_DELETE)
  {
    hide Replay1, Fits, IsSplice, WellFormed;
    assert (es + [e])[..|es|] == es;
    if WellFormed(es + [e]) {
      WellFormedPrefix(es + [e], |es|);
      WellFormedLast(es, e);
    } else if WellFormed(es) && Fits(Replay(es), e)
      && (IsSplice(e.tag) ==> e.tag.ty == TYPE_CREATE || e.tag.ty == TYPE_DELETE) {
      WellFormedMore(es, e);
    }
  }

  lemma WellFormedLast(es: seq<Entry>, e: Entry)
    requires WellFormed(es + [e])
    ensures Fits(Replay(es), e) && (IsSplice(e.tag) ==> e.tag.ty == TYPE_CREATE || e.tag.ty == TYPE_DELETE)
  {
    hide Replay, Fits, IsSplice;
    var all := es + [e];
    assert all[..|es|] == es && all[|es|] == e;
    assert Fits(Replay(all[..|es|]), all[|es|]);
    assert e in all;
  }

  lemma WellFormedMore(es: seq<Entry>, e: Entry)
    requires WellFormed(es) && Fits(Replay(es), e)
    requires IsSplice(e.tag) ==> e.tag.ty == TYPE_CREATE || e.tag.ty == TYPE_DELETE
    ensures WellFormed(es + [e])
  {
    hide Replay, Fits, IsSplice;
    var all := es + [e];
    forall i | 0 <= i < |all| ensures Fits(Replay(all[..i]), all[i]) {
      assert all[..i] == es[..i];
      assert es[..|es|] == es;
    }
  }

  lemma ChecksumIsNeutral(files: Files, r: Raw)
    requires IsCrc(r.word) && IdOf(r.word) == NO_ID
    ensures Fits(files, EntryOf(r)) && Replay1(files, EntryOf(r)) == files && !IsSplice(EntryOf(r).tag)
  {
    hide TypeOf, IdOf, SizeOf, Unpack;
    UnpackFields(r.word);
  }

  /** Checksums do not change what a log means. */
  lemma {:induction false} PlainMeansTheSame(raws: seq<Raw>)
    requires FreeChecksums(raws)
    ensures Replay(Entries(raws)) == Replay(Entries(Plain(raws)))
    ensures WellFormed(Entries(raws)) <==> WellFormed(Entries(Plain(raws)))
  {
    if raws != [] {
      var before, r := raws[..|raws| - 1], raws[|raws| - 1];
      EntriesSnoc(raws);
      FreePrefix(raws);
      PlainMeansTheSame(before);
      PlainUnfold(raws);
      hide *;
      ReplaySnoc(Entries(before), EntryOf(r));
      if IsCrc(r.word) {
        ChecksumIsNeutral(Replay(Entries(before)), r);
      } else {
        EntriesSnocOne(Plain(before), r);
        ReplaySnoc(Entries(Plain(before)), EntryOf(r));
      }
    }
  }

  lemma PlainUnfold(raws: seq<Raw>)
    requires raws != []
    ensures var before, r := raws[..|raws| - 1], raws[|raws| - 1];
      Plain(raws) == if IsCrc(r.word) then Plain(before) else Plain(before) + [r]
  {
    hide IsCrc;
  }

  lemma FreePrefix(raws: seq<Raw>)
    requires FreeChecksums(raws) && raws != []
    ensures FreeChecksums(raws[..|raws| - 1])
    ensures IsCrc(raws[|raws| - 1].word) ==> IdOf(raws[|raws| - 1].word) == NO_ID
  {
    hide IsCrc, IdOf;
  }

  /** Searching a log, with and without its checksums. */
  lemma {:induction false} PlainWalks(raws: seq<Raw>, key: nat, id: int)
    requires IsFileKey(key)
    ensures Walk(Entries(raws), key, id) == Walk(Entries(Plain(raws)), key, id)
    ensures Stays(Entries(raws), key, id) <==> Stays(Entries(Plain(raws)), key, id)
    decreases |raws|
  {
    hide *;
    if raws == [] {
      NothingPlain();
    } else {
      var before, r := raws[..|raws| - 1], raws[|raws| - 1];
      PlainUnfold(raws);
      EntriesSnoc(raws);
      WalkSnoc(Entries(before), EntryOf(r), key, id);
      if IsCrc(r.word) {
        ChecksumNeutral(r, key, id);
        PlainWalks(before, key, id);
        StaysHere(Entries(Plain(before)), key, id);
      } else {
        var s := LookAt(EntryOf(r), key, id);
        EntriesSnocOne(Plain(before), r);
        WalkSnoc(Entries(Plain(before)), EntryOf(r), key, id);
        if s.Open? {
          PlainWalks(before, key, s.id);
        }
      }
    }
  }

  lemma WalkSnoc(es: seq<Entry>, e: Entry, key: nat, id: int)
    ensures Walk(es + [e], key, id) == (var r := LookAt(e, key, id); if r.Open? then Walk(es, key, r.id) else r)
    ensures Stays(es + [e], key, id) <==>
      0 <= id < NO_ID && (var r := LookAt(e, key, id); r.Open? ==> Stays(es, key, r.id))
  {
    hide LookAt;
    assert (es + [e])[..|es|] == es;
  }

  lemma StaysHere(es: seq<Entry>, key: nat, id: int)
    ensures Stays(es, key, id) ==> 0 <= id < NO_ID
  {
  }

  lemma ChecksumNeutral(r: Raw, key: nat, id: int)
    requires IsCrc(r.word) && IsFileKey(key)
    ensures LookAt(EntryOf(r), key, id) == Open(id)
  {
    hide TypeOf, Unpack, LookAt, IsFileKey;
    UnpackFields(r.word);
    NeutralStep(EntryOf(r), key, id);
  }

  /** A log has good tags if it has without its checksums. */
  lemma {:induction false} PlainIsEnough(raws: seq<Raw>)
    ensures GoodTags(raws) <==> GoodTags(Plain(raws))
  {
    hide *;
    if raws == [] {
      NothingPlain();
    } else {
      var before, r := raws[..|raws| - 1], raws[|raws| - 1];
      PlainIsEnough(before);
      PlainUnfold(raws);
      GoodSnoc(before, r);
      assert before + [r] == raws;
      if IsCrc(r.word) {
        ChecksumIsGood(r.word);
      } else {
        GoodSnoc(Plain(before), r);
      }
    }
  }

  lemma NothingPlain()
    ensures Plain([]) == []
  {
  }

  lemma GoodSnoc(raws: seq<Raw>, r: Raw)
    ensures GoodTags(raws + [r]) <==> GoodTags(raws) && GoodTag(r.word)
  {
    hide GoodTag;
    assert (raws + [r])[..|raws|] == raws;
    if GoodTags(raws + [r]) {
      assert GoodTag((raws + [r])[|raws|].word);
      forall i | 0 <= i < |raws| ensures GoodTag(raws[i].word) {
        assert raws[i] == (raws + [r])[i];
      }
    }
  }

  lemma ChecksumIsGood(w: word)
    requires IsCrc(w)
    ensures GoodTag(w)
  {
    hide HasSpliceType, TypeOf, Unpack, IsCreateWord, IsDeleteWord;
    IsSpliceWord(w);
    UnpackFields(w);
  }

  /** log' is log, these attributes, and the checksums of the commit. */
  ghost predicate Adds(log: seq<Raw>, attrs: seq<Raw>, log': seq<Raw>) { AddsChecksums(log + attrs, log') }

  /** An attribute that lfs_dir_commitattr can write. */
  ghost predicate IsAttr(r: Raw) {
    IsValid(r.word) && !IsCrc(r.word) && Full(r.word) && |r.data| == DSize(r.word) - 4
  }

  ghost predicate AreAttrs(attrs: seq<Raw>) { forall i :: 0 <= i < |attrs| ==> IsAttr(attrs[i]) }

  /** Behind a commit the log means what it meant before, and then the attributes. */
  lemma CommitMeans(log: seq<Raw>, attrs: seq<Raw>, log': seq<Raw>)
    requires FreeChecksums(log) && AreAttrs(attrs) && Adds(log, attrs, log')
    ensures FreeChecksums(log') && Plain(log') == Plain(log) + attrs
  {
    hide IsAttr, IsChecksum, IsCrc, IdOf, Plain, FreeChecksums;
    PlainAttrs(log, attrs);
    PlainChecksums(log + attrs, log');
  }

  lemma {:induction false} PlainAttrs(log: seq<Raw>, attrs: seq<Raw>)
    requires FreeChecksums(log) && AreAttrs(attrs)
    ensures FreeChecksums(log + attrs) && Plain(log + attrs) == Plain(log) + attrs
    decreases |attrs|
  {
    hide *;
    if attrs == [] {
      assert log + attrs == log && Plain(log) + attrs == Plain(log);
    } else {
      var n := |attrs| - 1;
      AttrIsNoChecksum(attrs, n);
      assert (log + attrs)[..|log + attrs| - 1] == log + attrs[..n];
      assert log + attrs == (log + attrs[..n]) + [attrs[n]];
      PlainAttrs(log, attrs[..n]);
      PlainUnfold(log + attrs);
      FreeSnoc(log + attrs[..n], attrs[n]);
      assert Plain(log) + attrs[..n] + [attrs[n]] == Plain(log) + attrs;
    }
  }

  lemma AttrIsNoChecksum(attrs: seq<Raw>, n: nat)
    requires AreAttrs(attrs) && n < |attrs|
    ensures AreAttrs(attrs[..n]) && IsAttr(attrs[n]) && !IsCrc(attrs[n].word)
  {
    hide IsValid, IsCrc, Full, DSize;
    assert IsAttr(attrs[n]);
  }

  lemma FreeSnoc(raws: seq<Raw>, r: Raw)
    requires FreeChecksums(raws) && (IsCrc(r.word) ==> IdOf(r.word) == NO_ID)
    ensures FreeChecksums(raws + [r])
  {
    hide IsCrc, IdOf;
  }

  lemma {:induction false} PlainChecksums(log: seq<Raw>, log': seq<Raw>)
    requires FreeChecksums(log) && Extends(log, log')
    ensures FreeChecksums(log') && Plain(log') == Plain(log)
    decreases |log'|
  {
    hide *;
    ExtendsIsPrefix(log, log');
    if |log'| == |log| {
      assert log' == log;
    } else {
      var before := log'[..|log'| - 1];
      ExtendsPrefix(log, log');
      PlainChecksums(log, before);
      PlainUnfold(log');
      FreeSnoc(before, log'[|log'| - 1]);
      assert log' == before + [log'[|log'| - 1]];
    }
  }

  lemma ExtendsIsPrefix(log: seq<Raw>, log': seq<Raw>)
    requires Extends(log, log')
    ensures log <= log'
  {
  }

  lemma ExtendsPrefix(log: seq<Raw>, log': seq<Raw>)
    requires Extends(log, log') && |log'| > |log|
    ensures Extends(log, log'[..|log'| - 1]) && IsChecksum(log'[|log'| - 1].word)
    ensures IsCrc(log'[|log'| - 1].word) && IdOf(log'[|log'| - 1].word) == NO_ID
  {
    hide IsCrc, DSize, IdOf;
    var last := |log'| - 1;
    assert IsChecksum(log'[last].word);
  }

  // ----- whole commits

  lemma NothingAltered(d: seq<byte>, log: seq<Raw>, start: nat, off: nat, ptag: word, crc: word)
    requires Writing(d, log, start, off, ptag, crc)
    ensures AlteredWithin(d, d, off, off)
  {
    hide Scanned, End, Whole, Register, CrcOf, LastWord;
  }

  lemma AttrParts(attrs: seq<Raw>, i: nat)
    requires AreAttrs(attrs) && i < |attrs|
    ensures IsValid(attrs[i].word) && !IsCrc(attrs[i].word) && Full(attrs[i].word)
    ensures |attrs[i].data| == DSize(attrs[i].word) - 4 && Body(attrs[i].word) == attrs[i].word
  {
    hide IsValid, IsCrc, Full, DSize, Body;
    assert IsAttr(attrs[i]);
    ValidIsBody(attrs[i].word);
  }

  lemma AttrsSized(log: seq<Raw>, attrs: seq<Raw>)
    requires Sized(log) && AreAttrs(attrs)
    ensures Sized(log + attrs)
  {
    hide IsValid, IsCrc, Full, DSize;
    forall i | 0 <= i < |log + attrs| ensures |(log + attrs)[i].data| == DSize((log + attrs)[i].word) - 4 {
      if i >= |log| {
        assert (log + attrs)[i] == attrs[i - |log|] && IsAttr(attrs[i - |log|]);
      }
    }
  }

  /** An attribute that does not fit leaves the whole commit past the end. */
  lemma PastTheEnd(d: seq<byte>, log: seq<Raw>, attrs: seq<Raw>, i: nat, start: nat, off: nat, ptag: word, crc: word)
    requires i < |attrs| && AreAttrs(attrs) && Sized(log) && Writing(d, log + attrs[..i], start, off, ptag, crc)
    ensures off + DSize(attrs[i].word) <= End(log + attrs)
  {
    hide *;
    WritingParts(d, log + attrs[..i], start, off, ptag, crc);
    AttrsSized(log, attrs);
    var all, n := log + attrs, |log| + i + 1;
    PrefixSized(all, n);
    EndStep(all[..n]);
    assert all[..n] == log + attrs[..i] + [attrs[i]] && all[..n][..n - 1] == log + attrs[..i];
    EndMonotonic(all, n);
  }

  lemma WritingSized(d: seq<byte>, log: seq<Raw>, start: nat, off: nat, ptag: word, crc: word)
    requires Writing(d, log, start, off, ptag, crc)
    ensures Sized(log)
  {
    hide *;
    WritingParts(d, log, start, off, ptag, crc);
    ScannedSized(d, log);
  }

  /** The attributes of a commit, one after the other. */
  method WriteAttrs(w: Writer, attrs: seq<Raw>) returns (ok: bool)
    requires w.Valid() && AreAttrs(attrs)
    modifies w, w.block
    ensures w.Valid() && w.start == old(w.start) && old(w.off) <= w.off
    ensures ok ==> w.log == old(w.log) + attrs && (if attrs == [] then w.off == old(w.off) else w.off <= w.end)
    ensures ok ==> w.off == End(old(w.log) + attrs)
    ensures ok <==> attrs == [] || End(old(w.log) + attrs) <= w.end
    ensures AlteredWithin(old(w.block[..]), w.block[..], old(w.off), w.off)
  {
    hide Writing, AreAttrs, IsAttr, Programs, AlteredWithin, End, Body, DSize, Be, Xor, IsValid, IsCrc, Full, Sized;
    ghost var d, log, from := w.block[..], w.log, w.off;
    NothingAltered(d, w.log, w.start, w.off, w.ptag, w.crc);
    WritingSized(d, w.log, w.start, w.off, w.ptag, w.crc);
    assert log + attrs[..0] == log;
    for i := 0 to |attrs|
      invariant w.Valid() && w.start == old(w.start) && from <= w.off
      invariant w.log == log + attrs[..i] && (if i == 0 then w.off == from else w.off <= w.end)
      invariant AlteredWithin(d, w.block[..], from, w.off)
    {
      ghost var d1, off1, p := w.block[..], w.off, w.ptag;
      AttrParts(attrs, i);
      PastTheEnd(d1, log, attrs, i, w.start, w.off, w.ptag, w.crc);
      assert log + attrs[..i + 1] == (log + attrs[..i]) + [attrs[i]];
      var fits := w.Attr(attrs[i].word, attrs[i].data);
      if !fits {
        assert w.block[..] == d1;
        return false;
      }
      ProgramsKeep(d, d1, w.block[..], from, off1, Be(Xor(Body(attrs[i].word), p)) + attrs[i].data);
    }
    assert attrs[..|attrs|] == attrs;
    WritingParts(w.block[..], w.log, w.start, w.off, w.ptag, w.crc);
    ok := true;
  }

  /** lfs_dir_commit appending to an erased block: what the directory knows afterwards is what a scan finds. */
  method Append(block: array<byte>, progSize: nat, off: nat, etag: word, attrs: seq<Raw>, ghost log: seq<Raw>)
    returns (ok: bool, off': nat, etag': word, ghost log': seq<Raw>)
    requires progSize > 0 && block.Length % progSize == 0 && block.Length >= 8
    requires Fetched(block[..], log, off, etag) && AreAttrs(attrs) && attrs != []
    modifies block
    ensures ok <==> End(log + attrs) <= block.Length - 8
    ensures ok ==> Fetched(block[..], log', off', etag') && Longest(block[..], log') && Adds(log, attrs, log')
    ensures ok ==> off' == AlignUp(End(log + attrs) + 8, progSize)
    ensures ok && off' + 4 <= block.Length ==> Erased(block[..], log', progSize)
    ensures ok ==> AlteredWithin(old(block[..]), block[..], off, off')
    ensures off <= block.Length && block[..off] == old(block[..])[..off]
  {
    hide Writing, AreAttrs, Fetched, Longest, AddsChecksums, End, AlteredWithin, Erased, AlignUp;
    ghost var d := block[..];
    var w := new Writer.Append(block, progSize, off, etag, log);
    ok := WriteAttrs(w, attrs);
    off', etag', log' := off, etag, log;
    AlteredBounds(d, block[..], off, w.off);
    if ok {
      ghost var d1, off1 := block[..], w.off;
      ok := w.Crc();
      off', etag', log' := w.off, w.ptag, w.log;
      AlteredTwice(d, d1, block[..], off, off1, off');
      AlteredBounds(d, block[..], off, off');
    }
  }

  /** The commit of lfs_dir_compact, into the other block of the pair. */
  method Compact(block: array<byte>, progSize: nat, rev: word, attrs: seq<Raw>)
    returns (ok: bool, off': nat, etag': word, ghost log': seq<Raw>)
    requires progSize > 0 && block.Length % progSize == 0 && block.Length >= 12 && AreAttrs(attrs)
    modifies block
    ensures ok <==> attrs == [] || End(attrs) <= block.Length - 8
    ensures ok ==> Fetched(block[..], log', off', etag') && Longest(block[..], log') && Adds([], attrs, log')
    ensures ok ==> off' == AlignUp(End(attrs) + 8, progSize)
    ensures ok && off' + 4 <= block.Length ==> Erased(block[..], log', progSize)
    ensures block[..4] == Le(rev)
  {
    hide Writing, AreAttrs, Fetched, Longest, AddsChecksums, End, AlteredWithin, Erased, Le, AlignUp;
    var w := new Writer.Compact(block, progSize, rev);
    ghost var d := block[..];
    assert block[..4] == Le(rev);
    assert [] + attrs == attrs;
    ok := WriteAttrs(w, attrs);
    off', etag', log' := w.off, w.ptag, w.log;
    AlteredBounds(d, block[..], 4, w.off);
    if ok {
      ghost var d1, off1 := block[..], w.off;
      ok := w.Crc();
      off', etag', log' := w.off, w.ptag, w.log;
      AlteredTwice(d, d1, block[..], 4, off1, off');
      AlteredBounds(d, block[..], 4, off');
    }
  }

  lemma AlteredBounds(d: seq<byte>, d': seq<byte>, from: nat, to: nat)
    requires AlteredWithin(d, d', from, to)
    ensures from <= |d| && from <= |d'| && d'[..from] == d[..from]
  {
  }

  lemma AlteredTwice(d: seq<byte>, d1: seq<byte>, d2: seq<byte>, from: nat, mid: nat, to: nat)
    requires AlteredWithin(d, d1, from, mid) && AlteredWithin(d1, d2, mid, to)
    ensures AlteredWithin(d, d2, from, to)
  {
    assert d2[..from] == d2[..mid][..from] && d1[..from] == d1[..mid][..from];
    assert d1[to..] == d1[mid..][to - mid..] && d[to..] == d[mid..][to - mid..];
  }

  // ----- any run of commits

  function Flatten(commits: seq<seq<Raw>>): seq<Raw> {
    if commits == [] then [] else Flatten(commits[..|commits| - 1]) + commits[|commits| - 1]
  }

  lemma FlattenSnoc(commits: seq<seq<Raw>>, i: nat)
    requires i < |commits|
    ensures Flatten(commits[..i + 1]) == Flatten(commits[..i]) + commits[i]
  {
    assert commits[..i + 1][..i] == commits[..i];
  }

  /** The bytes that attributes take in a log. */
  function Bytes(attrs: seq<Raw>): nat {
    if attrs == [] then 0 else Bytes(attrs[..|attrs| - 1]) + DSize(attrs[|attrs| - 1].word)
  }

  /** These commits fit behind off: each has room for its attributes and two words, and ends with a program unit. */
  predicate Fit(commits: seq<seq<Raw>>, off: nat, size: nat, progSize: nat)
    requires progSize > 0
  {
    commits == [] ||
    (off + Bytes(commits[0]) + 8 <= size
     && Fit(commits[1..], AlignUp(off + Bytes(commits[0]) + 8, progSize), size, progSize))
  }

  lemma {:induction false} EndOfAttrs(log: seq<Raw>, attrs: seq<Raw>)
    requires Sized(log) && AreAttrs(attrs)
    ensures End(log + attrs) == End(log) + Bytes(attrs)
    decreases |attrs|
  {
    hide End, DSize, IsAttr, Sized;
    if attrs == [] {
      assert log + attrs == log;
    } else {
      var all, before := log + attrs, attrs[..|attrs| - 1];
      AttrsSized(log, attrs);
      EndStep(all);
      assert all[..|all| - 1] == log + before;
      EndOfAttrs(log, before);
    }
  }

  lemma FetchedEnd(d: seq<byte>, log: seq<Raw>, off: nat, etag: word, attrs: seq<Raw>)
    requires Fetched(d, log, off, etag) && AreAttrs(attrs)
    ensures End(log + attrs) == off + Bytes(attrs)
  {
    hide *;
    FetchedParts(d, log, off, etag);
    ScannedSized(d, log);
    EndOfAttrs(log, attrs);
  }

  /** Any run of commits into a block: a scan of the block finds all of them, and the run succeeds exactly if they
      fit. */
  method Run(block: array<byte>, progSize: nat, rev: word, commits: seq<seq<Raw>>)
    returns (ok: bool, off: nat, etag: word, ghost log: seq<Raw>)
    requires progSize > 0 && block.Length % progSize == 0 && block.Length >= 12
    requires forall i :: 0 <= i < |commits| ==> AreAttrs(commits[i]) && commits[i] != []
    modifies block
    ensures ok <==> Fit(commits, AlignUp(12, progSize), block.Length, progSize)
    ensures ok ==> Fetched(block[..], log, off, etag) && Longest(block[..], log)
    ensures ok ==> FreeChecksums(log) && Plain(log) == Flatten(commits)
  {
    hide Fetched, Longest, AreAttrs, Plain, FreeChecksums, Adds, End, Flatten, AlteredWithin, Fit, AlignUp, Bytes;
    NoAttrs();
    ok, off, etag, log := Compact(block, progSize, rev, []);
    Empty(log, commits);
    EmptyEnd();
    assert commits[0..] == commits;
    for i := 0 to |commits|
      invariant Fit(commits, AlignUp(12, progSize), block.Length, progSize)
        <==> ok && Fit(commits[i..], off, block.Length, progSize)
      invariant ok ==> Fetched(block[..], log, off, etag) && Longest(block[..], log)
      invariant ok ==> FreeChecksums(log) && Plain(log) == Flatten(commits[..i])
    {
      FitUnfold(commits, i, off, block.Length, progSize);
      if ok {
        ghost var before := log;
        FetchedEnd(block[..], log, off, etag, commits[i]);
        ok, off, etag, log := Append(block, progSize, off, etag, commits[i], log);
        if ok {
          CommitMeans(before, commits[i], log);
          FlattenSnoc(commits, i);
        }
      }
    }
    FitsNothing(off, block.Length, progSize);
    assert commits[|commits|..] == [];
    assert commits[..|commits|] == commits;
  }

  lemma EmptyEnd()
    ensures End([]) == 4
  {
  }

  lemma FitsNothing(off: nat, size: nat, progSize: nat)
    requires progSize > 0
    ensures Fit([], off, size, progSize)
  {
  }

  lemma FitUnfold(commits: seq<seq<Raw>>, i: nat, off: nat, size: nat, progSize: nat)
    requires i < |commits| && progSize > 0
    ensures var end := off + Bytes(commits[i]) + 8;
      Fit(commits[i..], off, size, progSize) <==>
        end <= size && Fit(commits[i + 1..], AlignUp(end, progSize), size, progSize)
  {
    hide Bytes, AlignUp;
    assert commits[i..][1..] == commits[i + 1..];
  }

  lemma NoAttrs()
    ensures AreAttrs([])
  {
  }

  lemma Empty(log: seq<Raw>, commits: seq<seq<Raw>>)
    ensures Flatten(commits[..0]) == []
    ensures Adds([], [], log) ==> FreeChecksums(log) && Plain(log) == []
  {
    hide AddsChecksums, IsAttr, IsCrc;
    if Adds([], [], log) {
      CommitMeans([], [], log);
    }
  }

  /** Reading the block through lfs_dir_get: the log can be searched, and every answer is that of a replay of all the
      attributes that were committed. */
  lemma ReadsBack(d: seq<byte>, log: seq<Raw>, off: nat, etag: word, attrs: seq<Raw>, key: nat, id: nat)
    requires Fetched(d, log, off, etag) && FreeChecksums(log) && Plain(log) == attrs
    requires GoodTags(attrs) && WellFormed(Entries(attrs)) && IsFileKey(key)
    ensures Holds(d, log, off) && GoodTags(log) && etag == LastWord(log)
    ensures Lookup(Entries(log), key, id) == Attribute(Replay(Entries(attrs)), key, id)
    ensures NamesFirst(Entries(attrs)) && FewFiles(Entries(attrs)) && id < |Replay(Entries(attrs))| ==>
      Stays(Entries(log), key, id)
  {
    hide *;
    FetchedParts(d, log, off, etag);
    ScannedSized(d, log);
    PlainIsEnough(log);
    PlainMeansTheSame(log);
    LookupIsReplay(Entries(log), key, id);
    PlainWalks(log, key, id);
    if NamesFirst(Entries(attrs)) && FewFiles(Entries(attrs)) && id < |Replay(Entries(attrs))| {
      FilesStay(Entries(attrs), key, id);
    }
  }

  /** The number of files that the scan reports is the number of files that the entries make. */
  lemma {:induction false} CountIsReplay(d: seq<byte>, raws: seq<Raw>)
    requires WellFormed(Entries(raws)) && |raws| < 0xf000
    ensures Gather(d, raws).count == |Replay(Entries(raws))| <= 0x400 + |raws|
  {
    hide *;
    if raws == [] {
      NoFiles(d);
    } else {
      var before, r := raws[..|raws| - 1], raws[|raws| - 1];
      EntriesSnoc(raws);
      ReplaySnoc(Entries(before), EntryOf(r));
      CountIsReplay(d, before);
      GatherUnfold(d, raws);
      BodyTwice(r.word);
      SameFields(Body(r.word), r.word);
      CountStep(Gather(d, before), d, End(before), r, Replay(Entries(before)));
    }
  }

  lemma NoFiles(d: seq<byte>)
    ensures Gather(d, []).count == 0 && Replay(Entries([])) == []
  {
  }

  lemma CountStep(g: Gathered, d: seq<byte>, p: nat, r: Raw, files: Files)
    requires Fits(files, EntryOf(r)) && g.count == |files| < 0xfc00 && Unpack(Body(r.word)) == Unpack(r.word)
    requires IsSplice(EntryOf(r).tag) ==> EntryOf(r).tag.ty == TYPE_CREATE || EntryOf(r).tag.ty == TYPE_DELETE
    ensures Gather1(g, d, p, Body(r.word)).count == |Replay1(files, EntryOf(r))|
    ensures |Replay1(files, EntryOf(r))| <= if |files| >= 0x400 then |files| + 1 else 0x400
  {
    hide *;
    CountIsFiles(files, EntryOf(r));
    IdIsSmall(r.word);
    UnpackFields(r.word);
    GatherCount(g, d, p, Body(r.word));
    EntryTag(r);
    CountsAgree(g.count, Unpack(r.word));
  }

  lemma EntryTag(r: Raw)
    ensures EntryOf(r).tag == Unpack(r.word)
  {
  }

  /** Counting in 16 bits is counting, while the count is small. */
  lemma CountsAgree(n: nat, t: Tag)
    requires n < 0xfc00 && t.id <= 0x3ff && Count1(n, t) >= 0
    requires IsSplice(t) ==> t.ty == TYPE_CREATE || t.ty == TYPE_DELETE
    ensures (if IsSplice(t) then (n + Splice(t.ty)) % 0x1_0000 else Count1(n, t)) == Count1(n, t)
    ensures Count1(n, t) <= if n >= 0x400 then n + 1 else 0x400
  {
    hide Splice;
    SplicesByOne(t);
  }

  lemma SplicesByOne(t: Tag)
    requires IsSplice(t) ==> t.ty == TYPE_CREATE || t.ty == TYPE_DELETE
    ensures IsSplice(t) ==> -1 <= Splice(t.ty) <= 1
  {
  }

  lemma GatherCount(g: Gathered, d: seq<byte>, p: nat, w: word)
    requires g.count < 0x1_0000
    ensures Gather1(g, d, p, w).count
      == if IsSplice(Unpack(w)) then (g.count + Splice(Unpack(w).ty)) % 0x1_0000 else Count1(g.count, Unpack(w))
  {
    hide Unpack, TypeOf, IdOf, SizeOf;
    UnpackFields(w);
  }

  lemma IdIsSmall(w: word)
    ensures IdOf(w) <= 0x3ff
  {
    hide IdBits;
    FieldOrder(IdBits(w), 0x3ff);
    assert 0x3ff as bv10 as nat == 0x3ff;
  }

  // ----- pairs

  /** lfs_scmp(a, b) > 0 on revision counts that wrap around. */
  predicate Newer(a: word, b: word) { a != b && (a - b) & 0x8000_0000 == 0 }

  function Revision(d: seq<byte>): word
    requires |d| >= 4
  {
    UnLe(d[..4])
  }

  lemma NextIsNewer(rev: word)
    ensures Newer(rev + 1, rev) && !Newer(rev, rev + 1)
  {
  }

  /** Whether the second block is tried first. */
  predicate SecondFirst(d0: seq<byte>, d1: seq<byte>)
    requires |d0| >= 4 && |d1| >= 4
  {
    Newer(Revision(d1), Revision(d0))
  }

  /** A pair of blocks stands for the log of the block tried first, or of the other one if that has none. */
  ghost predicate Believed(d0: seq<byte>, d1: seq<byte>, second: bool, done: seq<Raw>)
    requires |d0| >= 4 && |d1| >= 4
  {
    && Longest(if second then d1 else d0, done)
    && (second != SecondFirst(d0, d1) ==> Longest(if second then d0 else d1, []))
  }

  /** lfs_dir_fetch on a pair; None is LFS_ERR_CORRUPT. */
  method FetchPair(d0: seq<byte>, d1: seq<byte>, progSize: nat)
    returns (second: bool, found: Option<State>, erased: bool, ghost done: seq<Raw>)
    requires |d0| >= 4 && |d1| >= 4 && progSize > 0
    ensures Believed(d0, d1, second, done) && found == Result(if second then d1 else d0, done)
    ensures erased <==> Erased(if second then d1 else d0, done, progSize)
    ensures found == None ==> Longest(d0, []) && Longest(d1, [])
  {
    hide Longest, Result, Erased, IsResult, UnLe, Newer, End;
    second := SecondFirst(d0, d1);
    found, erased, done := Fetch.Fetch(if second then d1 else d0, progSize);
    NoResult(if second then d1 else d0, done);
    if found == None {
      second := !second;
      found, erased, done := Fetch.Fetch(if second then d1 else d0, progSize);
      NoResult(if second then d1 else d0, done);
    }
  }

  lemma NoResult(d: seq<byte>, done: seq<Raw>)
    ensures Result(d, done) == None <==> done == []
  {
    hide Gather, End;
  }

  /** Compaction is atomic: as long as the block that is rewritten has no complete commit, the pair stands for the
      old log, whatever the revision counts read as. */
  lemma OldUntilCommitted(d0: seq<byte>, d1: seq<byte>, log: seq<Raw>, second: bool, done: seq<Raw>, inFirst: bool)
    requires |d0| >= 4 && |d1| >= 4 && log != [] && done != [] && Believed(d0, d1, second, done)
    requires if inFirst then Longest(d0, log) && Longest(d1, []) else Longest(d1, log) && Longest(d0, [])
    ensures second == !inFirst && done == log
  {
    hide Longest, SecondFirst;
    if second == inFirst {
      OneLongest(if inFirst then d1 else d0, [], done);
    }
    OneLongest(if second then d1 else d0, log, done);
  }

  /** Once the rewritten block is committed with the next revision count, the pair stands for the new log. */
  lemma NewOnceCommitted(d0: seq<byte>, d1: seq<byte>, log: seq<Raw>, second: bool, done: seq<Raw>, inFirst: bool)
    requires |d0| >= 4 && |d1| >= 4 && log != [] && done != [] && Believed(d0, d1, second, done)
    requires if inFirst then Longest(d0, log) && Revision(d0) == Revision(d1) + 1
             else Longest(d1, log) && Revision(d1) == Revision(d0) + 1
    ensures second == !inFirst && done == log
  {
    hide Longest, Revision, Newer;
    NextIsNewer(if inFirst then Revision(d1) else Revision(d0));
    if second == inFirst {
      OneLongest(if inFirst then d0 else d1, log, []);
    }
    OneLongest(if second then d1 else d0, log, done);
  }
}
