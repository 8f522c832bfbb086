/** Compaction on the device: the tags of a log as lfs_dir_traverse passes them on, written to another block, and what a
    fetch of that block and lookups in it find. */
module CompactedBlock {
  import opened Words
  import opened MetaLog
  import opened TagWord
  import opened MetaBlock
  import opened Compaction
  import opened Crc
  import opened Fetch
  import opened CommitLog
  import opened Atomicity

  /** A tag with another id, and without its valid bit. */
  function WithId(w: word, id: bv10): word { (w & 0x7ff0_03ff) | ((id as word) << 10) }

  lemma WithIdHigh(w: word, id: bv10) ensures TypeHigh(WithId(w, id)) == TypeHigh(w) {}

  lemma WithIdChunk(w: word, id: bv10) ensures TypeChunk(WithId(w, id)) == TypeChunk(w) {}

  lemma WithIdSize(w: word, id: bv10) ensures SizeBits(WithId(w, id)) == SizeBits(w) {}

  lemma WithIdId(w: word, id: bv10) ensures IdBits(WithId(w, id)) == id {}

  lemma WithIdValid(w: word, id: bv10) ensures IsValid(WithId(w, id)) {}

  /** A number as a field of ten bits. */
  function Field(n: nat): bv10 { if n == 0 then 0 else Field(n - 1) + 1 }

  lemma {:induction false} FieldOfNumber(n: nat)
    requires n < 0x400
    ensures Field(n) as nat == n
  {
    if n > 0 {
      FieldOfNumber(n - 1);
      NextNumber(Field(n - 1), n - 1);
    }
  }

  lemma NextNumber(i: bv10, n: nat)
    requires i as nat == n < 0x3ff
    ensures (i + 1) as nat == n + 1
  {
    FieldOrder(0x3ff, i);
    assert 0x3ff as bv10 as nat == 0x3ff;
    NextField(i);
  }

  lemma WithIdFields(w: word, n: nat)
    requires n < 0x400
    ensures Unpack(WithId(w, Field(n))) == Unpack(w).(id := n) && DSize(WithId(w, Field(n))) == DSize(w)
    ensures IsValid(WithId(w, Field(n)))
  {
    hide WithId, Field, TypeHigh, TypeChunk, SizeBits, IdBits, BandNumber, ChunkNumber, IsValid;
    var id := Field(n);
    WithIdHigh(w, id);
    WithIdChunk(w, id);
    WithIdSize(w, id);
    WithIdId(w, id);
    WithIdValid(w, id);
    FieldOfNumber(n);
  }

  /** What lfs_dir_traverse passes to lfs_dir_commitattr for one tag of the log. */
  function Emit1Raw(r: Raw, later: seq<Entry>, begin: nat, end: nat): seq<Raw>
    requires end <= begin + NO_ID
  {
    if Unpack(r.word).ty >= 0x400 then []
    else match Filter(Unpack(r.word), later)
      case None => []
      case Some(t) => if begin <= t.id < end then [Raw(WithId(r.word, Field(t.id - begin)), r.data)] else []
  }

  /** The same for a whole log. */
  function EmitRaws(raws: seq<Raw>, begin: nat, end: nat): seq<Raw>
    requires end <= begin + NO_ID
  {
    if raws == [] then [] else Emit1Raw(raws[0], Entries(raws[1..]), begin, end) + EmitRaws(raws[1..], begin, end)
  }

  lemma {:induction false} FilterFields(t: Tag, later: seq<Entry>)
    ensures Filter(t, later).Some? ==> Filter(t, later).value == t.(id := Filter(t, later).value.id)
    decreases |later|
  {
    if later != [] && Filter1(t, later[0].tag).Some? {
      FilterFields(Filter1(t, later[0].tag).value, later[1..]);
    }
  }

  /** One tag: the word that is written is the entry that is emitted, and it can be committed. */
  lemma Emit1IsEntry(r: Raw, later: seq<Entry>, begin: nat, end: nat)
    requires end <= begin + NO_ID && |r.data| == DSize(r.word) - 4
    ensures Entries(Emit1Raw(r, later, begin, end)) == Emit1(EntryOf(r), later, begin, end)
    ensures AreAttrs(Emit1Raw(r, later, begin, end)) && GoodTags(Emit1Raw(r, later, begin, end))
  {
    hide WithId, Field, Filter, IsAttr, DSize, GoodTag, Unpack;
    var t := Unpack(r.word);
    FilterFields(t, later);
    if t.ty < 0x400 && Filter(t, later).Some? && begin <= Filter(t, later).value.id < end {
      NewTag(r, Filter(t, later).value.id - begin);
      assert Emit1Raw(r, later, begin, end) == [Raw(WithId(r.word, Field(Filter(t, later).value.id - begin)), r.data)];
    } else {
      assert Emit1Raw(r, later, begin, end) == [];
    }
  }

  lemma NewTag(r: Raw, n: nat)
    requires n < 0x400 && |r.data| == DSize(r.word) - 4 && Unpack(r.word).ty < 0x400
    ensures Unpack(WithId(r.word, Field(n))) == Unpack(r.word).(id := n)
    ensures IsAttr(Raw(WithId(r.word, Field(n)), r.data)) && GoodTag(WithId(r.word, Field(n)))
  {
    hide WithId, Field, TypeOf, IdOf, SizeOf, DSize, IsValid, Full, GoodTag, Unpack, IsCrc;
    WithIdFields(r.word, n);
    SmallTypes(WithId(r.word, Field(n)));
  }

  /** A tag of a name, a struct or an attribute. */
  lemma SmallTypes(w: word)
    requires Unpack(w).ty < 0x400
    ensures !IsCrc(w) && Full(w) && GoodTag(w)
  {
    hide Unpack, TypeOf, DSize, HasSpliceType;
    UnpackFields(w);
    IsSpliceWord(w);
  }

  /** The log that is written is the log that is emitted. */
  lemma {:induction false} EmitIsEntries(raws: seq<Raw>, begin: nat, end: nat)
    requires end <= begin + NO_ID && Sized(raws)
    ensures Entries(EmitRaws(raws, begin, end)) == Emit(Entries(raws), begin, end)
    ensures AreAttrs(EmitRaws(raws, begin, end)) && GoodTags(EmitRaws(raws, begin, end))
  {
    hide Emit1Raw, Emit1, DSize, Unpack, IsAttr, GoodTag;
    if raws != [] {
      var a, b := Emit1Raw(raws[0], Entries(raws[1..]), begin, end), EmitRaws(raws[1..], begin, end);
      EmitIsEntries(raws[1..], begin, end);
      Emit1IsEntry(raws[0], Entries(raws[1..]), begin, end);
      FirstEntry(raws);
      EntriesConcat(a, b);
    }
  }

  lemma FirstEntry(raws: seq<Raw>)
    requires raws != []
    ensures Entries(raws)[0] == EntryOf(raws[0]) && Entries(raws)[1..] == Entries(raws[1..])
  {
    hide Unpack;
  }

  lemma EntriesConcat(a: seq<Raw>, b: seq<Raw>)
    ensures Entries(a + b) == Entries(a) + Entries(b)
  {
    hide Unpack;
  }

  // ----- the entries that lfs_dir_compact adds

  /** The tail and the global state: they belong to no file. */
  ghost predicate AreNeutral(raws: seq<Raw>) {
    forall i :: 0 <= i < |raws| ==> Neutral(EntryOf(raws[i])) && GoodTag(raws[i].word)
  }

  lemma {:induction false} NeutralEnd(log: seq<Raw>, extra: seq<Raw>, key: nat, id: int)
    requires AreNeutral(extra) && IsFileKey(key)
    ensures Walk(Entries(log + extra), key, id) == Walk(Entries(log), key, id)
    decreases |extra|
  {
    hide *;
    if extra == [] {
      assert log + extra == log;
    } else {
      var n := |extra| - 1;
      assert log + extra == log + extra[..n] + [extra[n]];
      NeutralLast(extra, n);
      EntriesSnocOne(log + extra[..n], extra[n]);
      WalkSnoc(Entries(log + extra[..n]), EntryOf(extra[n]), key, id);
      NeutralStep(EntryOf(extra[n]), key, id);
      NeutralEnd(log, extra[..n], key, id);
    }
  }

  lemma NeutralLast(extra: seq<Raw>, n: nat)
    requires AreNeutral(extra) && n < |extra|
    ensures Neutral(EntryOf(extra[n])) && AreNeutral(extra[..n])
  {
    hide Neutral, GoodTag, Unpack;
  }

  /** Nothing is created or deleted in what is written, so every search in it stays in the range of ids. */
  lemma WrittenStays(out: seq<Raw>, extra: seq<Raw>, key: nat, id: nat)
    requires NoSplices(Entries(out)) && AreNeutral(extra) && GoodTags(out) && id < NO_ID
    ensures Stays(Entries(out + extra), key, id)
  {
    hide Unpack, GoodTag, Entries, Stays;
    EntriesConcat(out, extra);
    var all := Entries(out) + Entries(extra);
    forall e | e in all ensures e.tag.ty < 0x400 || Neutral(e) {
      if e in Entries(extra) {
        InNeutral(extra, e);
      }
    }
    NoDeletionStays(all, key, id);
  }

  lemma InNeutral(extra: seq<Raw>, e: Entry)
    requires AreNeutral(extra) && e in Entries(extra)
    ensures Neutral(e)
  {
    hide Unpack, GoodTag;
    var i :| 0 <= i < |extra| && Entries(extra)[i] == e;
    assert e == EntryOf(extra[i]);
  }

  lemma GoodTagsSplice(raws: seq<Raw>)
    requires GoodTags(raws)
    ensures GoodSplices(Entries(raws))
  {
    hide Unpack, GoodTag, IsSplice;
    forall e | e in Entries(raws) && IsSplice(e.tag) ensures e.tag.ty == TYPE_CREATE || e.tag.ty == TYPE_DELETE {
      var i :| 0 <= i < |raws| && Entries(raws)[i] == e;
      GoodSplicesOf(raws[i].word);
    }
  }

  // ----- what is found

  /** Every lookup of files begin..end in log gives the same answer in log', with ids from zero on, and can be made. */
  ghost predicate Keeps(log: seq<Raw>, log': seq<Raw>, begin: nat, end: nat) {
    forall key, id :: IsFileKey(key) && begin <= id < end ==> KeepsOne(log, log', begin, key, id)
  }

  ghost predicate KeepsOne(log: seq<Raw>, log': seq<Raw>, begin: nat, key: nat, id: nat) {
    && Lookup(Entries(log'), key, id - begin) == Lookup(Entries(log), key, id)
    && Stays(Entries(log'), key, id - begin)
  }

  /** The log that a fetch of the written block finds keeps the meaning of the old one. */
  lemma WrittenKeeps(raws: seq<Raw>, out: seq<Raw>, extra: seq<Raw>, log': seq<Raw>, begin: nat, end: nat)
    requires Sized(raws) && GoodTags(raws) && begin <= end <= begin + NO_ID
    requires out == EmitRaws(raws, begin, end) && AreNeutral(extra) && AreAttrs(out + extra)
    requires Adds([], out + extra, log')
    ensures Keeps(raws, log', begin, end) && GoodTags(log')
  {
    hide *;
    EmitIsEntries(raws, begin, end);
    GoodTagsSplice(raws);
    EmitShape(Entries(raws), begin, end);
    PlainOfCommit(out + extra, log');
    PlainIsEnough(log');
    GoodTogether(out, extra);
    forall key, id | IsFileKey(key) && begin <= id < end
      ensures KeepsOne(raws, log', begin, key, id)
    {
      EmitKeepsLookups(Entries(raws), begin, end, key, id);
      NeutralEnd(out, extra, key, id - begin);
      PlainWalks(log', key, id - begin);
      SameWalk(Entries(log'), Entries(out), key, id - begin);
      IdInRange(id - begin, end - begin);
      WrittenStays(out, extra, key, id - begin);
      IsKept(raws, log', begin, key, id);
    }
    KeepsAll(raws, log', begin, end);
  }

  lemma KeepsAll(log: seq<Raw>, log': seq<Raw>, begin: nat, end: nat)
    requires forall key, id :: IsFileKey(key) && begin <= id < end ==> KeepsOne(log, log', begin, key, id)
    ensures Keeps(log, log', begin, end)
  {
    hide KeepsOne, IsFileKey;
  }

  lemma IsKept(log: seq<Raw>, log': seq<Raw>, begin: nat, key: nat, id: nat)
    requires Lookup(Entries(log'), key, id - begin) == Lookup(Entries(log), key, id)
    requires Stays(Entries(log'), key, id - begin)
    ensures KeepsOne(log, log', begin, key, id)
  {
    hide Lookup, Stays, Entries;
  }

  lemma SameWalk(a: seq<Entry>, b: seq<Entry>, key: nat, id: int)
    requires Walk(a, key, id) == Walk(b, key, id)
    ensures Lookup(a, key, id) == Lookup(b, key, id)
  {
    hide Walk;
  }

  lemma IdInRange(id: nat, count: nat)
    requires id < count <= NO_ID
    ensures id < 0x3ff
  {
  }

  lemma PlainOfCommit(attrs: seq<Raw>, log': seq<Raw>)
    requires AreAttrs(attrs) && Adds([], attrs, log')
    ensures Plain(log') == attrs
  {
    hide IsAttr, AddsChecksums, IsCrc;
    CommitMeans([], attrs, log');
    assert [] + attrs == attrs;
  }

  lemma GoodTogether(out: seq<Raw>, extra: seq<Raw>)
    requires GoodTags(out) && AreNeutral(extra)
    ensures GoodTags(out + extra)
  {
    hide GoodTag, Neutral, Unpack;
  }

  /** lfs_dir_compact, from the log of one block into another: the files begin..end of the log, then the tail and the
      global state. A fetch of the new block finds a log in which lfs_dir_get answers as in the old one. */
  method Rewrite(block: array<byte>, progSize: nat, rev: word, raws: seq<Raw>, begin: nat, end: nat, extra: seq<Raw>)
    returns (ok: bool, off: nat, etag: word, ghost log: seq<Raw>)
    requires progSize > 0 && block.Length % progSize == 0 && block.Length >= 12
    requires Sized(raws) && GoodTags(raws) && begin <= end <= begin + NO_ID && AreNeutral(extra) && AreAttrs(extra)
    modifies block
    ensures ok ==> Fetched(block[..], log, off, etag) && Longest(block[..], log)
    ensures ok ==> Holds(block[..], log, off) && GoodTags(log) && etag == LastWord(log) && Keeps(raws, log, begin, end)
    ensures var out := EmitRaws(raws, begin, end) + extra; ok <==> out == [] || End(out) <= block.Length - 8
  {
    hide *;
    var out := EmitRaws(raws, begin, end);
    EmitIsEntries(raws, begin, end);
    AttrsTogether(out, extra);
    ok, off, etag, log := Atomicity.Compact(block, progSize, rev, out + extra);
    if ok {
      FetchedParts(block[..], log, off, etag);
      ScannedSized(block[..], log);
      WrittenKeeps(raws, out, extra, log, begin, end);
    }
  }

  lemma AttrsTogether(out: seq<Raw>, extra: seq<Raw>)
    requires AreAttrs(out) && AreAttrs(extra)
    ensures AreAttrs(out + extra)
  {
    hide IsAttr;
  }
}
