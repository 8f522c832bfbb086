/** A directory's part of the global state as an entry of its log: lfs_dir_getgstate, and the commit that replaces it.
    */
module StateEntry {
  import opened Words
  import opened MetaLog
  import opened TagWord
  import opened MetaBlock
  import opened Fetch
  import opened CommitLog
  import opened Atomicity
  import G = GState

  const TYPE_MOVESTATE: nat := 0x7ff

  // LFS_MKTAG(0x7ff, 0, 0)
  const STATE_MASK: word := 0x7ff0_0000

  // LFS_MKTAG(LFS_TYPE_MOVESTATE, 0, sizeof(struct lfs_gstate)) and the same with id 0x3ff
  const STATE_TAG: word := 0x7ff0_000c
  const STATE_ENTRY: word := 0x7fff_fc0c

  // ----- the last entry

  /** What the last entry of the type says, whatever its id; nothing if it is a deletion. */
  function LastState(es: seq<Entry>): Option<Slot> {
    if es == [] then None
    else
      var e := es[|es| - 1];
      if e.tag.ty != TYPE_MOVESTATE then LastState(es[..|es| - 1])
      else if IsDeletion(e.tag) then None
      else Some(SlotOf(e))
  }

  lemma LastStateSnoc(es: seq<Entry>, e: Entry)
    ensures LastState(es + [e])
      == if e.tag.ty != TYPE_MOVESTATE then LastState(es) else if IsDeletion(e.tag) then None else Some(SlotOf(e))
  {
    assert (es + [e])[..|es|] == es;
  }

  predicate IsState(w: word) { TypeOf(w) == TYPE_MOVESTATE }

  lemma StateType(h: bv3, c: bv8)
    ensures 0x100 * BandNumber(h) + ChunkNumber(c) == 0x7ff <==> h == 7 && c == 0xff
  {
    hide ChunkNumber, BandNumber;
    BandField(h, 7);
    ByteField(c, 0xff);
    StateNumbers();
  }

  lemma StateNumbers()
    ensures BandNumber(7) == 7 && ChunkNumber(0xff) == 0xff
  {
  }

  lemma StateBits(tag: word)
    ensures Matches(STATE_MASK, tag, STATE_TAG) <==> TypeHigh(tag) == 7 && TypeChunk(tag) == 0xff
  {
  }

  /** Comparing under a mask without an id is comparing the type. */
  lemma MatchesState(tag: word)
    ensures Matches(STATE_MASK, tag, STATE_TAG) <==> IsState(tag)
  {
    hide TypeHigh, TypeChunk, Matches;
    StateBits(tag);
    StateType(TypeHigh(tag), TypeChunk(tag));
  }

  /** The entry that a step of the backward walk comes to. */
  lemma StateStep(rest: seq<Raw>, tag: word)
    requires rest != [] && Unpack(tag) == Unpack(rest[|rest| - 1].word)
    ensures !IsState(tag) ==> LastState(Entries(rest)) == LastState(Entries(rest[..|rest| - 1]))
    ensures IsState(tag) && SizeOf(tag) == DELETED_SIZE ==> LastState(Entries(rest)) == None
    ensures IsState(tag) && SizeOf(tag) != DELETED_SIZE ==>
      LastState(Entries(rest)) == Some(Slot(TypeOf(tag), SizeOf(tag), rest[|rest| - 1].data))
  {
    hide TypeOf, IdOf, SizeOf, Entries;
    EntriesSnoc(rest);
    LastStateSnoc(Entries(rest[..|rest| - 1]), EntryOf(rest[|rest| - 1]));
  }

  lemma NoState()
    ensures LastState(Entries([])) == None
  {
  }

  /** lfs_dir_get for the entry: the loop of lfs_dir_getslice with a mask that has no id, so that splices are passed
      by. */
  method GetState(dev: seq<byte>, off: nat, etag: word, ghost raws: seq<Raw>) returns (r: Found)
    requires Holds(dev, raws, off) && GoodTags(raws) && etag == LastWord(raws)
    ensures Answers(r, LastState(Entries(raws)), 12)
  {
    hide *;
    var o: nat := off;
    var ntag: word := etag;
    CursorAtEnd(dev, raws, off);
    ghost var rest := raws;
    while o >= 4 + DSize(ntag)
      invariant Cursor(dev, rest, o, ntag) && LastState(Entries(raws)) == LastState(Entries(rest))
      decreases |rest|
    {
      CursorInside(dev, rest, o, ntag);
      ghost var last := rest[|rest| - 1];
      o := o - DSize(ntag);
      var tag := ntag;
      ntag := PreviousTag(dev[o..o + 4], tag);
      MatchesState(tag);
      StateStep(rest, tag);
      DataSize(tag);
      if Matches(STATE_MASK, tag, STATE_TAG) {
        if SizeOf(tag) == 0x3ff {
          DeletedSize();
          MetaBlock.Nothing(12);
          return NotFound;
        }
        DeletedSize();
        r := ReadBuffer(dev, o, tag, 0, 12, last.data);
        NoDifference(tag);
        AnswersIs(r, Slot(TypeOf(tag), SizeOf(tag), last.data), 12);
        return;
      }
      rest := rest[..|rest| - 1];
    }
    CursorEmpty(dev, rest, o, ntag);
    NoState();
    MetaBlock.Nothing(12);
    r := NotFound;
  }

  lemma NoDifference(tag: word)
    ensures Plus(tag, 0) == tag
  {
  }

  lemma DeletedSize()
    ensures DELETED_SIZE == 0x3ff
  {
  }

  lemma CursorEmpty(dev: seq<byte>, rest: seq<Raw>, o: nat, ntag: word)
    requires Cursor(dev, rest, o, ntag) && o < 4 + DSize(ntag)
    ensures rest == []
  {
    hide Xor, Body, Be, UnBe, DSize, GoodTag, Unpack;
    if rest != [] {
      BodyTwice(LastWord(rest));
      DecodesPrevious(dev, rest, o, ntag);
    }
  }

  // ----- the bytes of the state

  /** lfs_gstate_tole32 and a copy to memory. */
  function StateBytes(g: G.Global): (s: seq<byte>)
    ensures |s| == 12
  {
    Le(g.tag) + Le(g.block0) + Le(g.block1)
  }

  /** A copy from memory and lfs_gstate_fromle32. */
  function BytesState(s: seq<byte>): G.Global
    requires |s| == 12
  {
    G.Global(UnLe(s[..4]), UnLe(s[4..8]), UnLe(s[8..]))
  }

  lemma StateRoundTrip(g: G.Global)
    ensures BytesState(StateBytes(g)) == g
  {
    hide Le, UnLe;
    LeRoundTrip(g.tag);
    LeRoundTrip(g.block0);
    LeRoundTrip(g.block1);
    var s := StateBytes(g);
    assert s[..4] == Le(g.tag) && s[4..8] == Le(g.block0) && s[8..] == Le(g.block1);
  }

  /** A directory's contribution to the global state. */
  function Contribution(es: seq<Entry>): G.Global {
    match LastState(es)
    case None => G.ZERO
    case Some(slot) => BytesState(Padded(slot.data, 12))
  }

  /** lfs_dir_getgstate. */
  method AddState(dev: seq<byte>, off: nat, etag: word, gstate: G.Global, ghost raws: seq<Raw>) returns (r: G.Global)
    requires Holds(dev, raws, off) && GoodTags(raws) && etag == LastWord(raws)
    ensures r == G.Plus(gstate, Contribution(Entries(raws)))
  {
    hide Holds, GoodTags, LastWord, Entries, LastState, G.Plus, Padded, BytesState;
    var found := GetState(dev, off, etag, raws);
    if found == NotFound {
      NothingAdded(gstate);
      return gstate;
    }
    r := G.Plus(gstate, BytesState(found.buffer));
  }

  lemma NothingAdded(g: G.Global)
    ensures G.Plus(g, G.ZERO) == g
  {
    hide Xor;
    XorZero(g.tag);
    XorZero(g.block0);
    XorZero(g.block1);
  }

  lemma XorZero(a: word)
    ensures Xor(a, 0) == a
  {
  }

  // ----- commits

  ghost predicate WithoutState(attrs: seq<Raw>) {
    forall i :: 0 <= i < |attrs| ==> !IsState(attrs[i].word)
  }

  lemma CrcIsNoState(w: word)
    ensures IsCrc(w) ==> !IsState(w)
  {
    hide TypeOf;
  }

  lemma LastStateOf(raws: seq<Raw>, r: Raw)
    ensures !IsState(r.word) ==> LastState(Entries(raws + [r])) == LastState(Entries(raws))
    ensures IsState(r.word) && SizeOf(r.word) != DELETED_SIZE ==>
      LastState(Entries(raws + [r])) == Some(Slot(TypeOf(r.word), SizeOf(r.word), r.data))
  {
    hide TypeOf, IdOf, SizeOf, Entries;
    EntriesSnocOne(raws, r);
    LastStateSnoc(Entries(raws), EntryOf(r));
  }

  /** Checksums do not touch it. */
  lemma {:induction false} PlainState(raws: seq<Raw>)
    ensures LastState(Entries(raws)) == LastState(Entries(Plain(raws)))
  {
    hide *;
    if raws == [] {
      NothingPlain();
    } else {
      var before, r := raws[..|raws| - 1], raws[|raws| - 1];
      assert raws == before + [r];
      PlainState(before);
      PlainUnfold(raws);
      LastStateOf(before, r);
      LastStateEither(before, r);
      CrcIsNoState(r.word);
      if !IsCrc(r.word) {
        LastStateEither(Plain(before), r);
      }
    }
  }

  lemma LastStateEither(raws: seq<Raw>, r: Raw)
    ensures LastState(Entries(raws + [r]))
      == if IsState(r.word) then LastState([EntryOf(r)]) else LastState(Entries(raws))
  {
    hide TypeOf, IdOf, SizeOf, Entries;
    EntriesSnocOne(raws, r);
    LastStateSnoc(Entries(raws), EntryOf(r));
    LastStateSnoc([], EntryOf(r));
  }

  /** Nor do attributes of files. */
  lemma {:induction false} AttrsState(log: seq<Raw>, attrs: seq<Raw>)
    requires WithoutState(attrs)
    ensures LastState(Entries(log + attrs)) == LastState(Entries(log))
    decreases |attrs|
  {
    hide *;
    if attrs == [] {
      assert log + attrs == log;
    } else {
      var n := |attrs| - 1;
      WithoutSnoc(attrs);
      AttrsState(log, attrs[..n]);
      LastStateOf(log + attrs[..n], attrs[n]);
      assert log + attrs == (log + attrs[..n]) + [attrs[n]];
    }
  }

  lemma WithoutSnoc(attrs: seq<Raw>)
    requires WithoutState(attrs) && attrs != []
    ensures WithoutState(attrs[..|attrs| - 1]) && !IsState(attrs[|attrs| - 1].word)
  {
    hide IsState;
  }

  /** What a commit adds to the attributes of its caller. */
  function StateAttrs(g: G.Global): seq<Raw> { [Raw(STATE_ENTRY, StateBytes(g))] }

  lemma StateIsAttr(g: G.Global)
    ensures IsAttr(StateAttrs(g)[0]) && IsState(STATE_ENTRY) && SizeOf(STATE_ENTRY) == 12
  {
    hide StateBytes, IsAttr;
    StateFields();
    StateIs(StateAttrs(g)[0]);
  }

  lemma StateFields()
    ensures TypeOf(STATE_ENTRY) == 0x7ff && SizeOf(STATE_ENTRY) == 12 && IsValid(STATE_ENTRY)
  {
    assert TypeHigh(STATE_ENTRY) == 7 && TypeChunk(STATE_ENTRY) == 0xff && SizeBits(STATE_ENTRY) == 12;
  }

  lemma StateIs(r: Raw)
    requires TypeOf(r.word) == 0x7ff && SizeOf(r.word) == 12 && IsValid(r.word) && |r.data| == 12
    ensures IsAttr(r)
  {
    hide TypeOf, SizeOf, IsValid;
  }

  /** Behind a commit with a new state entry that is the contribution, and behind any other commit the old one is. */
  lemma CommitState(log: seq<Raw>, attrs: seq<Raw>, log': seq<Raw>, g: G.Global)
    requires FreeChecksums(log) && AreAttrs(attrs) && WithoutState(attrs)
    ensures Adds(log, attrs, log') ==> Contribution(Entries(log')) == Contribution(Entries(log))
    ensures AreAttrs(attrs + StateAttrs(g))
    ensures Adds(log, attrs + StateAttrs(g), log') ==> Contribution(Entries(log')) == g
  {
    hide *;
    StateIsAttr(g);
    AttrsSnoc(attrs, g);
    PlainState(log);
    PlainState(log');
    AttrsState(Plain(log), attrs);
    if Adds(log, attrs, log') {
      CommitMeans(log, attrs, log');
      SameContribution(Entries(log), Entries(log'));
    }
    if Adds(log, attrs + StateAttrs(g), log') {
      CommitMeans(log, attrs + StateAttrs(g), log');
      OneState(g);
      assert Plain(log) + (attrs + StateAttrs(g)) == (Plain(log) + attrs) + StateAttrs(g);
      LastStateOf(Plain(log) + attrs, StateAttrs(g)[0]);
      DeletedSize();
      IsContribution(Entries(log'), g);
    }
  }

  lemma OneState(g: G.Global)
    ensures StateAttrs(g) == [StateAttrs(g)[0]] && StateAttrs(g)[0] == Raw(STATE_ENTRY, StateBytes(g))
  {
  }

  lemma AttrsSnoc(attrs: seq<Raw>, g: G.Global)
    requires AreAttrs(attrs) && IsAttr(StateAttrs(g)[0])
    ensures AreAttrs(attrs + StateAttrs(g))
  {
    hide IsAttr, StateBytes;
  }

  lemma SameContribution(es: seq<Entry>, es': seq<Entry>)
    requires LastState(es) == LastState(es')
    ensures Contribution(es) == Contribution(es')
  {
    hide LastState, BytesState, Padded;
  }

  lemma IsContribution(es: seq<Entry>, g: G.Global)
    requires LastState(es).Some? && LastState(es).value.data == StateBytes(g)
    ensures Contribution(es) == g
  {
    hide LastState;
    assert Padded(StateBytes(g), 12) == StateBytes(g);
    hide Padded, StateBytes, BytesState;
    StateRoundTrip(g);
  }

  /** lfs_dir_commit appending attributes and the noted change of the global state: afterwards the directory contributes
      what it contributed before, and the change. */
  method Append(block: array<byte>, progSize: nat, off: nat, etag: word, attrs: seq<Raw>, gdelta: G.Global,
                ghost log: seq<Raw>)
    returns (ok: bool, off': nat, etag': word, ghost log': seq<Raw>)
    requires progSize > 0 && block.Length % progSize == 0 && block.Length >= 8
    requires Fetched(block[..], log, off, etag) && FreeChecksums(log) && GoodTags(log)
    requires AreAttrs(attrs) && GoodTags(attrs) && WithoutState(attrs) && (attrs != [] || gdelta != G.ZERO)
    modifies block
    ensures ok <==> off + Bytes(attrs) + (if gdelta == G.ZERO then 0 else 16) <= block.Length - 8
    ensures ok ==> Fetched(block[..], log', off', etag') && Longest(block[..], log')
    ensures ok ==> FreeChecksums(log') && GoodTags(log')
    ensures ok ==> Contribution(Entries(log')) == G.Plus(Contribution(Entries(log)), gdelta)
    ensures ok && gdelta == G.ZERO ==> Adds(log, attrs, log')
    ensures ok && gdelta != G.ZERO ==> Adds(log, attrs + StateAttrs(G.Plus(Contribution(Entries(log)), gdelta)), log')
    ensures off <= block.Length && block[..off] == old(block[..])[..off]
  {
    hide *;
    ghost var before := Contribution(Entries(log));
    ghost var d := block[..];
    NothingAdded(before);
    FetchedHolds(d, log, off, etag);
    var all := attrs;
    ghost var state := gdelta;
    if gdelta != G.Global(0, 0, 0) {
      ZeroIs();
      var g := AddState(block[..], off, etag, gdelta, log);
      PlusSwap(gdelta, before);
      state := g;
      all := attrs + StateAttrs(g);
    }
    ZeroIs();
    CommitState(log, attrs, [], state);
    FetchedEnd(d, log, off, etag, all);
    StateLength(attrs, state);
    ok, off', etag', log' := Atomicity.Append(block, progSize, off, etag, all, log);
    if ok {
      CommitState(log, attrs, log', state);
      GoodState(attrs, state);
      GoodAfter(log, all, log');
    }
  }

  lemma GoodState(attrs: seq<Raw>, g: G.Global)
    requires GoodTags(attrs)
    ensures GoodTags(attrs + StateAttrs(g))
  {
    hide GoodTags, StateBytes;
    GoodSnoc(attrs, StateAttrs(g)[0]);
    assert GoodTag(STATE_ENTRY);
  }

  lemma GoodAfter(log: seq<Raw>, attrs: seq<Raw>, log': seq<Raw>)
    requires FreeChecksums(log) && GoodTags(log) && AreAttrs(attrs) && GoodTags(attrs) && Adds(log, attrs, log')
    ensures FreeChecksums(log') && GoodTags(log')
  {
    hide *;
    CommitMeans(log, attrs, log');
    PlainIsEnough(log);
    PlainIsEnough(log');
    GoodConcat(Plain(log), attrs);
  }

  lemma GoodConcat(a: seq<Raw>, b: seq<Raw>)
    requires GoodTags(a) && GoodTags(b)
    ensures GoodTags(a + b)
  {
    hide GoodTag;
  }

  lemma ZeroIs()
    ensures G.ZERO == G.Global(0, 0, 0)
  {
  }

  lemma PlusSwap(a: G.Global, b: G.Global)
    ensures G.Plus(a, b) == G.Plus(b, a)
  {
    hide Xor;
    XorSwap(a.tag, b.tag);
    XorSwap(a.block0, b.block0);
    XorSwap(a.block1, b.block1);
  }

  lemma XorSwap(a: word, b: word)
    ensures Xor(a, b) == Xor(b, a)
  {
  }

  lemma StateLength(attrs: seq<Raw>, g: G.Global)
    ensures Bytes(attrs + StateAttrs(g)) == Bytes(attrs) + 16 && attrs + StateAttrs(g) != []
  {
    hide SizeOf, StateBytes;
    StateFields();
    assert (attrs + StateAttrs(g))[..|attrs|] == attrs;
  }

  lemma FetchedHolds(d: seq<byte>, log: seq<Raw>, off: nat, etag: word)
    requires Fetched(d, log, off, etag)
    ensures Holds(d, log, off) && etag == LastWord(log)
  {
    hide *;
    FetchedParts(d, log, off, etag);
    ScannedSized(d, log);
    ScannedHolds(d, log, off);
  }

  lemma ScannedHolds(d: seq<byte>, log: seq<Raw>, off: nat)
    requires Sized(log) && Scanned(d, log) && off == End(log) && 4 <= off <= |d|
    ensures Holds(d, log, off)
  {
    hide Passes, Register, Encode;
  }
}
