/** The metadata log as bytes of a block: the XOR chain of tags, and the backward lookup of lfs_dir_getslice. */
module MetaBlock {
  import opened Bits
  import opened Words
  import opened MetaLog
  import opened TagWord

  /** A tag as the chain carries it (its valid bit is the expected one of the next tag) with its data. */
  datatype Raw = Raw(word: word, data: seq<byte>)

  /** The tag that the next one is XORed with. */
  function LastWord(raws: seq<Raw>): word {
    if raws == [] then ALL_ONES else raws[|raws| - 1].word
  }

  /** The bytes of a log after the revision count. */
  function Encode(raws: seq<Raw>): seq<byte> {
    if raws == [] then []
    else
      var before, r := raws[..|raws| - 1], raws[|raws| - 1];
      Encode(before) + Be(Xor(Body(r.word), LastWord(before))) + r.data
  }

  /** The log as entries. */
  function Entries(raws: seq<Raw>): (es: seq<Entry>)
    ensures |es| == |raws|
  {
    seq(|raws|, i requires 0 <= i < |raws| => Entry(Unpack(raws[i].word), raws[i].data))
  }

  /** Every entry has as much data as its tag says. */
  ghost predicate Sized(raws: seq<Raw>) {
    forall i :: 0 <= i < |raws| ==> |raws[i].data| == DSize(raws[i].word) - 4
  }

  ghost predicate GoodTags(raws: seq<Raw>) {
    forall i :: 0 <= i < |raws| ==> GoodTag(raws[i].word)
  }

  /** The block holds the log up to off. */
  ghost predicate Holds(dev: seq<byte>, raws: seq<Raw>, off: nat) {
    && Sized(raws)
    && 4 <= off <= |dev| && dev[4..off] == Encode(raws)
  }

  /** The last entry of a log in a block: where it starts, its stored tag, and its data. */
  lemma LastEntry(dev: seq<byte>, raws: seq<Raw>, off: nat)
    requires Holds(dev, raws, off) && raws != []
    ensures var r, before := raws[|raws| - 1], raws[..|raws| - 1];
      && off >= 4 + DSize(r.word)
      && Holds(dev, before, off - DSize(r.word))
      && dev[off - DSize(r.word)..off - DSize(r.word) + 4] == Be(Xor(Body(r.word), LastWord(before)))
      && dev[off - DSize(r.word) + 4..off] == r.data
  {
    hide Xor, Body, Be, DSize, GoodTag;
    var r, before := raws[|raws| - 1], raws[..|raws| - 1];
    var stored := Be(Xor(Body(r.word), LastWord(before)));
    LastOf(raws);
    assert Encode(raws) == Encode(before) + stored + r.data;
    hide Encode;
    ThreeParts(dev, off, Encode(before), stored, r.data);
  }

  lemma ThreeParts(dev: seq<byte>, off: nat, a: seq<byte>, b: seq<byte>, c: seq<byte>)
    requires 4 <= off <= |dev| && dev[4..off] == a + b + c
    ensures var i := off - |c|;
      && i >= 4 + |b| && dev[4..i - |b|] == a && dev[i - |b|..i] == b && dev[i..off] == c
  {
    var all, n, m := a + b + c, |a|, |a| + |b|;
    assert |all| == off - 4;
    assert all[..n] == a && all[n..m] == b && all[m..] == c;
    SliceOfSlice(dev, 4, off, 0, n);
    SliceOfSlice(dev, 4, off, n, m);
    SliceOfSlice(dev, 4, off, m, off - 4);
  }

  lemma LastOf(raws: seq<Raw>)
    requires Sized(raws) && raws != []
    ensures Sized(raws[..|raws| - 1])
    ensures |raws[|raws| - 1].data| == DSize(raws[|raws| - 1].word) - 4
    ensures GoodTags(raws) ==> GoodTags(raws[..|raws| - 1]) && GoodTag(raws[|raws| - 1].word)
  {
  }

  // ----- backward decoding

  /** The tag before the current one, as the loop of lfs_dir_getslice decodes it. */
  function PreviousTag(stored: seq<byte>, tag: word): word
    requires |stored| == 4
  {
    Body(Xor(UnBe(stored), tag))
  }

  /** The backward walk decodes the forward tags in reverse order. */
  lemma DecodesPrevious(dev: seq<byte>, raws: seq<Raw>, off: nat, tag: word)
    requires Holds(dev, raws, off) && raws != [] && Body(tag) == Body(LastWord(raws))
    ensures off >= 4 + DSize(tag) && DSize(tag) >= 4
    ensures PreviousTag(dev[off - DSize(tag)..off - DSize(tag) + 4], tag) == Body(LastWord(raws[..|raws| - 1]))
  {
    hide Xor, Body, Be, UnBe, DSize, GoodTag, Unpack;
    var r, prev := raws[|raws| - 1], LastWord(raws[..|raws| - 1]);
    LastEntry(dev, raws, off);
    SameFields(tag, r.word);
    SizeAtLeast(tag);
    var w := Xor(Body(r.word), prev);
    BeRoundTrip(w);
    XorTag(tag, r.word, prev);
  }

  lemma SizeAtLeast(tag: word)
    ensures DSize(tag) >= 4
  {
  }

  lemma XorTag(tag: word, w: word, prev: word)
    requires Body(tag) == Body(w)
    ensures Body(Xor(Xor(Body(w), prev), tag)) == Body(prev)
  {
    hide Xor, Body;
    XorBack(tag, prev);
  }

  lemma FirstTag()
    ensures DSize(ALL_ONES) == 4 && DSize(Body(ALL_ONES)) == 4
  {
    assert SizeBits(ALL_ONES) == 0x3ff && SizeBits(Body(ALL_ONES)) == 0x3ff;
  }

  // ----- lookups

  datatype Found = NotFound | Got(tag: word, buffer: seq<byte>)

  /** The first bytes of the data, padded with zeros. */
  function Padded(data: seq<byte>, size: nat): (r: seq<byte>)
    ensures |r| == size
  {
    if |data| >= size then data[..size] else data + seq(size - |data|, _ => 0)
  }

  /** The answer to a lookup: the type and size of the entry, and as much of its data as was asked for. */
  ghost predicate Answers(found: Found, want: Option<Slot>, size: nat) {
    match want
    case None => found == NotFound
    case Some(slot) =>
      && found.Got? && TypeOf(found.tag) == slot.ty && SizeOf(found.tag) == slot.size
      && found.buffer == Padded(slot.data, size)
  }

  /** lfs_dir_get: the loop of lfs_dir_getslice with goff 0. */
  method Get(dev: seq<byte>, off: nat, etag: word, gmask: word, gtag: word, gsize: nat,
             ghost raws: seq<Raw>, ghost key: nat)
    returns (r: Found)
    requires Holds(dev, raws, off) && GoodTags(raws) && etag == LastWord(raws)
    requires Asks(gmask, gtag, key) && Stays(Entries(raws), key, IdOf(gtag)) 
    requires gmask == NAME_MASK ==> NamesOnly(Entries(raws), key, IdOf(gtag))
    ensures Answers(r, Lookup(Entries(raws), key, IdOf(gtag)), gsize)
    ensures r.Got? ==> IdOf(r.tag) == IdOf(gtag) && SizeOf(r.tag) == |Lookup(Entries(raws), key, IdOf(gtag)).value.data|
  {
    hide *;
    var o: nat := off;
    var ntag, gdiff: word := etag, 0;
    CursorAtEnd(dev, raws, off);
    StartDifference(gtag);
    AsksMask(gmask, gtag, key);
    ghost var rest := raws;
    ghost var want := Lookup(Entries(raws), key, IdOf(gtag));
    while o >= 4 + DSize(ntag)
      invariant Cursor(dev, rest, o, ntag) && CountsIds(gdiff) 
      invariant gmask == NAME_MASK ==> NamesOnly(Entries(rest), key, IdOf(Minus(gtag, gdiff)))
      invariant Asks(gmask, Minus(gtag, gdiff), key) && Stays(Entries(rest), key, IdOf(Minus(gtag, gdiff)))
      invariant want == Lookup(Entries(rest), key, IdOf(Minus(gtag, gdiff)))
      invariant OtherBits(Minus(gtag, gdiff)) == OtherBits(gtag)
      decreases |rest|
    {
      CursorInside(dev, rest, o, ntag);
      ghost var last := rest[|rest| - 1];
      o := o - DSize(ntag);
      var tag, g := ntag, Minus(gtag, gdiff);
      ntag := PreviousTag(dev[o..o + 4], tag);
      var round := SearchRound(tag, gmask, g);
      StaysUnfold(rest, key, IdOf(g));
      NamesDecide(gmask, rest, tag, key, IdOf(g));
      RoundIsStep(tag, last.data, gmask, g, key);
      SimulatesCases(LookAt(Entry(Unpack(tag), last.data), key, IdOf(g)), round, gmask, key);
      LookupStep(rest, tag, gmask, g, key, round);
      if round == Missing {
        Nothing(gsize);
        return NotFound;
      }
      RoundSought(tag, gmask, g);
      RoundKeepsOthers(tag, gmask, g);
      RoundDifference(tag, gtag, gdiff);
      gdiff := NextDiff(gdiff, tag, g);
      if round == Match {
        FoundTag(tag, gmask, gtag, gdiff);
        r := ReadBuffer(dev, o, tag, gdiff, gsize, last.data);
        AnswersIs(r, Slot(TypeOf(tag), SizeOf(tag), last.data), gsize);
        return;
      }
      rest := rest[..|rest| - 1];
    }
    CursorAtStart(dev, rest, o, ntag, key, IdOf(Minus(gtag, gdiff)));
    Nothing(gsize);
    r := NotFound;
  }

  lemma StartDifference(gtag: word)
    ensures CountsIds(0) && Minus(gtag, 0) == gtag
  {
  }

  lemma NamesDecide(gmask: word, rest: seq<Raw>, tag: word, key: nat, id: nat)
    requires rest != [] && Unpack(tag) == Unpack(rest[|rest| - 1].word)
    requires gmask == NAME_MASK ==> NamesOnly(Entries(rest), key, id)
    ensures Decides(gmask, tag, id)
    ensures gmask == NAME_MASK ==>
      var r := LookAt(Entry(Unpack(tag), rest[|rest| - 1].data), key, id);
      r.Open? ==> NamesOnly(Entries(rest[..|rest| - 1]), key, r.id)
  {
    hide TypeOf, IdOf, SizeOf, LookAt, IsFileName;
    var es := Entries(rest);
    assert es[..|es| - 1] == Entries(rest[..|rest| - 1]);
    assert es[|es| - 1] == Entry(Unpack(tag), rest[|rest| - 1].data);
  }

  lemma AsksMask(gmask: word, g: word, key: nat)
    requires Asks(gmask, g, key)
    ensures gmask == EXACT_MASK || gmask == SLOT_MASK || gmask == NAME_MASK
  {
    hide IsFileKey, TypeOf;
  }

  /** On a well-formed log, what the backward walk over the bytes finds is what forward replay computes. */
  lemma AnswersReplay(found: Found, raws: seq<Raw>, key: nat, id: nat, size: nat)
    requires WellFormed(Entries(raws)) && IsFileKey(key)
    requires Answers(found, Lookup(Entries(raws), key, id), size)
    ensures Answers(found, Attribute(Replay(Entries(raws)), key, id), size)
  {
    LookupIsReplay(Entries(raws), key, id);
  }

  /** Where the loop stands: rest of the log lies before o, and ntag is its last tag. */
  ghost predicate Cursor(dev: seq<byte>, rest: seq<Raw>, o: nat, ntag: word) {
    Holds(dev, rest, o) && GoodTags(rest) && (ntag == LastWord(rest) || ntag == Body(LastWord(rest)))
  }

  lemma CursorAtEnd(dev: seq<byte>, raws: seq<Raw>, off: nat)
    requires Holds(dev, raws, off) && GoodTags(raws)
    ensures Cursor(dev, raws, off, LastWord(raws))
  {
  }

  lemma CursorInside(dev: seq<byte>, rest: seq<Raw>, o: nat, ntag: word)
    requires Cursor(dev, rest, o, ntag) && o >= 4 + DSize(ntag)
    ensures rest != [] && 4 <= o - DSize(ntag) && DSize(ntag) >= 4 && o <= |dev|
    ensures var last, start := rest[|rest| - 1], o - DSize(ntag);
      && GoodTag(ntag) && Unpack(ntag) == Unpack(last.word)
      && |last.data| == DSize(ntag) - 4 && dev[start + 4..o] == last.data
      && Cursor(dev, rest[..|rest| - 1], start, PreviousTag(dev[start..start + 4], ntag))
  {
    hide Xor, Body, Be, UnBe, DSize, GoodTag, Unpack, PreviousTag, Sized, GoodTags;
    BodyTwice(LastWord(rest));
    if rest == [] {
      FirstTag();
      EmptyAtFour(dev, o);
    } else {
      var last := rest[|rest| - 1];
      SizeAtLeast(ntag);
      SameFields(ntag, last.word);
      LastOf(rest);
      GoodBody(last.word);
      LastEntry(dev, rest, o);
      DecodesPrevious(dev, rest, o, ntag);
    }
  }

  lemma EmptyAtFour(dev: seq<byte>, o: nat)
    requires Holds(dev, [], o)
    ensures o == 4
  {
    assert |dev[4..o]| == 0;
  }

  lemma BodyTwice(w: word)
    ensures Body(Body(w)) == Body(w)
  {
  }

  lemma GoodBody(w: word)
    requires GoodTag(w)
    ensures GoodTag(Body(w))
  {
  }

  /** The loop ends exactly when nothing is left. */
  lemma CursorAtStart(dev: seq<byte>, rest: seq<Raw>, o: nat, ntag: word, key: nat, id: nat)
    requires Cursor(dev, rest, o, ntag) && o < 4 + DSize(ntag)
    ensures Lookup(Entries(rest), key, id) == None
  {
    hide Xor, Body, Be, UnBe, DSize, GoodTag, Unpack;
    if rest != [] {
      BodyTwice(LastWord(rest));
      DecodesPrevious(dev, rest, o, ntag);
    }
  }

  /** What one round means for the whole lookup. */
  lemma LookupStep(rest: seq<Raw>, tag: word, gmask: word, g: word, key: nat, round: Round)
    requires rest != [] && Unpack(tag) == Unpack(rest[|rest| - 1].word)
    requires |rest[|rest| - 1].data| == DSize(tag) - 4 && GoodTag(tag)
    requires Stays(Entries(rest), key, IdOf(g))
    requires Simulates(LookAt(Entry(Unpack(tag), rest[|rest| - 1].data), key, IdOf(g)), round, gmask, key)
    ensures round == Missing ==> Lookup(Entries(rest), key, IdOf(g)) == None
    ensures round == Match ==>
      && Lookup(Entries(rest), key, IdOf(g)) == Some(Slot(TypeOf(tag), SizeOf(tag), rest[|rest| - 1].data))
      && SizeOf(tag) == |rest[|rest| - 1].data|
    ensures round.Continue? ==>
      && Lookup(Entries(rest), key, IdOf(g)) == Lookup(Entries(rest[..|rest| - 1]), key, IdOf(round.g))
      && Stays(Entries(rest[..|rest| - 1]), key, IdOf(round.g))
      && Asks(gmask, round.g, key)
  {
    hide *;
    var last := rest[|rest| - 1];
    var e := Entry(Unpack(tag), last.data);
    GoodSplicesOf(tag);
    UnpackFields(tag);
    UnpackFields(last.word);
    HitIsLast(e, key, IdOf(g));
    SlotOfWord(tag, last.data);
    LookupUnfold(rest, e, key, IdOf(g));
    StaysUnfold(rest, key, IdOf(g));
    SimulatesCases(LookAt(e, key, IdOf(g)), round, gmask, key);
    DataSize(tag);
  }

  lemma SlotOfWord(tag: word, data: seq<byte>)
    ensures SlotOf(Entry(Unpack(tag), data)) == Slot(TypeOf(tag), SizeOf(tag), data)
  {
    hide TypeOf, SizeOf, IdOf;
  }

  lemma DataSize(tag: word)
    ensures SizeOf(tag) != DELETED_SIZE ==> DSize(tag) == 4 + SizeOf(tag)
  {
    hide SizeOf;
  }

  lemma StaysUnfold(rest: seq<Raw>, key: nat, id: int)
    requires rest != [] && Stays(Entries(rest), key, id)
    ensures 0 <= id < 0x3ff
    ensures var r := LookAt(Entry(Unpack(rest[|rest| - 1].word), rest[|rest| - 1].data), key, id);
      r.Open? ==> Stays(Entries(rest[..|rest| - 1]), key, r.id)
  {
    hide Unpack, LookAt;
    var es := Entries(rest);
    assert es[..|es| - 1] == Entries(rest[..|rest| - 1]);
  }

  lemma SimulatesCases(look: Search, round: Round, gmask: word, key: nat)
    requires Simulates(look, round, gmask, key)
    ensures round == Missing ==> look == Gone
    ensures round == Match ==> look.Hit?
    ensures round.Continue? ==> look.Open? && IdOf(round.g) == look.id && Asks(gmask, round.g, key)
  {
    hide IdOf, Asks;
  }

  lemma LookupUnfold(rest: seq<Raw>, e: Entry, key: nat, id: nat)
    requires rest != [] && e == Entry(Unpack(rest[|rest| - 1].word), rest[|rest| - 1].data)
    ensures Lookup(Entries(rest), key, id)
      == match LookAt(e, key, id)
         case Gone => None
         case Hit(f) => Some(SlotOf(f))
         case Open(id') => Lookup(Entries(rest[..|rest| - 1]), key, id')
  {
    hide Unpack, LookAt;
    var es := Entries(rest);
    assert es[..|es| - 1] == Entries(rest[..|rest| - 1]);
    assert es[|es| - 1] == e;
  }

  lemma GoodSplicesOf(tag: word)
    requires GoodTag(tag)
    ensures IsSplice(Unpack(tag)) ==> Unpack(tag).ty == TYPE_CREATE || Unpack(tag).ty == TYPE_DELETE
  {
    hide HasSpliceType, IsCreateWord, IsDeleteWord, TypeOf, IdOf, SizeOf;
    IsSpliceWord(tag);
    if HasSpliceType(tag) {
      GoodSpliceTag(tag);
      if IsCreateWord(tag) {
        CreateWord(tag);
      } else {
        DeleteWord(tag);
      }
    }
  }

  lemma HitIsLast(e: Entry, key: nat, id: nat)
    ensures LookAt(e, key, id).Hit? ==> e.tag.size != DELETED_SIZE && LookAt(e, key, id).entry == e
  {
  }

  lemma AnswersIs(found: Found, slot: Slot, size: nat)
    requires found.Got? && TypeOf(found.tag) == slot.ty && SizeOf(found.tag) == slot.size
    requires found.buffer == Padded(slot.data, size)
    ensures Answers(found, Some(slot), size)
  {
    hide TypeOf, SizeOf, Padded;
  }

  lemma Nothing(size: nat)
    ensures Answers(NotFound, None, size)
  {
  }

  /** Copy the entry's data, cut or padded with zeros to the size asked for. */
  method ReadBuffer(dev: seq<byte>, o: nat, tag: word, gdiff: word, gsize: nat, ghost data: seq<byte>)
    returns (r: Found)
    requires o + 4 + |data| <= |dev| && dev[o + 4..o + 4 + |data|] == data && SizeOf(tag) == |data|
    ensures r == Got(Plus(tag, gdiff), Padded(data, gsize))
  {
    hide SizeOf, Plus;
    var diff := Min(SizeOf(tag), gsize);
    var buffer := dev[o + 4..o + 4 + diff];
    assert buffer == dev[o + 4..o + 4 + |data|][..diff];
    r := Got(Plus(tag, gdiff), buffer + seq(gsize - diff, _ => 0));
  }
}
