/** The 32-bit encoding of tags: fields, the XOR chain, and the comparisons that lookups make on whole words.
    The leaf lemmas are facts about bit vectors; everything else is derived from them with the bits hidden. */
module TagWord {
  import opened Words
  import opened MetaLog

  const VALID_MASK: word := 0x7fff_ffff

  function TypeHigh(w: word): bv3 { ((w >> 28) & 0x7) as bv3 }

  function TypeChunk(w: word): bv8 { ((w >> 20) & 0xff) as bv8 }

  function IdBits(w: word): bv10 { ((w >> 10) & 0x3ff) as bv10 }

  function SizeBits(w: word): bv10 { (w & 0x3ff) as bv10 }

  function BandNumber(h: bv3): nat { h as nat }

  function ChunkNumber(c: bv8): (n: nat)
    ensures n < 0x100
  {
    c as nat
  }

  function TypeOf(w: word): nat { 0x100 * BandNumber(TypeHigh(w)) + ChunkNumber(TypeChunk(w)) }

  function IdOf(w: word): nat { IdBits(w) as nat }

  function SizeOf(w: word): nat { SizeBits(w) as nat }

  function Unpack(w: word): Tag { Tag(TypeOf(w), IdOf(w), SizeOf(w)) }

  /** lfs_tag_isvalid. */
  predicate IsValid(w: word) { w & 0x8000_0000 == 0 }

  function DSize(w: word): nat { DiskSize(SizeOf(w)) }

  /** A tag without its valid bit. */
  function Body(w: word): word { w & VALID_MASK }

  // ----- the valid bit

  lemma BodyFields(w: word)
    ensures TypeHigh(Body(w)) == TypeHigh(w) && TypeChunk(Body(w)) == TypeChunk(w)
    ensures IdBits(Body(w)) == IdBits(w) && SizeBits(Body(w)) == SizeBits(w)
  {
    hide *;
    BodyHigh(w);
    BodyChunk(w);
    BodyId(w);
    BodySize(w);
  }

  lemma BodyHigh(w: word) ensures TypeHigh(Body(w)) == TypeHigh(w) {}

  lemma BodyChunk(w: word) ensures TypeChunk(Body(w)) == TypeChunk(w) {}

  lemma BodyId(w: word) ensures IdBits(Body(w)) == IdBits(w) {}

  lemma BodySize(w: word) ensures SizeBits(Body(w)) == SizeBits(w) {}

  /** Tags that differ in the valid bit only have the same fields. */
  lemma SameFields(v: word, w: word)
    requires Body(v) == Body(w)
    ensures Unpack(v) == Unpack(w) && DSize(v) == DSize(w)
  {
    hide TypeHigh, TypeChunk, IdBits, SizeBits, Body;
    BodyFields(v);
    BodyFields(w);
  }

  /** The stored word is the XOR with the previous tag; from either tag it gives the other. */
  lemma XorBack(tag: word, prev: word)
    ensures Body(Xor(Xor(Body(tag), prev), tag)) == Body(prev)
    ensures Xor(Xor(Body(tag), prev), prev) == Body(tag)
  {
  }

  // ----- small fields as numbers

  lemma FieldOrder(i: bv10, j: bv10)
    ensures i as nat <= j as nat <==> i <= j
    ensures i as nat == j as nat <==> i == j
  {
  }

  lemma NextField(i: bv10)
    requires i < 0x3ff
    ensures (i + 1) as nat == i as nat + 1
  {
  }

  lemma ByteField(i: bv8, j: bv8)
    ensures ChunkNumber(i) == ChunkNumber(j) <==> i == j
  {
  }

  lemma BandField(i: bv3, j: bv3)
    ensures BandNumber(i) == BandNumber(j) <==> i == j
  {
  }

  lemma SameType(v: word, w: word)
    ensures Type1(TypeOf(v)) == Type1(TypeOf(w)) <==> TypeHigh(v) == TypeHigh(w)
    ensures TypeOf(v) == TypeOf(w) <==> TypeHigh(v) == TypeHigh(w) && TypeChunk(v) == TypeChunk(w)
  {
    hide TypeHigh, TypeChunk, Type1;
    SameTypeParts(TypeHigh(v), TypeChunk(v), TypeHigh(w), TypeChunk(w));
  }

  lemma SameTypeParts(h: bv3, c: bv8, h': bv3, c': bv8)
    ensures var ty, ty' := 0x100 * BandNumber(h) + ChunkNumber(c), 0x100 * BandNumber(h') + ChunkNumber(c');
      (Type1(ty) == Type1(ty') <==> h == h') && (ty == ty' <==> h == h' && c == c')
  {
    hide Type1, BandNumber, ChunkNumber;
    BandField(h, h');
    ByteField(c, c');
    Bands(BandNumber(h), ChunkNumber(c), BandNumber(h'), ChunkNumber(c'));
  }

  lemma Bands(h: nat, c: nat, h': nat, c': nat)
    requires c < 0x100 && c' < 0x100
    ensures Type1(0x100 * h + c) == Type1(0x100 * h' + c') <==> h == h'
    ensures 0x100 * h + c == 0x100 * h' + c' <==> h == h' && c == c'
  {
    assert Type1(0x100 * h + c) == 0x100 * h;
    assert Type1(0x100 * h' + c') == 0x100 * h';
  }

  lemma SameIdNumber(v: word, w: word)
    ensures IdBits(v) == IdBits(w) <==> IdOf(v) == IdOf(w)
    ensures IdBits(v) <= IdBits(w) <==> IdOf(v) <= IdOf(w)
  {
    hide IdBits;
    FieldOrder(IdBits(v), IdBits(w));
  }

  // ----- ids move by one

  function Up(g: word): word { g + 0x400 }

  function Down(g: word): word { g - 0x400 }

  lemma IdUp(g: word)
    requires IdOf(g) < 0x3ff
    ensures IdOf(Up(g)) == IdOf(g) + 1
  {
    hide IdBits;
    FieldOrder(IdBits(g), 0x3ff);
    IdBitsUp(g);
    NextField(IdBits(g));
  }

  lemma IdBitsUp(g: word)
    requires IdBits(g) < 0x3ff
    ensures IdBits(Up(g)) == IdBits(g) + 1
  {
    assert ((g + 0x400) >> 10) & 0x3ff == ((g >> 10) & 0x3ff) + 1;
  }

  lemma UpKeepsType(g: word)
    requires IdBits(g) < 0x3ff
    ensures TypeHigh(Up(g)) == TypeHigh(g) && TypeChunk(Up(g)) == TypeChunk(g)
  {
    assert ((g + 0x400) >> 20) == (g >> 20);
    assert ((g + 0x400) >> 28) == (g >> 28);
  }

  lemma IdDown(g: word)
    requires IdOf(g) > 0
    ensures IdOf(Down(g)) == IdOf(g) - 1
  {
    hide IdBits;
    assert IdBits(g) != 0;
    IdBitsDown(g);
    NextField(IdBits(g) - 1);
  }

  lemma IdBitsDown(g: word)
    requires IdBits(g) != 0
    ensures IdBits(Down(g)) == IdBits(g) - 1
  {
    assert ((g - 0x400) >> 10) & 0x3ff == ((g >> 10) & 0x3ff) - 1;
  }

  lemma DownKeepsType(g: word)
    requires IdBits(g) != 0
    ensures TypeHigh(Down(g)) == TypeHigh(g) && TypeChunk(Down(g)) == TypeChunk(g)
  {
    assert ((g - 0x400) >> 20) == (g >> 20);
    assert ((g - 0x400) >> 28) == (g >> 28);
  }

  // ----- one round of a lookup, on words

  // LFS_MKTAG(0x7ff, 0x3ff, 0), LFS_MKTAG(0x700, 0x3ff, 0) and LFS_MKTAG(0x780, 0x3ff, 0)
  const EXACT_MASK: word := 0x7fff_fc00
  const SLOT_MASK: word := 0x700f_fc00
  const NAME_MASK: word := 0x780f_fc00

  /** lfs_tag_splice, sign-extended and shifted into the id field. */
  function SpliceWord(tag: word): word {
    var chunk := (tag >> 20) & 0xff;
    (if chunk & 0x80 != 0 then chunk | 0xffff_ff00 else chunk) << 10
  }

  /** lfs_tag_type1(tag) == LFS_TYPE_SPLICE. */
  predicate HasSpliceType(tag: word) { tag & 0x7000_0000 == 0x4000_0000 }

  /** tag creates the id of g. */
  predicate Creates(tag: word, g: word) { tag == 0x4010_0000 | (0xf_fc00 & g) }

  predicate Matches(gmask: word, tag: word, g: word) { gmask & tag == gmask & g }

  function Minus(v: word, w: word): word { v - w }

  function Plus(v: word, w: word): word { v + w }

  /** gtag - gdiff after gdiff grew by the splice of tag. */
  function AfterSplice(g: word, tag: word): word { Minus(g, SpliceWord(tag)) }

  /** The outcome of one round of the loop of lfs_dir_getslice. */
  datatype Round = Missing | Match | Continue(g: word)

  /** One round of the loop of lfs_dir_getslice; g is gtag - gdiff. */
  function SearchRound(tag: word, gmask: word, g: word): Round {
    var splice := HasSpliceType(tag) && IdOf(tag) <= IdOf(g);
    if splice && Creates(tag, g) then Missing
    else
      var g' := if splice then AfterSplice(g, tag) else g;
      if Matches(gmask, tag, g') then (if SizeOf(tag) == DELETED_SIZE then Missing else Match)
      else Continue(g')
  }

  predicate IsCreateWord(tag: word) { tag == 0x4010_0000 | (tag & 0xf_fc00) }

  predicate IsDeleteWord(tag: word) { tag == 0x4ff0_0000 | (tag & 0xf_fc00) }

  /** A stored tag: splices are creations or deletions of size 0. */
  predicate GoodTag(tag: word) {
    HasSpliceType(tag) ==> IsCreateWord(tag) || IsDeleteWord(tag)
  }

  /** g asks for key with this mask. */
  ghost predicate Asks(gmask: word, g: word, key: nat) {
    && IsFileKey(key)
    && ((gmask == EXACT_MASK && IsUnique(key) && TypeOf(g) == key)
        || (gmask == SLOT_MASK && !IsUnique(key) && Type1(TypeOf(g)) == key)
        || (gmask == NAME_MASK && key == TYPE_NAME && TypeOf(g) == TYPE_NAME))
  }

  /** The mask of a search for names leaves out those of superblocks. */
  ghost predicate Decides(gmask: word, tag: word, id: nat) {
    gmask == NAME_MASK && IdOf(tag) == id ==> IsFileName(TypeOf(tag))
  }

  lemma SpliceBand(tag: word)
    ensures HasSpliceType(tag) <==> TypeHigh(tag) == 4
  {
  }

  lemma IsSpliceWord(tag: word)
    ensures HasSpliceType(tag) <==> IsSplice(Unpack(tag))
  {
    hide TypeHigh, TypeChunk, HasSpliceType, ChunkNumber;
    SpliceBand(tag);
    BandField(TypeHigh(tag), 4);
    assert BandNumber(4) == 4;
  }

  lemma CreateWord(tag: word)
    requires IsCreateWord(tag)
    ensures TypeOf(tag) == TYPE_CREATE && SpliceWord(tag) == 0x400
  {
    assert TypeHigh(tag) == 4 && TypeChunk(tag) == 1;
  }

  lemma DeleteWord(tag: word)
    requires IsDeleteWord(tag)
    ensures TypeOf(tag) == TYPE_DELETE && SpliceWord(tag) == 0xffff_fc00
  {
    assert TypeHigh(tag) == 4 && TypeChunk(tag) == 0xff;
  }

  lemma CreatesHere(tag: word, g: word)
    requires IsCreateWord(tag)
    ensures Creates(tag, g) <==> IdBits(tag) == IdBits(g)
  {
    hide IdBits;
    SameId(tag, g);
  }

  lemma SameId(v: word, w: word)
    ensures IdBits(v) == IdBits(w) <==> v & 0xf_fc00 == w & 0xf_fc00
  {
  }

  lemma DeleteIsNoCreate(tag: word, g: word)
    requires IsDeleteWord(tag)
    ensures !Creates(tag, g)
  {
  }

  lemma AfterCreate(g: word, tag: word)
    requires SpliceWord(tag) == 0x400
    ensures AfterSplice(g, tag) == Down(g)
  {
    hide SpliceWord;
  }

  lemma AfterDelete(g: word, tag: word)
    requires SpliceWord(tag) == 0xffff_fc00
    ensures AfterSplice(g, tag) == Up(g)
  {
    hide SpliceWord;
    MinusNegative(g);
  }

  lemma MinusNegative(a: word)
    ensures a - 0xffff_fc00 == a + 0x400
  {
  }

  lemma ExactBits(tag: word, g: word)
    requires TypeHigh(tag) == TypeHigh(g) && TypeChunk(tag) == TypeChunk(g) && IdBits(tag) == IdBits(g)
    ensures Matches(EXACT_MASK, tag, g)
  {
    assert (tag >> 28) & 0x7 == (g >> 28) & 0x7 && (tag >> 20) & 0xff == (g >> 20) & 0xff;
    assert (tag >> 10) & 0x3ff == (g >> 10) & 0x3ff;
  }

  lemma ExactBitsBack(tag: word, g: word)
    requires Matches(EXACT_MASK, tag, g)
    ensures TypeHigh(tag) == TypeHigh(g) && TypeChunk(tag) == TypeChunk(g) && IdBits(tag) == IdBits(g)
  {
    hide TypeHigh, TypeChunk, IdBits;
    MaskedFields(tag);
    MaskedFields(g);
  }

  lemma MaskedFields(w: word)
    ensures TypeHigh(EXACT_MASK & w) == TypeHigh(w) && TypeChunk(EXACT_MASK & w) == TypeChunk(w)
    ensures IdBits(EXACT_MASK & w) == IdBits(w)
    ensures TypeHigh(SLOT_MASK & w) == TypeHigh(w) && IdBits(SLOT_MASK & w) == IdBits(w)
  {
    hide *;
    ExactHigh(w);
    ExactChunk(w);
    ExactId(w);
    SlotHigh(w);
    SlotId(w);
  }

  lemma ExactHigh(w: word) ensures TypeHigh(EXACT_MASK & w) == TypeHigh(w) {}

  lemma ExactChunk(w: word) ensures TypeChunk(EXACT_MASK & w) == TypeChunk(w) {}

  lemma ExactId(w: word) ensures IdBits(EXACT_MASK & w) == IdBits(w) {}

  lemma SlotHigh(w: word) ensures TypeHigh(SLOT_MASK & w) == TypeHigh(w) {}

  lemma SlotId(w: word) ensures IdBits(SLOT_MASK & w) == IdBits(w) {}

  lemma SlotBits(tag: word, g: word)
    requires TypeHigh(tag) == TypeHigh(g) && IdBits(tag) == IdBits(g)
    ensures Matches(SLOT_MASK, tag, g)
  {
    assert (tag >> 28) & 0x7 == (g >> 28) & 0x7 && (tag >> 10) & 0x3ff == (g >> 10) & 0x3ff;
  }

  lemma SlotBitsBack(tag: word, g: word)
    requires Matches(SLOT_MASK, tag, g)
    ensures TypeHigh(tag) == TypeHigh(g) && IdBits(tag) == IdBits(g)
  {
    hide TypeHigh, IdBits;
    MaskedFields(tag);
    MaskedFields(g);
  }

  lemma MatchesExact(tag: word, g: word)
    ensures Matches(EXACT_MASK, tag, g) <==> TypeOf(tag) == TypeOf(g) && IdOf(tag) == IdOf(g)
  {
    hide *;
    SameType(tag, g);
    SameIdNumber(tag, g);
    if Matches(EXACT_MASK, tag, g) {
      ExactBitsBack(tag, g);
    } else if TypeHigh(tag) == TypeHigh(g) && TypeChunk(tag) == TypeChunk(g) && IdBits(tag) == IdBits(g) {
      ExactBits(tag, g);
    }
  }

  lemma MatchesSlot(tag: word, g: word)
    ensures Matches(SLOT_MASK, tag, g) <==> Type1(TypeOf(tag)) == Type1(TypeOf(g)) && IdOf(tag) == IdOf(g)
  {
    hide *;
    SameType(tag, g);
    SameIdNumber(tag, g);
    if Matches(SLOT_MASK, tag, g) {
      SlotBitsBack(tag, g);
    } else if TypeHigh(tag) == TypeHigh(g) && IdBits(tag) == IdBits(g) {
      SlotBits(tag, g);
    }
  }

  lemma NameFields(w: word)
    ensures TypeHigh(NAME_MASK & w) == TypeHigh(w) && IdBits(NAME_MASK & w) == IdBits(w)
    ensures TypeChunk(NAME_MASK & w) == TypeChunk(w) & 0x80
  {
    hide *;
    NameHigh(w);
    NameId(w);
    NameChunk(w);
  }

  lemma NameHigh(w: word) ensures TypeHigh(NAME_MASK & w) == TypeHigh(w) {}

  lemma NameId(w: word) ensures IdBits(NAME_MASK & w) == IdBits(w) {}

  lemma NameChunk(w: word) ensures TypeChunk(NAME_MASK & w) == TypeChunk(w) & 0x80 {}

  lemma NameBits(tag: word, g: word)
    requires TypeHigh(tag) == TypeHigh(g) && TypeChunk(tag) & 0x80 == TypeChunk(g) & 0x80 && IdBits(tag) == IdBits(g)
    ensures Matches(NAME_MASK, tag, g)
  {
    assert (tag >> 28) & 0x7 == (g >> 28) & 0x7 && (tag >> 27) & 0x1 == (g >> 27) & 0x1;
    assert (tag >> 10) & 0x3ff == (g >> 10) & 0x3ff;
  }

  lemma NameBitsBack(tag: word, g: word)
    requires Matches(NAME_MASK, tag, g)
    ensures TypeHigh(tag) == TypeHigh(g) && IdBits(tag) == IdBits(g)
  {
    hide TypeHigh, IdBits, TypeChunk;
    NameFields(tag);
    NameFields(g);
  }

  lemma LowChunk(c: bv8)
    ensures ChunkNumber(c) < 0x80 ==> c & 0x80 == 0
  {
  }

  lemma NameChunks(tag: word, g: word)
    requires Type1(TypeOf(tag)) == TYPE_NAME && IsFileName(TypeOf(tag)) && TypeOf(g) == TYPE_NAME
    ensures TypeChunk(tag) & 0x80 == TypeChunk(g) & 0x80
  {
    hide TypeHigh, TypeChunk, BandNumber, ChunkNumber;
    LowChunk(TypeChunk(tag));
    LowChunk(TypeChunk(g));
  }

  lemma MatchesName(tag: word, g: word)
    requires TypeOf(g) == TYPE_NAME && (IdOf(tag) == IdOf(g) ==> IsFileName(TypeOf(tag)))
    ensures Matches(NAME_MASK, tag, g) <==> Type1(TypeOf(tag)) == Type1(TypeOf(g)) && IdOf(tag) == IdOf(g)
  {
    hide *;
    SameType(tag, g);
    SameIdNumber(tag, g);
    if Matches(NAME_MASK, tag, g) {
      NameBitsBack(tag, g);
    } else if TypeHigh(tag) == TypeHigh(g) && IdBits(tag) == IdBits(g) {
      NameOfName(TypeOf(g));
      NameChunks(tag, g);
      NameBits(tag, g);
    }
  }

  lemma NameOfName(ty: nat)
    requires ty == TYPE_NAME
    ensures Type1(ty) == TYPE_NAME && !IsUnique(ty)
  {
  }

  lemma KeyMatch(ty: nat, key: nat)
    requires IsFileKey(key)
    ensures IsUnique(key) ==> (Key(ty) == key <==> ty == key)
    ensures !IsUnique(key) ==> (Key(ty) == key <==> Type1(ty) == key)
  {
  }

  /** The masked comparison of words is the comparison of key and id. */
  lemma MatchesKey(gmask: word, tag: word, g: word, key: nat)
    requires Asks(gmask, g, key) && Decides(gmask, tag, IdOf(g))
    ensures Matches(gmask, tag, g) <==> Key(TypeOf(tag)) == key && IdOf(tag) == IdOf(g)
  {
    hide Matches, IdOf, TypeOf, Key, Type1, IsUnique, IsFileKey, IsFileName;
    KeyMatch(TypeOf(tag), key);
    MatchesExact(tag, g);
    MatchesSlot(tag, g);
    if gmask == NAME_MASK {
      NameOfName(TypeOf(g));
      MatchesName(tag, g);
    }
  }

  lemma AskOther(gmask: word, g: word, h: word, key: nat)
    requires Asks(gmask, g, key) && TypeHigh(g) == TypeHigh(h) && TypeChunk(g) == TypeChunk(h)
    ensures Asks(gmask, h, key)
  {
    hide TypeHigh, TypeChunk, BandNumber, ChunkNumber, Type1, IsUnique, IsFileKey;
  }

  /** A round agrees with a step of the search on entries. */
  ghost predicate Simulates(look: Search, round: Round, gmask: word, key: nat) {
    match look
    case Gone => round == Missing
    case Hit(_) => round == Match
    case Open(id) => round.Continue? && IdOf(round.g) == id && Asks(gmask, round.g, key)
  }

  /** One round on words is one step on entries. */
  lemma RoundIsStep(tag: word, data: seq<byte>, gmask: word, g: word, key: nat)
    requires GoodTag(tag) && Asks(gmask, g, key) && Decides(gmask, tag, IdOf(g)) && IdOf(g) < 0x3ff
    ensures Simulates(LookAt(Entry(Unpack(tag), data), key, IdOf(g)), SearchRound(tag, gmask, g), gmask, key)
  {
    hide *;
    IsSpliceWord(tag);
    if HasSpliceType(tag) {
      SpliceRound(tag, data, gmask, g, key);
    } else {
      PlainRound(tag, data, gmask, g, key);
    }
  }

  lemma PlainRound(tag: word, data: seq<byte>, gmask: word, g: word, key: nat)
    requires !HasSpliceType(tag) && !IsSplice(Unpack(tag)) && Asks(gmask, g, key) && Decides(gmask, tag, IdOf(g))
    ensures Simulates(LookAt(Entry(Unpack(tag), data), key, IdOf(g)), SearchRound(tag, gmask, g), gmask, key)
  {
    hide Matches, IdOf, TypeOf, SizeOf, Key, HasSpliceType, Creates, SpliceWord, AfterSplice, IsSplice, IsUnique, Asks;
    MatchesKey(gmask, tag, g, key);
  }

  lemma SpliceRound(tag: word, data: seq<byte>, gmask: word, g: word, key: nat)
    requires HasSpliceType(tag) && IsSplice(Unpack(tag)) && GoodTag(tag) && Decides(gmask, tag, IdOf(g))
    requires Asks(gmask, g, key) && IdOf(g) < 0x3ff
    ensures Simulates(LookAt(Entry(Unpack(tag), data), key, IdOf(g)), SearchRound(tag, gmask, g), gmask, key)
  {
    hide *;
    GoodSpliceTag(tag);
    if IdOf(tag) > IdOf(g) {
      SkippedSplice(tag, data, gmask, g, key);
    } else if IsCreateWord(tag) {
      CreateSplice(tag, data, gmask, g, key);
    } else {
      DeleteSplice(tag, data, gmask, g, key);
    }
  }

  lemma SkippedSplice(tag: word, data: seq<byte>, gmask: word, g: word, key: nat)
    requires HasSpliceType(tag) && IsSplice(Unpack(tag)) && IdOf(tag) > IdOf(g) && Asks(gmask, g, key)
    requires Decides(gmask, tag, IdOf(g))
    ensures Simulates(LookAt(Entry(Unpack(tag), data), key, IdOf(g)), SearchRound(tag, gmask, g), gmask, key)
  {
    NoFileKey(tag, key);
    UnpackFields(tag);
    hide LookAt, SearchRound, Matches, IdOf, TypeOf, SizeOf, Key, HasSpliceType, IsSplice, Asks, Unpack;
    LookAtSplice(Entry(Unpack(tag), data), key, IdOf(g));
    RoundAtSplice(tag, gmask, g);
    MatchesKey(gmask, tag, g, key);
  }

  lemma CreateSplice(tag: word, data: seq<byte>, gmask: word, g: word, key: nat)
    requires HasSpliceType(tag) && IsSplice(Unpack(tag)) && IsCreateWord(tag)
    requires IdOf(tag) <= IdOf(g) && Asks(gmask, g, key) && Decides(gmask, tag, IdOf(g))
    ensures Simulates(LookAt(Entry(Unpack(tag), data), key, IdOf(g)), SearchRound(tag, gmask, g), gmask, key)
  {
    NoFileKey(tag, key);
    UnpackFields(tag);
    hide LookAt, SearchRound, Matches, IdOf, TypeOf, SizeOf, Key, HasSpliceType, IsSplice, Asks, Unpack, Creates,
      AfterSplice, IsCreateWord;
    LookAtSplice(Entry(Unpack(tag), data), key, IdOf(g));
    RoundAtSplice(tag, gmask, g);
    CreateRound(tag, gmask, g, key);
  }

  lemma DeleteSplice(tag: word, data: seq<byte>, gmask: word, g: word, key: nat)
    requires HasSpliceType(tag) && IsSplice(Unpack(tag)) && IsDeleteWord(tag)
    requires IdOf(tag) <= IdOf(g) < 0x3ff && Asks(gmask, g, key) && Decides(gmask, tag, IdOf(g))
    ensures Simulates(LookAt(Entry(Unpack(tag), data), key, IdOf(g)), SearchRound(tag, gmask, g), gmask, key)
  {
    NoFileKey(tag, key);
    UnpackFields(tag);
    hide LookAt, SearchRound, Matches, IdOf, TypeOf, SizeOf, Key, HasSpliceType, IsSplice, Asks, Unpack, Creates,
      AfterSplice, IsDeleteWord;
    LookAtSplice(Entry(Unpack(tag), data), key, IdOf(g));
    RoundAtSplice(tag, gmask, g);
    DeleteRound(tag, gmask, g, key);
  }

  // ----- the running difference

  /** gdiff after a round at tag, when gtag - gdiff is g. */
  function NextDiff(gdiff: word, tag: word, g: word): word {
    if HasSpliceType(tag) && IdOf(tag) <= IdOf(g) then Plus(gdiff, SpliceWord(tag)) else gdiff
  }

  /** The tag that the round goes on with, or matches. */
  function NextSought(tag: word, g: word): word {
    if HasSpliceType(tag) && IdOf(tag) <= IdOf(g) then AfterSplice(g, tag) else g
  }

  /** gdiff counts ids. */
  predicate CountsIds(gdiff: word) { gdiff & 0x3ff == 0 }

  /** Adding to gdiff is subtracting from gtag - gdiff. */
  lemma DifferenceOfSum(gtag: word, gdiff: word, splice: word)
    ensures Minus(gtag, Plus(gdiff, splice)) == Minus(Minus(gtag, gdiff), splice)
  {
    hide Minus, Plus;
    MinusIs(gtag, gdiff);
    PlusIs(gdiff, splice);
    SumInside(gtag, gdiff, splice);
  }

  lemma SumInside(gtag: word, gdiff: word, splice: word)
    ensures Minus(gtag, gdiff + splice) == Minus(gtag - gdiff, splice)
  {
  }

  lemma MinusIs(v: word, w: word)
    ensures Minus(v, w) == v - w
  {
  }

  lemma PlusIs(v: word, w: word)
    ensures Plus(v, w) == v + w
  {
  }

  lemma SplicesCountIds(gdiff: word, tag: word)
    requires CountsIds(gdiff)
    ensures CountsIds(Plus(gdiff, SpliceWord(tag)))
  {
  }

  lemma RoundSought(tag: word, gmask: word, g: word)
    ensures SearchRound(tag, gmask, g).Continue? ==> SearchRound(tag, gmask, g).g == NextSought(tag, g)
    ensures SearchRound(tag, gmask, g) == Match ==> Matches(gmask, tag, NextSought(tag, g))
  {
    hide AfterSplice, HasSpliceType, IdOf, SizeOf, Matches, Creates;
  }

  /** A round on gtag - gdiff is a round on gdiff. */
  lemma RoundDifference(tag: word, gtag: word, gdiff: word)
    requires CountsIds(gdiff)
    ensures CountsIds(NextDiff(gdiff, tag, Minus(gtag, gdiff)))
    ensures Minus(gtag, NextDiff(gdiff, tag, Minus(gtag, gdiff))) == NextSought(tag, Minus(gtag, gdiff))
  {
    hide SpliceWord, HasSpliceType, IdOf, Plus, Minus, CountsIds;
    DifferenceOfSum(gtag, gdiff, SpliceWord(tag));
    SplicesCountIds(gdiff, tag);
  }

  /** All fields of a tag but its id. */
  function OtherBits(w: word): word { w & 0xfff0_03ff }

  lemma OthersUp(g: word)
    requires IdBits(g) < 0x3ff
    ensures OtherBits(Up(g)) == OtherBits(g)
  {
  }

  lemma OthersDown(g: word)
    requires IdBits(g) != 0
    ensures OtherBits(Down(g)) == OtherBits(g)
  {
  }

  /** A round changes nothing of gtag - gdiff but its id. */
  lemma RoundKeepsOthers(tag: word, gmask: word, g: word)
    requires GoodTag(tag) && IdOf(g) < 0x3ff && SearchRound(tag, gmask, g) != Missing
    ensures OtherBits(NextSought(tag, g)) == OtherBits(g)
  {
    hide *;
    SoughtIs(tag, gmask, g);
    if HasSpliceType(tag) && IdOf(tag) <= IdOf(g) {
      GoodSpliceTag(tag);
      PositiveId(g);
      if IsCreateWord(tag) {
        CreateWord(tag);
        CreatesHere(tag, g);
        SameIdNumber(tag, g);
        AfterCreate(g, tag);
        OthersDown(g);
      } else {
        DeleteWord(tag);
        AfterDelete(g, tag);
        OthersUp(g);
      }
    }
  }

  lemma SoughtIs(tag: word, gmask: word, g: word)
    ensures NextSought(tag, g) == if HasSpliceType(tag) && IdOf(tag) <= IdOf(g) then AfterSplice(g, tag) else g
    ensures HasSpliceType(tag) && IdOf(tag) <= IdOf(g) && Creates(tag, g) ==> SearchRound(tag, gmask, g) == Missing
  {
    hide AfterSplice, HasSpliceType, IdOf, SizeOf, Matches, Creates;
  }

  /** The tag that lfs_dir_getslice returns: it has the id that was asked for, and the type and size of the entry. */
  lemma FoundTag(tag: word, gmask: word, gtag: word, gdiff: word)
    requires CountsIds(gdiff) && Matches(gmask, tag, Minus(gtag, gdiff))
    requires gmask == EXACT_MASK || gmask == SLOT_MASK || gmask == NAME_MASK
    requires OtherBits(Minus(gtag, gdiff)) == OtherBits(gtag)
    ensures IdOf(Plus(tag, gdiff)) == IdOf(gtag) && SizeOf(Plus(tag, gdiff)) == SizeOf(tag)
    ensures TypeOf(Plus(tag, gdiff)) == TypeOf(tag)
  {
    hide Minus, CountsIds, Matches, Plus, IdBits, SizeBits, TypeHigh, TypeChunk, OtherBits;
    MatchedId(gmask, tag, Minus(gtag, gdiff));
    AddedIds(tag, Minus(gtag, gdiff), gdiff);
    BackAgain(gtag, gdiff);
    AddedSize(tag, gdiff);
    AddedType(tag, Minus(gtag, gdiff), gdiff);
  }

  /** If adding to the id of one tag does not carry into its type, then it does not for another tag with the same id. */
  lemma AddedType(tag: word, g: word, gdiff: word)
    requires IdBits(tag) == IdBits(g) && CountsIds(gdiff) && OtherBits(Plus(g, gdiff)) == OtherBits(g)
    ensures TypeHigh(Plus(tag, gdiff)) == TypeHigh(tag) && TypeChunk(Plus(tag, gdiff)) == TypeChunk(tag)
  {
    hide *;
    TopAdds(tag, gdiff);
    TopAdds(g, gdiff);
    TopOfOthers(Plus(g, gdiff), g);
    NothingAdded(TopBits(g), Carried(IdBits(g), gdiff));
    AddedNothing(TopBits(tag), Carried(IdBits(tag), gdiff));
    TopIsType(Plus(tag, gdiff), tag);
  }

  /** The valid bit and the type. */
  function TopBits(w: word): bv12 { (w >> 20) as bv12 }

  function Sum12(i: bv12, j: bv12): bv12 { i + j }

  /** What an addition of ids brings to the bits above them. */
  function Carried(id: bv10, gdiff: word): bv12 { ((((id as word) << 10) + gdiff) >> 20) as bv12 }

  lemma TopAdds(w: word, gdiff: word)
    requires CountsIds(gdiff)
    ensures TopBits(Plus(w, gdiff)) == Sum12(TopBits(w), Carried(IdBits(w), gdiff))
  {
  }

  lemma TopOfOthers(v: word, w: word)
    requires OtherBits(v) == OtherBits(w)
    ensures TopBits(v) == TopBits(w)
  {
  }

  lemma NothingAdded(i: bv12, j: bv12)
    requires Sum12(i, j) == i
    ensures j == 0
  {
  }

  lemma AddedNothing(i: bv12, j: bv12)
    requires j == 0
    ensures Sum12(i, j) == i
  {
  }

  lemma TopIsType(v: word, w: word)
    requires TopBits(v) == TopBits(w)
    ensures TypeHigh(v) == TypeHigh(w) && TypeChunk(v) == TypeChunk(w)
  {
    hide TypeHigh, TypeChunk, TopBits;
    TypeOfTop(v);
    TypeOfTop(w);
  }

  lemma TypeOfTop(w: word)
    ensures TypeHigh(w) == ((TopBits(w) >> 8) & 0x7) as bv3 && TypeChunk(w) == (TopBits(w) & 0xff) as bv8
  {
  }

  lemma MatchedId(gmask: word, tag: word, g: word)
    requires Matches(gmask, tag, g) && (gmask == EXACT_MASK || gmask == SLOT_MASK || gmask == NAME_MASK)
    ensures IdBits(tag) == IdBits(g)
  {
    hide Matches, IdBits, TypeHigh, TypeChunk;
    if gmask == EXACT_MASK {
      ExactBitsBack(tag, g);
    } else if gmask == SLOT_MASK {
      SlotBitsBack(tag, g);
    } else {
      NameBitsBack(tag, g);
    }
  }

  lemma AddedIds(tag: word, g: word, gdiff: word)
    requires IdBits(tag) == IdBits(g) && CountsIds(gdiff)
    ensures IdBits(Plus(tag, gdiff)) == IdBits(Plus(g, gdiff))
  {
    hide *;
    IdsAdd(tag, gdiff);
    IdsAdd(g, gdiff);
  }

  function Sum10(i: bv10, j: bv10): bv10 { i + j }

  lemma IdsAdd(v: word, gdiff: word)
    requires CountsIds(gdiff)
    ensures IdBits(Plus(v, gdiff)) == Sum10(IdBits(v), IdBits(gdiff))
  {
  }

  lemma BackAgain(gtag: word, gdiff: word)
    ensures Plus(Minus(gtag, gdiff), gdiff) == gtag
  {
    hide Minus, Plus;
    MinusIs(gtag, gdiff);
    DifferenceInside(gtag, gdiff);
  }

  lemma DifferenceInside(gtag: word, gdiff: word)
    ensures Plus(gtag - gdiff, gdiff) == gtag
  {
  }

  lemma AddedSize(tag: word, gdiff: word)
    requires CountsIds(gdiff)
    ensures SizeBits(Plus(tag, gdiff)) == SizeBits(tag)
  {
  }

  lemma UnpackFields(tag: word)
    ensures Unpack(tag).ty == TypeOf(tag) && Unpack(tag).id == IdOf(tag) && Unpack(tag).size == SizeOf(tag)
  {
  }

  lemma GoodSpliceTag(tag: word)
    requires GoodTag(tag) && HasSpliceType(tag)
    ensures IsCreateWord(tag) || IsDeleteWord(tag)
  {
  }

  lemma LookAtSplice(e: Entry, key: nat, id: nat)
    requires IsSplice(e.tag) && Key(e.tag.ty) != key
    ensures e.tag.id > id ==> LookAt(e, key, id) == Open(id)
    ensures e.tag.ty == TYPE_CREATE && e.tag.id == id ==> LookAt(e, key, id) == Gone
    ensures e.tag.ty == TYPE_CREATE && e.tag.id < id ==> LookAt(e, key, id) == Open(id - 1)
    ensures e.tag.ty == TYPE_DELETE && e.tag.id <= id ==> LookAt(e, key, id) == Open(id + 1)
  {
  }

  lemma RoundAtSplice(tag: word, gmask: word, g: word)
    requires HasSpliceType(tag)
    ensures IdOf(tag) > IdOf(g) && !Matches(gmask, tag, g) ==> SearchRound(tag, gmask, g) == Continue(g)
    ensures IdOf(tag) <= IdOf(g) && Creates(tag, g) ==> SearchRound(tag, gmask, g) == Missing
    ensures IdOf(tag) <= IdOf(g) && !Creates(tag, g) && !Matches(gmask, tag, AfterSplice(g, tag)) ==>
      SearchRound(tag, gmask, g) == Continue(AfterSplice(g, tag))
  {
    hide IdOf, Matches, Creates, AfterSplice, HasSpliceType, SizeOf;
  }

  lemma CreateRound(tag: word, gmask: word, g: word, key: nat)
    requires IsCreateWord(tag) && Asks(gmask, g, key) && IdOf(tag) <= IdOf(g) && Key(TypeOf(tag)) != key
    ensures TypeOf(tag) == TYPE_CREATE
    ensures Creates(tag, g) <==> IdOf(tag) == IdOf(g)
    ensures !Creates(tag, g) ==>
      var h := AfterSplice(g, tag); IdOf(h) == IdOf(g) - 1 && Asks(gmask, h, key) && !Matches(gmask, tag, h)
  {
    hide *;
    CreateWord(tag);
    CreatesHere(tag, g);
    SameIdNumber(tag, g);
    AfterCreate(g, tag);
    if !Creates(tag, g) {
      IdDown(g);
      PositiveId(g);
      DownKeepsType(g);
      AskOther(gmask, g, Down(g), key);
      SpliceDecides(gmask, tag, IdOf(Down(g)));
      MatchesKey(gmask, tag, Down(g), key);
    }
  }

  lemma PositiveId(g: word)
    ensures IdOf(g) > 0 ==> IdBits(g) != 0
    ensures IdOf(g) < 0x3ff ==> IdBits(g) < 0x3ff
  {
    hide IdBits;
    FieldOrder(IdBits(g), 0);
    FieldOrder(IdBits(g), 0x3ff);
  }

  lemma DeleteRound(tag: word, gmask: word, g: word, key: nat)
    requires IsDeleteWord(tag) && Asks(gmask, g, key) && IdOf(g) < 0x3ff && Key(TypeOf(tag)) != key
    ensures TypeOf(tag) == TYPE_DELETE && !Creates(tag, g)
    ensures var h := AfterSplice(g, tag); IdOf(h) == IdOf(g) + 1 && Asks(gmask, h, key) && !Matches(gmask, tag, h)
  {
    hide *;
    DeleteWord(tag);
    DeleteIsNoCreate(tag, g);
    AfterDelete(g, tag);
    IdUp(g);
    PositiveId(g);
    UpKeepsType(g);
    AskOther(gmask, g, Up(g), key);
    SpliceDecides(gmask, tag, IdOf(Up(g)));
    MatchesKey(gmask, tag, Up(g), key);
  }

  lemma SpliceDecides(gmask: word, tag: word, id: nat)
    requires TypeOf(tag) == TYPE_CREATE || TypeOf(tag) == TYPE_DELETE
    ensures Decides(gmask, tag, id)
  {
    hide TypeOf, IdOf;
  }

  lemma NoFileKey(tag: word, key: nat)
    requires IsSplice(Unpack(tag)) && IsFileKey(key)
    ensures Key(TypeOf(tag)) != key
  {
  }
}
