/** The global state of the filesystem: kept in memory, and spread over all metadata pairs by exclusive or. */
module GState {
  import opened Words

  /** struct lfs_gstate: a tag (orphan flag, delete tag of a pending move, number of orphans) and a pair. */
  datatype Global = Global(tag: word, block0: word, block1: word)

  datatype Pair = Pair(block0: word, block1: word)

  const ZERO := Global(0, 0, 0)

  // the orphan flag and the pending move are stored; the number of orphans (the size field) is not
  const STORED_MASK: word := 0xffff_fc00

  // LFS_MKTAG(0x7ff, 0x3ff, 0)
  const MOVE_MASK: word := 0x7fff_fc00

  // LFS_MKTAG(0x800, 0, 0)
  const ORPHAN_FLAG: word := 0x8000_0000

  const NO_ID: bv10 := 0x3ff

  function And(a: word, b: word): word { a & b }

  function Add(a: word, b: word): word { a + b }

  /** The size field of a tag and a number. */
  function Counted(tag: word, n: word): word { (tag & 0x3ff) + n }

  /** lfs_gstate_xor. */
  function Plus(a: Global, b: Global): Global {
    Global(Xor(a.tag, b.tag), Xor(a.block0, b.block0), Xor(a.block1, b.block1))
  }

  /** The part of a global state that is stored. */
  function Stored(a: Global): Global { Global(And(a.tag, STORED_MASK), a.block0, a.block1) }

  /** LFS_MKTAG(LFS_TYPE_DELETE, id, 0), or 0 for no id. */
  function DeleteTag(id: bv10): word { if id == NO_ID then 0 else 0x4ff0_0000 | ((id as word) << 10) }

  function IfId(id: bv10, block: word): word { if id == NO_ID then 0 else block }

  /** What lfs_gstate_xormove(a, b, id, pair) adds to a. */
  function MoveChange(b: Global, id: bv10, pair: Pair): Global {
    var tag := And(MOVE_MASK, Xor(b.tag, DeleteTag(id)));
    Global(tag, Xor(b.block0, IfId(id, pair.block0)), Xor(b.block1, IfId(id, pair.block1)))
  }

  /** lfs_gstate_xormove. */
  function XorMove(a: Global, b: Global, id: bv10, pair: Pair): Global { Plus(a, MoveChange(b, id, pair)) }

  function OrphanChange(b: Global, orphans: bool): Global {
    Global(And(ORPHAN_FLAG, Xor(b.tag, FlagWord(orphans))), 0, 0)
  }

  /** lfs_gstate_xororphans. */
  function XorOrphans(a: Global, b: Global, orphans: bool): Global { Plus(a, OrphanChange(b, orphans)) }

  function OrphanCount(a: Global): word { And(a.tag, 0x3ff) }

  /** gpending.tag += orphans. */
  function AddOrphans(a: Global, orphans: word): Global { Global(Add(a.tag, orphans), a.block0, a.block1) }

  predicate HasOrphans(a: Global) { OrphanCount(a) != 0 }

  /** !lfs_tag_isvalid of the tag. */
  predicate OrphanFlag(a: Global) { And(a.tag, ORPHAN_FLAG) != 0 }

  function OrphanPart(a: Global): word { And(a.tag, 0x8000_03ff) }

  function MovePart(a: Global): Global { Global(And(a.tag, MOVE_MASK), a.block0, a.block1) }

  /** The pending move is the one of this id of this pair, or there is none. */
  predicate IsMove(a: Global, id: bv10, pair: Pair) {
    && And(a.tag, MOVE_MASK) == DeleteTag(id)
    && a.block0 == IfId(id, pair.block0) && a.block1 == IfId(id, pair.block1)
  }

  predicate HasMove(a: Global) { And(a.tag, 0x7000_0000) != 0 }

  /** !lfs_pair_cmp: the pairs share a block. */
  predicate Meets(p: Pair, q: Pair) {
    p.block0 == q.block0 || p.block1 == q.block1 || p.block0 == q.block1 || p.block1 == q.block0
  }

  /** lfs_gstate_hasmovehere. */
  predicate HasMoveHere(a: Global, p: Pair) { HasMove(a) && Meets(Pair(a.block0, a.block1), p) }

  /** The pairs have a block in common. */
  lemma MeetsIs(p: Pair, q: Pair)
    ensures Meets(p, q) <==> {p.block0, p.block1} * {q.block0, q.block1} != {}
  {
    var common := {p.block0, p.block1} * {q.block0, q.block1};
    if Meets(p, q) {
      assert p.block0 in common || p.block1 in common;
    } else {
      assert common == {};
    }
  }

  function TagType(tag: word): word { (tag >> 20) & 0x7ff }

  function TagId(tag: word): bv10 { ((tag >> 10) & 0x3ff) as bv10 }

  /** The tag of a pending move has the type LFS_TYPE_DELETE and the id, and the pair is that of the file; without an id
      nothing of a move is left. */
  lemma MoveMeans(a: Global, id: bv10, pair: Pair)
    requires IsMove(a, id, pair)
    ensures id != NO_ID ==>
      TagType(a.tag) == 0x4ff && TagId(a.tag) == id && HasMove(a) && Pair(a.block0, a.block1) == pair
    ensures id == NO_ID ==> !HasMove(a) && MovePart(a) == ZERO
  {
    hide And, TagType, TagId, DeleteTag;
    MoveFields(a.tag, id);
  }

  lemma MoveFields(tag: word, id: bv10)
    requires And(tag, MOVE_MASK) == DeleteTag(id)
    ensures id != NO_ID ==> TagType(tag) == 0x4ff && TagId(tag) == id && And(tag, 0x7000_0000) != 0
    ensures id == NO_ID ==> And(tag, 0x7000_0000) == 0 && And(tag, MOVE_MASK) == 0
  {
  }

  // ----- exclusive or

  lemma XorRules(a: word, b: word, c: word)
    ensures Xor(a, b) == Xor(b, a) && Xor(Xor(a, b), c) == Xor(a, Xor(b, c)) && Xor(a, a) == 0 && Xor(a, 0) == a
  {
    hide *;
    XorCommutes(a, b);
    XorAssociates(a, b, c);
    XorSelf(a);
  }

  lemma XorCommutes(a: word, b: word) ensures Xor(a, b) == Xor(b, a) {}

  lemma XorAssociates(a: word, b: word, c: word) ensures Xor(Xor(a, b), c) == Xor(a, Xor(b, c)) {}

  lemma XorSelf(a: word) ensures Xor(a, a) == 0 && Xor(a, 0) == a {}

  lemma MaskXor(a: word, b: word, m: word)
    ensures And(Xor(a, b), m) == Xor(And(a, m), And(b, m))
  {
    hide *;
    Distributes(a, b, m);
    Operators(a, b);
    Operators(a, m);
    Operators(b, m);
    Operators(a ^ b, m);
    Operators(a & m, b & m);
  }

  lemma Operators(a: word, b: word) ensures Xor(a, b) == a ^ b && And(a, b) == a & b {}

  lemma Distributes(a: word, b: word, m: word) ensures (a ^ b) & m == (a & m) ^ (b & m) {}

  lemma PlusCommutes(a: Global, b: Global)
    ensures Plus(a, b) == Plus(b, a)
  {
    hide Xor;
    XorRules(a.tag, b.tag, 0);
    XorRules(a.block0, b.block0, 0);
    XorRules(a.block1, b.block1, 0);
  }

  lemma PlusAssociates(a: Global, b: Global, c: Global)
    ensures Plus(Plus(a, b), c) == Plus(a, Plus(b, c))
  {
    hide Xor;
    XorRules(a.tag, b.tag, c.tag);
    XorRules(a.block0, b.block0, c.block0);
    XorRules(a.block1, b.block1, c.block1);
  }

  lemma PlusSelf(a: Global)
    ensures Plus(a, a) == ZERO && Plus(a, ZERO) == a
  {
    hide Xor;
    XorRules(a.tag, 0, 0);
    XorRules(a.block0, 0, 0);
    XorRules(a.block1, 0, 0);
  }

  lemma StoredPlus(a: Global, b: Global)
    ensures Stored(Plus(a, b)) == Plus(Stored(a), Stored(b))
  {
    hide Xor, And;
    MaskXor(a.tag, b.tag, STORED_MASK);
  }

  lemma MoveIsStored(b: Global, id: bv10, pair: Pair)
    ensures Stored(MoveChange(b, id, pair)) == MoveChange(b, id, pair)
  {
    hide And, Xor, DeleteTag;
    MaskedMove(Xor(b.tag, DeleteTag(id)));
  }

  lemma MaskedMove(w: word)
    ensures And(And(MOVE_MASK, w), STORED_MASK) == And(MOVE_MASK, w)
    ensures And(And(ORPHAN_FLAG, w), STORED_MASK) == And(ORPHAN_FLAG, w)
  {
  }

  lemma OrphanIsStored(b: Global, orphans: bool)
    ensures Stored(OrphanChange(b, orphans)) == OrphanChange(b, orphans)
  {
    hide And, Xor;
    MaskedMove(Xor(b.tag, FlagWord(orphans)));
  }

  /** Taking a pending move away changes what is stored. */
  lemma ClearingShows(b: Global, pair: Pair)
    requires HasMove(b)
    ensures MoveChange(b, NO_ID, pair) != ZERO
  {
    hide And, Xor;
    XorRules(b.tag, 0, 0);
    MoveBits(b.tag);
  }

  lemma MoveBits(w: word)
    requires And(w, 0x7000_0000) != 0
    ensures And(MOVE_MASK, w) != 0
  {
  }

  /** Adding a small number to the size field leaves the stored bits alone. */
  lemma AddToCount(tag: word, n: word)
    requires Counted(tag, n) <= 0x3ff
    ensures And(Add(tag, n), STORED_MASK) == And(tag, STORED_MASK)
  {
    AddBelow(tag, n);
  }

  lemma AddBelow(tag: word, n: word)
    requires (tag & 0x3ff) + n <= 0x3ff
    ensures (tag + n) & 0xffff_fc00 == tag & 0xffff_fc00
  {
  }

  /** lfs_gstate_xormove of a state with itself sets its move. */
  lemma SetsMove(g: Global, id: bv10, pair: Pair)
    ensures IsMove(XorMove(g, g, id, pair), id, pair) && OrphanPart(XorMove(g, g, id, pair)) == OrphanPart(g)
  {
    hide Xor, And, DeleteTag, IfId;
    DeleteInMask(id);
    SetsField(g.tag, DeleteTag(id));
    XorBackTo(g.block0, IfId(id, pair.block0));
    XorBackTo(g.block1, IfId(id, pair.block1));
  }

  lemma XorBackTo(a: word, b: word) ensures Xor(a, Xor(a, b)) == b {}

  lemma DeleteInMask(id: bv10) ensures And(DeleteTag(id), MOVE_MASK) == DeleteTag(id) {}

  lemma SetsField(tag: word, d: word)
    requires And(d, MOVE_MASK) == d
    ensures And(Xor(tag, And(MOVE_MASK, Xor(tag, d))), MOVE_MASK) == d
    ensures And(Xor(tag, And(MOVE_MASK, Xor(tag, d))), 0x8000_03ff) == And(tag, 0x8000_03ff)
  {
  }

  function Orphaned(g: Global, n: word): Global {
    XorOrphans(AddOrphans(g, n), AddOrphans(g, n), HasOrphans(AddOrphans(g, n)))
  }

  /** What lfs_fs_preporphans makes of the pending state. */
  lemma CountsOrphans(g: Global, n: word)
    requires Counted(g.tag, n) <= 0x3ff
    ensures OrphanCount(Orphaned(g, n)) == Counted(g.tag, n)
    ensures OrphanFlag(Orphaned(g, n)) <==> HasOrphans(Orphaned(g, n))
    ensures MovePart(Orphaned(g, n)) == MovePart(g)
  {
    hide Xor, And, Add, Counted, FlagWord;
    var a := AddOrphans(g, n);
    AddedCount(g.tag, n);
    AddedMove(g.tag, n);
    SetsFlag(a.tag, HasOrphans(a));
    FlagKeepsCount(a.tag, HasOrphans(a));
    FlagKeepsMove(a.tag, HasOrphans(a));
    FlagOrNot(HasOrphans(a));
    XorRules(g.block0, 0, 0);
    XorRules(g.block1, 0, 0);
  }

  lemma AddedCount(tag: word, n: word)
    requires Counted(tag, n) <= 0x3ff
    ensures And(Add(tag, n), 0x3ff) == Counted(tag, n)
  {
    AddLow(tag, n);
  }

  lemma AddLow(tag: word, n: word)
    requires (tag & 0x3ff) + n <= 0x3ff
    ensures (tag + n) & 0x3ff == (tag & 0x3ff) + n
  {
  }

  lemma AddedMove(tag: word, n: word)
    requires Counted(tag, n) <= 0x3ff
    ensures And(Add(tag, n), MOVE_MASK) == And(tag, MOVE_MASK)
  {
    AddMove(tag, n);
  }

  lemma AddMove(tag: word, n: word)
    requires (tag & 0x3ff) + n <= 0x3ff
    ensures (tag + n) & 0x7fff_fc00 == tag & 0x7fff_fc00
  {
  }

  function FlagWord(flag: bool): word { if flag then 0x8000_0000 else 0 }

  function WithFlag(tag: word, flag: bool): word { Xor(tag, And(ORPHAN_FLAG, Xor(tag, FlagWord(flag)))) }

  lemma SetsFlag(tag: word, flag: bool) ensures And(WithFlag(tag, flag), ORPHAN_FLAG) == FlagWord(flag) {}

  lemma FlagKeepsCount(tag: word, flag: bool) ensures And(WithFlag(tag, flag), 0x3ff) == And(tag, 0x3ff) {}

  lemma FlagKeepsMove(tag: word, flag: bool) ensures And(WithFlag(tag, flag), MOVE_MASK) == And(tag, MOVE_MASK) {}

  lemma FlagOrNot(flag: bool) ensures FlagWord(flag) != 0 <==> flag {}

  // ----- the directories

  /** A metadata pair in the list of all pairs, as far as the global state cares: its contribution to it (zero if it
      has no entry of type MOVESTATE), the number of its files, and whether its tail continues the directory. */
  datatype Dir = Dir(pair: Pair, count: nat, split: bool, delta: Global)

  /** The sum of all contributions. */
  function Sum(dirs: seq<Dir>): Global {
    if dirs == [] then ZERO else Plus(Sum(dirs[..|dirs| - 1]), dirs[|dirs| - 1].delta)
  }

  lemma {:induction false} SumConcat(a: seq<Dir>, b: seq<Dir>)
    ensures Sum(a + b) == Plus(Sum(a), Sum(b))
    decreases |b|
  {
    hide Plus;
    if b == [] {
      PlusSelf(Sum(a));
      assert a + b == a;
    } else {
      var n := |b| - 1;
      assert (a + b)[..|a + b| - 1] == a + b[..n];
      SumConcat(a, b[..n]);
      PlusAssociates(Sum(a), Sum(b[..n]), b[n].delta);
    }
  }

  lemma SumOne(d: Dir)
    ensures Sum([d]) == d.delta
  {
    hide Plus;
    PlusSelf(d.delta);
    PlusCommutes(ZERO, d.delta);
    assert [d][..0] == [];
  }

  /** What stands in the place of one directory contributes in the place of its contribution. */
  lemma SumReplaced(dirs: seq<Dir>, i: nat, now: seq<Dir>, change: Global)
    requires i < |dirs| && Sum(now) == Plus(dirs[i].delta, change)
    ensures Sum(dirs[..i] + now + dirs[i + 1..]) == Plus(Sum(dirs), change)
  {
    hide *;
    var a, d, c := dirs[..i], dirs[i], dirs[i + 1..];
    assert dirs == a + [d] + c;
    SumConcat(a + [d], c);
    SumConcat(a, [d]);
    SumOne(d);
    SumConcat(a + now, c);
    SumConcat(a, now);
    Regroup(Sum(a), d.delta, Sum(c), change);
  }

  lemma Regroup(a: Global, d: Global, c: Global, x: Global)
    ensures Plus(Plus(a, Plus(d, x)), c) == Plus(Plus(Plus(a, d), c), x)
  {
    hide Plus;
    PlusAssociates(a, d, x);
    PlusAssociates(Plus(a, d), x, c);
    PlusAssociates(Plus(a, d), c, x);
    PlusCommutes(x, c);
  }

  // ----- commits

  /** How far what is stored, with the changes that the next commit will store, is from the pending state. */
  ghost function Gap(dirs: seq<Dir>, gdelta: Global, gpending: Global): Global {
    Plus(Plus(Sum(dirs), gdelta), Stored(gpending))
  }

  lemma GapPlus(dirs: seq<Dir>, dirs': seq<Dir>, gdelta: Global, gdelta': Global, gpending: Global, x: Global)
    requires Plus(Sum(dirs'), gdelta') == Plus(Plus(Sum(dirs), gdelta), x)
    ensures Gap(dirs', gdelta', gpending) == Plus(Gap(dirs, gdelta, gpending), x)
  {
    hide Plus, Sum, Stored;
    var a, b := Plus(Sum(dirs), gdelta), Stored(gpending);
    PlusAssociates(a, x, b);
    PlusAssociates(a, b, x);
    PlusCommutes(x, b);
  }

  lemma GapMarked(dirs: seq<Dir>, gdelta: Global, gpending: Global, x: Global)
    ensures Gap(dirs, Plus(gdelta, x), gpending) == Plus(Gap(dirs, gdelta, gpending), x)
  {
    hide *;
    PlusAssociates(Sum(dirs), gdelta, x);
    GapPlus(dirs, dirs, gdelta, Plus(gdelta, x), gpending, x);
  }

  lemma GapPending(dirs: seq<Dir>, gdelta: Global, gpending: Global, x: Global)
    requires Stored(x) == x
    ensures Gap(dirs, gdelta, Plus(gpending, x)) == Plus(Gap(dirs, gdelta, gpending), x)
  {
    hide Plus, Sum, Stored;
    StoredPlus(gpending, x);
    PlusAssociates(Plus(Sum(dirs), gdelta), Stored(gpending), x);
  }

  /** Storing the changes in one directory. */
  lemma GapStored(dirs: seq<Dir>, i: nat, now: seq<Dir>, gdelta: Global, gpending: Global)
    requires i < |dirs| && Sum(now) == Plus(dirs[i].delta, gdelta)
    ensures Gap(dirs[..i] + now + dirs[i + 1..], ZERO, gpending) == Gap(dirs, gdelta, gpending)
  {
    hide Plus, Sum, Stored;
    SumReplaced(dirs, i, now, gdelta);
    PlusSelf(Plus(Sum(dirs), gdelta));
  }

  /** Taking over the contribution of a directory that goes away. */
  lemma GapDropped(dirs: seq<Dir>, i: nat, gdelta: Global, gpending: Global)
    requires i < |dirs|
    ensures Gap(dirs[..i] + dirs[i + 1..], Plus(gdelta, dirs[i].delta), gpending) == Gap(dirs, gdelta, gpending)
  {
    hide Plus, Sum, Stored;
    var x := dirs[i].delta;
    NoSum();
    PlusSelf(x);
    SumReplaced(dirs, i, [], x);
    assert dirs[..i] + [] + dirs[i + 1..] == dirs[..i] + dirs[i + 1..];
    Cancels(Sum(dirs), gdelta, x);
  }

  lemma NoSum()
    ensures Sum([]) == ZERO
  {
  }

  lemma Cancels(s: Global, g: Global, x: Global)
    ensures Plus(Plus(s, x), Plus(g, x)) == Plus(s, g)
    ensures Plus(Plus(s, x), x) == s
  {
    hide Plus;
    PlusAssociates(s, x, Plus(g, x));
    PlusAssociates(s, x, x);
    PlusCommutes(x, Plus(g, x));
    PlusAssociates(g, x, x);
    PlusSelf(x);
    PlusSelf(g);
    PlusSelf(s);
  }

  /** Whether lfs_dir_commit drops directory i: it deletes its last file, and i continues the directory before it. */
  predicate Drops(dirs: seq<Dir>, gpending: Global, i: nat, creates: nat, deletes: nat)
    requires i < |dirs|
  {
    var here := HasMoveHere(gpending, dirs[i].pair);
    && (deletes > 0 || here) && dirs[i].count + creates == deletes + (if here then 1 else 0)
    && i > 0 && dirs[i - 1].split
  }

  /** Whether the commit forgets in memory about a move that it completes on the device, or the other way around: an odd
      number of directories that hold the pending move are dropped by it. */
  predicate Diverges(dirs: seq<Dir>, gpending: Global, i: nat, creates: nat, deletes: nat)
    requires i < |dirs|
    decreases i
  {
    && Drops(dirs, gpending, i, creates, deletes)
    && HasMoveHere(gpending, dirs[i].pair) != Diverges(dirs, gpending, i - 1, 0, 0)
  }

  /** The directory that a commit to directory i is written to in the end. */
  function Reached(dirs: seq<Dir>, gpending: Global, i: nat, creates: nat, deletes: nat): (k: nat)
    requires i < |dirs|
    ensures k <= i
    decreases i
  {
    if Drops(dirs, gpending, i, creates, deletes) then Reached(dirs, gpending, i - 1, 0, 0) else i
  }

  /** How many files that directory has, if the commit is written behind its log. */
  function FilesLeft(dirs: seq<Dir>, gpending: Global, i: nat, creates: nat, deletes: nat): int
    requires i < |dirs|
    decreases i
  {
    if Drops(dirs, gpending, i, creates, deletes) then FilesLeft(dirs, gpending, i - 1, 0, 0)
    else dirs[i].count + creates - deletes - Here(gpending, dirs[i])
  }

  /** Directories k to i have become directory k and the new ones behind it, the last of which continues as i did; the
      others are as they were. files is what directory k has if it was not compacted. */
  ghost predicate Rewritten(dirs: seq<Dir>, dirs': seq<Dir>, k: nat, i: nat, how: Placement, files: int)
    requires k <= i < |dirs|
  {
    var more := NewCount(how);
    && |dirs'| == k + 1 + more + (|dirs| - i - 1)
    && dirs'[..k] == dirs[..k] && dirs'[k].pair == dirs[k].pair && dirs'[k + 1 + more..] == dirs[i + 1..]
    && dirs'[k].count == (if how.Compacted? then how.count else files)
    && dirs'[k + more].split == dirs[i].split && (forall j :: k <= j < k + more ==> dirs'[j].split)
    && (how.Compacted? ==> SameTails(dirs'[k + 1..k + 1 + more], how.tails))
  }

  function NewCount(how: Placement): nat { if how.Compacted? then |how.tails| else 0 }

  /** Where the last directory that a commit reaches is written: behind its log, or compacted, maybe split. */
  datatype Placement = Behind | Compacted(count: nat, tails: seq<Dir>)

  /** The global state in memory, and the list of all metadata pairs on the device. */
  class Filesystem {
    var gstate: Global
    var gpending: Global
    var gdelta: Global
    var dirs: seq<Dir>

    /** What is stored and the changes to be stored make up the pending state. */
    ghost predicate Conserved()
      reads this
    {
      Gap(dirs, gdelta, gpending) == ZERO
    }

    /** lfs_fs_prepmove. */
    method PrepMove(id: bv10, pair: Pair)
      modifies this`gdelta, this`gpending
      ensures old(Conserved()) ==> Conserved()
      ensures IsMove(gpending, id, pair) && OrphanPart(gpending) == OrphanPart(old(gpending))
    {
      hide Gap, IsMove, OrphanPart, Plus, MoveChange, Stored;
      ghost var g, p := gdelta, gpending;
      gdelta := XorMove(gdelta, gpending, id, pair);
      gpending := XorMove(gpending, gpending, id, pair);
      MoveIsStored(p, id, pair);
      BothChange(dirs, g, p, MoveChange(p, id, pair));
      SetsMove(p, id, pair);
    }

    /** lfs_fs_preporphans; the number is a sign-extended 8-bit one, and the count stays within its field. */
    method PrepOrphans(orphans: word)
      requires Counted(gpending.tag, orphans) <= 0x3ff
      modifies this`gdelta, this`gpending
      ensures old(Conserved()) ==> Conserved()
      ensures OrphanCount(gpending) == Counted(old(gpending).tag, orphans)
      ensures OrphanFlag(gpending) <==> HasOrphans(gpending)
      ensures MovePart(gpending) == MovePart(old(gpending))
    {
      hide Gap, OrphanFlag, MovePart, Plus, OrphanChange, Stored, And, Add, Counted, OrphanCount, AddOrphans,
        HasOrphans;
      CountsOrphans(gpending, orphans);
      CountIsNotStored(gpending, orphans);
      GapSame(dirs, gdelta, gpending, AddOrphans(gpending, orphans));
      gpending := AddOrphans(gpending, orphans);
      ghost var g, p := gdelta, gpending;
      var has := HasOrphans(gpending);
      gdelta := XorOrphans(gdelta, gpending, has);
      gpending := XorOrphans(gpending, gpending, has);
      OrphanIsStored(p, has);
      BothChange(dirs, g, p, OrphanChange(p, has));
    }

    /** The end of lfs_dir_commit behind the log of directory i. */
    method WriteBehind(i: nat)
      requires i < |dirs|
      modifies this`gdelta, this`dirs
      ensures dirs == old(dirs)[..i] + [Receives(old(dirs)[i], old(gdelta))] + old(dirs)[i + 1..]
    {
      hide Plus;
      PlusCommutes(gdelta, dirs[i].delta);
      PlusSelf(dirs[i].delta);
      if gdelta != ZERO {
        gdelta := Plus(gdelta, dirs[i].delta);
        dirs := dirs[i := dirs[i].(delta := gdelta)];
      }
    }

    /** lfs_dir_compact of directory i. Splits compact the tails first, from the last one; they are linked into the list
        when the head is written. */
    method WriteCompacted(i: nat, count: nat, tails: seq<Dir>)
      requires i < |dirs| && NewTails(Compacted(count, tails), gpending)
      modifies this`gstate, this`gdelta, this`dirs
      ensures |dirs| == |old(dirs)| + |tails| && dirs[i].pair == old(dirs)[i].pair && dirs[i].count == count
      ensures dirs == old(dirs)[..i] + dirs[i..i + 1 + |tails|] + old(dirs)[i + 1..]
      ensures Sum(dirs[i..i + 1 + |tails|]) == Plus(old(dirs)[i].delta, old(gdelta))
      ensures SameTails(dirs[i + 1..i + 1 + |tails|], tails)
      ensures gstate == if tails == [] then old(gstate) else gpending
      ensures dirs[i + |tails|].split == old(dirs)[i].split && forall j :: i <= j < i + |tails| ==> dirs[j].split
    {
      hide Plus, Sum, HasMoveHere, SameTails, Continued;
      ghost var g := gdelta;
      var d := dirs[i];
      var split := d.split;
      var written: seq<Dir> := [];
      NoSum();
      PlusSelf(g);
      NoTails(tails);
      for j := |tails| downto 0
        invariant |written| == |tails| - j && dirs == old(dirs) && gpending == old(gpending)
        invariant Plus(gdelta, Sum(written)) == g && gstate == if written == [] then old(gstate) else gpending
        invariant SameTails(written, tails[j..]) && Continued(written) && (written != [] ==> split)
        invariant (if written == [] then split else written[|written| - 1].split) == d.split
      {
        MovesDelta(gdelta, tails[j].(split := split, delta := gdelta), written);
        OneMoreTail(tails[j].(split := split, delta := gdelta), written, tails, j);
        ContinuedBy(tails[j].(split := split, delta := gdelta), written);
        written := [tails[j].(split := split, delta := gdelta)] + written;
        gstate := gpending;
        gdelta := ZERO;
        split := true;
      }
      ghost var left := gdelta;
      gdelta := Plus(gdelta, d.delta);
      var head := Dir(d.pair, count, split, gdelta);
      HeadAndTails(head, left, d.delta, written, g);
      ContinuedBy(head, written);
      ghost var before := dirs;
      dirs := dirs[..i] + ([head] + written) + dirs[i + 1..];
      Middle(before[..i], [head] + written, before[i + 1..], i);
      TailsAt(dirs, i, head, written, tails);
    }

    /** lfs_dir_commit: creates and deletes say how many entries of its attributes create and delete a file. */
    method Commit(i: nat, creates: nat, deletes: nat, how: Placement)
      requires i < |dirs| && FilesThere(dirs[..i], gpending) && NewTails(how, gpending)
      requires deletes + Here(gpending, dirs[i]) <= dirs[i].count + creates
      modifies this
      ensures gstate == gpending && gdelta == ZERO
      ensures Gap(dirs, gdelta, gpending)
        == Differs(old(Gap(dirs, gdelta, gpending)), old(gpending), old(Diverges(dirs, gpending, i, creates, deletes)))
      ensures old(Conserved()) ==> (Conserved() <==> !old(Diverges(dirs, gpending, i, creates, deletes)))
      ensures Rewritten(old(dirs), dirs, old(Reached(dirs, gpending, i, creates, deletes)), i, how,
        old(FilesLeft(dirs, gpending, i, creates, deletes)))
      ensures !old(Drops(dirs, gpending, i, creates, deletes)) ==>
        Rewritten(old(dirs), dirs, i, i, how, old(dirs[i].count + creates - deletes - Here(gpending, dirs[i])))
      ensures !old(Drops(dirs, gpending, i, creates, deletes)) && !HasMoveHere(old(gpending), old(dirs)[i].pair) ==>
        gpending == old(gpending)
      decreases i, 1
    {
      hide Gap, Plus, Sum, HasMoveHere, MoveChange, Differs, Rewritten, Diverges, Reached, FilesLeft;
      ghost var dirs0, gdelta0, gpending0 := dirs, gdelta, gpending;
      DivergenceShows(dirs0, gpending0, i, creates, deletes);
      DropsOrNot(dirs0, gpending0, i, creates, deletes);
      var d := dirs[i];
      var here := HasMoveHere(gpending, d.pair);
      var count := d.count + creates - deletes - (if here then 1 else 0);
      if here {
        gdelta := XorMove(gdelta, gpending, NO_ID, d.pair);
      }
      dirs := dirs[i := d.(count := count)];
      Marked(dirs0, dirs, i, gdelta0, gpending, here, d.pair);
      if (deletes > 0 || here) && count == 0 && i > 0 && dirs[i - 1].split {
        assert dirs[..i - 1] == dirs0[..i - 1] && dirs[i - 1] == dirs0[i - 1];
        DivergesSame(dirs0, dirs, gpending, i - 1);
        DropMeans(Gap(dirs0, gdelta0, gpending0), gpending0, here, Diverges(dirs0, gpending, i - 1, 0, 0));
        ghost var k, dirs1 := Reached(dirs, gpending, i - 1, 0, 0), dirs;
        Drop(i - 1, how);
        assert dirs1[..k] == dirs0[..k] && dirs1[k].pair == dirs0[k].pair && dirs1[i + 1..] == dirs0[i + 1..];
        StillRewritten(dirs0, dirs1, dirs, k, i, i, how, FilesLeft(dirs0, gpending0, i - 1, 0, 0));
        return;
      }
      ghost var dirs1 := dirs;
      Finish(i, how);
      assert dirs1[..i] == dirs0[..i] && dirs1[i].pair == dirs0[i].pair && dirs1[i + 1..] == dirs0[i + 1..];
      StillRewritten(dirs0, dirs1, dirs, i, i, i, how, count);
      FinishMeans(Gap(dirs0, gdelta0, gpending0), gpending0, here);
    }

    /** Writing a commit to directory i and taking over the pending state. */
    method Finish(i: nat, how: Placement)
      requires i < |dirs| && NewTails(how, gpending)
      modifies this
      ensures gstate == gpending && gdelta == ZERO
      ensures Gap(dirs, gdelta, gpending)
        == Differs(old(Gap(dirs, gdelta, gpending)), old(gpending), HasMoveHere(old(gpending), old(dirs)[i].pair))
      ensures Rewritten(old(dirs), dirs, i, i, how, old(dirs)[i].count)
      ensures !HasMoveHere(old(gpending), old(dirs)[i].pair) ==> gpending == old(gpending)
    {
      hide Gap, Plus, Sum, HasMoveHere, MoveChange, Rewritten, SameTails;
      ghost var dirs0, gdelta0, gpending0 := dirs, gdelta, gpending;
      match how {
        case Behind =>
          WriteBehind(i);
          SumOne(Receives(dirs0[i], gdelta0));
          GapStored(dirs0, i, [Receives(dirs0[i], gdelta0)], gdelta0, gpending);
          OneReceives(dirs0, dirs, i, gdelta0);
        case Compacted(count, tails) =>
          WriteCompacted(i, count, tails);
          GapStored(dirs0, i, dirs[i..i + 1 + |tails|], gdelta0, gpending);
          SomeWritten(dirs0, dirs, i, count, tails);
      }
      if HasMoveHere(gpending, dirs[i].pair) {
        gpending := XorMove(gpending, gpending, NO_ID, dirs[i].pair);
        MoveIsStored(gpending0, NO_ID, dirs[i].pair);
        AnyPair(gpending0, dirs[i].pair);
        GapPending(dirs, ZERO, gpending0, MoveChange(gpending0, NO_ID, dirs[i].pair));
      }
      gstate := gpending;
      gdelta := ZERO;
    }

    /** lfs_dir_drop of the directory behind p. */
    method Drop(p: nat, how: Placement)
      requires p + 1 < |dirs| && FilesThere(dirs[..p + 1], gpending) && NewTails(how, gpending)
      modifies this
      ensures gstate == gpending && gdelta == ZERO
      ensures Gap(dirs, gdelta, gpending)
        == Differs(old(Gap(dirs, gdelta, gpending)), old(gpending), old(Diverges(dirs, gpending, p, 0, 0)))
      ensures old(Conserved()) ==> (Conserved() <==> !old(Diverges(dirs, gpending, p, 0, 0)))
      ensures Rewritten(old(dirs), dirs, old(Reached(dirs, gpending, p, 0, 0)), p + 1, how,
        old(FilesLeft(dirs, gpending, p, 0, 0)))
      decreases p, 2
    {
      hide Gap, Plus, Sum, HasMoveHere, Differs, Diverges, Reached, Rewritten, FilesLeft;
      DivergenceShows(dirs, gpending, p, 0, 0);
      GapDropped(dirs, p + 1, gdelta, gpending);
      ghost var dirs0, gdelta0, gpending0 := dirs, gdelta, gpending;
      gdelta := Plus(gdelta, dirs[p + 1].delta);
      dirs := Unlinked(dirs, p);
      UnlinkedGap(dirs0, p, gdelta, gpending);
      DivergesSame(dirs0, dirs, gpending, p);
      ghost var k, dirs1 := Reached(dirs, gpending, p, 0, 0), dirs;
      Commit(p, 0, 0, how);
      assert dirs1[..k] == dirs0[..k] && dirs1[k].pair == dirs0[k].pair && dirs1[p + 1..] == dirs0[p + 2..];
      StillRewritten(dirs0, dirs1, dirs, k, p + 1, p, how, FilesLeft(dirs1, gpending0, p, 0, 0));
    }

    /** The two commits of lfs_rename, of a file of directory from to another directory: the first one creates it there
        and notes the move, the second one completes the move. Replacing another file deletes it. Either may be written
        behind the log, or by a compaction that may split the directory. Afterwards, what is stored is the state in
        memory, if and only if the second commit does not drop the directory that it empties. Directory to has one file
        more, or as many if one was replaced, and directory from one less; middle is what the first commit leaves. */
    method Rename(from: nat, to: nat, id: bv10, replacing: bool, create: Placement, complete: Placement)
      returns (ghost middle: seq<Dir>)
      requires from < |dirs| && to < |dirs| && from != to && id != NO_ID
      requires dirs[from].count > 0 && (replacing ==> dirs[to].count > 0) && Alone(dirs, from)
      requires Apart(dirs[from].pair, create) && Apart(dirs[from].pair, complete)
      modifies this
      ensures gstate == gpending && gdelta == ZERO
      ensures old(Conserved()) ==> (Conserved() <==> !old(Empties(dirs, from)))
      ensures Rewritten(old(dirs), middle, to, to, create, old(dirs)[to].count + if replacing then 0 else 1)
      ensures Shifted(from, to, create) < |middle| && middle[Shifted(from, to, create)] == old(dirs)[from]
      ensures var now := Shifted(from, to, create);
        if old(Empties(dirs, from))
        then now > 0 && Rewritten(middle, dirs, now - 1, now, complete, middle[now - 1].count)
        else Rewritten(middle, dirs, now, now, complete, middle[now].count - 1)
    {
      hide Gap, Plus, Sum, MoveChange, IsMove, HasMoveHere, Differs, Rewritten, Reached, Diverges, Drops, FilesThere,
        Meets, OneChanged, Apart, FilesLeft;
      ghost var dirs0 := dirs;
      PrepMove(id, dirs[from].pair);
      MoveIsOnlyHere(gpending, id, dirs, from);
      RenameStep(dirs, gpending, from, to, if replacing then 1 else 0);
      NoNewMove(gpending, dirs[from].pair, create);
      Commit(to, 1, if replacing then 1 else 0, create);
      middle := dirs;
      OneOf(dirs0, dirs, to, create, dirs0[to].count + if replacing then 0 else 1);
      var now := Shifted(from, to, create);
      StillAlone(dirs0, dirs, from, to, create);
      MoveIsOnlyHere(gpending, id, dirs, now);
      RenameEnds(dirs0, dirs, gpending, from, to, create);
      NoNewMove(gpending, dirs[now].pair, complete);
      Commit(now, 0, 0, complete);
    }

    /** The end of lfs_fs_deorphan: no orphans are left, and no commit says so yet. */
    method MarkDeorphaned()
      requires OrphanCount(gstate) <= 0x80 && OrphanCount(gstate) == OrphanCount(gpending)
      modifies this`gdelta, this`gpending, this`gstate
      ensures old(Conserved()) ==> Conserved()
      ensures gstate == gpending && !HasOrphans(gstate) && !OrphanFlag(gstate)
      ensures MovePart(gpending) == MovePart(old(gpending))
    {
      hide Counted, And, OrphanFlag, MovePart, Gap;
      CountOut(gpending.tag, OrphanCount(gstate));
      PrepOrphans(0 - OrphanCount(gstate));
      gstate := gpending;
    }

    /** The part of lfs_mount that collects the global state, from a list without unstored bits. */
    method Mount()
      requires Stored(Sum(dirs)) == Sum(dirs)
      modifies this`gstate, this`gpending, this`gdelta
      ensures Conserved() && gstate == gpending && gdelta == ZERO && Stored(gstate) == Sum(dirs)
      ensures OrphanCount(gstate) == if OrphanFlag(Sum(dirs)) then 1 else 0
    {
      hide Gap, Plus, Stored, Add, Counted, OrphanCount;
      gpending, gdelta := ZERO, ZERO;
      NoSum();
      assert dirs[..0] == [];
      for i := 0 to |dirs|
        invariant gpending == Sum(dirs[..i]) && gdelta == ZERO
      {
        assert dirs[..i + 1][..i] == dirs[..i];
        gpending := Plus(gpending, dirs[i].delta);
      }
      assert dirs[..|dirs|] == dirs;
      OneOrphan(gpending);
      if OrphanFlag(gpending) {
        ghost var p := gpending;
        gpending := AddOrphans(gpending, 1);
        CollectedCount(p);
      }
      gstate := gpending;
      Balanced(dirs, gpending);
    }
  }

  /** The files that a pending move is about are there. */
  predicate FilesThere(dirs: seq<Dir>, gpending: Global) {
    forall j :: 0 <= j < |dirs| && HasMoveHere(gpending, dirs[j].pair) ==> dirs[j].count > 0
  }

  /** The pairs of new directories are not the one of the pending move. */
  ghost predicate NewTails(how: Placement, gpending: Global) {
    how.Compacted? ==> forall j :: 0 <= j < |how.tails| ==> !HasMoveHere(gpending, how.tails[j].pair)
  }

  /** A gap, and maybe the pending move with it. */
  ghost function Differs(gap: Global, gpending: Global, diverges: bool): Global {
    if diverges then Plus(gap, MoveChange(gpending, NO_ID, Pair(0, 0))) else gap
  }

  /** A change of the pending state that is noted as one to be stored. */
  lemma BothChange(dirs: seq<Dir>, gdelta: Global, gpending: Global, x: Global)
    requires Stored(x) == x
    ensures Gap(dirs, Plus(gdelta, x), Plus(gpending, x)) == Gap(dirs, gdelta, gpending)
  {
    hide *;
    GapMarked(dirs, gdelta, gpending, x);
    GapPending(dirs, Plus(gdelta, x), gpending, x);
    Twice(Gap(dirs, gdelta, gpending), x);
  }

  lemma Twice(s: Global, x: Global)
    ensures Plus(Plus(s, x), x) == s
  {
    hide *;
    Cancels(s, s, x);
  }

  lemma CountIsNotStored(g: Global, n: word)
    requires Counted(g.tag, n) <= 0x3ff
    ensures Stored(AddOrphans(g, n)) == Stored(g)
  {
    hide And, Add, Counted;
    AddToCount(g.tag, n);
    SameStored(g, AddOrphans(g, n));
    hide *;
  }

  lemma SameStored(a: Global, b: Global)
    requires And(a.tag, STORED_MASK) == And(b.tag, STORED_MASK) && a.block0 == b.block0 && a.block1 == b.block1
    ensures Stored(a) == Stored(b)
  {
    hide And;
  }

  lemma GapSame(dirs: seq<Dir>, gdelta: Global, gpending: Global, gpending': Global)
    requires Stored(gpending') == Stored(gpending)
    ensures Gap(dirs, gdelta, gpending') == Gap(dirs, gdelta, gpending)
  {
    hide Plus, Sum, Stored;
  }

  lemma OneReceives(dirs: seq<Dir>, dirs': seq<Dir>, i: nat, gdelta: Global)
    requires i < |dirs| && dirs' == dirs[..i] + [Receives(dirs[i], gdelta)] + dirs[i + 1..]
    ensures Rewritten(dirs, dirs', i, i, Behind, dirs[i].count) && dirs'[i].pair == dirs[i].pair
  {
    hide Plus;
  }

  lemma SomeWritten(dirs: seq<Dir>, dirs': seq<Dir>, i: nat, count: nat, tails: seq<Dir>)
    requires i < |dirs| && |dirs'| == |dirs| + |tails| && dirs'[i].pair == dirs[i].pair && dirs'[i].count == count
    requires dirs' == dirs[..i] + dirs'[i..i + 1 + |tails|] + dirs[i + 1..]
    requires SameTails(dirs'[i + 1..i + 1 + |tails|], tails)
    requires dirs'[i + |tails|].split == dirs[i].split && forall j :: i <= j < i + |tails| ==> dirs'[j].split
    ensures Rewritten(dirs, dirs', i, i, Compacted(count, tails), dirs[i].count)
  {
    hide SameTails;
  }

  function Receives(d: Dir, gdelta: Global): Dir { d.(delta := Plus(d.delta, gdelta)) }

  function Here(gpending: Global, d: Dir): nat { if HasMoveHere(gpending, d.pair) then 1 else 0 }

  /** The list without the directory behind p, whose tail p takes over. */
  function Unlinked(dirs: seq<Dir>, p: nat): seq<Dir>
    requires p + 1 < |dirs|
  {
    dirs[..p] + [dirs[p].(split := dirs[p + 1].split)] + dirs[p + 2..]
  }

  lemma UnlinkedGap(dirs: seq<Dir>, p: nat, gdelta: Global, gpending: Global)
    requires p + 1 < |dirs|
    ensures Gap(Unlinked(dirs, p), gdelta, gpending) == Gap(dirs[..p + 1] + dirs[p + 2..], gdelta, gpending)
  {
    hide Plus, Sum, Stored;
    var u, v := Unlinked(dirs, p), dirs[..p + 1] + dirs[p + 2..];
    assert |u| == |v|;
    SameDeltas(u, v);
  }

  lemma {:induction false} SameDeltas(a: seq<Dir>, b: seq<Dir>)
    requires |a| == |b| && forall i :: 0 <= i < |a| ==> a[i].delta == b[i].delta
    ensures Sum(a) == Sum(b)
  {
    hide Plus;
    if a != [] {
      SameDeltas(a[..|a| - 1], b[..|b| - 1]);
    }
  }

  lemma MovesDelta(gdelta: Global, d: Dir, written: seq<Dir>)
    requires d.delta == gdelta
    ensures Plus(ZERO, Sum([d] + written)) == Plus(gdelta, Sum(written))
  {
    hide Plus, Sum;
    SumConcat([d], written);
    SumOne(d);
    PlusSelf(Sum([d] + written));
    PlusCommutes(Sum([d] + written), ZERO);
  }

  lemma HeadAndTails(head: Dir, left: Global, own: Global, written: seq<Dir>, g: Global)
    requires Plus(left, Sum(written)) == g && head.delta == Plus(left, own)
    ensures Sum([head] + written) == Plus(own, g)
  {
    hide Plus, Sum;
    SumConcat([head], written);
    SumOne(head);
    PlusCommutes(left, own);
    PlusAssociates(own, left, Sum(written));
  }

  /** Directories of these pairs and with these files. */
  ghost predicate SameTails(written: seq<Dir>, tails: seq<Dir>) {
    && |written| == |tails|
    && forall k :: 0 <= k < |tails| ==> written[k].pair == tails[k].pair && written[k].count == tails[k].count
  }

  /** All directories but the last one are continued by the next one. */
  ghost predicate Continued(written: seq<Dir>) { forall k :: 0 <= k < |written| - 1 ==> written[k].split }

  lemma NoTails(tails: seq<Dir>)
    ensures SameTails([], tails[|tails|..]) && Continued([])
  {
  }

  lemma OneMoreTail(d: Dir, written: seq<Dir>, tails: seq<Dir>, j: nat)
    requires j < |tails| && d.pair == tails[j].pair && d.count == tails[j].count
    requires SameTails(written, tails[j + 1..])
    ensures SameTails([d] + written, tails[j..])
  {
    assert tails[j..] == [tails[j]] + tails[j + 1..];
  }

  lemma ContinuedBy(d: Dir, written: seq<Dir>)
    requires Continued(written) && (written != [] ==> d.split)
    ensures Continued([d] + written)
  {
  }

  lemma TailsAt(dirs: seq<Dir>, i: nat, head: Dir, written: seq<Dir>, tails: seq<Dir>)
    requires i + 1 + |tails| <= |dirs| && dirs[i..i + 1 + |tails|] == [head] + written
    requires SameTails(written, tails[0..]) && Continued([head] + written)
    ensures dirs[i] == head && SameTails(dirs[i + 1..i + 1 + |tails|], tails)
    ensures dirs[i + |tails|] == ([head] + written)[|tails|]
    ensures forall j :: i <= j < i + |tails| ==> dirs[j].split
  {
    var part := dirs[i..i + 1 + |tails|];
    assert part[0] == dirs[i] && tails[0..] == tails && dirs[i + 1..i + 1 + |tails|] == part[1..] == written;
    forall j | i <= j <= i + |tails| ensures dirs[j] == part[j - i] {
    }
  }

  lemma Middle(a: seq<Dir>, b: seq<Dir>, c: seq<Dir>, i: nat)
    requires |a| == i
    ensures (a + b + c)[i..i + |b|] == b
  {
  }

  /** Marking a pending move as completed by the commit. */
  lemma Marked(dirs: seq<Dir>, dirs': seq<Dir>, i: nat, gdelta: Global, gpending: Global, here: bool, pair: Pair)
    requires |dirs'| == |dirs| && i < |dirs| && dirs' == dirs[i := dirs[i].(count := dirs'[i].count)]
    ensures Gap(dirs', if here then XorMove(gdelta, gpending, NO_ID, pair) else gdelta, gpending)
      == Differs(Gap(dirs, gdelta, gpending), gpending, here)
  {
    hide Plus, Sum, MoveChange;
    AnyPair(gpending, pair);
    SameDeltas(dirs', dirs);
    GapMarked(dirs', gdelta, gpending, MoveChange(gpending, NO_ID, pair));
  }

  lemma AnyPair(b: Global, pair: Pair)
    ensures MoveChange(b, NO_ID, pair) == MoveChange(b, NO_ID, Pair(0, 0))
  {
    hide Xor, And, DeleteTag;
  }

  lemma DivergesSame(a: seq<Dir>, b: seq<Dir>, gpending: Global, i: nat)
    requires i < |a| && i < |b| && a[..i] == b[..i] && a[i].pair == b[i].pair && a[i].count == b[i].count
    ensures Diverges(a, gpending, i, 0, 0) == Diverges(b, gpending, i, 0, 0)
    ensures Reached(a, gpending, i, 0, 0) == Reached(b, gpending, i, 0, 0)
    ensures FilesLeft(a, gpending, i, 0, 0) == FilesLeft(b, gpending, i, 0, 0)
  {
    hide HasMoveHere;
    if i > 0 {
      assert a[i - 1] == a[..i][i - 1] && b[i - 1] == b[..i][i - 1];
      assert a[..i - 1] == a[..i][..i - 1] && b[..i - 1] == b[..i][..i - 1];
      DivergesSame(a, b, gpending, i - 1);
    }
  }

  lemma DropsOrNot(dirs: seq<Dir>, gpending: Global, i: nat, creates: nat, deletes: nat)
    requires i < |dirs|
    ensures Diverges(dirs, gpending, i, creates, deletes) <==>
      && Drops(dirs, gpending, i, creates, deletes)
      && HasMoveHere(gpending, dirs[i].pair) != Diverges(dirs, gpending, i - 1, 0, 0)
    ensures Reached(dirs, gpending, i, creates, deletes)
      == if Drops(dirs, gpending, i, creates, deletes) then Reached(dirs, gpending, i - 1, 0, 0) else i
    ensures FilesLeft(dirs, gpending, i, creates, deletes)
      == if Drops(dirs, gpending, i, creates, deletes) then FilesLeft(dirs, gpending, i - 1, 0, 0)
         else dirs[i].count + creates - deletes - Here(gpending, dirs[i])
  {
    hide HasMoveHere;
  }

  /** The list with the counts and contributions of directories k to i changed, or with i behind i - 1 unlinked. */
  lemma StillRewritten(a: seq<Dir>, b: seq<Dir>, dirs: seq<Dir>, k: nat, i: nat, i': nat,
                       how: Placement, files: int)
    requires k <= i < |a| && k <= i' < |b| && Rewritten(b, dirs, k, i', how, files)
    requires b[..k] == a[..k] && b[k].pair == a[k].pair && b[i' + 1..] == a[i + 1..] && b[i'].split == a[i].split
    ensures Rewritten(a, dirs, k, i, how, files)
  {
    hide SameTails;
    assert |b| - i' - 1 == |b[i' + 1..]| == |a| - i - 1;
  }

  /** Completing the move on the device and forgetting it in memory keeps the gap as it was. */
  lemma FinishMeans(gap: Global, gpending: Global, here: bool)
    ensures Differs(Differs(gap, gpending, here), gpending, here) == Differs(gap, gpending, false)
  {
    hide Plus, MoveChange;
    Twice(gap, MoveChange(gpending, NO_ID, Pair(0, 0)));
  }

  lemma DropMeans(gap: Global, gpending: Global, here: bool, diverges: bool)
    ensures Differs(Differs(gap, gpending, here), gpending, diverges) == Differs(gap, gpending, here != diverges)
  {
    hide Plus, MoveChange;
    Twice(gap, MoveChange(gpending, NO_ID, Pair(0, 0)));
  }

  lemma OneOrphan(g: Global)
    requires Stored(g) == g
    ensures OrphanCount(g) == 0 && OrphanCount(AddOrphans(g, 1)) == 1
  {
    hide And, Add;
    OneLowBit(g.tag);
  }

  lemma OneLowBit(tag: word)
    requires And(tag, STORED_MASK) == tag
    ensures And(tag, 0x3ff) == 0 && And(Add(tag, 1), 0x3ff) == 1
  {
    LowBitsOf(tag);
  }

  lemma LowBitsOf(tag: word)
    requires tag & 0xffff_fc00 == tag
    ensures tag & 0x3ff == 0 && (tag + 1) & 0x3ff == 1
  {
  }

  lemma CountOut(tag: word, count: word)
    requires And(tag, 0x3ff) == count
    ensures Counted(tag, 0 - count) == 0
  {
  }

  lemma CollectedCount(g: Global)
    requires Stored(g) == g
    ensures Stored(AddOrphans(g, 1)) == Stored(g)
  {
    assert And(g.tag, STORED_MASK) == g.tag;
    NoCount(g.tag);
    hide And, Add, Counted, Stored;
    CountIsNotStored(g, 1);
  }

  lemma NoCount(tag: word)
    requires And(tag, STORED_MASK) == tag
    ensures Counted(tag, 1) <= 0x3ff
  {
    NoLowBits(tag);
  }

  lemma NoLowBits(tag: word)
    requires tag & 0xffff_fc00 == tag
    ensures (tag & 0x3ff) + 1 <= 0x3ff
  {
  }

  lemma Balanced(dirs: seq<Dir>, gpending: Global)
    ensures Gap(dirs, ZERO, gpending) == ZERO <==> Sum(dirs) == Stored(gpending)
  {
    hide Plus, Sum, Stored;
    PlusSelf(Sum(dirs));
    if Plus(Sum(dirs), Stored(gpending)) == ZERO {
      Twice(Sum(dirs), Stored(gpending));
      PlusCommutes(ZERO, Stored(gpending));
      PlusSelf(Stored(gpending));
    }
  }

  /** After a commit that conserves the global state, what the device holds is the state in memory, and so is what the
      next mount collects, except for the number of orphans. */
  lemma StoredIsState(dirs: seq<Dir>, gstate: Global)
    requires Gap(dirs, ZERO, gstate) == ZERO
    ensures Sum(dirs) == Stored(gstate) && Stored(Sum(dirs)) == Sum(dirs)
  {
    hide Plus, Sum, Stored;
    Balanced(dirs, gstate);
    StoredTwice(gstate);
  }

  lemma StoredTwice(g: Global)
    ensures Stored(Stored(g)) == Stored(g)
  {
    hide And;
    MaskTwice(g.tag, STORED_MASK);
  }

  lemma MaskTwice(a: word, m: word) ensures And(And(a, m), m) == And(a, m) {}

  /** A divergence is a difference: conservation is lost exactly then. */
  lemma DivergenceShows(dirs: seq<Dir>, gpending: Global, i: nat, creates: nat, deletes: nat)
    requires i < |dirs|
    ensures var d := Diverges(dirs, gpending, i, creates, deletes);
      Differs(ZERO, gpending, d) == ZERO <==> !d
  {
    hide Plus, MoveChange, Diverges;
    if Diverges(dirs, gpending, i, creates, deletes) {
      SomeMove(dirs, gpending, i, creates, deletes);
      var x := MoveChange(gpending, NO_ID, Pair(0, 0));
      ClearingShows(gpending, Pair(0, 0));
      PlusCommutes(ZERO, x);
      PlusSelf(x);
    }
  }

  lemma SomeMove(dirs: seq<Dir>, gpending: Global, i: nat, creates: nat, deletes: nat)
    requires i < |dirs| && Diverges(dirs, gpending, i, creates, deletes)
    ensures HasMove(gpending)
    decreases i
  {
    hide Meets;
    if !HasMoveHere(gpending, dirs[i].pair) {
      SomeMove(dirs, gpending, i - 1, 0, 0);
    }
    hide HasMove;
  }

  // ----- renaming

  /** The pair of directory i has no block in common with the other pairs. */
  predicate Alone(dirs: seq<Dir>, i: nat)
    requires i < |dirs|
  {
    forall j :: 0 <= j < |dirs| && j != i ==> !Meets(dirs[i].pair, dirs[j].pair)
  }

  /** Without its last file, directory i is dropped. */
  predicate Empties(dirs: seq<Dir>, i: nat)
    requires i < |dirs|
  {
    dirs[i].count == 1 && i > 0 && dirs[i - 1].split
  }

  /** A commit to directory i that does not drop it: the other directories are as they were, and new ones may be between
      it and the next one, the last of which continues as it did. */
  ghost predicate OneChanged(dirs: seq<Dir>, dirs': seq<Dir>, i: nat, how: Placement)
    requires i < |dirs|
  {
    var more := NewCount(how);
    && |dirs'| == |dirs| + more && dirs'[..i] == dirs[..i] && dirs'[i + 1 + more..] == dirs[i + 1..]
    && dirs'[i].pair == dirs[i].pair && dirs'[i + more].split == dirs[i].split
    && (how.Compacted? ==> forall j :: 0 <= j < more ==> dirs'[i + 1 + j].pair == how.tails[j].pair)
  }

  lemma OneOf(dirs: seq<Dir>, dirs': seq<Dir>, i: nat, how: Placement, files: int)
    requires i < |dirs| && Rewritten(dirs, dirs', i, i, how, files)
    ensures OneChanged(dirs, dirs', i, how)
  {
    var more := NewCount(how);
    if how.Compacted? {
      forall j | 0 <= j < more ensures dirs'[i + 1 + j].pair == how.tails[j].pair {
        assert dirs'[i + 1..i + 1 + more][j] == dirs'[i + 1 + j];
      }
    }
  }

  /** The new directories of a split have no block in common with a pair. */
  ghost predicate Apart(pair: Pair, how: Placement) {
    how.Compacted? ==> forall j :: 0 <= j < |how.tails| ==> !Meets(pair, how.tails[j].pair)
  }

  /** Where directory from is after a commit to directory to. */
  function Shifted(from: nat, to: nat, how: Placement): nat {
    if from > to then from + NewCount(how) else from
  }

  lemma MoveIsOnlyHere(g: Global, id: bv10, dirs: seq<Dir>, from: nat)
    requires from < |dirs| && IsMove(g, id, dirs[from].pair) && id != NO_ID && Alone(dirs, from)
    ensures HasMoveHere(g, dirs[from].pair) && g.block0 == dirs[from].pair.block0 && g.block1 == dirs[from].pair.block1
    ensures forall j :: 0 <= j < |dirs| && j != from ==> !HasMoveHere(g, dirs[j].pair)
  {
    NamedMove(g.tag, id);
    hide HasMove;
  }

  lemma NoNewMove(g: Global, pair: Pair, how: Placement)
    requires g.block0 == pair.block0 && g.block1 == pair.block1 && Apart(pair, how)
    ensures NewTails(how, g)
  {
    hide Meets, HasMove;
    assert Pair(g.block0, g.block1) == pair;
  }

  lemma NamedMove(tag: word, id: bv10)
    requires And(tag, MOVE_MASK) == DeleteTag(id) && id != NO_ID
    ensures And(tag, 0x7000_0000) != 0
  {
    assert And(And(tag, MOVE_MASK), 0x7000_0000) == And(tag, 0x7000_0000);
  }

  /** The first commit of a rename drops no directory. */
  lemma RenameStep(dirs: seq<Dir>, g: Global, from: nat, to: nat, deletes: nat)
    requires from < |dirs| && to < |dirs| && from != to && dirs[from].count > 0 && deletes <= 1
    requires deletes <= dirs[to].count
    requires forall j :: 0 <= j < |dirs| && j != from ==> !HasMoveHere(g, dirs[j].pair)
    ensures FilesThere(dirs[..to], g) && !Drops(dirs, g, to, 1, deletes) && !Diverges(dirs, g, to, 1, deletes)
    ensures deletes + Here(g, dirs[to]) <= dirs[to].count + 1 && Here(g, dirs[to]) == 0
  {
    hide HasMoveHere;
  }

  /** Every directory but directory to is where it was, or behind the new ones, or is one of these. */
  lemma WhereFrom(dirs: seq<Dir>, dirs': seq<Dir>, to: nat, how: Placement, k: nat)
    requires to < |dirs| && OneChanged(dirs, dirs', to, how) && k < |dirs'|
    ensures k < to ==> dirs'[k] == dirs[k]
    ensures k == to ==> dirs'[k].pair == dirs[to].pair
    ensures to < k <= to + NewCount(how) ==> how.Compacted? && dirs'[k].pair == how.tails[k - to - 1].pair
    ensures k > to + NewCount(how) ==> k - NewCount(how) < |dirs| && dirs'[k] == dirs[k - NewCount(how)]
  {
    var more := NewCount(how);
    if k < to {
      assert dirs'[k] == dirs'[..to][k] && dirs[k] == dirs[..to][k];
    } else if k > to + more {
      assert dirs'[k] == dirs'[to + 1 + more..][k - to - 1 - more];
      assert dirs[k - more] == dirs[to + 1..][k - more - to - 1];
    } else if k > to {
      assert k == to + 1 + (k - to - 1);
    }
  }

  lemma StillAlone(dirs: seq<Dir>, dirs': seq<Dir>, from: nat, to: nat, how: Placement)
    requires from < |dirs| && to < |dirs| && from != to && Alone(dirs, from) && OneChanged(dirs, dirs', to, how)
    requires Apart(dirs[from].pair, how)
    ensures Shifted(from, to, how) < |dirs'| && dirs'[Shifted(from, to, how)] == dirs[from]
    ensures Alone(dirs', Shifted(from, to, how))
  {
    hide Meets, OneChanged;
    var now := Shifted(from, to, how);
    ShiftedInside(dirs, dirs', from, to, how);
    WhereFrom(dirs, dirs', to, how, now);
    forall k | 0 <= k < |dirs'| && k != now ensures !Meets(dirs'[now].pair, dirs'[k].pair) {
      WhereFrom(dirs, dirs', to, how, k);
    }
  }

  lemma ShiftedInside(dirs: seq<Dir>, dirs': seq<Dir>, from: nat, to: nat, how: Placement)
    requires from < |dirs| && to < |dirs| && OneChanged(dirs, dirs', to, how)
    ensures Shifted(from, to, how) < |dirs'|
  {
  }

  /** The second one does, and diverges, if it empties a pair that continues a directory. */
  lemma RenameEnds(dirs: seq<Dir>, dirs': seq<Dir>, g: Global, from: nat, to: nat, how: Placement)
    requires from < |dirs| && to < |dirs| && from != to && OneChanged(dirs, dirs', to, how) && dirs[from].count > 0
    requires Shifted(from, to, how) < |dirs'| && HasMoveHere(g, dirs'[Shifted(from, to, how)].pair)
    requires forall j :: 0 <= j < |dirs'| && j != Shifted(from, to, how) ==> !HasMoveHere(g, dirs'[j].pair)
    ensures var now := Shifted(from, to, how);
      && dirs'[now] == dirs[from] && FilesThere(dirs'[..now], g) && Here(g, dirs'[now]) <= dirs'[now].count
      && (Diverges(dirs', g, now, 0, 0) <==> Empties(dirs, from))
      && (if Empties(dirs, from)
          then now > 0 && Reached(dirs', g, now, 0, 0) == now - 1
            && FilesLeft(dirs', g, now, 0, 0) == dirs'[now - 1].count
          else Reached(dirs', g, now, 0, 0) == now && FilesLeft(dirs', g, now, 0, 0) == dirs'[now].count - 1)
  {
    hide HasMoveHere, OneChanged;
    var now := Shifted(from, to, how);
    WhereFrom(dirs, dirs', to, how, now);
    if now > 0 {
      assert !Drops(dirs', g, now - 1, 0, 0);
      SplitBefore(dirs, dirs', from, to, how);
    }
  }

  /** The directory before goes on with this one as the one before it did. */
  lemma SplitBefore(dirs: seq<Dir>, dirs': seq<Dir>, from: nat, to: nat, how: Placement)
    requires 0 < from < |dirs| && to < |dirs| && from != to && OneChanged(dirs, dirs', to, how)
    ensures var now := Shifted(from, to, how); 0 < now <= |dirs'| && dirs'[now - 1].split == dirs[from - 1].split
  {
    WhereFrom(dirs, dirs', to, how, Shifted(from, to, how) - 1);
  }

  /** A rename within a directory of two pairs, of the only file of the second one to the first one: without any loss of
      power, the device holds no move afterwards, and memory still does. */
  method RenameDiverges(first: Pair, second: Pair) returns (fs: Filesystem)
    requires !Meets(second, first)
    ensures !fs.Conserved() && fs.gstate == fs.gpending && fs.gdelta == ZERO
  {
    hide Sum, Meets, Plus;
    fs := new Filesystem;
    fs.dirs := [Dir(first, 2, true, ZERO), Dir(second, 1, false, ZERO)];
    TwoDirs(fs.dirs[0], fs.dirs[1]);
    fs.Mount();
    var _ := fs.Rename(1, 0, 0, false, Behind, Behind);
  }

  /** The same after a loss of power between the two commits: the commit of lfs_fs_demove diverges, when the pending
      move names the only file of a pair that continues a directory. The move is stored where the file has gone. */
  lemma DemoveDiverges(first: Pair, second: Pair)
    requires !Meets(second, first)
    ensures var move := Global(0x4ff0_0000, second.block0, second.block1);
      var dirs := [Dir(first, 3, true, move), Dir(second, 1, false, ZERO)];
      && Gap(dirs, ZERO, move) == ZERO && FilesThere(dirs[..1], move) && Diverges(dirs, move, 1, 0, 0)
      && Differs(ZERO, move, Diverges(dirs, move, 1, 0, 0)) != ZERO
  {
    var move := Global(0x4ff0_0000, second.block0, second.block1);
    var dirs := [Dir(first, 3, true, move), Dir(second, 1, false, ZERO)];
    DeleteIsMove(second);
    assert HasMoveHere(move, second) && !HasMoveHere(move, first);
    hide HasMove, Meets, HasMoveHere;
    TwoDirs(dirs[0], dirs[1]);
    Balanced(dirs, move);
    assert Drops(dirs, move, 1, 0, 0);
    assert !Diverges(dirs, move, 0, 0, 0);
    DivergenceShows(dirs, move, 1, 0, 0);
  }

  lemma DeleteIsMove(pair: Pair)
    ensures HasMove(Global(0x4ff0_0000, pair.block0, pair.block1))
    ensures Stored(Global(0x4ff0_0000, pair.block0, pair.block1)) == Global(0x4ff0_0000, pair.block0, pair.block1)
  {
  }

  lemma TwoDirs(a: Dir, b: Dir)
    ensures b.delta == ZERO ==> Sum([a, b]) == a.delta
  {
    hide Plus, Sum;
    SumConcat([a], [b]);
    SumOne(a);
    SumOne(b);
    assert [a] + [b] == [a, b];
    PlusSelf(a.delta);
  }
}
